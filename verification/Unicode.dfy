/**
  lib/unicode.c: canonical composition by uniform binary search, and the conversions between UTF-8 and
  UCS-2. Strings are the bytes or units in front of the terminating zero.
 */
module Unicode {
  import opened Bytes

  type char16 = x: int | 0 <= x < 0x1_0000

  // ---------------------------------------------------------------- the composition table

  datatype Row = Row(precomposed: int, pattern: int)

  /** Row 0 is a dummy with pattern 0; the rows behind it are sorted by pattern. */
  ghost predicate Sorted(t: seq<Row>) {
    t != [] && t[0].pattern == 0 && forall i, j :: 0 <= i < j < |t| ==> t[i].pattern < t[j].pattern
  }

  /** What the composition fold relies on: compositions are characters, and no composed character, and
      not the letter a, is ever the second half of a pair. */
  ghost predicate TableOk(t: seq<Row>) {
    && Sorted(t)
    && (forall i :: 0 < i < |t| ==> 0 < t[i].precomposed < 0x1_0000)
    && (forall i, j :: 0 < i < |t| && 0 < j < |t| ==> t[i].pattern % 0x1_0000 != t[j].precomposed)
    && (forall i :: 0 < i < |t| ==> t[i].pattern % 0x1_0000 != 0x61)
  }

  function Needle(first: char16, second: char16): int {
    first * 0x1_0000 + second
  }

  /** The row with that pattern, by looking at every row but the dummy, or -1. */
  function FindRow(t: seq<Row>, needle: int): (i: int)
    requires t != []
    ensures i == -1 || 0 < i < |t|
    ensures i > 0 ==> t[i].pattern == needle
    ensures i < 0 ==> forall k :: 0 < k < |t| ==> t[k].pattern != needle
  {
    if |t| == 1 then -1
    else if t[|t| - 1].pattern == needle then |t| - 1
    else FindRow(t[..|t| - 1], needle)
  }

  /** The composition of two characters, or -1. */
  function Compose(t: seq<Row>, first: char16, second: char16): int
    requires t != []
  {
    var i := FindRow(t, Needle(first, second));
    if i < 0 then -1 else t[i].precomposed
  }

  /** Two characters have the composition of the row that holds them, the first in the high half of the
      pattern, and none if no row behind the dummy does. */
  lemma ComposeByRows(t: seq<Row>, first: char16, second: char16)
    requires Sorted(t)
    ensures forall i :: 0 < i < |t| && t[i].pattern == 0x1_0000 * first + second ==>
              Compose(t, first, second) == t[i].precomposed
    ensures (forall i :: 0 < i < |t| ==> t[i].pattern != 0x1_0000 * first + second) ==> Compose(t, first, second) == -1
  {
    var k := FindRow(t, Needle(first, second));
  }

  // ---------------------------------------------------------------- uniform binary search

  function Pow2(k: nat): (p: nat)
    ensures p > 0
  {
    if k == 0 then 1 else 2 * Pow2(k - 1)
  }

  /** The step sizes for a table of n rows: entry j of delta[]. */
  function Delta(n: nat, j: nat): int {
    (n + Pow2(j)) / Pow2(j + 1)
  }

  function Half(n: nat, j: nat): int {
    n / Pow2(j)
  }

  lemma AtLeastOneMore(a: int, b: int, d: int)
    requires a < b && d > 0
    ensures a * d + d <= b * d
  {
    assert (b - a - 1) * d >= 0;
    assert b * d == (b - a - 1) * d + a * d + d;
  }

  lemma QuotientIs(n: nat, d: nat, q: nat, r: nat)
    requires d > 0 && n == q * d + r && r < d
    ensures n / d == q
  {
    var k := n / d;
    assert k * d <= n < k * d + d by { assert n == k * d + n % d; }
    if k < q { AtLeastOneMore(k, q, d); }
    if q < k { AtLeastOneMore(q, k, d); }
  }

  lemma TwiceHalf(h: int, p: int)
    ensures h * (2 * p) == 2 * h * p
  {
  }

  lemma QuotientNat(n: nat, p: nat)
    requires p > 0
    ensures n / p >= 0
  {
  }

  lemma DivTwice(n: nat, p: nat)
    requires p > 0
    ensures n / (2 * p) == n / p / 2 && (n + p) / (2 * p) == (n / p + 1) / 2
  {
    var q, r := n / p, n % p;
    assert n == q * p + r;
    DivTwiceOf(n, p, q, r);
  }

  lemma DivTwiceOf(n: nat, p: nat, q: nat, r: nat)
    requires r < p && n == q * p + r
    ensures n / (2 * p) == q / 2 && (n + p) / (2 * p) == (q + 1) / 2
  {
    var h := q / 2;
    TwiceHalf(h, p);
    if q == 2 * h {
      QuotientIs(n, 2 * p, h, r);
      QuotientIs(n + p, 2 * p, h, r + p);
    } else {
      assert q == 2 * h + 1;
      OneMore(2 * h, p);
      QuotientIs(n, 2 * p, h, p + r);
      OneMore(h, 2 * p);
      QuotientIs(n + p, 2 * p, h + 1, r);
    }
  }

  lemma OneMore(a: int, p: int)
    ensures (a + 1) * p == a * p + p
  {
  }

  /** Each step takes half of what is left, rounded up. */
  lemma DeltaHalves(n: nat, j: nat)
    ensures Delta(n, j) == (Half(n, j) + 1) / 2
    ensures Half(n, j + 1) == Half(n, j) - Delta(n, j)
    ensures 2 * Delta(n, j) - 1 <= Half(n, j) <= 2 * Delta(n, j)
    ensures 0 <= Half(n, j + 1) <= Half(n, j)
  {
    assert Pow2(j + 1) == 2 * Pow2(j);
    DivTwice(n, Pow2(j));
    QuotientNat(n, Pow2(j));
  }

  lemma HalfZero(n: nat)
    ensures Half(n, 0) == n
  {
  }

  function TailSum(n: nat, j: nat, end: nat): int
    requires j <= end
    decreases end - j
  {
    if j == end then 0 else Delta(n, j) + TailSum(n, j + 1, end)
  }

  /** From entry j on, up to a zero entry, the steps add up to floor(n / 2^j): all of them to n. */
  lemma {:induction false} DeltasSum(n: nat, j: nat, end: nat)
    requires j <= end && Delta(n, end) == 0
    ensures TailSum(n, j, end) == Half(n, j)
    ensures j == 0 ==> Half(n, j) == n
    decreases end - j
  {
    DeltaHalves(n, j);
    if j < end {
      DeltasSum(n, j + 1, end);
    }
  }

  /** delta[] holds the steps for n, up to the first zero. */
  ghost predicate DeltasFor(delta: seq<int>, n: nat) {
    && delta != [] && delta[|delta| - 1] == 0
    && forall j :: 0 <= j < |delta| ==> delta[j] == Delta(n, j)
  }

  /** There is such an array for every n. */
  lemma DeltasExist(n: nat) returns (delta: seq<int>)
    ensures DeltasFor(delta, n)
  {
    hide Delta;
    LastDelta(n);
    delta := seq(n + 1, j requires 0 <= j => Delta(n, j));
  }

  lemma LastDelta(n: nat)
    ensures Delta(n, n) == 0
  {
    PowerExceeds(n);
    QuotientIs(n, Pow2(n), 0, n);
    DeltaHalves(n, n);
  }

  lemma {:induction false} PowerExceeds(n: nat)
    ensures n < Pow2(n)
  {
    if n > 0 { PowerExceeds(n - 1); }
  }

  /** The array in the code is the one for its 997 rows. */
  lemma CodeDeltas()
    ensures DeltasFor([499, 249, 125, 62, 31, 16, 8, 4, 2, 1, 0], 997)
  {
    assert Pow2(0) == 1 && Pow2(1) == 2 && Pow2(2) == 4 && Pow2(3) == 8;
    assert Pow2(4) == 16 && Pow2(5) == 32 && Pow2(6) == 64 && Pow2(7) == 128;
    assert Pow2(8) == 256 && Pow2(9) == 512 && Pow2(10) == 1024 && Pow2(11) == 2048;
    var d := [499, 249, 125, 62, 31, 16, 8, 4, 2, 1, 0];
    forall j | 0 <= j < |d| ensures d[j] == Delta(997, j) {
      if j == 0 {} else if j == 1 {} else if j == 2 {} else if j == 3 {} else if j == 4 {} else if j == 5 {}
      else if j == 6 {} else if j == 7 {} else if j == 8 {} else if j == 9 {} else {}
    }
  }

  /** The searched row, if there is one, is within reach of the probe: i plus or minus m. */
  ghost predicate WithinReach(rows: int, hit: int, i: int, m: int) {
    && 0 <= m <= i < rows - m && (rows % 2 == 0 ==> m < i)
    && (hit > 0 ==> i - m <= hit <= i + m)
  }

  /** After a miss at i, the next probe is d further on, with d less of reach. */
  lemma Step(t: seq<Row>, needle: int, hit: int, i: int, m: int, d: int)
    requires Sorted(t) && hit == FindRow(t, needle) && WithinReach(|t|, hit, i, m) && needle != t[i].pattern
    requires 0 <= d && 2 * d - 1 <= m
    ensures WithinReach(|t|, hit, if needle < t[i].pattern then i - d else i + d, m - d)
    ensures m == 0 ==> hit < 0
  {
    if hit > 0 {
      assert t[hit].pattern == needle;
    }
  }

  /** UCS2precompose, for a table of any size: it finds the composition if and only if there is one. The
      dummy row is never looked at when the number of rows is odd, and never matches two characters that
      are not both zero. */
  method UCS2Precompose(table: seq<Row>, delta: seq<int>, first: char16, second: char16) returns (r: int)
    requires Sorted(table) && DeltasFor(delta, |table| - 1)
    ensures Needle(first, second) != 0 || |table| % 2 == 0 ==> r == Compose(table, first, second)
  {
    hide Half, Delta, Pow2, FindRow, Sorted, WithinReach;
    assert table != [] by { SortedHasDummy(table); }
    var needle := Needle(first, second);
    ghost var n, hit := |table| - 1, FindRow(table, needle);
    ghost var left := n;       // the reach of the probe before delta[j] was taken off
    var i, j := delta[0], 0;
    StartsInMiddle(n, hit);
    while delta[j] != 0
      invariant 0 <= j < |delta| && left == Half(n, j)
      invariant WithinReach(|table|, hit, i, left - delta[j])
      invariant left == 0 ==> hit < 0
      decreases |delta| - j
    {
      DeltaHalves(n, j);
      DeltaHalves(n, j + 1);
      InTable(|table|, hit, i, left - delta[j]);
      if needle == table[i].pattern {
        SortedRowIs(table, needle, i);
      } else {
        Step(table, needle, hit, i, left - delta[j], delta[j + 1]);
      }
      left := left - delta[j];
      j := j + 1;
      if needle < table[i].pattern {
        i := i - delta[j];
      } else if needle > table[i].pattern {
        i := i + delta[j];
      } else {
        return table[i].precomposed;
      }
    }
    DeltaHalves(n, j);
    return -1;
  }

  lemma SortedHasDummy(t: seq<Row>)
    requires Sorted(t)
    ensures t != []
  {
  }

  lemma StartsInMiddle(n: nat, hit: int)
    requires hit <= n
    ensures Half(n, 0) == n && WithinReach(n + 1, hit, Delta(n, 0), n - Delta(n, 0))
  {
    HalfZero(n);
    DeltaHalves(n, 0);
  }

  lemma InTable(rows: int, hit: int, i: int, m: int)
    requires WithinReach(rows, hit, i, m)
    ensures 0 <= m && 0 <= i < rows && (rows % 2 == 0 ==> 0 < i)
  {
  }

  lemma SortedRowIs(t: seq<Row>, needle: int, i: int)
    requires Sorted(t) && 0 <= i < |t| && t[i].pattern == needle
    ensures i > 0 ==> FindRow(t, needle) == i
    ensures i == 0 ==> needle == 0
  {
    var k := FindRow(t, needle);
  }

  // ---------------------------------------------------------------- UTF-8 and UCS-2

  /** The length of the character that starts with the byte c, by its leading one bits; 0 for the
      terminator and for a byte that starts no character. */
  function CharLen(c: byte): (n: nat)
    ensures n <= 8
  {
    if c == 0 then 0
    else if c < 0x80 then 1
    else if c < 0xC0 then 0
    else if c < 0xE0 then 2
    else if c < 0xF0 then 3
    else if c < 0xF8 then 4
    else if c < 0xFC then 5
    else if c < 0xFE then 6
    else if c < 0xFF then 7
    else 8
  }

  /** mbCharLen. */
  method MbCharLen(c: byte) returns (n: nat)
    ensures n == CharLen(c)
  {
    var mask, count := 0x80, 0;
    if c == 0 { return 0; }
    while mask > 0 && c / mask % 2 == 1
      invariant 0 <= count <= 8
      invariant mask == [0x80, 0x40, 0x20, 0x10, 8, 4, 2, 1, 0][count]
      invariant if count < 8 then c >= 0x100 - 2 * mask else c == 0xFF
      decreases mask
    {
      count := count + 1;
      mask := mask / 2;
    }
    match count
    case 0 => return 1;
    case 1 => return 0;
    case _ => return count;
  }

  /** No multi-byte character is cut short by the end of the string. */
  predicate Uncut(s: seq<byte>) {
    s == [] || (CharLen(s[0]) <= |s| && (CharLen(s[0]) > 0 ==> Uncut(s[CharLen(s[0])..])))
  }

  predicate Tail(b: byte) {
    0x80 <= b < 0xC0
  }

  function TwoBytes(lead: int, b1: int): int {
    b1 % 0x40 + lead % 0x20 * 0x40
  }

  function ThreeBytes(lead: int, b1: int, b2: int): int {
    b2 % 0x40 + b1 % 0x40 * 0x40 + lead % 0x10 * 0x1000
  }

  /** One character: '*' for an illegal code, '~' for a code above 0xffff. */
  function DecodeOne(s: seq<byte>): (c: char16)
    requires s != [] && 0 < CharLen(s[0]) <= |s|
    ensures c != 0
  {
    match CharLen(s[0])
    case 1 => s[0]
    case 2 =>
      var c := TwoBytes(s[0], s[1]);
      if c > 0x7F && Tail(s[1]) then c else 0x2A
    case 3 =>
      var c := ThreeBytes(s[0], s[1], s[2]);
      if c > 0x7FF && Tail(s[1]) && Tail(s[2]) then c else 0x2A
    case _ => 0x7E
  }

  /** The units in front of the terminator. Decoding ends at a byte that starts no character. */
  function Decode(s: seq<byte>): (u: seq<char16>)
    requires Uncut(s)
    ensures |u| <= |s| && forall k :: 0 <= k < |u| ==> u[k] != 0
  {
    if s == [] || CharLen(s[0]) == 0 then []
    else [DecodeOne(s)] + Decode(s[CharLen(s[0])..])
  }

  /** The memory of a C string that holds s. */
  ghost predicate Holds<T(0)>(mem: seq<T>, s: seq<T>, zero: T) {
    |s| < |mem| && mem[..|s|] == s && mem[|s|] == zero && forall k :: 0 <= k < |s| ==> s[k] != zero
  }

  lemma Held<T(0)>(mem: seq<T>, s: seq<T>, zero: T)
    requires Holds(mem, s, zero)
    ensures forall k :: 0 <= k <= |s| ==> mem[k] == if k < |s| then s[k] else zero
    ensures forall k :: 0 <= k < |s| ==> s[k] != zero
  {
    forall k | 0 <= k < |s| ensures mem[k] == s[k] { assert mem[..|s|][k] == s[k]; }
  }

  lemma DecodeStep(s: seq<byte>, p: nat)
    requires p <= |s| && Uncut(s[p..])
    ensures p < |s| && CharLen(s[p]) > 0 ==>
              && p + CharLen(s[p]) <= |s| && Uncut(s[p + CharLen(s[p])..])
              && Decode(s[p..]) == [DecodeOne(s[p..])] + Decode(s[p + CharLen(s[p])..])
    ensures p == |s| || CharLen(s[p]) == 0 ==> Decode(s[p..]) == []
  {
    if p < |s| && CharLen(s[p]) > 0 {
      assert CharLen(s[p]) <= |s[p..]|;
      assert s[p..][CharLen(s[p])..] == s[p + CharLen(s[p])..];
    }
  }

  /** mbStrLen: how many units UTF8toUCS2 is going to write. */
  method MbStrLen(str: array<byte>, ghost s: seq<byte>) returns (len: nat)
    requires Holds(str[..], s, 0) && Uncut(s)
    ensures len == |Decode(s)|
  {
    hide Holds, Decode, Uncut;
    assert |s| < str.Length && s[0..] == s by { HoldsFits(str[..], s, 0); }
    Held(str[..], s, 0);
    var p := 0;
    len := 0;
    var clen := MbCharLen(str[p]);
    while clen > 0
      invariant 0 <= p <= |s| && Uncut(s[p..]) && len + |Decode(s[p..])| == |Decode(s)|
      invariant clen == CharLen(str[..][p])
      decreases |s| - p
    {
      DecodeStep(s, p);
      len := len + 1;
      p := p + clen;
      clen := MbCharLen(str[p]);
    }
    DecodeStep(s, p);
  }

  lemma HoldsFits<T(0)>(mem: seq<T>, s: seq<T>, zero: T)
    requires Holds(mem, s, zero)
    ensures |s| < |mem| && s[0..] == s
  {
  }

  /** The unit that one character becomes, by its bytes in place. */
  lemma UnitAt(s: seq<byte>, p: nat)
    requires p < |s| && 0 < CharLen(s[p]) <= |s| - p
    ensures CharLen(s[p]) == 1 ==> DecodeOne(s[p..]) == s[p]
    ensures CharLen(s[p]) == 2 ==>
              var c := TwoBytes(s[p], s[p + 1]);
              DecodeOne(s[p..]) == if c > 0x7F && Tail(s[p + 1]) then c % 0x1_0000 else 0x2A
    ensures CharLen(s[p]) == 3 ==>
              var c := ThreeBytes(s[p], s[p + 1], s[p + 2]);
              DecodeOne(s[p..]) == if c > 0x7FF && Tail(s[p + 1]) && Tail(s[p + 2]) then c % 0x1_0000 else 0x2A
    ensures CharLen(s[p]) > 3 ==> DecodeOne(s[p..]) == 0x7E
  {
    hide CharLen, Tail;
  }

  lemma LengthOfTerminator()
    ensures CharLen(0) == 0
  {
  }

  /** UTF8toUCS2. The byte swap behind the conversion is never taken: it tests a variable that is 0. */
  method UTF8toUCS2(str: array<byte>, ghost s: seq<byte>) returns (str16: array<char16>)
    requires Holds(str[..], s, 0) && Uncut(s)
    ensures fresh(str16) && str16[..] == Decode(s) + [0]
  {
    hide Holds, Decode, Uncut, TwoBytes, ThreeBytes, CharLen, Tail, DecodeOne;
    assert |s| < str.Length && s[0..] == s by { HoldsFits(str[..], s, 0); }
    Held(str[..], s, 0);
    LengthOfTerminator();
    var cInString := MbStrLen(str, s);
    str16 := new char16[cInString + 1];
    var p, p16 := 0, 0;
    var clen := MbCharLen(str[p]);
    while clen > 0
      invariant 0 <= p <= |s| && Uncut(s[p..]) && str[..] == old(str[..]) && clen == CharLen(str[..][p])
      invariant p16 + |Decode(s[p..])| == cInString && str16[..p16] + Decode(s[p..]) == Decode(s)
      decreases |s| - p
    {
      assert p < |s|;
      DecodeStep(s, p);
      assert forall k :: p <= k < p + clen ==> str[k] == s[k];
      UnitAt(s, p);
      var unit: char16;
      match clen {
        case 1 =>
          unit := str[p];
        case 2 =>
          var c16 := TwoBytes(str[p], str[p + 1]);
          unit := if c16 > 0x7F && Tail(str[p + 1]) then c16 % 0x1_0000 else 0x2A;
        case 3 =>
          var c16 := ThreeBytes(str[p], str[p + 1], str[p + 2]);
          unit := if c16 > 0x7FF && Tail(str[p + 1]) && Tail(str[p + 2]) then c16 % 0x1_0000 else 0x2A;
        case _ =>
          unit := 0x7E;
      }
      assert unit == DecodeOne(s[p..]);
      str16[p16] := unit;
      p16 := p16 + 1;
      p := p + clen;
      clen := MbCharLen(str[p]);
    }
    DecodeStep(s, p);
    str16[p16] := 0;
  }

  /** One unit; on the little-endian layout the code assumes, p0 is its low byte. */
  function EncodeOne(c: char16): (b: seq<byte>)
    requires c != 0
    ensures 1 <= |b| <= 3
  {
    var p0, p1 := c % 0x100, c / 0x100;
    if c < 0x80 then [p0]
    else if c < 0x800 then [0xC0 + p1 % 8 * 4 + p0 / 0x40, 0x80 + p0 % 0x40]
    else [0xE0 + p1 / 0x10, 0x80 + p1 % 0x10 * 4 + p0 / 0x40, 0x80 + p0 % 0x40]
  }

  function Encode(u: seq<char16>): (b: seq<byte>)
    requires forall k :: 0 <= k < |u| ==> u[k] != 0
    ensures |u| <= |b| <= 3 * |u|
  {
    if u == [] then [] else Encode(u[..|u| - 1]) + EncodeOne(u[|u| - 1])
  }

  lemma {:induction false} EncodeHasNoZero(u: seq<char16>)
    requires forall k :: 0 <= k < |u| ==> u[k] != 0
    ensures forall k :: 0 <= k < |Encode(u)| ==> Encode(u)[k] != 0
  {
    if u != [] {
      EncodeHasNoZero(u[..|u| - 1]);
    }
  }

  /** The bytes of one unit, written from p8 on: the body of the loop of UCS2toUTF8. */
  method PutUnit(str8: array<byte>, start: nat, c: char16) returns (p8: nat)
    requires c != 0 && start + 3 <= str8.Length
    modifies str8
    ensures start < p8 <= start + 3 && str8[..p8] == old(str8[..start]) + EncodeOne(c)
  {
    p8 := start;
    var p0, p1 := c % 0x100, c / 0x100;
    if c < 0x80 {
      str8[p8] := p0;
      p8 := p8 + 1;
    } else if c < 0x800 {
      str8[p8] := 0xC0 + p1 % 8 * 4 + p0 / 0x40;
      p8 := p8 + 1;
      str8[p8] := 0x80 + p0 % 0x40;
      p8 := p8 + 1;
    } else {
      str8[p8] := 0xE0 + p1 / 0x10;
      p8 := p8 + 1;
      str8[p8] := 0x80 + p1 % 0x10 * 4 + p0 / 0x40;
      p8 := p8 + 1;
      str8[p8] := 0x80 + p0 % 0x40;
      p8 := p8 + 1;
    }
  }

  /** UCS2toUTF8: three bytes a unit are enough for any string. */
  method UCS2toUTF8(str16: array<char16>, ghost u: seq<char16>) returns (str8: array<byte>)
    requires Holds(str16[..], u, 0)
    ensures fresh(str8) && str8.Length == 3 * |u| + 1 && Holds(str8[..], Encode(u), 0)
  {
    hide Holds;
    HoldsFits(str16[..], u, 0);
    Held(str16[..], u, 0);
    assert forall k :: 0 <= k <= |u| ==> str16[k] == str16[..][k];
    var len16 := Str16Len(str16, u);
    str8 := new byte[3 * len16 + 1];
    var p16, p8 := 0, 0;
    while str16[p16] > 0
      invariant 0 <= p16 <= |u| && 0 <= p8 <= 3 * p16 && str16[..] == old(str16[..])
      invariant str8[..p8] == Encode(u[..p16])
      decreases len16 - p16
    {
      assert str16[p16] == str16[..][p16] && u[..p16 + 1][..p16] == u[..p16];
      p8 := PutUnit(str8, p8, str16[p16]);
      p16 := p16 + 1;
    }
    assert str16[p16] == str16[..][p16] && u[..p16] == u;
    str8[p8] := 0;
    EncodeHasNoZero(u);
    HoldsIs(str8[..], Encode(u), 0);
  }

  lemma HoldsIs<T(0)>(mem: seq<T>, s: seq<T>, zero: T)
    requires |s| < |mem| && mem[..|s|] == s && mem[|s|] == zero && forall k :: 0 <= k < |s| ==> s[k] != zero
    ensures Holds(mem, s, zero)
  {
  }

  /** str16len. */
  method Str16Len(str16: array<char16>, ghost u: seq<char16>) returns (len: nat)
    requires Holds(str16[..], u, 0)
    ensures len == |u|
  {
    Held(str16[..], u, 0);
    assert forall k :: 0 <= k <= |u| ==> str16[k] == str16[..][k];
    len := 0;
    while str16[len] > 0
      invariant 0 <= len <= |u|
      decreases |u| - len
    {
      len := len + 1;
    }
  }

  // ---------------------------------------------------------------- the two are inverse

  predicate NonZero(u: seq<char16>) {
    forall k :: 0 <= k < |u| ==> u[k] != 0
  }

  lemma {:induction false} EncodeCons(c: char16, u: seq<char16>)
    requires c != 0 && NonZero(u)
    ensures Encode([c] + u) == EncodeOne(c) + Encode(u)
  {
    hide EncodeOne;
    if u == [] {
      assert ([c] + u)[..0] == [] && Encode([]) == [];
    } else {
      var init := u[..|u| - 1];
      EncodeCons(c, init);
      assert ([c] + u)[..|u|] == [c] + init;
    }
  }

  lemma TwoByteArithmetic(c: int)
    requires 0x80 <= c < 0x800
    ensures var p0, p1 := c % 0x100, c / 0x100;
            p1 % 8 * 4 + p0 / 0x40 == c / 0x40 && p0 % 0x40 == c % 0x40
    ensures 2 <= c / 0x40 < 0x20 && (0xC0 + c / 0x40) % 0x20 == c / 0x40 && (0x80 + c % 0x40) % 0x40 == c % 0x40
  {
    var p0, p1 := c % 0x100, c / 0x100;
    assert c == 0x40 * (p1 * 4 + p0 / 0x40) + p0 % 0x40;
  }

  lemma ThreeByteArithmetic(c: int)
    requires 0x800 <= c < 0x1_0000
    ensures var p0, p1 := c % 0x100, c / 0x100;
            p1 / 0x10 == c / 0x1000 && p1 % 0x10 * 4 + p0 / 0x40 == c / 0x40 % 0x40 && p0 % 0x40 == c % 0x40
    ensures 0 <= c / 0x1000 < 0x10 && (0xE0 + c / 0x1000) % 0x10 == c / 0x1000
    ensures (0x80 + c / 0x40 % 0x40) % 0x40 == c / 0x40 % 0x40 && (0x80 + c % 0x40) % 0x40 == c % 0x40
    ensures c == c / 0x1000 * 0x1000 + c / 0x40 % 0x40 * 0x40 + c % 0x40
  {
    var p0, p1 := c % 0x100, c / 0x100;
    Digits(c, p1 / 0x10, p1 % 0x10, p0 / 0x40, p0 % 0x40);
  }

  lemma Digits(c: int, q1: int, q0: int, h: int, l: int)
    requires 0 <= q1 < 0x10 && 0 <= q0 < 0x10 && 0 <= h < 4 && 0 <= l < 0x40
    requires c == 0x1000 * q1 + 0x100 * q0 + 0x40 * h + l
    ensures c / 0x1000 == q1 && c / 0x40 % 0x40 == 4 * q0 + h && c % 0x40 == l
  {
    assert c / 0x40 == 0x40 * q1 + (4 * q0 + h);
  }

  /** The bytes of a unit are its shortest form, and are read back as that unit. */
  lemma OneEncoded(c: char16)
    requires c != 0
    ensures var b := EncodeOne(c);
            && CharLen(b[0]) == |b| && DecodeOne(b) == c
            && (|b| == 2 ==> b[0] == 0xC0 + c / 0x40 && b[1] == 0x80 + c % 0x40)
            && (|b| == 3 ==> b[0] == 0xE0 + c / 0x1000 && b[1] == 0x80 + c / 0x40 % 0x40 && b[2] == 0x80 + c % 0x40)
  {
    if 0x80 <= c < 0x800 {
      TwoByteArithmetic(c);
    } else if c >= 0x800 {
      ThreeByteArithmetic(c);
    }
  }

  lemma OneInverse(c: char16, rest: seq<byte>)
    requires c != 0
    ensures var b := EncodeOne(c) + rest;
            CharLen(b[0]) == |EncodeOne(c)| && DecodeOne(b) == c && b[CharLen(b[0])..] == rest
  {
    OneEncoded(c);
    hide EncodeOne;
    var b, one := EncodeOne(c) + rest, EncodeOne(c);
    assert forall k :: 0 <= k < |one| ==> b[k] == one[k];
  }

  lemma {:induction false} DecodeOfEncode(u: seq<char16>)
    requires NonZero(u)
    ensures Uncut(Encode(u)) && Decode(Encode(u)) == u
  {
    if u != [] {
      DecodeOfEncode(u[1..]);
      assert u == [u[0]] + u[1..];
      EncodeCons(u[0], u[1..]);
      OneInverse(u[0], Encode(u[1..]));
    }
  }

  /** One-, two- and three-byte characters in their shortest form. */
  predicate ShortestForm(s: seq<byte>) {
    s == [] ||
    var n := CharLen(s[0]);
    && 1 <= n <= 3 && n <= |s|
    && (n == 2 ==> TwoBytes(s[0], s[1]) > 0x7F && Tail(s[1]))
    && (n == 3 ==> ThreeBytes(s[0], s[1], s[2]) > 0x7FF && Tail(s[1]) && Tail(s[2]))
    && ShortestForm(s[n..])
  }

  lemma ShortestOne(s: seq<byte>)
    requires s != [] && 0 < CharLen(s[0]) <= |s|
    ensures (CharLen(s[0]) <= 3
             && (CharLen(s[0]) == 2 ==> TwoBytes(s[0], s[1]) > 0x7F && Tail(s[1]))
             && (CharLen(s[0]) == 3 ==> ThreeBytes(s[0], s[1], s[2]) > 0x7FF && Tail(s[1]) && Tail(s[2])))
            <==> EncodeOne(DecodeOne(s)) == s[..CharLen(s[0])]
  {
    var n := CharLen(s[0]);
    var c := DecodeOne(s);
    OneEncoded(c);
    hide EncodeOne, TwoBytes, ThreeBytes;
    var b := EncodeOne(c);
    if n == 2 && TwoBytes(s[0], s[1]) > 0x7F && Tail(s[1]) {
      assert |b| == 2 && s[..2] == [s[0], s[1]];
      TwoBytesOf(s[0], s[1]);
    } else if n == 3 && ThreeBytes(s[0], s[1], s[2]) > 0x7FF && Tail(s[1]) && Tail(s[2]) {
      assert |b| == 3 && s[..3] == [s[0], s[1], s[2]];
      ThreeBytesOf(s[0], s[1], s[2]);
    } else if n == 1 {
      assert s[..1] == [s[0]];
    } else {
      assert |b| == 1 && CharLen(b[0]) == 1;
      assert s[..n][0] == s[0];
    }
  }

  lemma TwoBytesOf(a: byte, b1: byte)
    requires 0xC0 <= a < 0xE0 && Tail(b1)
    ensures var c := TwoBytes(a, b1); a == 0xC0 + c / 0x40 && b1 == 0x80 + c % 0x40
  {
    var x, y := a - 0xC0, b1 - 0x80;
    assert a % 0x20 == x && b1 % 0x40 == y;
  }

  lemma ThreeBytesOf(a: byte, b1: byte, b2: byte)
    requires 0xE0 <= a < 0xF0 && Tail(b1) && Tail(b2)
    ensures var c := ThreeBytes(a, b1, b2);
            a == 0xE0 + c / 0x1000 && b1 == 0x80 + c / 0x40 % 0x40 && b2 == 0x80 + c % 0x40
  {
    var c := ThreeBytes(a, b1, b2);
    var x, y, z := a - 0xE0, b1 - 0x80, b2 - 0x80;
    assert a % 0x10 == x && b1 % 0x40 == y && b2 % 0x40 == z;
    assert c == 0x40 * (0x40 * x + y) + z;
    assert c / 0x40 == 0x40 * x + y;
  }

  /** Encoding what was decoded gives the bytes back exactly for the shortest one- to three-byte forms. */
  lemma {:induction false} EncodeOfDecodeIff(s: seq<byte>)
    requires Uncut(s)
    ensures ShortestForm(s) <==> Encode(Decode(s)) == s
  {
    hide EncodeOne, DecodeOne;
    if s == [] {
    } else if CharLen(s[0]) == 0 {
      assert Decode(s) == [];
    } else {
      var n := CharLen(s[0]);
      EncodeOfDecodeIff(s[n..]);
      ShortestOne(s);
      var c, rest := DecodeOne(s), Decode(s[n..]);
      EncodeCons(c, rest);
      OneInverse(c, Encode(rest));
      assert s == s[..n] + s[n..];
      var e := EncodeOne(c) + Encode(rest);
      if e == s {
        assert CharLen(e[0]) == n;
        assert e[..n] == EncodeOne(c) && e[n..] == Encode(rest);
      }
    }
  }

  /** The syntax of UTF-8 in sections 3 and 4 of RFC 3629, up to U+FFFF and without U+0000. */
  predicate WellFormedBmp(s: seq<byte>) {
    s == [] ||
    if s[0] < 0x80 then s[0] != 0 && WellFormedBmp(s[1..])
    else if 0xC2 <= s[0] <= 0xDF then |s| >= 2 && Tail(s[1]) && WellFormedBmp(s[2..])
    else
      && |s| >= 3
      && ((s[0] == 0xE0 && 0xA0 <= s[1] <= 0xBF) || (0xE1 <= s[0] <= 0xEC && Tail(s[1]))
          || (s[0] == 0xED && 0x80 <= s[1] <= 0x9F) || (0xEE <= s[0] <= 0xEF && Tail(s[1])))
      && Tail(s[2]) && WellFormedBmp(s[3..])
  }

  lemma {:induction false} WellFormedIsShortest(s: seq<byte>)
    requires WellFormedBmp(s)
    ensures ShortestForm(s)
  {
    if s != [] {
      WellFormedIsShortest(s[CharLen(s[0])..]);
    }
  }

  lemma {:induction false} ShortestIsUncut(s: seq<byte>)
    requires ShortestForm(s)
    ensures Uncut(s) && forall k :: 0 <= k < |s| ==> s[k] != 0
  {
    if s != [] {
      var n := CharLen(s[0]);
      ShortestIsUncut(s[n..]);
      forall k | 0 <= k < |s| ensures s[k] != 0 {
        if k >= n { assert s[k] == s[n..][k - n]; }
      }
    }
  }

  /** UTF-8 to UCS-2 and back is the identity on every well-formed string of the Basic Multilingual Plane. */
  lemma EncodeOfDecode(s: seq<byte>)
    requires WellFormedBmp(s)
    ensures Uncut(s) && Encode(Decode(s)) == s
  {
    WellFormedIsShortest(s);
    ShortestIsUncut(s);
    EncodeOfDecodeIff(s);
  }

  // ---------------------------------------------------------------- the decoder by the bytes alone

  /** The length of a character is the number of ones in front of the first zero of its first byte; the top
      n + 1 bits are the number named here. One leading one is not a first byte, nor is the terminator. */
  lemma LengthByLeadingOnes(c: byte)
    ensures CharLen(c) == 1 <==> c / 0x80 == 0 && c != 0
    ensures CharLen(c) == 0 <==> c / 0x40 == 2 || c == 0
    ensures CharLen(c) == 2 <==> c / 0x20 == 6
    ensures CharLen(c) == 3 <==> c / 0x10 == 14
    ensures CharLen(c) == 4 <==> c / 8 == 30
    ensures CharLen(c) == 5 <==> c / 4 == 62
    ensures CharLen(c) == 6 <==> c / 2 == 126
    ensures CharLen(c) == 7 <==> c == 254
    ensures CharLen(c) == 8 <==> c == 255
  {
  }

  /** The four-byte characters of section 4 of RFC 3629: U+10000 to U+10FFFF. */
  predicate FourBytes(s: seq<byte>) {
    && |s| >= 4 && 0x80 <= s[2] <= 0xBF && 0x80 <= s[3] <= 0xBF
    && ((s[0] == 0xF0 && 0x90 <= s[1] <= 0xBF) || (0xF1 <= s[0] <= 0xF3 && 0x80 <= s[1] <= 0xBF)
        || (s[0] == 0xF4 && 0x80 <= s[1] <= 0x8F))
  }

  /** A character above U+FFFF becomes one '~', and decoding goes on right behind it. */
  lemma DecodeFourBytes(s: seq<byte>)
    requires FourBytes(s) && Uncut(s[4..])
    ensures Uncut(s) && Decode(s) == [0x7E] + Decode(s[4..])
  {
  }

  /** Two bytes with a two-byte lead: the character if it is one, otherwise '*'; decoding goes on behind both. */
  lemma DecodeTwoBytes(s: seq<byte>)
    requires |s| >= 2 && 0xC0 <= s[0] <= 0xDF && Uncut(s[2..])
    ensures Uncut(s)
    ensures var a: int, b: int := s[0], s[1];
            var c := if 0xC2 <= a && 0x80 <= b <= 0xBF then (a - 0xC0) * 0x40 + (b - 0x80) else 0x2A;
            Decode(s) == [c] + Decode(s[2..])
  {
    if 0x80 <= s[1] <= 0xBF { TwoBytesOf(s[0], s[1]); }
  }

  /** Three bytes with a three-byte lead: the character if the others are tails and it needs three bytes (a
      surrogate, which RFC 3629 excludes, counts as a character), otherwise '*'. */
  lemma DecodeThreeBytes(s: seq<byte>)
    requires |s| >= 3 && 0xE0 <= s[0] <= 0xEF && Uncut(s[3..])
    ensures Uncut(s)
    ensures var a: int, b: int, d: int := s[0], s[1], s[2];
            var c := if 0x80 <= b <= 0xBF && 0x80 <= d <= 0xBF && (a > 0xE0 || b >= 0xA0)
                     then (a - 0xE0) * 0x1000 + (b - 0x80) * 0x40 + (d - 0x80) else 0x2A;
            Decode(s) == [c] + Decode(s[3..])
  {
    hide ThreeBytes;
    if 0x80 <= s[1] <= 0xBF && 0x80 <= s[2] <= 0xBF { ThreeBytesIs(s[0], s[1], s[2]); }
  }

  lemma ThreeBytesIs(a: int, b: int, d: int)
    requires 0xE0 <= a <= 0xEF && 0x80 <= b <= 0xBF && 0x80 <= d <= 0xBF
    ensures ThreeBytes(a, b, d) == (a - 0xE0) * 0x1000 + (b - 0x80) * 0x40 + (d - 0x80)
  {
    assert a % 0x10 == a - 0xE0 && b % 0x40 == b - 0x80 && d % 0x40 == d - 0x80;
  }

  /** One byte, and the bytes that end the string: a tail that follows no lead. */
  lemma DecodeOneByte(s: seq<byte>)
    requires s != [] && s[0] < 0xC0
    ensures s[0] < 0x80 && s[0] != 0 && Uncut(s[1..]) ==> Uncut(s) && Decode(s) == [s[0]] + Decode(s[1..])
    ensures 0x80 <= s[0] ==> Uncut(s) && Decode(s) == []
  {
  }

  /** An emoji in front of two letters. */
  lemma LettersBehindEmoji()
    ensures var s: seq<byte> := [0xF0, 0x9F, 0x98, 0x80, 0x61, 0x62]; Uncut(s) && Decode(s) == [0x7E, 0x61, 0x62]
  {
    var s: seq<byte> := [0xF0, 0x9F, 0x98, 0x80, 0x61, 0x62];
    assert s[4..][1..] == [0x62] && s[4..] == [0x61, 0x62] && [s[5]][1..] == [];
    DecodeOneByte([0x62]);
    DecodeOneByte(s[4..]);
    DecodeFourBytes(s);
  }
}
