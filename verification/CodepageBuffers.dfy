/** The conversion routines of lib/codepage.c on the buffers they read and fill. */
module CodepageBuffers {
  import opened Bytes
  import opened Unicode
  import opened Codepage

  /** The fold loop of convert_utf8dec_to_utf8pre, into a buffer of fixed size. */
  method ComposeUnits(t: seq<Row>, delta: seq<int>, dec: array<char16>, ghost u: seq<char16>, pre: array<char16>)
    requires TableOk(t) && DeltasFor(delta, |t| - 1)
    requires Holds(dec[..], u, 0) && |Fold(t, u)| < pre.Length && dec != pre
    modifies pre
    ensures Holds(pre[..], Fold(t, u), 0)
  {
    hide Holds, TableOk, DeltasFor, Compose, Fold;
    FoldUnfolds(t, u);
    assert |u| < dec.Length by { HoldsFits(dec[..], u, 0); }
    Held(dec[..], u, 0);
    var prev: char16, p16dec, p16pre := 0, 0, 0;
    while dec[p16dec] > 0
      invariant 0 <= p16dec <= |u| && 0 <= p16pre && dec[..] == old(dec[..])
      invariant p16dec == 0 ==> prev == 0 && p16pre == 0
      invariant 0 < p16dec < |u| ==> prev != 0 && p16pre < |Fold(t, u)|
      invariant 0 < p16dec < |u| ==> pre[..p16pre] + FoldFrom(t, prev, u[p16dec..]) == Fold(t, u)
      invariant p16dec == |u| ==> p16pre == |Fold(t, u)| && pre[..p16pre] == Fold(t, u)
      decreases |u| - p16dec
    {
      assert dec[..][p16dec] == u[p16dec];
      var c := dec[p16dec];
      ghost var rest := u[p16dec..];
      assert rest[0] == c && rest[1..] == u[p16dec + 1..];
      if prev > 0 {
        assert |t| > 0 by { HasDummy(t); }
        ComposeRange(t, prev, c);
        assert Sorted(t) by { OkIsSorted(t); }
        var comp := UCS2Precompose(t, delta, prev, c);
        if comp != -1 {
          prev := comp;
        } else {
          pre[p16pre] := prev;
          prev := c;
          p16pre := p16pre + 1;
        }
      } else {
        prev := c;
      }
      p16dec := p16dec + 1;
      assert dec[..][p16dec] == if p16dec < |u| then u[p16dec] else 0;
      assert pre[..p16pre] + FoldFrom(t, prev, u[p16dec..]) == Fold(t, u);
      if dec[p16dec] == 0 {
        assert u[p16dec..] == [];
        pre[p16pre] := prev;
        p16pre := p16pre + 1;
      }
    }
    assert dec[..][p16dec] == 0;
    pre[p16pre] := 0;
    FoldNonZero(t, u);
    assert pre[..][..p16pre] == pre[..p16pre];
    HoldsIs(pre[..], Fold(t, u), 0);
  }

  lemma FoldUnfolds(t: seq<Row>, u: seq<char16>)
    requires TableOk(t)
    ensures Fold(t, u) == if u == [] then [] else FoldFrom(t, u[0], u[1..])
  {
  }

  lemma OkIsSorted(t: seq<Row>)
    requires TableOk(t)
    ensures Sorted(t)
  {
  }

  /** convert_utf8dec_to_utf8pre. */
  method ConvertUtf8DecToUtf8Pre(t: seq<Row>, delta: seq<int>, src: array<byte>, ghost s: seq<byte>, dest: array<byte>)
    requires TableOk(t) && DeltasFor(delta, |t| - 1)
    requires Holds(src[..], s, 0) && Uncut(s) && src != dest
    requires |Fold(t, Decode(s))| < PATH16PRE && |Precompose(t, s)| < dest.Length
    modifies dest
    ensures Holds(dest[..], Precompose(t, s), 0)
    ensures dest[|Precompose(t, s)| + 1..] == old(dest[|Precompose(t, s)| + 1..])
  {
    hide Holds, TableOk, DeltasFor, Fold, Decode, Encode;
    ghost var u := Decode(s);
    var path16dec := UTF8toUCS2(src, s);
    assert path16dec[..][..|u|] == u;
    HoldsIs(path16dec[..], u, 0);
    var path16pre := new char16[PATH16PRE];
    ComposeUnits(t, delta, path16dec, u, path16pre);
    FoldNonZero(t, u);
    var pathUTF8pre := UCS2toUTF8(path16pre, Fold(t, u));
    ghost var e := Precompose(t, s);
    HoldsFits(pathUTF8pre[..], e, 0);
    Held(pathUTF8pre[..], e, 0);
    var p := 0;
    label Copy:
    while pathUTF8pre[p] != 0
      invariant 0 <= p <= |e| && pathUTF8pre[..] == old@Copy(pathUTF8pre[..])
      invariant dest[..p] == e[..p] && dest[|e| + 1..] == old(dest[|e| + 1..])
      decreases |e| - p
    {
      assert pathUTF8pre[..][p] == e[p];
      dest[p] := pathUTF8pre[p];
      p := p + 1;
    }
    assert pathUTF8pre[..][p] == 0;
    dest[p] := 0;
    assert dest[..][..p] == dest[..p] == e;
    HoldsIs(dest[..], e, 0);
  }

  /** convert_utf8pre_to_utf8dec, which writes no terminator. */
  method ConvertUtf8PreToUtf8Dec(src: array<byte>, ghost s: seq<byte>, dest: array<byte>) returns (j: nat)
    requires Holds(src[..], s, 0) && |Decompose(s)| <= dest.Length && src != dest
    modifies dest
    ensures j == |Decompose(s)| && dest[..j] == Decompose(s) && dest[j..] == old(dest[j..])
  {
    hide Holds, Decompose;
    HoldsFits(src[..], s, 0);
    Held(src[..], s, 0);
    var srcLen := StrLen(src, s);
    ghost var d := Decompose(s);
    var i := 0;
    j := 0;
    while i < srcLen
      invariant 0 <= i <= srcLen && src[..] == old(src[..])
      invariant j <= |d| && d[j..] == Decompose(s[i..]) && forall k :: 0 <= k < j ==> dest[k] == d[k]
      invariant dest[|d|..] == old(dest[|d|..])
      decreases srcLen - i
    {
      DecomposeAt(s, i);
      assert src[..][i] == s[i] && src[..][i + 1] == if i + 1 < |s| then s[i + 1] else 0;
      assert d[j] == d[j..][0];
      if src[i] == 0xC3 && src[i + 1] == 0xA4 {
        assert d[j + 1] == d[j..][1] && d[j + 2] == d[j..][2] && d[j + 3..] == d[j..][3..];
        dest[j] := 0x61;
        j := j + 1;
        dest[j] := 0xCC;
        j := j + 1;
        dest[j] := 0x88;
        i := i + 1;
      } else {
        assert d[j + 1..] == d[j..][1..];
        dest[j] := src[i];
      }
      j := j + 1;
      i := i + 1;
    }
    assert Decompose(s[i..]) == [] by { DecomposeAt(s, i); }
  }

  lemma DecomposeAt(s: seq<byte>, i: nat)
    requires i <= |s|
    ensures Decompose(s[i..]) ==
            if i == |s| then []
            else if i + 1 < |s| && s[i] == 0xC3 && s[i + 1] == 0xA4 then [0x61, 0xCC, 0x88] + Decompose(s[i + 2..])
            else [s[i]] + Decompose(s[i + 1..])
  {
    if i < |s| {
      assert s[i..][1..] == s[i + 1..];
      if i + 1 < |s| { assert s[i..][2..] == s[i + 2..]; }
    }
  }

  method StrLen(str: array<byte>, ghost s: seq<byte>) returns (len: nat)
    requires Holds(str[..], s, 0)
    ensures len == |s|
  {
    hide Holds;
    Held(str[..], s, 0);
    assert |s| < str.Length by { HoldsFits(str[..], s, 0); }
    assert forall k :: 0 <= k <= |s| ==> str[k] == str[..][k];
    len := 0;
    while str[len] != 0
      invariant 0 <= len <= |s|
      decreases |s| - len
    {
      len := len + 1;
    }
  }

  method MemSet(dest: array<byte>)
    modifies dest
    ensures forall k :: 0 <= k < dest.Length ==> dest[k] == 0
  {
    for i := 0 to dest.Length
      invariant forall k :: 0 <= k < i ==> dest[k] == 0
    {
      dest[i] := 0;
    }
  }

  method MemCpy(dest: array<byte>, src: array<byte>)
    requires dest.Length <= src.Length && src != dest
    modifies dest
    ensures dest[..] == src[..dest.Length]
  {
    for i := 0 to dest.Length
      invariant dest[..i] == src[..i]
    {
      dest[i] := src[i];
    }
  }

  /** convert_path_to_unix: encoding 3 is UTF-8 names, 2 long names. */
  method ConvertPathToUnix(t: seq<Row>, delta: seq<int>, encoding: int, dest: array<byte>,
                           src: array<byte>, ghost s: seq<byte>) returns (ret: int)
    requires TableOk(t) && DeltasFor(delta, |t| - 1)
    requires Holds(src[..], s, 0) && src != dest
    requires encoding == kFPUTF8Name ==>
               Uncut(s) && |Fold(t, Decode(s))| < PATH16PRE && |Precompose(t, s)| < dest.Length
    requires encoding == kFPLongName ==> dest.Length <= src.Length
    modifies dest
    ensures ret == if encoding == 3 || encoding == 2 then 0 else -1
    ensures encoding == 3 ==> Holds(dest[..], Precompose(t, s), 0)
    ensures encoding == 2 ==> dest[..] == src[..dest.Length]
    ensures ret < 0 ==> forall k :: 0 <= k < dest.Length ==> dest[k] == 0
  {
    hide Holds, TableOk, DeltasFor, Fold, Decode, Precompose;
    MemSet(dest);
    if encoding == kFPUTF8Name {
      ConvertUtf8DecToUtf8Pre(t, delta, src, s, dest);
    } else if encoding == kFPLongName {
      MemCpy(dest, src);
    } else {
      return -1;
    }
    return 0;
  }

  /** convert_path_to_afp, by the same numbers. */
  method ConvertPathToAfp(encoding: int, dest: array<byte>, src: array<byte>, ghost s: seq<byte>) returns (ret: int)
    requires Holds(src[..], s, 0) && src != dest
    requires encoding == kFPUTF8Name ==> |Decompose(s)| < dest.Length
    requires encoding == kFPLongName ==> dest.Length <= src.Length
    modifies dest
    ensures ret == if encoding == 3 || encoding == 2 then 0 else -1
    ensures encoding == 3 ==> Holds(dest[..], Decompose(s), 0)
    ensures encoding == 2 ==> dest[..] == src[..dest.Length]
    ensures ret < 0 ==> forall k :: 0 <= k < dest.Length ==> dest[k] == 0
  {
    hide Holds, Decompose;
    MemSet(dest);
    if encoding == kFPUTF8Name {
      ghost var zeros := dest[..];
      var n := ConvertUtf8PreToUtf8Dec(src, s, dest);
      Held(src[..], s, 0);
      DecomposeHasNoZero(s);
      assert dest[n] == dest[n..][0] == zeros[n..][0];
      assert dest[..][..n] == dest[..n];
      HoldsIs(dest[..], Decompose(s), 0);
    } else if encoding == kFPLongName {
      MemCpy(dest, src);
    } else {
      return -1;
    }
    return 0;
  }

  lemma {:induction false} DecomposeHasNoZero(s: seq<byte>)
    requires forall k :: 0 <= k < |s| ==> s[k] != 0
    ensures forall k :: 0 <= k < |Decompose(s)| ==> Decompose(s)[k] != 0
  {
    if s != [] {
      if |s| >= 2 && s[0] == 0xC3 && s[1] == 0xA4 {
        DecomposeHasNoZero(s[2..]);
      } else {
        DecomposeHasNoZero(s[1..]);
      }
    }
  }

  /** A name goes to the server and comes back: the program's own two calls, one after the other. */
  method ThereAndBack(t: seq<Row>, delta: seq<int>, name: array<byte>, ghost s: seq<byte>,
                      afp: array<byte>, unix: array<byte>)
    requires TableOk(t) && HasUmlautRow(t) && DeltasFor(delta, |t| - 1)
    requires Holds(name[..], s, 0) && WellFormedBmp(s) && Uncut(s) && NoComposablePair(t, Decode(s))
    requires name != afp && afp != unix && name != unix
    requires |Decompose(s)| < afp.Length && |s| < unix.Length && |Decode(s)| < PATH16PRE
    modifies afp, unix
    ensures Holds(unix[..], s, 0)
  {
    hide Holds, TableOk, DeltasFor, Decompose, Precompose, WellFormedBmp, Compose;
    PathRoundTripIff(t, s);
    WellFormedIsShortest(s);
    DecomposeIsExpand(s);
    FoldUndoesExpand(t, Decode(s));
    var _ := ConvertPathToAfp(kFPUTF8Name, afp, name, s);
    var _ := ConvertPathToUnix(t, delta, kFPUTF8Name, unix, afp, Decompose(s));
  }
}
