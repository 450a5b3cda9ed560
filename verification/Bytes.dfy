/** Bytes and the big-endian integers of the wire formats. */
module Bytes {

  type byte = x: int | 0 <= x < 256

  /** ntohs, ntohl: the value of a big-endian field. */
  function FromBE(s: seq<byte>): (n: nat) {
    if s == [] then 0 else FromBE(s[..|s| - 1]) * 256 + s[|s| - 1]
  }

  /** htons, htonl: the n lowest bytes of v, the highest first. */
  function ToBE(v: nat, n: nat): (s: seq<byte>)
    ensures |s| == n
  {
    if n == 0 then [] else ToBE(v / 256, n - 1) + [v % 256]
  }

  function Power256(n: nat): (p: nat)
    ensures p > 0
  {
    if n == 0 then 1 else 256 * Power256(n - 1)
  }

  /** Reading back what was written, when it fits the field. */
  lemma {:induction false} FromBEOfToBE(v: nat, n: nat)
    requires v < Power256(n)
    ensures FromBE(ToBE(v, n)) == v
  {
    if n > 0 {
      FromBEOfToBE(v / 256, n - 1);
      assert ToBE(v, n)[..n - 1] == ToBE(v / 256, n - 1);
    }
  }

  /** The most significant byte comes first. */
  lemma BigEndian(v: nat)
    ensures v < 0x1_0000 ==> ToBE(v, 2) == [v / 0x100, v % 0x100]
    ensures v < 0x1_0000_0000 ==> ToBE(v, 4) == [v / 0x100_0000, v / 0x1_0000 % 0x100, v / 0x100 % 0x100, v % 0x100]
  {
    var a, b := v / 0x100, v / 0x1_0000;
    assert a / 0x100 == b && b / 0x100 == v / 0x100_0000;
    ToBETwo(v);
    ToBETwo(b);
    assert ToBE(v, 3) == ToBE(a, 2) + [v % 0x100];
    ToBETwo(a);
    assert ToBE(a, 3) == ToBE(b, 2) + [a % 0x100];
    assert ToBE(v, 4) == ToBE(a, 3) + [v % 0x100];
  }

  lemma ToBETwo(v: nat)
    ensures ToBE(v, 2) == [v / 0x100 % 0x100, v % 0x100]
  {
    assert ToBE(v / 0x100, 1) == ToBE(v / 0x100 / 0x100, 0) + [v / 0x100 % 0x100];
  }

  lemma {:induction false} FromBEFits(s: seq<byte>)
    ensures FromBE(s) < Power256(|s|)
  {
    if s != [] { FromBEFits(s[..|s| - 1]); }
  }

  function Zeros(n: nat): (s: seq<byte>)
    ensures |s| == n && forall i :: 0 <= i < n ==> s[i] == 0
  {
    if n == 0 then [] else Zeros(n - 1) + [0]
  }

  /** A 32-bit field read into an int. */
  function Signed32(n: nat): int {
    if n < 0x8000_0000 then n else n - 0x1_0000_0000
  }
}
