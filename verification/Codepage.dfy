/**
  lib/codepage.c: path names on their way to and from the server. Towards the client, decomposed
  characters are composed again; towards the server only one character is decomposed.
 */
module Codepage {
  import opened Bytes
  import opened Unicode

  const kFPLongName := 2
  const kFPUTF8Name := 3

  const PATH16PRE: nat := 384

  // ---------------------------------------------------------------- composing

  /** The composition fold from the held character prev on. */
  function FoldFrom(t: seq<Row>, prev: char16, s: seq<char16>): (out: seq<char16>)
    requires TableOk(t)
    ensures 1 <= |out| <= |s| + 1
    decreases |s|
  {
    if s == [] then [prev]
    else
      var comp := Compose(t, prev, s[0]);
      if comp != -1 then FoldFrom(t, comp, s[1..])
      else [prev] + FoldFrom(t, s[0], s[1..])
  }

  function Fold(t: seq<Row>, s: seq<char16>): (out: seq<char16>)
    requires TableOk(t)
    ensures |out| <= |s|
  {
    if s == [] then [] else FoldFrom(t, s[0], s[1..])
  }

  lemma {:induction false} FoldFromNonZero(t: seq<Row>, prev: char16, s: seq<char16>)
    requires TableOk(t) && prev != 0 && NonZero(s)
    ensures NonZero(FoldFrom(t, prev, s))
    decreases |s|
  {
    if s != [] {
      hide FindRow;
      var comp := Compose(t, prev, s[0]);
      FoldFromNonZero(t, if comp != -1 then comp else s[0], s[1..]);
    }
  }

  predicate NoComposablePair(t: seq<Row>, s: seq<char16>)
    requires t != []
  {
    forall k :: 0 <= k < |s| - 1 ==> Compose(t, s[k], s[k + 1]) == -1
  }

  /** A character that is held back is the one that was read or a composition, and the latter is never
      the second half of a pair. */
  lemma {:induction false} FoldFromHead(t: seq<Row>, x: char16, prev: char16, s: seq<char16>)
    requires TableOk(t) && Compose(t, x, prev) == -1
    ensures Compose(t, x, FoldFrom(t, prev, s)[0]) == -1
    decreases |s|
  {
    if s != [] && Compose(t, prev, s[0]) != -1 {
      var comp := Compose(t, prev, s[0]);
      CompositionIsNeverSecond(t, x, prev, s[0]);
      FoldFromHead(t, x, comp, s[1..]);
    }
  }

  lemma NeedleSecond(first: char16, second: char16)
    ensures Needle(first, second) % 0x1_0000 == second
  {
  }

  lemma CompositionIsNeverSecond(t: seq<Row>, x: char16, first: char16, second: char16)
    requires TableOk(t) && Compose(t, first, second) != -1
    ensures Compose(t, x, Compose(t, first, second)) == -1
  {
    var j := FindRow(t, Needle(first, second));
    var c := t[j].precomposed;
    NeedleSecond(x, c);
    assert forall i :: 0 < i < |t| ==> t[i].pattern % 0x1_0000 != t[j].precomposed;
  }

  /** The fold leaves nothing to compose ... */
  lemma {:induction false} FoldFromNormal(t: seq<Row>, prev: char16, s: seq<char16>)
    requires TableOk(t)
    ensures NoComposablePair(t, FoldFrom(t, prev, s))
    decreases |s|
  {
    if s != [] {
      hide Compose;
      var comp := Compose(t, prev, s[0]);
      if comp != -1 {
        assert 0 <= comp < 0x1_0000 by { ComposeRange(t, prev, s[0]); }
        FoldFromNormal(t, comp, s[1..]);
      } else {
        FoldFromNormal(t, s[0], s[1..]);
        FoldFromHead(t, prev, s[0], s[1..]);
        var rest := FoldFrom(t, s[0], s[1..]);
        forall k | 0 <= k < |rest| ensures Compose(t, ([prev] + rest)[k], ([prev] + rest)[k + 1]) == -1 {
          if k > 0 { assert ([prev] + rest)[k] == rest[k - 1] && ([prev] + rest)[k + 1] == rest[k]; }
        }
      }
    }
  }

  lemma ComposeRange(t: seq<Row>, a: char16, b: char16)
    requires TableOk(t)
    ensures Compose(t, a, b) == -1 || 0 < Compose(t, a, b) < 0x1_0000
  {
  }

  lemma FoldNormal(t: seq<Row>, s: seq<char16>)
    requires TableOk(t)
    ensures NoComposablePair(t, Fold(t, s))
  {
    if s != [] { FoldFromNormal(t, s[0], s[1..]); }
  }

  lemma {:induction false} FoldFromOfNormal(t: seq<Row>, prev: char16, s: seq<char16>)
    requires TableOk(t) && NoComposablePair(t, [prev] + s)
    ensures FoldFrom(t, prev, s) == [prev] + s
    decreases |s|
  {
    if s != [] {
      hide Compose;
      assert ([prev] + s)[0] == prev && ([prev] + s)[1] == s[0];
      assert [s[0]] + s[1..] == s;
      forall k | 0 <= k < |s| - 1 ensures Compose(t, s[k], s[k + 1]) == -1 {
        assert ([prev] + s)[k + 1] == s[k] && ([prev] + s)[k + 2] == s[k + 1];
      }
      FoldFromOfNormal(t, s[0], s[1..]);
    }
  }

  /** ... and changes nothing when there is nothing to compose, and only then: so a second pass is the
      identity. */
  lemma FoldFixedIff(t: seq<Row>, s: seq<char16>)
    requires TableOk(t)
    ensures Fold(t, s) == s <==> NoComposablePair(t, s)
    ensures Fold(t, Fold(t, s)) == Fold(t, s)
  {
    hide Compose, FoldFrom;
    FoldNormal(t, s);
    var f := Fold(t, s);
    if NoComposablePair(t, s) && s != [] {
      assert [s[0]] + s[1..] == s;
      FoldFromOfNormal(t, s[0], s[1..]);
    }
    if f != [] {
      assert [f[0]] + f[1..] == f;
      FoldFromOfNormal(t, f[0], f[1..]);
    }
  }

  // What the fold does to the content: the input falls into blocks, and each output character is what
  // its block composes to, from the left.

  /** The composition of a block from the left, or -1. */
  function LeftFold(t: seq<Row>, b: seq<char16>): (c: int)
    requires TableOk(t) && b != []
    ensures c == -1 || 0 <= c < 0x1_0000
  {
    if |b| == 1 then b[0]
    else
      var x := LeftFold(t, b[..|b| - 1]);
      if x == -1 then -1 else Compose(t, x, b[|b| - 1])
  }

  function Concat(bs: seq<seq<char16>>): seq<char16> {
    if bs == [] then [] else bs[0] + Concat(bs[1..])
  }

  /** The blocks, each with at least one character, compose to out, and no out character composes with
      the character that follows its block. */
  ghost predicate GreedyBlocks(t: seq<Row>, bs: seq<seq<char16>>, out: seq<char16>)
    requires TableOk(t)
  {
    && |bs| == |out|
    && (forall i :: 0 <= i < |bs| ==> bs[i] != [] && LeftFold(t, bs[i]) == out[i])
    && (forall i :: 0 <= i < |bs| - 1 ==> Compose(t, out[i], bs[i + 1][0]) == -1)
  }

  /** The fold runs through a block and holds its composition. */
  lemma {:induction false} FoldThroughBlock(t: seq<Row>, b: seq<char16>, rest: seq<char16>)
    requires TableOk(t) && b != [] && LeftFold(t, b) != -1
    ensures FoldFrom(t, b[0], b[1..] + rest) == FoldFrom(t, LeftFold(t, b), rest)
    decreases |b|
  {
    hide Compose;
    if |b| == 1 {
      assert b[1..] + rest == rest;
    } else {
      var init, c := b[..|b| - 1], b[|b| - 1];
      assert b[1..] + rest == init[1..] + ([c] + rest);
      assert init[0] == b[0];
      FoldThroughBlock(t, init, [c] + rest);
      assert ([c] + rest)[1..] == rest;
    }
  }

  lemma {:induction false} GreedyBlocksAreFold(t: seq<Row>, bs: seq<seq<char16>>, out: seq<char16>)
    requires TableOk(t) && GreedyBlocks(t, bs, out)
    ensures Fold(t, Concat(bs)) == out
    decreases |bs|
  {
    if bs != [] {
      hide Compose, LeftFold;
      var b, rest := bs[0], Concat(bs[1..]);
      GreedyBlocksAreFold(t, bs[1..], out[1..]);
      assert Concat(bs)[0] == b[0] && Concat(bs)[1..] == b[1..] + rest;
      FoldThroughBlock(t, b, rest);
      if |bs| > 1 {
        assert rest[0] == bs[1][0];
      }
      assert out == [out[0]] + out[1..];
    }
  }

  lemma LeftFoldMore(t: seq<Row>, block: seq<char16>, c: char16)
    requires TableOk(t) && block != [] && LeftFold(t, block) != -1
    ensures t != [] && LeftFold(t, block + [c]) == Compose(t, LeftFold(t, block), c)
    ensures LeftFold(t, [c]) == c
  {
    hide Compose;
    assert (block + [c])[..|block|] == block;
  }

  lemma OneBlock(t: seq<Row>, block: seq<char16>)
    requires TableOk(t) && block != [] && LeftFold(t, block) != -1
    ensures GreedyBlocks(t, [block], [LeftFold(t, block)]) && Concat([block]) == block
  {
    hide Compose, TableOk, LeftFold;
    assert Concat([block]) == block + Concat([block][1..]);
  }

  lemma BlockBefore(t: seq<Row>, block: seq<char16>, more: seq<seq<char16>>, out: seq<char16>)
    requires TableOk(t) && block != [] && LeftFold(t, block) != -1 && GreedyBlocks(t, more, out)
    requires more != [] && more[0] != [] && Compose(t, LeftFold(t, block), more[0][0]) == -1
    ensures GreedyBlocks(t, [block] + more, [LeftFold(t, block)] + out)
    ensures Concat([block] + more) == block + Concat(more)
  {
    hide Compose, TableOk, LeftFold;
    var bs := [block] + more;
    assert bs[1..] == more;
  }

  lemma {:induction false} BlocksFrom(t: seq<Row>, block: seq<char16>, s: seq<char16>) returns (bs: seq<seq<char16>>)
    requires TableOk(t) && block != [] && LeftFold(t, block) != -1
    ensures Concat(bs) == block + s
    ensures GreedyBlocks(t, bs, FoldFrom(t, LeftFold(t, block), s))
    ensures bs != [] && bs[0] != [] && bs[0][0] == block[0]
    decreases |s|
  {
    hide Compose, TableOk, LeftFold, GreedyBlocks, Concat;
    var prev := LeftFold(t, block);
    if s == [] {
      bs := [block];
      OneBlock(t, block);
    } else {
      var c := s[0];
      assert block + s == block + [c] + s[1..] && [c] + s[1..] == s;
      LeftFoldMore(t, block, c);
      if Compose(t, prev, c) != -1 {
        bs := BlocksFrom(t, block + [c], s[1..]);
      } else {
        var more := BlocksFrom(t, [c], s[1..]);
        BlockBefore(t, block, more, FoldFrom(t, c, s[1..]));
        bs := [block] + more;
      }
    }
  }

  /** The fold is exactly the greedy splitting: the input is the concatenation of such blocks for one
      output only, the fold's. */
  lemma FoldIsGreedySplitting(t: seq<Row>, s: seq<char16>, out: seq<char16>)
    requires TableOk(t)
    ensures out == Fold(t, s) <==> exists bs :: Concat(bs) == s && GreedyBlocks(t, bs, out)
  {
    hide FoldFrom, GreedyBlocks;
    if out == Fold(t, s) {
      if s == [] {
        assert Concat([]) == s && GreedyBlocks(t, [], out) by { NoBlocks(t); }
      } else {
        var bs := BlocksFrom(t, [s[0]], s[1..]);
        assert [s[0]] + s[1..] == s;
      }
    }
    forall bs | Concat(bs) == s && GreedyBlocks(t, bs, out) ensures out == Fold(t, s) {
      GreedyBlocksAreFold(t, bs, out);
    }
  }

  lemma NoBlocks(t: seq<Row>)
    requires TableOk(t)
    ensures GreedyBlocks(t, [], [])
  {
  }

  // ---------------------------------------------------------------- decomposing

  /** convert_utf8pre_to_utf8dec: the two bytes of U+00E4 become an a and a combining diaeresis. */
  function Decompose(s: seq<byte>): (d: seq<byte>)
    ensures |s| <= |d|
  {
    if s == [] then []
    else if |s| >= 2 && s[0] == 0xC3 && s[1] == 0xA4 then [0x61, 0xCC, 0x88] + Decompose(s[2..])
    else [s[0]] + Decompose(s[1..])
  }

  /** The two bytes C3 A4 become the three bytes 61 CC 88, and any other byte stays. */
  lemma DecomposedBytes(s: seq<byte>)
    ensures Decompose([0xC3, 0xA4] + s) == [0x61, 0xCC, 0x88] + Decompose(s)
    ensures s != [] && !([0xC3, 0xA4] <= s) ==> Decompose(s) == [s[0]] + Decompose(s[1..])
  {
    var umlaut: seq<byte> := [0xC3, 0xA4];
    assert (umlaut + s)[2..] == s;
    if |s| >= 2 { assert s[..2] == [s[0], s[1]]; }
  }

  /** The same on characters. */
  function Expand(u: seq<char16>): seq<char16> {
    if u == [] then []
    else (if u[0] == 0xE4 then [0x61, 0x308] else [u[0]]) + Expand(u[1..])
  }

  /** The table has the row that composes what was decomposed. */
  ghost predicate HasUmlautRow(t: seq<Row>)
    requires t != []
  {
    Compose(t, 0x61, 0x308) == 0xE4
  }

  lemma DecomposeTwo(s: seq<byte>)
    requires |s| >= 2 && 0xC2 <= s[0] <= 0xDF && Tail(s[1])
    ensures Decompose(s) == (if s[0] == 0xC3 && s[1] == 0xA4 then [0x61, 0xCC, 0x88] else s[..2]) + Decompose(s[2..])
    ensures TwoBytes(s[0], s[1]) == 0xE4 <==> s[0] == 0xC3 && s[1] == 0xA4
  {
    assert s[1..][0] == s[1] && s[1..][1..] == s[2..];
    if !(s[0] == 0xC3 && s[1] == 0xA4) {
      assert [s[0]] + ([s[1]] + Decompose(s[2..])) == s[..2] + Decompose(s[2..]);
    }
    TwoBytesOf(s[0], s[1]);
  }

  lemma DecomposeThree(s: seq<byte>)
    requires |s| >= 3 && 0xE0 <= s[0] && Tail(s[1]) && Tail(s[2])
    ensures Decompose(s) == s[..3] + Decompose(s[3..])
  {
    assert s[1..][0] == s[1] && s[2..][0] == s[2];
    assert s[1..][1..] == s[2..] && s[2..][1..] == s[3..];
    assert Decompose(s) == [s[0]] + Decompose(s[1..]);
    assert Decompose(s[1..]) == [s[1]] + Decompose(s[2..]);
    assert Decompose(s[2..]) == [s[2]] + Decompose(s[3..]);
    assert [s[0]] + ([s[1]] + ([s[2]] + Decompose(s[3..]))) == s[..3] + Decompose(s[3..]);
  }

  lemma DecodePrefix(s: seq<byte>, rest: seq<byte>)
    requires s != [] && |s| == CharLen(s[0]) && 1 <= |s| <= 3 && ShortestForm(s) && ShortestForm(rest)
    ensures ShortestForm(s + rest) && Uncut(s + rest) && Uncut(rest)
    ensures Decode(s + rest) == [DecodeOne(s)] + Decode(rest)
  {
    var b := s + rest;
    assert forall k :: 0 <= k < |s| ==> b[k] == s[k];
    assert b[|s|..] == rest;
    ShortestIsUncut(b);
    ShortestIsUncut(rest);
  }

  /** On shortest-form strings the byte loop decomposes characters: no byte of another character is
      mistaken for U+00E4. */
  lemma {:induction false} DecomposeIsExpand(s: seq<byte>)
    requires ShortestForm(s)
    ensures Uncut(s) && ShortestForm(Decompose(s)) && Uncut(Decompose(s))
    ensures Decode(Decompose(s)) == Expand(Decode(s))
    decreases |s|
  {
    ShortestIsUncut(s);
    if s != [] {
      var n := CharLen(s[0]);
      FirstCharacter(s);
      DecomposeIsExpand(s[n..]);
      assert s == s[..n] + s[n..];
      DecomposeStep(s[..n], s[n..], Decompose(s[n..]));
    }
  }

  lemma DecomposeStep(one: seq<byte>, rest: seq<byte>, d: seq<byte>)
    requires one != [] && |one| == CharLen(one[0]) && |one| <= 3
    requires ShortestForm(one) && ShortestForm(rest) && ShortestForm(d)
    requires Uncut(rest) && Uncut(d) && Decode(d) == Expand(Decode(rest))
    ensures var e := (if DecodeOne(one) == 0xE4 then [0x61, 0xCC, 0x88] else one) + d;
            && Uncut(one + rest) && ShortestForm(e) && Uncut(e) && Decode(e) == Expand(Decode(one + rest))
  {
    hide CharLen, Decode, DecodeOne, ShortestForm, Uncut;
    DecodePrefix(one, rest);
    var u := Decode(one + rest);
    assert u[0] == DecodeOne(one) && u[1..] == Decode(rest);
    if u[0] == 0xE4 {
      UmlautParts(d);
      assert [0x61, 0x308] + Decode(d) == [0x61] + ([0x308] + Decode(d));
    } else {
      DecodePrefix(one, d);
    }
  }

  lemma FirstCharacter(s: seq<byte>)
    requires s != [] && ShortestForm(s)
    ensures var n := CharLen(s[0]);
            && 1 <= n <= 3 && n <= |s| && ShortestForm(s[..n]) && ShortestForm(s[n..])
            && Decompose(s) == (if DecodeOne(s[..n]) == 0xE4 then [0x61, 0xCC, 0x88] else s[..n]) + Decompose(s[n..])
  {
    var n := CharLen(s[0]);
    assert s[..n][n..] == [];
    assert forall k :: 0 <= k < n ==> s[..n][k] == s[k];
    if n == 1 {
      assert [s[0]] == s[..1];
    } else if n == 2 {
      TwoBytesOf(s[0], s[1]);
      DecomposeTwo(s);
    } else {
      DecomposeThree(s);
      ThreeBytesOf(s[0], s[1], s[2]);
    }
  }

  lemma UmlautParts(d: seq<byte>)
    requires ShortestForm(d)
    ensures Uncut(d) && ShortestForm([0x61, 0xCC, 0x88] + d) && Uncut([0x61, 0xCC, 0x88] + d)
    ensures Decode([0x61, 0xCC, 0x88] + d) == [0x61] + ([0x308] + Decode(d))
  {
    var a: seq<byte>, b: seq<byte> := [0x61], [0xCC, 0x88];
    assert a[1..] == [] && b[2..] == [];
    DecodePrefix(b, d);
    DecodePrefix(a, b + d);
    assert [0x61, 0xCC, 0x88] + d == a + (b + d);
  }

  // ---------------------------------------------------------------- there and back

  lemma ExpandUnfolds(u: seq<char16>)
    requires u != []
    ensures Expand(u) == (if u[0] == 0xE4 then [0x61, 0x308] else [u[0]]) + Expand(u[1..])
  {
  }

  lemma LetterAIsNeverSecond(t: seq<Row>, x: char16)
    requires TableOk(t)
    ensures Compose(t, x, 0x61) == -1
  {
    NeedleSecond(x, 0x61);
  }

  lemma {:induction false} FoldOfExpanded(t: seq<Row>, prev: char16, u: seq<char16>)
    requires TableOk(t) && HasUmlautRow(t) && NoComposablePair(t, [prev] + u)
    ensures FoldFrom(t, prev, Expand(u)) == [prev] + u
    decreases |u|
  {
    if u != [] {
      hide Compose, TableOk, Expand;
      ExpandUnfolds(u);
      var c, rest, e := u[0], u[1..], Expand(u[1..]);
      assert ([prev] + u)[0] == prev && ([prev] + u)[1] == c;
      assert [c] + rest == u;
      forall k | 0 <= k < |u| - 1 ensures Compose(t, u[k], u[k + 1]) == -1 {
        assert ([prev] + u)[k + 1] == u[k] && ([prev] + u)[k + 2] == u[k + 1];
      }
      FoldOfExpanded(t, c, rest);
      if c == 0xE4 {
        LetterAIsNeverSecond(t, prev);
        var tail: seq<char16> := [0x308] + e;
        assert Expand(u) == [0x61] + tail;
        assert ([0x61] + tail)[1..] == tail && tail[1..] == e;
        assert FoldFrom(t, 0x61, tail) == FoldFrom(t, 0xE4, e);
      } else {
        assert Expand(u) == [c] + e;
        assert ([c] + e)[1..] == e;
      }
    }
  }

  lemma HasDummy(t: seq<Row>)
    requires TableOk(t)
    ensures t != []
  {
  }

  lemma FoldUndoesExpand(t: seq<Row>, u: seq<char16>)
    requires TableOk(t) && HasUmlautRow(t)
    ensures Fold(t, Expand(u)) == u <==> NoComposablePair(t, u)
  {
    assert t != [] by { HasDummy(t); }
    hide Compose, TableOk;
    hide FoldFrom, Expand, Fold;
    FoldNormal(t, Expand(u));
    if NoComposablePair(t, u) {
      if u == [] {
        ExpandEmpty(t);
      } else {
        assert [u[0]] + u[1..] == u;
        FoldOfExpanded(t, u[0], u[1..]);
        ExpandFirst(t, u);
      }
    }
  }

  lemma ExpandEmpty(t: seq<Row>)
    requires TableOk(t)
    ensures Fold(t, Expand([])) == []
  {
  }

  lemma ExpandFirst(t: seq<Row>, u: seq<char16>)
    requires TableOk(t) && HasUmlautRow(t) && u != []
    ensures Fold(t, Expand(u)) == FoldFrom(t, u[0], Expand(u[1..]))
  {
    hide Compose, TableOk;
    var e := Expand(u[1..]);
    if u[0] == 0xE4 {
      var tail: seq<char16> := [0x308] + e;
      assert Expand(u) == [0x61] + tail && ([0x61] + tail)[1..] == tail && tail[1..] == e;
    } else {
      assert Expand(u) == [u[0]] + e && ([u[0]] + e)[1..] == e;
    }
  }

  /** convert_utf8dec_to_utf8pre. */
  function Precompose(t: seq<Row>, s: seq<byte>): seq<byte>
    requires TableOk(t) && Uncut(s)
  {
    FoldNonZero(t, Decode(s));
    Encode(Fold(t, Decode(s)))
  }

  lemma FoldNonZero(t: seq<Row>, s: seq<char16>)
    requires TableOk(t) && NonZero(s)
    ensures NonZero(Fold(t, s))
  {
    if s != [] { FoldFromNonZero(t, s[0], s[1..]); }
  }

  /**
    A name sent to the server and read back: for every well-formed name of the Basic Multilingual Plane it
    is the same name if and only if no two neighbouring characters of it compose.
   */
  lemma PathRoundTripIff(t: seq<Row>, s: seq<byte>)
    requires TableOk(t) && HasUmlautRow(t) && WellFormedBmp(s)
    ensures Uncut(s) && Uncut(Decompose(s))
    ensures Precompose(t, Decompose(s)) == s <==> NoComposablePair(t, Decode(s))
  {
    hide Compose, TableOk, Fold, Decode, Encode, WellFormedBmp;
    WellFormedIsShortest(s);
    DecomposeIsExpand(s);
    EncodeOfDecode(s);
    var u := Decode(s);
    FoldUndoesExpand(t, u);
    FoldNonZero(t, Expand(u));
    DecodeOfEncode(u);
    DecodeOfEncode(Fold(t, Expand(u)));
  }
}
