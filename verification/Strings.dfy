/** The C string searches the client code is written with, over sequences instead of pointers. */
module Strings {

  datatype Option<+T> = None | Some(value: T)

  /** strrchr: the last index of c in s, or -1. */
  function LastIndexOf(s: string, c: char): (i: int)
    ensures -1 <= i < |s|
    ensures i >= 0 ==> s[i] == c
    ensures forall k :: i < k < |s| ==> s[k] != c
  {
    if s == "" then -1
    else if s[|s| - 1] == c then |s| - 1
    else LastIndexOf(s[..|s| - 1], c)
  }

  /** strchr(s + from, c): the first index of c at or after from, or -1. */
  function IndexFrom(s: string, c: char, from: nat): (i: int)
    requires from <= |s|
    ensures i == -1 || from <= i < |s|
    ensures i >= 0 ==> s[i] == c
    ensures forall k :: from <= k < (if i < 0 then |s| else i) ==> s[k] != c
    decreases |s| - from
  {
    if from == |s| then -1
    else if s[from] == c then from
    else IndexFrom(s, c, from + 1)
  }

  /** Whether w stands in s at index i. */
  predicate Occurs(s: string, w: string, i: int) {
    0 <= i <= |s| - |w| && s[i..i + |w|] == w
  }

  ghost predicate Contains(s: string, w: string) {
    exists i :: Occurs(s, w, i)
  }

  predicate EndsWith(s: string, w: string) {
    Occurs(s, w, |s| - |w|)
  }

  /** strstr(s + from, w): the first place of w at or after from, or -1. */
  function PlaceFrom(s: string, w: string, from: nat): (i: int)
    requires from <= |s|
    ensures i == -1 || (i >= from && Occurs(s, w, i))
    ensures forall k :: from <= k && (i < 0 || k < i) ==> !Occurs(s, w, k)
    decreases |s| - from
  {
    if Occurs(s, w, from) then from
    else if from == |s| then -1
    else PlaceFrom(s, w, from + 1)
  }

  /** A place of w in head + tail that starts before the tail lies in head when w has the character that
      begins the tail nowhere but possibly first. */
  lemma OccursInHead(head: string, tail: string, w: string, i: int)
    requires tail != "" && Occurs(head + tail, w, i) && i < |head|
    requires forall k :: 1 <= k < |w| ==> w[k] != tail[0]
    ensures Occurs(head, w, i)
  {
    var s := head + tail;
    assert forall k :: 0 <= k < |w| ==> w[k] == s[i + k];
    assert s[|head|] == tail[0];
    assert i + |w| <= |head|;
    assert s[i..i + |w|] == head[i..i + |w|];
  }

  lemma LastIs(s: string, c: char, i: nat)
    requires i < |s| && s[i] == c && forall k :: i < k < |s| ==> s[k] != c
    ensures LastIndexOf(s, c) == i
  {
  }

  lemma PlaceIs(s: string, w: string, i: nat)
    requires Occurs(s, w, i) && forall k :: 0 <= k < i ==> !Occurs(s, w, k)
    ensures PlaceFrom(s, w, 0) == i
  {
    hide Occurs;
  }

  lemma PlaceOfNone(s: string, w: string)
    ensures PlaceFrom(s, w, 0) == -1 <==> !Contains(s, w)
  {
    hide PlaceFrom;
    var i := PlaceFrom(s, w, 0);
    assert forall k :: Occurs(s, w, k) ==> 0 <= k;
  }

  lemma ContainsAt(s: string, w: string, i: nat)
    requires i + |w| <= |s| && s[i..i + |w|] == w
    ensures Contains(s, w)
  {
    assert Occurs(s, w, i);
  }
}
