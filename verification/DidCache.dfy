/**
  The directory-ID cache of a mounted volume (lib/did.c) and the operations of lib/midlevel.c that
  rely on it.

  The server is a tree of named nodes, the clock is monotone, and this client is the only one that
  changes the tree. The linked list volume->did_cache_base is a sequence whose head is element 0;
  the pointers p and prev of the lookup loop are indices into it.
 */
module DidCache {
  import opened Strings

  const AFP_ROOT_DID: nat := 2
  const TIMEOUT: nat := 10

  // ---------------------------------------------------------------- the server

  /** A name in a directory stands for a subdirectory, with its directory ID, or for a file. */
  datatype Node = Dir(did: nat) | File

  /** (ID of the directory, name in it) -> node. */
  type Tree = map<(nat, string), Node>

  /** No node has the "not found" ID 0 or the root's ID, and a directory sits in one place only. */
  ghost predicate TreeOk(t: Tree) {
    && (forall k :: k in t && t[k].Dir? ==> t[k].did != 0 && t[k].did != AFP_ROOT_DID)
    && (forall k, l :: k in t && l in t && t[k].Dir? && t[k] == t[l] ==> k == l)
  }

  ghost predicate EmptyDir(t: Tree, d: nat) {
    forall k :: k in t ==> k.0 != d
  }

  function Child(t: Tree, d: nat, name: string): Option<nat> {
    if (d, name) in t && t[(d, name)].Dir? then Some(t[(d, name)].did) else None
  }

  /** The directory that an absolute path without trailing '/' names; "" is the root. */
  function Walk(t: Tree, s: string): Option<nat>
    decreases |s|
  {
    if s == "" then Some(AFP_ROOT_DID)
    else
      var k := LastIndexOf(s, '/');
      if k < 0 then None
      else
        match Walk(t, s[..k])
        case None => None
        case Some(d) => Child(t, d, s[k + 1..])
  }

  /** The directory where a walk along s ends, stopping at the first component that is no directory. */
  function Reached(t: Tree, s: string): nat
    decreases |s|
  {
    if s == "" then AFP_ROOT_DID
    else
      var k := LastIndexOf(s, '/');
      if k < 0 then AFP_ROOT_DID
      else
        match Walk(t, s[..k])
        case None => Reached(t, s[..k])
        case Some(d) => var c := Child(t, d, s[k + 1..]); if c.Some? then c.value else d
  }

  /** The path of the directory where a walk along s ends. */
  function ReachedPath(t: Tree, s: string): string
    decreases |s|
  {
    if s == "" then ""
    else
      var k := LastIndexOf(s, '/');
      if k < 0 then ""
      else
        match Walk(t, s[..k])
        case None => ReachedPath(t, s[..k])
        case Some(d) => if Child(t, d, s[k + 1..]).Some? then s else s[..k]
  }

  /** The first component of s that is no directory, if there is one, exists: it is a file. */
  predicate NothingMissing(t: Tree, s: string)
    decreases |s|
  {
    s == "" ||
    var k := LastIndexOf(s, '/');
    k < 0 ||
    match Walk(t, s[..k])
    case None => NothingMissing(t, s[..k])
    case Some(d) => (d, s[k + 1..]) in t
  }

  // An independent reading of Walk and Reached: descend from the root component by component.

  function Join(cs: seq<string>): string {
    if cs == [] then "" else Join(cs[..|cs| - 1]) + "/" + cs[|cs| - 1]
  }

  /** The directory reached from d, and whether every component was a directory. */
  function Descend(t: Tree, d: nat, cs: seq<string>): (nat, bool)
    decreases |cs|
  {
    if cs == [] then (d, true)
    else
      var c := Child(t, d, cs[0]);
      if c.None? then (d, false) else Descend(t, c.value, cs[1..])
  }

  lemma {:induction false} DescendSnoc(t: Tree, d: nat, cs: seq<string>, name: string)
    ensures Descend(t, d, cs + [name]) ==
            var r := Descend(t, d, cs);
            if !r.1 then r
            else var c := Child(t, r.0, name); if c.None? then (r.0, false) else (c.value, true)
    decreases |cs|
  {
    if cs == [] {
    } else {
      assert (cs + [name])[1..] == cs[1..] + [name];
      if Child(t, d, cs[0]).Some? {
        DescendSnoc(t, Child(t, d, cs[0]).value, cs[1..], name);
      }
    }
  }

  lemma {:induction false} LastSlashOfJoin(prefix: string, name: string)
    requires '/' !in name
    ensures LastIndexOf(prefix + "/" + name, '/') == |prefix|
    decreases |name|
  {
    var s := prefix + "/" + name;
    if name == "" {
      assert s[|s| - 1] == '/';
    } else {
      var init := name[..|name| - 1];
      assert s[|s| - 1] == name[|name| - 1];
      assert s[..|s| - 1] == prefix + "/" + init;
      LastSlashOfJoin(prefix, init);
    }
  }

  lemma WalkAppend(t: Tree, prefix: string, name: string)
    requires '/' !in name
    ensures Walk(t, prefix + "/" + name) ==
            match Walk(t, prefix) case None => None case Some(d) => Child(t, d, name)
    ensures Reached(t, prefix + "/" + name) ==
            match Walk(t, prefix)
            case None => Reached(t, prefix)
            case Some(d) => var c := Child(t, d, name); if c.Some? then c.value else d
  {
    LastSlashOfJoin(prefix, name);
    var s := prefix + "/" + name;
    assert s[..|prefix|] == prefix && s[|prefix| + 1..] == name;
  }

  lemma RootWalk(t: Tree)
    ensures Walk(t, "") == Some(AFP_ROOT_DID) && Reached(t, "") == AFP_ROOT_DID == 2
  {
  }

  lemma {:induction false} WalkIsDescent(t: Tree, cs: seq<string>)
    requires forall c :: c in cs ==> '/' !in c
    ensures Reached(t, Join(cs)) == Descend(t, AFP_ROOT_DID, cs).0
    ensures Walk(t, Join(cs)) ==
            var r := Descend(t, AFP_ROOT_DID, cs); if r.1 then Some(r.0) else None
  {
    if cs == [] {
    } else {
      var init, name := cs[..|cs| - 1], cs[|cs| - 1];
      assert cs == init + [name];
      WalkIsDescent(t, init);
      DescendSnoc(t, AFP_ROOT_DID, init, name);
      WalkAppend(t, Join(init), name);
    }
  }

  // Facts about paths and trees.

  lemma WalkStep(t: Tree, s: string, p: nat, n: nat)
    requires p < n <= |s| && s[p] == '/'
    requires forall k :: p < k < n ==> s[k] != '/'
    ensures Walk(t, s[..n]) ==
            match Walk(t, s[..p]) case None => None case Some(d) => Child(t, d, s[p + 1..n])
    ensures Reached(t, s[..n]) ==
            match Walk(t, s[..p])
            case None => Reached(t, s[..p])
            case Some(d) => var c := Child(t, d, s[p + 1..n]); if c.Some? then c.value else d
    ensures Walk(t, s[..p]).Some? ==>
              var d := Walk(t, s[..p]).value;
              && (NothingMissing(t, s[..n]) <==> (d, s[p + 1..n]) in t)
              && ReachedPath(t, s[..n]) == if Child(t, d, s[p + 1..n]).Some? then s[..n] else s[..p]
  {
    var u := s[..n];
    assert u[p] == '/';
    assert LastIndexOf(u, '/') == p;
    assert u[..p] == s[..p] && u[p + 1..] == s[p + 1..n];
  }

  /** Once a walk has failed it stays where it stopped. */
  lemma {:induction false} ReachedStops(t: Tree, s: string, n: nat)
    requires n <= |s| && (n == |s| || s[n] == '/')
    requires Walk(t, s[..n]).None?
    ensures Walk(t, s).None? && Reached(t, s) == Reached(t, s[..n])
    ensures ReachedPath(t, s) == ReachedPath(t, s[..n]) && (NothingMissing(t, s) <==> NothingMissing(t, s[..n]))
    decreases |s|
  {
    if n == |s| {
      assert s[..n] == s;
    } else {
      var k := LastIndexOf(s, '/');
      assert k >= n;
      assert s[..k][..n] == s[..n];
      ReachedStops(t, s[..k], n);
    }
  }

  /** A walk gets at least as far as any beginning of its path that is a directory. */
  lemma {:induction false} ReachedPathCovers(t: Tree, s: string, n: nat)
    requires n <= |s| && (n == |s| || s[n] == '/') && Walk(t, s[..n]).Some?
    ensures |ReachedPath(t, s)| >= n && (Walk(t, s).Some? ==> NothingMissing(t, s))
    decreases |s|
  {
    if n == |s| {
      assert s[..n] == s;
    } else {
      var k := LastIndexOf(s, '/');
      assert k >= n;
      assert s[..k][..n] == s[..n];
      ReachedPathCovers(t, s[..k], n);
    }
  }

  /** The node a walk ends at. */
  lemma WalkKey(t: Tree, s: string)
    requires s != "" && Walk(t, s).Some?
    ensures var k := LastIndexOf(s, '/');
            && k >= 0 && Walk(t, s[..k]).Some?
            && (Walk(t, s[..k]).value, s[k + 1..]) in t
            && t[(Walk(t, s[..k]).value, s[k + 1..])] == Dir(Walk(t, s).value)
  {
  }

  lemma {:induction false} WalkUnique(t: Tree, s1: string, s2: string)
    requires TreeOk(t)
    requires Walk(t, s1).Some? && Walk(t, s1) == Walk(t, s2)
    ensures s1 == s2
    decreases |s1|
  {
    hide LastIndexOf;
    if s1 != "" { WalkKey(t, s1); }
    if s2 != "" { WalkKey(t, s2); }
    if s1 != "" && s2 != "" {
      hide Walk;
      var k1, k2 := LastIndexOf(s1, '/'), LastIndexOf(s2, '/');
      WalkUnique(t, s1[..k1], s2[..k2]);
      assert s1 == s1[..k1] + "/" + s1[k1 + 1..];
      assert s2 == s2[..k2] + "/" + s2[k2 + 1..];
    }
  }

  /** Adding a name changes no walk that succeeded. */
  lemma {:induction false} WalkSurvivesAdd(t: Tree, key: (nat, string), node: Node, s: string)
    requires key !in t
    requires Walk(t, s).Some?
    ensures Walk(t[key := node], s) == Walk(t, s)
    decreases |s|
  {
    if s != "" {
      WalkSurvivesAdd(t, key, node, s[..LastIndexOf(s, '/')]);
    }
  }

  /** Removing a file or an empty directory changes no walk but the one to that directory. */
  lemma {:induction false} WalkSurvivesDelete(t: Tree, key: (nat, string), s: string)
    requires TreeOk(t) && key in t && (t[key].Dir? ==> EmptyDir(t, t[key].did))
    requires Walk(t, s).Some? && (t[key].Dir? ==> Walk(t, s).value != t[key].did)
    ensures Walk(t - {key}, s) == Walk(t, s)
    decreases |s|
  {
    if s != "" {
      var k := LastIndexOf(s, '/');
      var d := Walk(t, s[..k]).value;
      assert (d, s[k + 1..]) in t;
      WalkSurvivesDelete(t, key, s[..k]);
    }
  }

  /** The walk that stopped along s did get to the directory where it stopped. */
  lemma {:induction false} ReachedHasPath(t: Tree, s: string)
    ensures Walk(t, ReachedPath(t, s)) == Some(Reached(t, s))
    ensures Walk(t, s).Some? ==> ReachedPath(t, s) == s
    decreases |s|
  {
    if s != "" {
      hide LastIndexOf;
      RootWalk(t);
      var k := LastIndexOf(s, '/');
      if k >= 0 { ReachedHasPath(t, s[..k]); }
    }
  }

  // ---------------------------------------------------------------- the cache

  datatype Entry = Entry(dirname: string, did: nat, time: nat)

  predicate Fresh(e: Entry, now: nat) {
    now <= e.time + TIMEOUT
  }

  /** What every operation keeps: newest first, no entry from the future, and of several unexpired entries
      of one name all but the newest without an ID. */
  ghost predicate CacheOk(c: seq<Entry>, now: nat) {
    && (forall i, j :: 0 <= i < j < |c| ==> c[j].time <= c[i].time)
    && (forall i :: 0 <= i < |c| ==> c[i].time <= now)
    && (forall i, j :: 0 <= i < j < |c| && Fresh(c[i], now) && Fresh(c[j], now) && c[i].dirname == c[j].dirname
          ==> c[j].did == 0)
  }

  /** Every unexpired entry names an existing directory and holds its ID. */
  ghost predicate Coherent(c: seq<Entry>, t: Tree, now: nat) {
    forall i :: 0 <= i < |c| && Fresh(c[i], now) ==> Walk(t, c[i].dirname) == Some(c[i].did)
  }

  /** No unexpired entry of that name holds an ID. */
  ghost predicate Misses(c: seq<Entry>, name: string, now: nat) {
    forall i :: 0 <= i < |c| && Fresh(c[i], now) && c[i].did != 0 ==> c[i].dirname != name
  }

  /** Some unexpired entry has that name. */
  predicate Hits(c: seq<Entry>, name: string, now: nat) {
    exists i :: 0 <= i < |c| && Fresh(c[i], now) && c[i].dirname == name
  }

  /** The ID of the first unexpired entry of that name, or 0. */
  function FreshDid(c: seq<Entry>, name: string, now: nat): nat {
    if c == [] then 0
    else if Fresh(c[0], now) && c[0].dirname == name then c[0].did
    else FreshDid(c[1..], name, now)
  }

  /** The lookup's answer: 0 exactly when it misses, otherwise the ID in an unexpired entry. */
  lemma {:induction false} FreshDidMeaning(c: seq<Entry>, name: string, now: nat)
    requires CacheOk(c, now)
    ensures FreshDid(c, name, now) == 0 <==> Misses(c, name, now)
    ensures !Hits(c, name, now) ==> Misses(c, name, now)
    ensures FreshDid(c, name, now) != 0 ==>
              exists i :: 0 <= i < |c| && Fresh(c[i], now) && c[i].dirname == name && c[i].did == FreshDid(c, name, now)
  {
    if c == [] {
    } else if Fresh(c[0], now) && c[0].dirname == name {
    } else {
      SliceOk(c, 1, |c|, now, now);
      assert c[1..|c|] == c[1..];
      FreshDidMeaning(c[1..], name, now);
      if FreshDid(c[1..], name, now) != 0 {
        var did := FreshDid(c[1..], name, now);
        var i :| 0 <= i < |c[1..]| && Fresh(c[1..][i], now) && c[1..][i].dirname == name && c[1..][i].did == did;
        assert c[i + 1] == c[1..][i];
      } else {
        forall i | 0 <= i < |c| && Fresh(c[i], now) && c[i].did != 0 ensures c[i].dirname != name {
          if i > 0 { assert c[i] == c[1..][i - 1]; }
        }
      }
    }
  }

  /** An entry is good for ten seconds after the one it was made in. */
  lemma GoodForTenSeconds(e: Entry, now: nat)
    ensures FreshDid([e], e.dirname, now) == if now <= e.time + 10 then e.did else 0
    ensures FreshDid([e], e.dirname, e.time + 10) == e.did && FreshDid([e], e.dirname, e.time + 11) == 0
    ensures Fresh(e, now) <==> now <= e.time + 10
  {
    assert [e][0] == e && [e][1..] == [];
  }

  lemma {:induction false} FreshDidFound(c: seq<Entry>, i: nat, name: string, now: nat)
    requires i < |c| && Fresh(c[i], now) && c[i].dirname == name
    requires forall k :: 0 <= k < i ==> !(Fresh(c[k], now) && c[k].dirname == name)
    ensures FreshDid(c, name, now) == c[i].did
  {
    if i > 0 {
      assert forall k :: 0 <= k < i - 1 ==> c[1..][k] == c[k + 1];
      FreshDidFound(c[1..], i - 1, name, now);
    }
  }

  /** The number of unexpired entries at the head; newest first, everything behind is expired. */
  function FreshCount(c: seq<Entry>, now: nat): (n: nat)
    ensures n <= |c| && forall i :: 0 <= i < n ==> Fresh(c[i], now)
    ensures n < |c| ==> !Fresh(c[n], now)
  {
    if c == [] || !Fresh(c[0], now) then 0 else 1 + FreshCount(c[1..], now)
  }

  /** The lookup loop once it has cut the head off: entries go in pairs, because each cut is followed
      by a step over the new head. */
  function DropPairs(c: seq<Entry>, name: string): seq<Entry> {
    if |c| < 2 then c
    else if c[1].dirname == name then c[2..]
    else DropPairs(c[2..], name)
  }

  /** The list a lookup leaves behind. */
  function Swept(c: seq<Entry>, name: string, now: nat): seq<Entry> {
    var n := FreshCount(c, now);
    if Hits(c, name, now) || n == |c| then c
    else if n >= 2 then c[..n]
    else if n == 1 then DropPairs(c, name)
    else if c[0].dirname == name then c[1..]
    else DropPairs(c[1..], name)
  }

  ghost predicate IsSlice(c: seq<Entry>, whole: seq<Entry>) {
    exists a, b :: 0 <= a <= b <= |whole| && c == whole[a..b]
  }

  lemma {:induction false} DropPairsIsSuffix(c: seq<Entry>, name: string)
    ensures |DropPairs(c, name)| <= |c| && DropPairs(c, name) == c[|c| - |DropPairs(c, name)|..]
  {
    if |c| >= 2 && c[1].dirname != name {
      DropPairsIsSuffix(c[2..], name);
    }
  }

  lemma SweptIsSlice(c: seq<Entry>, name: string, now: nat)
    ensures IsSlice(Swept(c, name, now), c)
  {
    DropPairsIsSuffix(c, name);
    var d := Swept(c, name, now);
    if d == c {
      assert d == c[0..|c|];
    } else if FreshCount(c, now) >= 2 {
      assert d == c[0..FreshCount(c, now)];
    } else {
      if c != [] { DropPairsIsSuffix(c[1..], name); }
      assert d == c[|c| - |d|..|c|];
    }
  }

  /** A lookup that misses keeps all unexpired entries, except that a single unexpired entry in front
      of expired ones is dropped with them. */
  lemma {:induction false} SweptKeepsFresh(c: seq<Entry>, name: string, now: nat)
    requires CacheOk(c, now)
    ensures (forall i :: 0 <= i < |c| && Fresh(c[i], now) ==> c[i] in Swept(c, name, now)) <==>
            !(FreshCount(c, now) == 1 && |c| > 1 && !Hits(c, name, now))
  {
    var n := FreshCount(c, now);
    assert forall i :: n <= i < |c| ==> !Fresh(c[i], now);
    if n == 1 && |c| > 1 && !Hits(c, name, now) {
      DropPairsIsSuffix(c, name);
      assert |DropPairs(c, name)| <= |c| - 2 by {
        DropPairsIsSuffix(c[2..], name);
      }
      assert c[0] !in Swept(c, name, now);
    } else if Hits(c, name, now) || n == |c| {
    } else if n >= 2 {
      assert forall i :: 0 <= i < n ==> c[i] == c[..n][i];
    }
  }

  lemma SliceKeeps(c: seq<Entry>, whole: seq<Entry>, t: Tree, before: nat, now: nat)
    requires IsSlice(c, whole) && before <= now
    ensures CacheOk(whole, before) ==> CacheOk(c, now)
    ensures Coherent(whole, t, before) ==> Coherent(c, t, now)
    ensures forall name :: Misses(whole, name, before) ==> Misses(c, name, now)
  {
    hide CacheOk, Coherent, Misses;
    var a, b :| 0 <= a <= b <= |whole| && c == whole[a..b];
    if CacheOk(whole, before) { SliceOk(whole, a, b, before, now); }
    if Coherent(whole, t, before) { SliceCoherent(whole, a, b, t, before, now); }
    forall name | Misses(whole, name, before) ensures Misses(c, name, now) {
      SliceMisses(whole, a, b, name, before, now);
    }
  }

  lemma SliceOk(whole: seq<Entry>, a: nat, b: nat, before: nat, now: nat)
    requires a <= b <= |whole| && before <= now && CacheOk(whole, before)
    ensures CacheOk(whole[a..b], now)
  {
  }

  lemma SliceCoherent(whole: seq<Entry>, a: nat, b: nat, t: Tree, before: nat, now: nat)
    requires a <= b <= |whole| && before <= now && Coherent(whole, t, before)
    ensures Coherent(whole[a..b], t, now)
  {
    hide Walk;
  }

  lemma SliceMisses(whole: seq<Entry>, a: nat, b: nat, name: string, before: nat, now: nat)
    requires a <= b <= |whole| && before <= now && Misses(whole, name, before)
    ensures Misses(whole[a..b], name, now)
  {
  }

  /** remove_did_entry: take out the first entry of that name, expired or not. */
  function RemoveFirst(c: seq<Entry>, name: string): seq<Entry> {
    if c == [] then [] else if c[0].dirname == name then c[1..] else [c[0]] + RemoveFirst(c[1..], name)
  }

  lemma {:induction false} RemoveFirstAt(c: seq<Entry>, name: string) returns (n: nat)
    ensures n <= |c|
    ensures forall i :: 0 <= i < n ==> c[i].dirname != name
    ensures n == |c| ==> RemoveFirst(c, name) == c
    ensures n < |c| ==> c[n].dirname == name && RemoveFirst(c, name) == c[..n] + c[n + 1..]
  {
    if c == [] {
      n := 0;
    } else if c[0].dirname == name {
      n := 0;
    } else {
      var m := RemoveFirstAt(c[1..], name);
      n := m + 1;
      assert forall i :: 0 < i < n ==> c[i] == c[1..][i - 1];
      GapBehindHead(c, m);
    }
  }

  lemma GapBehindHead(c: seq<Entry>, m: nat)
    requires m < |c|
    ensures c == [c[0]] + c[1..]
    ensures m + 1 < |c| ==> c[..m + 1] + c[m + 2..] == [c[0]] + (c[1..][..m] + c[1..][m + 1..])
  {
  }

  /** Because unexpired entries stand in front and their names are distinct, removing the first entry
      of a name leaves no unexpired entry of it. */
  lemma RemoveFirstKeeps(c: seq<Entry>, name: string, t: Tree, now: nat)
    requires CacheOk(c, now)
    ensures CacheOk(RemoveFirst(c, name), now)
    ensures Misses(RemoveFirst(c, name), name, now)
    ensures Coherent(c, t, now) ==> Coherent(RemoveFirst(c, name), t, now)
    ensures forall e :: e in RemoveFirst(c, name) ==> e in c
  {
    hide RemoveFirst, CacheOk, Misses, Coherent;
    var n := RemoveFirstAt(c, name);
    if n < |c| {
      GapOk(c, n, now);
      GapMisses(c, n, name, now);
      if Coherent(c, t, now) { GapCoherent(c, n, t, now); }
    } else {
      NameMissed(c, name, now);
    }
  }

  function Gap(c: seq<Entry>, n: nat): (d: seq<Entry>)
    requires n < |c|
    ensures |d| == |c| - 1 && forall i :: 0 <= i < |d| ==> d[i] == c[if i < n then i else i + 1]
    ensures forall e :: e in d ==> e in c
  {
    c[..n] + c[n + 1..]
  }

  lemma GapOk(c: seq<Entry>, n: nat, now: nat)
    requires n < |c| && CacheOk(c, now)
    ensures CacheOk(Gap(c, n), now)
  {
    hide Gap;
  }

  lemma GapMisses(c: seq<Entry>, n: nat, name: string, now: nat)
    requires n < |c| && CacheOk(c, now) && c[n].dirname == name && forall i :: 0 <= i < n ==> c[i].dirname != name
    ensures Misses(Gap(c, n), name, now)
  {
    hide Gap;
    var d := Gap(c, n);
    forall i | 0 <= i < |d| && Fresh(d[i], now) && d[i].did != 0 ensures d[i].dirname != name {
      if i >= n { assert d[i] == c[i + 1] && Fresh(c[n], now); }
    }
  }

  lemma GapCoherent(c: seq<Entry>, n: nat, t: Tree, now: nat)
    requires n < |c| && Coherent(c, t, now)
    ensures Coherent(Gap(c, n), t, now)
  {
    hide Gap, Walk;
  }

  lemma NameMissed(c: seq<Entry>, name: string, now: nat)
    requires forall i :: 0 <= i < |c| ==> c[i].dirname != name
    ensures Misses(c, name, now)
  {
  }

  /** A directory ID leaves the tree: the cache stays right if no unexpired entry of its path is left. */
  lemma DeleteKeepsCoherent(c: seq<Entry>, t: Tree, key: (nat, string), path: string, now: nat)
    requires TreeOk(t) && key in t && (t[key].Dir? ==> EmptyDir(t, t[key].did) && Walk(t, path) == Some(t[key].did))
    requires t[key].Dir? ==> Misses(c, path, now)
    requires Coherent(c, t, now)
    ensures Coherent(c, t - {key}, now)
  {
    forall i | 0 <= i < |c| && Fresh(c[i], now) ensures Walk(t - {key}, c[i].dirname) == Some(c[i].did) {
      if t[key].Dir? && c[i].did == t[key].did {
        WalkUnique(t, c[i].dirname, path);
      }
      WalkSurvivesDelete(t, key, c[i].dirname);
    }
  }

  lemma OneEntry(e: Entry, t: Tree, path: string)
    ensures CacheOk([e], e.time)
    ensures Coherent([e], t, e.time) <==> Walk(t, e.dirname) == Some(e.did)
    ensures path != e.dirname ==> RemoveFirst([e], path) == [e]
  {
    assert [e][0] == e && Fresh(e, e.time);
  }

  lemma ReachedOfWalk(t: Tree, s: string)
    ensures Walk(t, s).Some? ==> Reached(t, s) == Walk(t, s).value
  {
  }
}
