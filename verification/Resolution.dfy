/**
  The forward loop of get_dirid (lib/did.c) on values. It does not look at the result of
  afp_getfiledirparms, and an error reply leaves the structure fi as it was: a component that does not
  exist is taken for whatever the reply before it was about.
 */
module Resolution {
  import opened DidCache
  import opened Strings

  /** The fields of struct afp_file_info that get_dirid reads. */
  datatype Info = Info(isdir: bool, fileid: nat)

  /** fi after afp_getfiledirparms: the node's, or, on an error reply, unchanged. */
  function Lookup(t: Tree, did: nat, name: string, fi: Info): Info {
    if (did, name) !in t then fi
    else match t[(did, name)]
      case Dir(d) => Info(true, d)
      case File => Info(false, 0)
  }

  /** The loop from the directory did at path[..p] on: where it ends, and the cache entries it adds, newest
      first. */
  function Forward(t: Tree, path: string, p: nat, did: nat, fi: Info): (nat, seq<(string, nat)>)
    requires p < |path|
    decreases |path| - p
  {
    var next := IndexFrom(path, '/', p + 1);
    if next < 0 then (did, [])
    else
      var got := Lookup(t, did, path[p + 1..next], fi);
      if !got.isdir then (did, [])
      else var r := Forward(t, path, next, got.fileid, got); (r.0, r.1 + [(path[..next], got.fileid)])
  }

  /** Every entry names an existing directory and holds its ID. */
  predicate AllWalk(t: Tree, es: seq<(string, nat)>) {
    forall i :: 0 <= i < |es| ==> Walk(t, es[i].0) == Some(es[i].1)
  }

  /** The loop stays right: nothing on the way is missing; or it starts right in front of what is missing,
      and what happened to be in fi was not about a directory. */
  predicate Resolves(t: Tree, parent: string, start: string, fi: Info) {
    NothingMissing(t, parent) || (!fi.isdir && start == ReachedPath(t, parent))
  }

  /** One step of the loop, with what has been added before. */
  lemma ForwardAt(t: Tree, path: string, p: nat, did: nat, fi: Info, added: seq<(string, nat)>)
    requires p < |path|
    ensures var r, next := Forward(t, path, p, did, fi), IndexFrom(path, '/', p + 1);
            && r.1 + [] == r.1
            && if next < 0 then r.0 == did && r.1 + added == added
               else
                 var got := Lookup(t, did, path[p + 1..next], fi);
                 if !got.isdir then r.0 == did && r.1 + added == added
                 else
                   var rest := Forward(t, path, next, got.fileid, got);
                   r.0 == rest.0 && r.1 + added == rest.1 + ([(path[..next], got.fileid)] + added)
  {
    hide IndexFrom, Lookup;
    assert [] + added == added;
  }

  lemma NoForward(t: Tree, path: string, last: nat, did: nat, fi: Info)
    requires last < |path| && last == LastIndexOf(path, '/')
    ensures Forward(t, path, last, did, fi) == (did, [])
  {
  }

  /** All entries of the loop are for longer and longer beginnings of the path. */
  lemma {:induction false} ForwardNames(t: Tree, path: string, p: nat, did: nat, fi: Info, i: nat)
    requires p < |path| && i < |Forward(t, path, p, did, fi).1|
    ensures var name := Forward(t, path, p, did, fi).1[i].0;
            p < |name| < |path| && path[|name|] == '/' && name == path[..|name|]
    decreases |path| - p
  {
    hide Lookup, IndexFrom;
    var next := IndexFrom(path, '/', p + 1);
    var got := Lookup(t, did, path[p + 1..next], fi);
    if i < |Forward(t, path, next, got.fileid, got).1| { ForwardNames(t, path, next, got.fileid, got, i); }
  }

  lemma {:induction false} ForwardShrinks(t: Tree, path: string, p: nat, did: nat, fi: Info, i: nat, j: nat)
    requires p < |path| && i < j < |Forward(t, path, p, did, fi).1|
    ensures var es := Forward(t, path, p, did, fi).1; |es[j].0| < |es[i].0|
    decreases |path| - p
  {
    hide Lookup, IndexFrom;
    var next := IndexFrom(path, '/', p + 1);
    var got := Lookup(t, did, path[p + 1..next], fi);
    if j < |Forward(t, path, next, got.fileid, got).1| {
      ForwardShrinks(t, path, next, got.fileid, got, i, j);
    } else {
      ForwardNames(t, path, next, got.fileid, got, i);
    }
  }

  /** Behind a beginning of the path that is no directory, no entry is right. */
  lemma NoneWalks(t: Tree, path: string, p: nat, did: nat, fi: Info, i: nat)
    requires p < |path| && path[p] == '/' && Walk(t, path[..p]).None? && i < |Forward(t, path, p, did, fi).1|
    ensures Walk(t, Forward(t, path, p, did, fi).1[i].0).None?
  {
    hide Walk, Forward;
    ForwardNames(t, path, p, did, fi, i);
    var name := Forward(t, path, p, did, fi).1[i].0;
    assert name[..p] == path[..p] && name[p] == '/';
    ReachedStops(t, name, p);
  }

  /**
    Where the loop ends and what it leaves, from any directory on the path and with any contents of fi: it
    ends where the plain walk stops, with right entries only, exactly if it resolves; otherwise the newest
    entry it leaves is for a path that does not exist.
   */
  lemma {:induction false} ForwardMeaning(t: Tree, path: string, last: nat, p: nat, did: nat, fi: Info)
    requires last == LastIndexOf(path, '/') && p <= last < |path| && path[p] == '/' && Walk(t, path[..p]) == Some(did)
    ensures var r, parent := Forward(t, path, p, did, fi), path[..last];
            if Resolves(t, parent, path[..p], fi) then AllWalk(t, r.1) && r.0 == Reached(t, parent)
            else r.1 != [] && Walk(t, r.1[0].0).None?
    decreases last - p
  {
    hide Walk, Reached, ReachedPath, NothingMissing, LastIndexOf, IndexFrom, Resolves, AllWalk, Lookup;
    var next := IndexFrom(path, '/', p + 1);
    if next < 0 {
      assert p == last;
      ForwardArrives(t, path[..last], fi);
    } else {
      var name, got := path[p + 1..next], Lookup(t, did, path[p + 1..next], fi);
      WalkStep(t, path, p, next);
      if (did, name) in t && t[(did, name)].Dir? {
        LookupDir(t, did, name, fi);
        ForwardMeaning(t, path, last, next, got.fileid, got);
        ForwardGoesOn(t, path[..last], path[..p], path[..next], fi, got, Forward(t, path, next, got.fileid, got).1);
      } else {
        ForwardStops(t, path, last, p, next, did, fi);
      }
    }
  }

  lemma LookupDir(t: Tree, did: nat, name: string, fi: Info)
    requires (did, name) in t && t[(did, name)].Dir?
    ensures Lookup(t, did, name, fi) == Info(true, t[(did, name)].did)
    ensures Child(t, did, name) == Some(t[(did, name)].did)
  {
  }

  lemma ForwardArrives(t: Tree, parent: string, fi: Info)
    requires Walk(t, parent).Some?
    ensures Resolves(t, parent, parent, fi) && AllWalk(t, []) && Walk(t, parent).value == Reached(t, parent)
  {
    hide Walk, Reached, ReachedPath, NothingMissing;
    ReachedOfWalk(t, parent);
    assert parent[..|parent|] == parent;
    ReachedPathCovers(t, parent, |parent|);
  }

  lemma ForwardGoesOn(t: Tree, parent: string, start: string, next: string, fi: Info, got: Info, es: seq<(string, nat)>)
    requires |start| < |next| <= |parent| && next == parent[..|next|] && (|next| == |parent| || parent[|next|] == '/')
    requires got.isdir && Walk(t, next) == Some(got.fileid)
    ensures Resolves(t, parent, start, fi) <==> Resolves(t, parent, next, got)
    ensures AllWalk(t, es) <==> AllWalk(t, es + [(next, got.fileid)])
    ensures es != [] ==> (es + [(next, got.fileid)])[0] == es[0]
  {
    hide Walk, Reached, ReachedPath, NothingMissing;
    ReachedPathCovers(t, parent, |next|);
    var es' := es + [(next, got.fileid)];
    assert forall i :: 0 <= i < |es| ==> es'[i] == es[i];
    assert es'[|es|] == (next, got.fileid);
  }

  lemma ForwardStops(t: Tree, path: string, last: nat, p: nat, next: nat, did: nat, fi: Info)
    requires last == LastIndexOf(path, '/') && p < next <= last < |path|
    requires path[p] == '/' && Walk(t, path[..p]) == Some(did)
    requires next == IndexFrom(path, '/', p + 1) && Child(t, did, path[p + 1..next]).None?
    ensures var r, parent := Forward(t, path, p, did, fi), path[..last];
            if Resolves(t, parent, path[..p], fi) then AllWalk(t, r.1) && r.0 == Reached(t, parent)
            else r.1 != [] && Walk(t, r.1[0].0).None?
  {
    hide Walk, Reached, ReachedPath, NothingMissing, LastIndexOf, IndexFrom;
    var parent, got := path[..last], Lookup(t, did, path[p + 1..next], fi);
    WalkStep(t, path, p, next);
    assert parent[..next] == path[..next] && parent[..p] == path[..p];
    ReachedStops(t, parent, next);
    ReachedOfWalk(t, path[..p]);
    if got.isdir { MissingIsCached(t, path, p, next, did, fi); }
  }

  lemma MissingIsCached(t: Tree, path: string, p: nat, next: nat, did: nat, fi: Info)
    requires p < |path| && next == IndexFrom(path, '/', p + 1) && Walk(t, path[..next]).None?
    requires (did, path[p + 1..next]) !in t && fi.isdir
    ensures var r := Forward(t, path, p, did, fi); r.1 != [] && Walk(t, r.1[0].0).None?
  {
    hide Walk, IndexFrom;
    var rest := Forward(t, path, next, fi.fileid, fi);
    if rest.1 != [] { NoneWalks(t, path, next, fi.fileid, fi, 0); }
  }

  // ---------------------------------------------------------------- the backward search

  /** How far the search has got: the name it has found or looks up next, the ID found, the list left. */
  datatype Search = Search(name: string, did: nat, cache: seq<Entry>)

  predicate Over(s: Search) {
    s.name == "" || s.did != 0
  }

  function StartDid(s: Search): nat {
    if s.name == "" then AFP_ROOT_DID else s.did
  }

  /** The lookups of get_dirid, one for each reading of the clock: the path of the parent, and one component
      less each time, until a lookup finds an ID or nothing is left. */
  function Searching(c: seq<Entry>, parent: string, times: seq<nat>): (s: Search)
    ensures |s.name| <= |parent| && s.name == parent[..|s.name|]
    ensures |s.name| == |parent| || parent[|s.name|] == '/' || s.name == ""
    decreases |times|
  {
    if times == [] then Search(parent, 0, c)
    else
      var s, now := Searching(c, parent, times[..|times| - 1]), times[|times| - 1];
      if Over(s) then s
      else
        var did, k := FreshDid(s.cache, s.name, now), LastIndexOf(s.name, '/');
        Search(if did != 0 then s.name else if k < 0 then "" else s.name[..k], did, Swept(s.cache, s.name, now))
  }

  /** Readings of a clock that shows from before and to after. */
  predicate Readings(times: seq<nat>, from: nat, to: nat) {
    from <= to &&
    (times != [] ==> Readings(times[..|times| - 1], from, times[|times| - 1]) && times[|times| - 1] <= to)
  }

  lemma LaterReading(times: seq<nat>, from: nat, before: nat, to: nat)
    requires Readings(times, from, before) && before <= to
    ensures Readings(times, from, to)
  {
  }

  lemma NoSearch(c: seq<Entry>, parent: string, now: nat)
    ensures Searching(c, parent, []) == Search(parent, 0, c) && Readings([], now, now)
  {
  }

  /** No unexpired entry holds an ID for a path longer than n on the way to the parent. */
  ghost predicate MissedBeyond(c: seq<Entry>, parent: string, n: nat, now: nat) {
    forall k :: n < k <= |parent| && (k == |parent| || parent[k] == '/') ==> Misses(c, parent[..k], now)
  }

  /** What the search leaves is in order and coherent, what it starts from is right, and everything longer
      has been missed. */
  lemma {:induction false} SearchingKeeps(c: seq<Entry>, t: Tree, parent: string, times: seq<nat>, from: nat, to: nat)
    requires CacheOk(c, from) && Readings(times, from, to)
    ensures var s := Searching(c, parent, times);
            && CacheOk(s.cache, to) && MissedBeyond(s.cache, parent, |s.name|, to)
            && (Coherent(c, t, from) ==> Coherent(s.cache, t, to))
            && (Coherent(c, t, from) && Over(s) ==> Walk(t, s.name) == Some(StartDid(s)))
    decreases |times|
  {
    hide CacheOk, Coherent, Misses, Swept, FreshDid, LastIndexOf, Walk;
    RootWalk(t);
    if times == [] {
      KeepsWithTime(c, t, from, to);
    } else {
      var now, s := times[|times| - 1], Searching(c, parent, times[..|times| - 1]);
      SearchingKeeps(c, t, parent, times[..|times| - 1], from, now);
      KeepsWithTime(s.cache, t, now, to);
      if !Over(s) {
        LookupKeeps(s.cache, t, s.name, now);
        KeepsWithTime(Swept(s.cache, s.name, now), t, now, to);
        assert s.name == parent[..|s.name|];
      }
    }
  }

  /** The search only takes entries away. */
  lemma {:induction false} SearchingOld(c: seq<Entry>, parent: string, times: seq<nat>)
    ensures forall e :: e in Searching(c, parent, times).cache ==> e in c
    decreases |times|
  {
    hide Swept, FreshDid, LastIndexOf;
    if times != [] {
      var s := Searching(c, parent, times[..|times| - 1]);
      SearchingOld(c, parent, times[..|times| - 1]);
      SweptIsSlice(s.cache, s.name, times[|times| - 1]);
    }
  }

  lemma KeepsWithTime(c: seq<Entry>, t: Tree, before: nat, now: nat)
    requires before <= now && CacheOk(c, before)
    ensures CacheOk(c, now) && (Coherent(c, t, before) ==> Coherent(c, t, now))
    ensures forall name :: Misses(c, name, before) ==> Misses(c, name, now)
  {
    hide CacheOk, Coherent, Misses;
    assert c == c[0..|c|];
    SliceKeeps(c, c, t, before, now);
  }

  /** What a lookup leaves is as good as what it found. */
  lemma LookupKeeps(c: seq<Entry>, t: Tree, path: string, now: nat)
    requires CacheOk(c, now)
    ensures IsSlice(Swept(c, path, now), c) && CacheOk(Swept(c, path, now), now)
    ensures Coherent(c, t, now) ==> Coherent(Swept(c, path, now), t, now)
    ensures Coherent(c, t, now) && FreshDid(c, path, now) != 0 ==> Walk(t, path) == Some(FreshDid(c, path, now))
    ensures FreshDid(c, path, now) == 0 ==> Misses(Swept(c, path, now), path, now)
    ensures forall name :: Misses(c, name, now) ==> Misses(Swept(c, path, now), name, now)
  {
    SweptIsSlice(c, path, now);
    SliceKeeps(Swept(c, path, now), c, t, now, now);
    FreshDidMeaning(c, path, now);
  }

  // ---------------------------------------------------------------- get_dirid as a whole

  /** A moment. */
  datatype State = State(tree: Tree, cache: seq<Entry>, clock: nat)

  ghost predicate StateOk(s: State) {
    TreeOk(s.tree) && CacheOk(s.cache, s.clock)
  }

  ghost predicate CoherentAt(s: State) {
    Coherent(s.cache, s.tree, s.clock)
  }

  predicate Absolute(path: string) {
    path != "" && path[0] == '/'
  }

  function Parent(path: string): (parent: string)
    requires Absolute(path)
    ensures |parent| < |path| && parent == path[..|parent|] && path[|parent|] == '/'
  {
    path[..LastIndexOf(path, '/')]
  }

  function Basename(path: string): string
    requires Absolute(path)
  {
    path[LastIndexOf(path, '/') + 1..]
  }

  /** Where the forward loop starts. */
  function Start(s: State, path: string, times: seq<nat>): Search
    requires Absolute(path)
  {
    Searching(s.cache, Parent(path), times)
  }

  /** The directory ID get_dirid answers, and the entries it adds. */
  function Destination(s: State, path: string, fi: Info, times: seq<nat>): (nat, seq<(string, nat)>)
    requires Absolute(path)
  {
    var search := Start(s, path, times);
    Forward(s.tree, path, |search.name|, StartDid(search), fi)
  }

  /** The list after the entries es, newest first, have been put in front of it between two moments. */
  predicate Grown(after: seq<Entry>, es: seq<(string, nat)>, before: seq<Entry>, from: nat, to: nat) {
    && |after| == |es| + |before| && after[|es|..] == before
    && (forall i :: 0 <= i < |es| ==>
          after[i].dirname == es[i].0 && after[i].did == es[i].1 && from <= after[i].time <= to)
    && (forall i, j :: 0 <= i < j < |es| ==> after[j].time <= after[i].time)
    && (es != [] ==> after[0].time == to)
  }

  lemma GrownNone(c: seq<Entry>, from: nat, to: nat)
    ensures Grown(c, [], c, from, to)
  {
  }

  lemma GrownSince(after: seq<Entry>, es: seq<(string, nat)>, c: seq<Entry>, before: nat, from: nat, to: nat)
    requires Grown(after, es, c, from, to) && before <= from
    ensures Grown(after, es, c, before, to)
  {
  }

  lemma GrownOne(c: seq<Entry>, es: seq<(string, nat)>, before: seq<Entry>, from: nat, was: nat, e: Entry)
    requires Grown(c, es, before, from, was) && from <= was <= e.time
    ensures Grown([e] + c, [(e.dirname, e.did)] + es, before, from, e.time)
  {
    var after, es' := [e] + c, [(e.dirname, e.did)] + es;
    assert after[|es'|..] == c[|es|..];
    assert forall i :: 0 < i < |es'| ==> after[i] == c[i - 1] && es'[i] == es[i - 1];
    assert forall i :: 0 <= i < |es| ==> c[i].time <= was;
  }

  /** The moment after get_dirid; times are its readings of the clock in the backward search. */
  predicate Located(s: State, path: string, fi: Info, times: seq<nat>, found: State)
    requires Absolute(path)
  {
    && Over(Start(s, path, times)) && Readings(times, s.clock, found.clock) && found.tree == s.tree
    && Grown(found.cache, Destination(s, path, fi, times).1, Start(s, path, times).cache, s.clock, found.clock)
  }

  lemma GrownOk(after: seq<Entry>, es: seq<(string, nat)>, c: seq<Entry>, from: nat, to: nat)
    requires Grown(after, es, c, from, to) && CacheOk(c, to) && from <= to
    requires forall e :: e in c ==> e.time <= from
    requires forall i :: 0 <= i < |es| ==> Misses(c, es[i].0, to)
    requires forall i, j :: 0 <= i < j < |es| ==> es[i].0 != es[j].0
    ensures CacheOk(after, to)
  {
    hide Misses, Grown, CacheOk;
    forall i, j | 0 <= i < j < |after|
      ensures after[j].time <= after[i].time <= to
      ensures Fresh(after[i], to) && Fresh(after[j], to) && after[i].dirname == after[j].dirname ==> after[j].did == 0
    {
      GrownPair(after, es, c, from, to, i, j);
    }
    if |after| > 0 { GrownLast(after, es, c, from, to); }
    FromPairs(after, to);
  }

  lemma FromPairs(c: seq<Entry>, now: nat)
    requires c != [] ==> c[|c| - 1].time <= now
    requires forall i, j :: 0 <= i < j < |c| ==> c[j].time <= c[i].time <= now
    requires forall i, j :: 0 <= i < j < |c| && Fresh(c[i], now) && Fresh(c[j], now) && c[i].dirname == c[j].dirname ==>
                              c[j].did == 0
    ensures CacheOk(c, now)
  {
    assert forall i :: 0 <= i < |c| - 1 ==> c[|c| - 1].time <= c[i].time <= now;
  }

  lemma GrownLast(after: seq<Entry>, es: seq<(string, nat)>, c: seq<Entry>, from: nat, to: nat)
    requires Grown(after, es, c, from, to) && CacheOk(c, to) && |after| > 0
    ensures after[|after| - 1].time <= to
  {
    assert c != [] ==> after[|after| - 1] == c[|c| - 1];
  }

  lemma GrownPair(after: seq<Entry>, es: seq<(string, nat)>, c: seq<Entry>, from: nat, to: nat, i: nat, j: nat)
    requires Grown(after, es, c, from, to) && CacheOk(c, to) && from <= to && i < j < |after|
    requires forall e :: e in c ==> e.time <= from
    requires forall k :: 0 <= k < |es| ==> Misses(c, es[k].0, to)
    requires forall k, l :: 0 <= k < l < |es| ==> es[k].0 != es[l].0
    ensures after[j].time <= after[i].time <= to
    ensures Fresh(after[i], to) && Fresh(after[j], to) && after[i].dirname == after[j].dirname ==> after[j].did == 0
  {
    hide CacheOk, Misses;
    var n := |es|;
    if j >= n { assert after[j] == c[j - n] && c[j - n] in c; }
    if i >= n {
      assert after[i] == c[i - n];
      OkPair(c, to, i - n, j - n);
    } else if j >= n && Fresh(after[j], to) && after[i].dirname == after[j].dirname {
      MissesAt(c, es[i].0, to, j - n);
    }
  }

  lemma OkPair(c: seq<Entry>, now: nat, i: nat, j: nat)
    requires CacheOk(c, now) && i < j < |c|
    ensures c[j].time <= c[i].time <= now
    ensures Fresh(c[i], now) && Fresh(c[j], now) && c[i].dirname == c[j].dirname ==> c[j].did == 0
  {
  }

  lemma MissesAt(c: seq<Entry>, name: string, now: nat, i: nat)
    requires Misses(c, name, now) && i < |c| && Fresh(c[i], now) && c[i].dirname == name
    ensures c[i].did == 0
  {
  }

  lemma OkTimes(c: seq<Entry>, now: nat)
    requires CacheOk(c, now)
    ensures forall e :: e in c ==> e.time <= now
  {
  }

  lemma GrownCoherent(after: seq<Entry>, es: seq<(string, nat)>, c: seq<Entry>, t: Tree, from: nat, to: nat)
    requires Grown(after, es, c, from, to) && Coherent(c, t, to)
    ensures AllWalk(t, es) ==> Coherent(after, t, to)
    ensures es != [] && Walk(t, es[0].0).None? ==> !Coherent(after, t, to)
  {
    hide Walk;
    assert forall i :: |es| <= i < |after| ==> after[i] == c[i - |es|];
    assert es != [] ==> Fresh(after[0], to);
  }

  /** get_dirid keeps the list in order, whatever it finds. */
  lemma LocatedOk(s: State, path: string, fi: Info, times: seq<nat>, found: State)
    requires StateOk(s) && Absolute(path) && Located(s, path, fi, times, found)
    ensures StateOk(found) && found.tree == s.tree && s.clock <= found.clock
  {
    hide CacheOk, Walk, Searching, Forward, LastIndexOf, Coherent;
    var search, es, parent := Start(s, path, times), Destination(s, path, fi, times).1, Parent(path);
    SearchingKeeps(s.cache, s.tree, parent, times, s.clock, found.clock);
    SearchingOld(s.cache, parent, times);
    OkTimes(s.cache, s.clock);
    forall i | 0 <= i < |es| ensures Misses(search.cache, es[i].0, found.clock) {
      ForwardNames(s.tree, path, |search.name|, StartDid(search), fi, i);
      var k := |es[i].0|;
      assert parent[..k] == path[..k];
    }
    forall i, j | 0 <= i < j < |es| ensures es[i].0 != es[j].0 {
      ForwardShrinks(s.tree, path, |search.name|, StartDid(search), fi, i, j);
    }
    GrownOk(found.cache, es, search.cache, s.clock, found.clock);
  }

  /**
    When get_dirid does what it is for, for any coherent cache and anything in fi: it leaves a coherent cache
    exactly if the loop resolves, and then it answers the directory where the plain walk stops.
   */
  lemma LocatedMeaning(s: State, path: string, fi: Info, times: seq<nat>, found: State)
    requires StateOk(s) && CoherentAt(s) && Absolute(path) && Located(s, path, fi, times, found)
    ensures CoherentAt(found) <==> Resolves(s.tree, Parent(path), Start(s, path, times).name, fi)
    ensures CoherentAt(found) ==> Destination(s, path, fi, times).0 == Reached(s.tree, Parent(path))
  {
    hide CacheOk, Coherent, Walk, Searching, Forward, LastIndexOf, Reached, Resolves, Grown;
    var search := Start(s, path, times);
    SearchingKeeps(s.cache, s.tree, Parent(path), times, s.clock, found.clock);
    assert path[..|search.name|] == search.name;
    ForwardMeaning(s.tree, path, |Parent(path)|, |search.name|, StartDid(search), fi);
    GrownCoherent(found.cache, Destination(s, path, fi, times).1, search.cache, s.tree, s.clock, found.clock);
  }

  /** With every entry unexpired a search can be made in no time, and leaves the list as it is. */
  lemma {:induction false} SearchInNoTime(c: seq<Entry>, parent: string, now: nat, before: seq<nat>)
    returns (times: seq<nat>)
    requires forall i :: 0 <= i < |c| ==> Fresh(c[i], now)
    requires Readings(before, now, now) && Searching(c, parent, before).cache == c
    ensures Over(Searching(c, parent, times)) && Searching(c, parent, times).cache == c && Readings(times, now, now)
    decreases |Searching(c, parent, before).name|, Searching(c, parent, before).did == 0
  {
    hide FreshDid;
    times := before;
    var s := Searching(c, parent, before);
    if !Over(s) {
      assert FreshCount(c, now) == |c|;
      assert (before + [now])[..|before|] == before;
      times := SearchInNoTime(c, parent, now, before + [now]);
    }
  }

  /** get_dirid in no time: what it leaves in front of a list without expired entries. */
  lemma LocatedInNoTime(s: State, path: string, fi: Info) returns (times: seq<nat>, found: State)
    requires Absolute(path) && forall i :: 0 <= i < |s.cache| ==> Fresh(s.cache[i], s.clock)
    ensures Located(s, path, fi, times, found) && found.clock == s.clock
    ensures forall e :: e in s.cache ==> e in found.cache
    ensures |found.cache| == |Destination(s, path, fi, times).1| + |s.cache|
  {
    hide FreshDid, Swept, Forward, LastIndexOf;
    times := SearchInNoTime(s.cache, Parent(path), s.clock, []);
    var es := Destination(s, path, fi, times).1;
    var added := seq(|es|, i requires 0 <= i < |es| => Entry(es[i].0, es[i].1, s.clock));
    found := State(s.tree, added + s.cache, s.clock);
  }

  /**
    Whatever the cache holds, as long as it is coherent, and whatever happens to be in fi: get_dirid leaves
    it coherent and answers the directory where the plain walk stops, if and only if nothing on the path of
    the parent is missing.
   */
  lemma GetDiridRightIff(t: Tree, path: string)
    requires TreeOk(t) && Absolute(path)
    ensures NothingMissing(t, Parent(path)) <==>
            forall s: State, fi: Info, times: seq<nat>, found: State ::
              s.tree == t && StateOk(s) && CoherentAt(s) && Located(s, path, fi, times, found) ==>
              CoherentAt(found) && Destination(s, path, fi, times).0 == Reached(t, Parent(path))
  {
    hide Located, NothingMissing, ReachedPath, Reached, Destination, Parent, Start;
    forall s: State, fi: Info, times: seq<nat>, found: State |
      NothingMissing(t, Parent(path)) && s.tree == t && StateOk(s) && CoherentAt(s)
      && Located(s, path, fi, times, found)
      ensures CoherentAt(found) && Destination(s, path, fi, times).0 == Reached(t, Parent(path))
    {
      LocatedMeaning(s, path, fi, times, found);
    }
    if !NothingMissing(t, Parent(path)) {
      var s := State(t, [], 0);
      var times, found := LocatedInNoTime(s, path, Info(true, 0));
      LocatedMeaning(s, path, Info(true, 0), times, found);
    }
  }

  // ---------------------------------------------------------------- the failing inputs

  /** /a/x/f with /a/x missing, nothing cached: /a/x is cached as if it were /a, whatever fi held before; and
      a directory /a/x that is made later is hidden by that entry. */
  lemma MissingComponentIsCached(t: Tree, fi: Info, now: nat)
    requires t == map[(AFP_ROOT_DID, "a") := Dir(5)]
    ensures Forward(t, "/a/x/f", 0, AFP_ROOT_DID, fi) == (5, [("/a/x", 5), ("/a", 5)])
    ensures var c := [Entry("/a/x", 5, now), Entry("/a", 5, now)];
            !Coherent(c, t, now) && FreshDid(c, "/a/x", now) == 5 && Walk(t[(5, "x") := Dir(9)], "/a/x") == Some(9)
  {
    hide Walk;
    var path := "/a/x/f";
    assert IndexFrom(path, '/', 1) == 2 && IndexFrom(path, '/', 3) == 4 && IndexFrom(path, '/', 5) == -1;
    assert path[1..2] == "a" && path[3..4] == "x" && path[..2] == "/a" && path[..4] == "/a/x";
    var got := Info(true, 5);
    assert Forward(t, path, 4, 5, got) == (5, []);
    var es := [("/a/x", 5)];
    assert [] + es == es && es + [("/a", 5)] == [("/a/x", 5), ("/a", 5)];
    assert Forward(t, path, 2, 5, got) == (5, es);
    WalkOfA(t, "x", 5);
    WalkOfA(t[(5, "x") := Dir(9)], "x", 5);
    assert "/a/" + "x" == "/a/x";
    var c := [Entry("/a/x", 5, now), Entry("/a", 5, now)];
    assert Fresh(c[0], now) && Walk(t, c[0].dirname).None?;
  }

  lemma WalkOfA(t: Tree, name: string, d: nat)
    requires '/' !in name && (AFP_ROOT_DID, "a") in t && t[(AFP_ROOT_DID, "a")] == Dir(d)
    ensures Walk(t, "/a") == Some(d) && Walk(t, "/a/" + name) == Child(t, d, name)
    ensures Child(t, d, name).None? ==> Reached(t, "/a/" + name) == d
  {
    hide Walk, Reached;
    RootWalk(t);
    assert "" + "/" + "a" == "/a" && "/a" + "/" + name == "/a/" + name;
    WalkAppend(t, "", "a");
    WalkAppend(t, "/a", name);
  }

  /** /a/x/b/f with /a/x missing and a directory /a/b: the missing component is skipped, and the call ends in
      /a/b instead of /a. */
  lemma MissingComponentIsSkipped(t: Tree, fi: Info)
    requires t == map[(AFP_ROOT_DID, "a") := Dir(5), (5, "b") := Dir(7)]
    ensures Forward(t, "/a/x/b/f", 0, AFP_ROOT_DID, fi).0 == 7 && Reached(t, "/a/x/b") == 5
  {
    hide Walk, Reached;
    var path := "/a/x/b/f";
    assert IndexFrom(path, '/', 1) == 2 && IndexFrom(path, '/', 3) == 4;
    assert IndexFrom(path, '/', 5) == 6 && IndexFrom(path, '/', 7) == -1;
    assert path[1..2] == "a" && path[3..4] == "x" && path[5..6] == "b";
    assert Forward(t, path, 6, 7, Info(true, 7)) == (7, []);
    assert Forward(t, path, 4, 5, Info(true, 5)).0 == 7;
    assert Forward(t, path, 2, 5, Info(true, 5)).0 == 7;
    WalkOfA(t, "x", 5);
    assert "/a/" + "x" == "/a/x";
    var parent := "/a/x/b";
    assert parent[..4] == "/a/x" && parent[4] == '/';
    ReachedStops(t, parent, 4);
  }
}
