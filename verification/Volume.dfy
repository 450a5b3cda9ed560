/**
  A mounted volume: the operations of lib/did.c and their callers in lib/midlevel.c, over a server
  tree, a clock that never goes back, and the cache as the list that the code splices in place.
 */
module Volumes {
  import opened Calls
  import opened Codes
  import opened DidCache
  import opened Resolution
  import opened Strings

  /** The lookup loop over the list c while it walks the unexpired entries in front. */
  ghost predicate Walking(c: seq<Entry>, path: string, now: nat, list: seq<Entry>, i: nat, prev: nat) {
    && list == c && i <= FreshCount(c, now) && prev == (if i == 0 then 0 else i - 1)
    && forall k :: 0 <= k < i ==> c[k].dirname != path
  }

  /** Behind two or more unexpired entries, none of them the wanted one: unlinking one by one. */
  ghost predicate Unlinking(c: seq<Entry>, path: string, now: nat, list: seq<Entry>, i: nat, prev: nat) {
    var n := FreshCount(c, now);
    && 2 <= n == i == prev + 1 && n <= |list| <= |c| && list == c[..n] + c[|c| - (|list| - n)..]
    && FreshDid(c, path, now) == 0 && !Hits(c, path, now)
    && forall k :: 0 <= k < n ==> c[k].dirname != path
  }

  /** With at most one unexpired entry in front: cutting the head off, two entries at a time. */
  ghost predicate Beheading(c: seq<Entry>, path: string, now: nat, list: seq<Entry>, i: nat, prev: nat) {
    var n := FreshCount(c, now);
    && n < 2 && n < |c| && prev == 0 && i == 1 && 0 < |list| < |c| && list == c[|c| - |list|..]
    && FreshDid(c, path, now) == 0 && !Hits(c, path, now) && DropPairs(list, path) == Swept(c, path, now)
  }

  ghost predicate Scanning(c: seq<Entry>, path: string, now: nat, list: seq<Entry>, i: nat, prev: nat) {
    || Walking(c, path, now, list, i, prev)
    || Unlinking(c, path, now, list, i, prev)
    || Beheading(c, path, now, list, i, prev)
  }

  lemma ExpiredBehindFresh(c: seq<Entry>, path: string, now: nat)
    requires CacheOk(c, now)
    requires forall k :: 0 <= k < FreshCount(c, now) ==> c[k].dirname != path
    ensures forall k :: FreshCount(c, now) <= k < |c| ==> !Fresh(c[k], now)
    ensures FreshDid(c, path, now) == 0 && !Hits(c, path, now)
  {
    var n := FreshCount(c, now);
    assert forall k :: n <= k < |c| ==> c[n].time >= c[k].time;
    assert !Hits(c, path, now);
    FreshDidMeaning(c, path, now);
  }

  lemma WalkingExpired(c: seq<Entry>, path: string, now: nat, i: nat, prev: nat)
    requires CacheOk(c, now) && Walking(c, path, now, c, i, prev)
    requires i < |c| && !Fresh(c[i], now)
    ensures FreshDid(c, path, now) == 0 && !Hits(c, path, now)
    ensures prev == 0 && (c[i].dirname == path || i + 1 == |c|) ==> c[i + 1..] == Swept(c, path, now)
    ensures prev == 0 && c[i].dirname != path && i + 1 < |c| ==> Beheading(c, path, now, c[i + 1..], 1, 0)
    ensures prev > 0 ==> Unlinking(c, path, now, c[..prev + 1] + c[i + 1..], prev + 1, prev)
  {
    ExpiredBehindFresh(c, path, now);
    assert i == FreshCount(c, now);
    if i == 1 {
      assert DropPairs(c, path) == if c[1].dirname == path then c[2..] else DropPairs(c[2..], path);
      assert |c| == 2 ==> c[2..] == [] == DropPairs(c[2..], path);
    } else if i == 0 {
      assert |c| == 1 ==> c[1..] == [] == DropPairs(c[1..], path);
    }
  }

  lemma BeheadingExpired(c: seq<Entry>, path: string, now: nat, list: seq<Entry>)
    requires Beheading(c, path, now, list, 1, 0) && 1 < |list|
    ensures list[1].dirname == path || |list| == 2 ==> list[2..] == Swept(c, path, now)
    ensures list[1].dirname != path && 2 < |list| ==> Beheading(c, path, now, list[2..], 1, 0)
  {
    assert |list| == 2 ==> list[2..] == [] == DropPairs(list[2..], path);
  }

  lemma UnlinkingExpired(c: seq<Entry>, path: string, now: nat, list: seq<Entry>, i: nat)
    requires 0 < i < |list| && Unlinking(c, path, now, list, i, i - 1)
    ensures Unlinking(c, path, now, list[..i] + list[i + 1..], i, i - 1)
  {
  }

  lemma ScanExpired(c: seq<Entry>, path: string, now: nat, list: seq<Entry>, i: nat, prev: nat)
    requires CacheOk(c, now) && Scanning(c, path, now, list, i, prev)
    requires i < |list| && !Fresh(list[i], now)
    ensures FreshDid(c, path, now) == 0 && !Hits(c, path, now)
    ensures prev == 0 && (list[i].dirname == path || i + 1 == |list|) ==> list[i + 1..] == Swept(c, path, now)
    ensures prev == 0 && list[i].dirname != path && i + 1 < |list| ==> Beheading(c, path, now, list[i + 1..], 1, 0)
    ensures prev > 0 ==> i == prev + 1 && list[prev].dirname != path
    ensures prev > 0 ==> Unlinking(c, path, now, list[..prev + 1] + list[i + 1..], prev + 1, prev)
  {
    hide FreshDid, DropPairs, Swept, FreshCount, Hits;
    if Walking(c, path, now, list, i, prev) {
      WalkingExpired(c, path, now, i, prev);
    } else if Unlinking(c, path, now, list, i, prev) {
      UnlinkingExpired(c, path, now, list, i);
    } else {
      BeheadingExpired(c, path, now, list);
    }
  }

  lemma ScanFresh(c: seq<Entry>, path: string, now: nat, list: seq<Entry>, i: nat, prev: nat)
    requires CacheOk(c, now) && Scanning(c, path, now, list, i, prev)
    requires i < |list| && Fresh(list[i], now)
    ensures list == c
    ensures list[i].dirname == path ==> FreshDid(c, path, now) == list[i].did && Swept(c, path, now) == list
    ensures list[i].dirname != path ==> Walking(c, path, now, list, i + 1, i)
  {
    assert forall k :: FreshCount(c, now) <= k < |c| ==> !Fresh(c[k], now);
    if Walking(c, path, now, list, i, prev) && c[i].dirname == path {
      FreshDidFound(c, i, path, now);
      assert Hits(c, path, now);
    }
  }

  lemma ScanDone(c: seq<Entry>, path: string, now: nat, list: seq<Entry>, i: nat, prev: nat)
    requires CacheOk(c, now) && Scanning(c, path, now, list, i, prev) && i >= |list|
    ensures FreshDid(c, path, now) == 0 && list == Swept(c, path, now)
  {
    if Walking(c, path, now, list, i, prev) {
      ExpiredBehindFresh(c, path, now);
    } else if Beheading(c, path, now, list, i, prev) {
      assert DropPairs(list, path) == list;
    } else {
      assert list == c[..i];
    }
  }

  lemma RemoveFirstFrom(c: seq<Entry>, name: string, n: nat)
    requires n <= |c| && forall i :: 0 <= i < n ==> c[i].dirname != name
    ensures n == |c| ==> RemoveFirst(c, name) == c
    ensures n < |c| && c[n].dirname == name ==> RemoveFirst(c, name) == c[..n] + c[n + 1..]
  {
    var m := RemoveFirstAt(c, name);
  }

  lemma AddKeeps(c: seq<Entry>, t: Tree, e: Entry, before: nat)
    requires CacheOk(c, before) && before <= e.time && Misses(c, e.dirname, e.time)
    ensures CacheOk([e] + c, e.time)
    ensures Coherent(c, t, before) && Walk(t, e.dirname) == Some(e.did) ==> Coherent([e] + c, t, e.time)
  {
    hide Walk;
    var d := [e] + c;
    assert forall i :: 0 < i < |d| ==> d[i] == c[i - 1];
  }

  lemma SearchOne(c: seq<Entry>, parent: string, times: seq<nat>, from: nat, now: nat)
    requires Readings(times, from, now)
    ensures Readings(times + [now], from, now)
    ensures var s := Searching(c, parent, times);
            !Over(s) ==>
              var did, k := FreshDid(s.cache, s.name, now), LastIndexOf(s.name, '/');
              Searching(c, parent, times + [now]) ==
              Search(if did != 0 then s.name else if k < 0 then "" else s.name[..k], did, Swept(s.cache, s.name, now))
  {
    hide FreshDid, Swept, LastIndexOf;
    assert (times + [now])[..|times|] == times;
  }

  class Volume {
    var tree: Tree
    var clock: nat
    var cache: seq<Entry>

    ghost function Now(): State
      reads this
    {
      State(tree, cache, clock)
    }

    ghost predicate Valid()
      reads this
    {
      StateOk(Now())
    }

    ghost predicate Right()
      reads this
    {
      Valid() && CoherentAt(Now())
    }

    constructor ()
      ensures Right() && tree == map[] && cache == []
    {
      tree, clock, cache := map[], 0, [];
    }

    /** gettimeofday: any amount of time may have passed. */
    method GetTime() returns (now: nat)
      modifies this`clock
      ensures old(clock) <= clock == now
      ensures old(Valid()) ==> Valid()
      ensures old(Right()) ==> Right()
    {
      var elapsed: nat :| true;
      if Valid() { KeepsWithTime(cache, tree, clock, clock + elapsed); }
      clock := clock + elapsed;
      now := clock;
    }

    /** The loop of find_dirid_by_fullname, which unlinks expired entries as it goes; the pointers p and
        prev are the indices i and prev, and the head of the list is index 0. */
    method ScanList(path: string, now: nat) returns (foundDid: nat)
      requires CacheOk(cache, now)
      modifies this`cache
      ensures foundDid == FreshDid(old(cache), path, now)
      ensures cache == Swept(old(cache), path, now)
    {
      hide FreshDid, DropPairs, Swept, FreshCount, Hits;
      ghost var c := cache;
      var i, prev, breakEarly := 0, 0, false;
      while i < |cache|
        invariant Scanning(c, path, now, cache, i, prev)
        decreases |cache| - i
      {
        if now > cache[i].time + TIMEOUT {
          ScanExpired(c, path, now, cache, i, prev);
          if prev == 0 {
            if cache[i].dirname == path { breakEarly := true; }
            cache := cache[i + 1..];
            if breakEarly { return 0; }
            if cache == [] { return 0; }
            prev, i := 0, 1;
            continue;
          }
          cache := cache[..prev + 1] + cache[i + 1..];
          i := prev;
          assert cache[i].dirname != path;
        } else {
          ScanFresh(c, path, now, cache, i, prev);
        }
        assert cache[i].dirname != path ==> Scanning(c, path, now, cache, i + 1, i);
        if cache[i].dirname == path {
          foundDid := cache[i].did;
          return;
        }
        prev := i;
        i := i + 1;
      }
      ScanDone(c, path, now, cache, i, prev);
      return 0;
    }

    /** find_dirid_by_fullname. */
    method FindByFullname(path: string) returns (foundDid: nat)
      requires Valid()
      modifies this`cache, this`clock
      ensures Valid() && old(clock) <= clock
      ensures foundDid == FreshDid(old(cache), path, clock)
      ensures cache == Swept(old(cache), path, clock)
      ensures old(Right()) ==> Right() && (foundDid != 0 ==> Walk(tree, path) == Some(foundDid))
    {
      var now := GetTime();
      LookupKeeps(cache, tree, path, now);
      foundDid := ScanList(path, now);
    }

    /** add_did_cache_entry: a new entry at the head, stamped with the time of the insertion. */
    method AddEntry(newDid: nat, path: string)
      modifies this`cache, this`clock
      ensures old(clock) <= clock && cache == [Entry(path, newDid, clock)] + old(cache)
      ensures old(Valid()) && Misses(old(cache), path, clock) ==> Valid()
      ensures old(Right()) && Misses(old(cache), path, clock) && Walk(tree, path) == Some(newDid) ==> Right()
    {
      var now := GetTime();
      ghost var c := cache;
      cache := [Entry(path, newDid, now)] + cache;
      if old(Valid()) && Misses(c, path, clock) { AddKeeps(c, tree, Entry(path, newDid, now), old(clock)); }
    }

    /** remove_did_entry. */
    method RemoveEntry(name: string)
      requires Valid()
      modifies this`cache
      ensures Valid() && cache == RemoveFirst(old(cache), name) && Misses(cache, name, clock)
      ensures old(Right()) ==> Right()
    {
      hide RemoveFirst, CacheOk, Coherent, Misses, TreeOk;
      RemoveFirstKeeps(cache, name, tree, clock);
      var d, prev := 0, -1;
      while d < |cache|
        invariant 0 <= d <= |cache| && prev == d - 1 && cache == old(cache)
        invariant forall i :: 0 <= i < d ==> cache[i].dirname != name
      {
        if cache[d].dirname == name {
          RemoveFirstFrom(cache, name, d);
          if prev >= 0 {
            cache := cache[..prev + 1] + cache[d + 1..];
          } else {
            cache := cache[d + 1..];
          }
          assert cache == RemoveFirst(old(cache), name);
          return;
        }
        prev := d;
        d := d + 1;
      }
      RemoveFirstFrom(cache, name, d);
    }

    /** The backward loop of get_dirid: the longest proper prefix of path[..last] that is cached, chopping
        one component at a time, or the root. The lookup before it, in the list c, has read the clock at
        the time in before. */
    method DeepestCached(path: string, last: nat, ghost c: seq<Entry>, ghost from: nat, ghost before: seq<nat>)
      returns (p: nat, parentDid: nat, ghost times: seq<nat>)
      requires Valid() && 0 < last < |path| && path[0] == '/' && last == LastIndexOf(path, '/')
      requires Readings(before, from, clock)
      requires var k := LastIndexOf(path[..last], '/');
               k >= 0 && Searching(c, path[..last], before) == Search(path[..k], 0, cache)
      modifies this`cache, this`clock
      ensures Valid() && old(clock) <= clock
      ensures Readings(times, from, clock) && p < last && path[p] == '/'
      ensures var s := Searching(c, path[..last], times);
              Over(s) && s.name == path[..p] && parentDid == StartDid(s) && s.cache == cache
    {
      hide LastIndexOf, Searching;
      var copy := path[..last];
      p := LastIndexOf(copy, '/');
      times := before;
      assert copy[0] == '/';
      while true
        invariant Valid() && old(clock) <= clock && Readings(times, from, clock)
        invariant p < |copy| <= last && copy == path[..|copy|] && p == LastIndexOf(copy, '/')
        invariant Searching(c, path[..last], times) == Search(path[..p], 0, cache)
        decreases |copy|
      {
        if p == 0 {
          parentDid := AFP_ROOT_DID;
          return;
        }
        copy := copy[..p];
        assert copy == path[..p] && copy[0] == '/';
        ghost var was := clock;
        parentDid := FindByFullname(copy);
        LaterReading(times, from, was, clock);
        SearchOne(c, path[..last], times, from, clock);
        times := times + [clock];
        if parentDid != 0 { return; }
        p := LastIndexOf(copy, '/');
        assert copy[..p] == path[..p];
      }
    }

    /** The forward loop of get_dirid: ask the server for one component at a time from the directory at
        path[..start], and cache each directory found. */
    method WalkForward(path: string, last: nat, start: nat, startDid: nat, fi0: Info)
      returns (dirid: nat, ghost added: seq<(string, nat)>)
      requires start <= last < |path| && last == LastIndexOf(path, '/') && path[start] == '/'
      modifies this`cache, this`clock
      ensures (dirid, added) == Forward(tree, path, start, startDid, fi0)
      ensures old(clock) <= clock && Grown(cache, added, old(cache), old(clock), clock)
    {
      hide LastIndexOf, IndexFrom, Lookup, Forward, Grown, Misses, StateOk, CoherentAt;
      GrownNone(cache, clock, clock);
      var parentDid, p, fi := startDid, start, fi0;
      var next := IndexFrom(path, '/', p + 1);
      added := [];
      ForwardAt(tree, path, start, startDid, fi, added);
      while next >= 0
        invariant old(clock) <= clock && Grown(cache, added, old(cache), old(clock), clock)
        invariant p <= last && path[p] == '/' && next == IndexFrom(path, '/', p + 1)
        invariant Forward(tree, path, start, startDid, fi0) ==
                  var r := Forward(tree, path, p, parentDid, fi); (r.0, r.1 + added)
        decreases last - p
      {
        assert path[p..next][1..] == path[p + 1..next];
        ForwardAt(tree, path, p, parentDid, fi, added);
        fi := GetFileDirParms(parentDid, path[p..next], fi);
        if fi.isdir {
          ghost var was, c := clock, cache;
          AddEntry(fi.fileid, path[..next]);
          GrownOne(c, added, old(cache), old(clock), was, cache[0]);
        } else {
          return parentDid, added;
        }
        added := [(path[..next], fi.fileid)] + added;
        parentDid := fi.fileid;
        p := next;
        next := IndexFrom(path, '/', p + 1);
      }
      ForwardAt(tree, path, p, parentDid, fi, added);
      return parentDid, added;
    }

    /** afp_getfiledirparms for the node ID: the name is sent with its leading '/'. An error reply leaves
        fi as it was. */
    method GetFileDirParms(did: nat, pathname: string, fi: Info) returns (r: Info)
      requires pathname != "" && pathname[0] == '/'
      ensures r == Lookup(tree, did, pathname[1..], fi)
    {
      if (did, pathname[1..]) !in tree {
        return fi;
      }
      match tree[(did, pathname[1..])] {
        case Dir(id) => r := Info(true, id);
        case File => r := Info(false, 0);
      }
    }

    /** get_dirid: the ID of the directory part of the path, and the last component. fi is not initialised. */
    method GetDirid(path: string)
      returns (ret: int, basename: string, dirid: nat, ghost fi0: Info, ghost times: seq<nat>)
      requires Valid()
      requires path == "" || path[0] == '/' || '/' !in path
      modifies this`cache, this`clock
      ensures Valid() && old(clock) <= clock
      ensures ret == if path != "" && '/' !in path then -1 else 0
      ensures path == "" ==> dirid == AFP_ROOT_DID && basename == ""
      ensures !Absolute(path) ==> cache == old(cache)
      ensures Absolute(path) ==> basename == Basename(path)
      ensures Absolute(path) ==> Located(old(Now()), path, fi0, times, Now())
      ensures Absolute(path) ==> dirid == Destination(old(Now()), path, fi0, times).0
      ensures old(Right()) && Absolute(path) ==>
                (Right() <==> Resolves(tree, Parent(path), Start(old(Now()), path, times).name, fi0))
      ensures Absolute(path) && old(Right()) && Right() ==> dirid == Reached(tree, Parent(path))
    {
      hide LastIndexOf, Searching, Forward, Resolves, Reached, Coherent, CacheOk, TreeOk, Grown, Swept, FreshDid, Walk;
      var fi: Info := *;
      ret, basename, dirid, fi0, times := 0, "", 0, fi, [];
      if path == "" {
        dirid := AFP_ROOT_DID;
        return;
      }
      var last := LastIndexOf(path, '/');
      if last < 0 {
        ret := -1;
        return;
      }
      basename := path[last + 1..];
      ghost var s := Now();
      NoSearch(s.cache, path[..last], s.clock);
      if last == 0 {
        dirid := AFP_ROOT_DID;
        NoForward(tree, path, last, dirid, fi);
        GrownNone(cache, s.clock, clock);
        LocatedOk(s, path, fi, times, Now());
        if old(Right()) { LocatedMeaning(s, path, fi, times, Now()); }
        return;
      }
      dirid := FindByFullname(path[..last]);
      SearchOne(s.cache, path[..last], [], s.clock, clock);
      times := [clock];
      assert [] + [clock] == times;
      if dirid != 0 {
        NoForward(tree, path, last, dirid, fi);
        GrownNone(cache, s.clock, clock);
        if old(Right()) { LocatedMeaning(s, path, fi, times, Now()); }
        return;
      }
      var p, parentDid;
      p, parentDid, times := DeepestCached(path, last, s.cache, s.clock, times);
      ghost var added, list, was := [], cache, clock;
      dirid, added := WalkForward(path, last, p, parentDid, fi);
      LaterReading(times, s.clock, was, clock);
      GrownSince(cache, added, list, s.clock, was, clock);
      LocatedOk(s, path, fi, times, Now());
      if old(Right()) { LocatedMeaning(s, path, fi, times, Now()); }
    }

    // ------------------------------------------------------------ requests to the server

    /** afp_createdir and afp_createfile. */
    method AfpCreate(did: nat, name: string, node: Node, refusal: int) returns (rc: int)
      modifies this`tree
      ensures (tree, Reply(rc)) == Created(old(tree), (did, name), node, refusal)
    {
      if !HasDir(tree, did) {
        return kFPObjectNotFound;
      }
      if (did, name) in tree {
        return kFPObjectExists;
      }
      if refusal != kFPNoErr {
        return refusal;
      }
      if InUse(tree, node) {
        return kFPObjectExists;
      }
      tree := tree[(did, name) := node];
      rc := kFPNoErr;
    }

    /** afp_delete: a file, or a directory with nothing in it. */
    method AfpDelete(did: nat, name: string, refusal: int) returns (rc: int)
      modifies this`tree
      ensures rc == DeleteReply(old(tree), (did, name), refusal)
      ensures tree == if rc == kFPNoErr then old(tree) - {(did, name)} else old(tree)
    {
      if (did, name) !in tree {
        return kFPObjectNotFound;
      }
      if !Deletable(tree, (did, name)) {
        return kFPDirNotEmpty;
      }
      if refusal != kFPNoErr {
        return refusal;
      }
      tree := tree - {(did, name)};
      rc := kFPNoErr;
    }

    // ------------------------------------------------------------ the callers in midlevel.c

    method MlMkdir(path: string, newDid: nat, refusal: int) returns (rc: int, ghost call: Call)
      requires Valid() && Absolute(path)
      modifies this
      ensures Called(old(Now()), call) && call.op == Mkdir(path, newDid, refusal)
      ensures call.answer == Reply(rc) && call.after == Now()
    {
      var ret, basename, dirid, fi, times := GetDirid(path);
      ghost var found := Now();
      rc := AfpCreate(dirid, basename, Dir(newDid), refusal);
      call := Call(Mkdir(path, newDid, refusal), fi, times, found, Reply(rc), Now());
    }

    method MlCreat(path: string, refusal: int) returns (rc: int, ghost call: Call)
      requires Valid() && Absolute(path)
      modifies this
      ensures Called(old(Now()), call) && call.op == Creat(path, refusal)
      ensures call.answer == Reply(rc) && call.after == Now()
    {
      var ret, basename, dirid, fi, times := GetDirid(path);
      ghost var found := Now();
      rc := AfpCreate(dirid, basename, File, refusal);
      call := Call(Creat(path, refusal), fi, times, found, Reply(rc), Now());
    }

    method MlUnlink(path: string, refusal: int) returns (r: Outcome, ghost call: Call)
      requires Valid() && Absolute(path)
      modifies this
      ensures Called(old(Now()), call) && call.op == Unlink(path, refusal)
      ensures call.answer == Removal(r) && call.after == Now()
    {
      var ret, basename, dirid, fi, times := GetDirid(path);
      call := Call(Unlink(path, refusal), fi, times, Now(), Removal(IsDirectory), Now());
      if Child(tree, dirid, basename).Some? {
        return IsDirectory, call;
      }
      var rc := AfpDelete(dirid, basename, refusal);
      r := if IsDeleteError(rc) then Failed(rc) else Done;
      call := call.(answer := Removal(r), after := Now());
    }

    /** afp_ml_rmdir: delete the directory, then forget the path that was asked for. */
    method MlRmdir(path: string, refusal: int) returns (r: Outcome, ghost call: Call)
      requires Valid() && Absolute(path)
      modifies this
      ensures Called(old(Now()), call) && call.op == Rmdir(path, refusal)
      ensures call.answer == Removal(r) && call.after == Now()
      ensures r.Done? ==> Misses(cache, path, clock)
    {
      var ret, basename, dirid, fi, times := GetDirid(path);
      call := Call(Rmdir(path, refusal), fi, times, Now(), Removal(NotDirectory), Now());
      if Child(tree, dirid, basename).None? {
        return NotDirectory, call;
      }
      var rc := AfpDelete(dirid, basename, refusal);
      if IsDeleteError(rc) {
        return Failed(rc), call.(answer := Removal(Failed(rc)), after := Now());
      }
      RemoveEntry(path);
      return Done, call.(answer := Removal(Done), after := Now());
    }

    /**
      One call. The list stays in order. With a coherent cache get_dirid leaves it coherent exactly if it
      resolves; then the tree and the answer are those of a client without a cache, and the cache is coherent
      exactly if nothing of what was deleted is left. A well-aimed call is all right in any case.
     */
    method Step(op: Op) returns (answer: Answer, ghost call: Call)
      requires Valid() && OpOk(op)
      modifies this
      ensures Valid() && old(clock) <= clock
      ensures Called(old(Now()), call) && call.op == op && call.answer == answer && call.after == Now()
      ensures old(Right()) ==> (CoherentAt(call.found) <==> Resolving(old(Now()), call))
      ensures old(Right()) && CoherentAt(call.found) ==>
                (tree, answer) == Uncached(old(tree), op) && (Right() <==> LeavesNothing(old(Now()), call))
      ensures old(Right()) && WellAimed(old(tree), op) ==> Right() && (tree, answer) == Uncached(old(tree), op)
    {
      hide Called, Located, Resolving, LeavesNothing, WellAimed, Uncached, Coherent, CacheOk, TreeOk;
      answer := Nothing;
      ghost var s := Now();
      match op {
        case Tick =>
          var _ := GetTime();
          call := TickCall(s, clock);
        case Resolve(path) =>
          var ret, basename, dirid, fi, times := GetDirid(path);
          answer := Place(dirid, basename);
          call := CallOf(s, op, fi, times, Now());
        case Mkdir(path, newDid, refusal) =>
          var rc;
          rc, call := MlMkdir(path, newDid, refusal);
          answer := Reply(rc);
        case Creat(path, refusal) =>
          var rc;
          rc, call := MlCreat(path, refusal);
          answer := Reply(rc);
        case Unlink(path, refusal) =>
          var r;
          r, call := MlUnlink(path, refusal);
          answer := Removal(r);
        case Rmdir(path, refusal) =>
          var r;
          r, call := MlRmdir(path, refusal);
          answer := Removal(r);
      }
      CalledOk(s, call);
      if CoherentAt(s) {
        CalledMeaning(s, call);
        if WellAimed(s.tree, op) { WellAimedKeeps(s, call); }
      }
    }

    /**
      Any run. What it records is a run of calls, so that everything proved about those holds of it: the list
      is in order after each; the cache has been right all along if and only if every call has resolved and
      left nothing of what it deleted; and as long as it has, the tree and all the answers are those of a
      client that has no cache.
     */
    method Run(ops: seq<Op>) returns (answers: seq<Answer>, ghost calls: seq<Call>)
      requires Valid() && CallsOk(ops)
      modifies this
      ensures Valid() && IsRun(old(Now()), ops, calls)
      ensures Now() == Before(old(Now()), calls, |calls|) && answers == Answers(calls)
      ensures old(Right()) ==>
                forall n :: 0 <= n <= |ops| ==> (AlwaysCoherent(calls, n) <==> AllRight(old(Now()), calls, n))
      ensures old(Right()) && AlwaysCoherent(calls, |ops|) ==> (tree, answers) == UncachedRun(old(tree), ops)
    {
      hide Called, Uncached, Coherent, CacheOk, TreeOk, AlwaysCoherent, AllRight, UncachedRun, IsRun;
      answers, calls := [], [];
      ghost var s := Now();
      NoRun(s);
      for i := 0 to |ops|
        invariant Valid() && |calls| == i && IsRun(s, ops[..i], calls)
        invariant Now() == Before(s, calls, i) && answers == Answers(calls)
      {
        var answer;
        ghost var call;
        answer, call := Step(ops[i]);
        answers := answers + [answer];
        RunAnother(s, ops[..i], calls, call);
        calls := calls + [call];
        assert ops[..i] + [ops[i]] == ops[..i + 1];
      }
      assert ops[..|ops|] == ops && calls[..|ops|] == calls;
      if old(Right()) {
        forall n | 0 <= n <= |ops| ensures AlwaysCoherent(calls, n) <==> AllRight(s, calls, n) {
          RunRightIff(s, ops, calls, n);
        }
        RunRightIff(s, ops, calls, |ops|);
        if ops != [] && AlwaysCoherent(calls, |ops|) { AlwaysCoherentBefore(calls, |ops|); }
      }
    }
  }
}
