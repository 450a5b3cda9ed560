/**
  The calls of lib/midlevel.c that create and delete by path, on values: what one call does to the server
  and to the cache, and what follows for runs of calls.
 */
module Calls {
  import opened Codes
  import opened DidCache
  import opened Resolution
  import opened Strings

  /** The codes that afp_ml_rmdir and afp_ml_unlink report; any other reply counts as success. */
  predicate IsDeleteError(rc: int) {
    rc in {kFPAccessDenied, kFPObjectLocked, kFPObjectNotFound, kFPVolLocked, kFPDirNotEmpty, kFPObjectTypeErr,
           kFPMiscErr, kFPParamErr, -1}
  }

  datatype Outcome = Done | NotDirectory | IsDirectory | Failed(rc: int)

  /** What a call answers. */
  datatype Answer = Nothing | Place(did: nat, basename: string) | Reply(rc: int) | Removal(outcome: Outcome)

  /** One call into the client. refusal is the error with which the server turns the request down for a
      reason of its own (0: it does not), and newDid the ID it gives to a new directory. */
  datatype Op =
    | Tick
    | Resolve(path: string)
    | Mkdir(path: string, newDid: nat, refusal: int)
    | Creat(path: string, refusal: int)
    | Unlink(path: string, refusal: int)
    | Rmdir(path: string, refusal: int)

  predicate OpOk(op: Op) {
    op.Tick? || Absolute(op.path)
  }

  // ---------------------------------------------------------------- the server

  /** A server does not give a new directory an ID that is in use. */
  predicate InUse(t: Tree, node: Node) {
    node.Dir? && (node.did == 0 || HasDir(t, node.did))
  }

  predicate HasDir(t: Tree, d: nat) {
    d == AFP_ROOT_DID || exists k :: k in t && t[k] == Dir(d)
  }

  predicate Deletable(t: Tree, key: (nat, string))
    requires key in t
  {
    t[key].Dir? ==> forall k :: k in t ==> k.0 != t[key].did
  }

  /** The server's reply to a request to create a node: the directory must exist, and no name and no
      directory ID is given twice. */
  function CreateReply(t: Tree, key: (nat, string), node: Node, refusal: int): int {
    if !HasDir(t, key.0) then kFPObjectNotFound
    else if key in t then kFPObjectExists
    else if refusal != kFPNoErr then refusal
    else if InUse(t, node) then kFPObjectExists
    else kFPNoErr
  }

  /** The server's reply to a request to delete a node. */
  function DeleteReply(t: Tree, key: (nat, string), refusal: int): int {
    if key !in t then kFPObjectNotFound
    else if !Deletable(t, key) then kFPDirNotEmpty
    else refusal
  }

  function Created(t: Tree, key: (nat, string), node: Node, refusal: int): (Tree, Answer) {
    var rc := CreateReply(t, key, node, refusal);
    (if rc == kFPNoErr then t[key := node] else t, Reply(rc))
  }

  /** What a deletion does to the tree and answers, once the node is of the right kind. */
  function Removed(t: Tree, key: (nat, string), refusal: int): (Tree, Answer) {
    var rc := DeleteReply(t, key, refusal);
    (if rc == kFPNoErr then t - {key} else t, Removal(if IsDeleteError(rc) then Failed(rc) else Done))
  }

  /** One call for a name in a directory: the tree afterwards, and the answer. */
  function CallAt(t: Tree, key: (nat, string), op: Op): (Tree, Answer) {
    match op
    case Tick => (t, Nothing)
    case Resolve(_) => (t, Place(key.0, key.1))
    case Mkdir(_, newDid, refusal) => Created(t, key, Dir(newDid), refusal)
    case Creat(_, refusal) => Created(t, key, File, refusal)
    case Unlink(_, refusal) =>
      if Child(t, key.0, key.1).Some? then (t, Removal(IsDirectory)) else Removed(t, key, refusal)
    case Rmdir(_, refusal) =>
      if Child(t, key.0, key.1).None? then (t, Removal(NotDirectory)) else Removed(t, key, refusal)
  }

  // ---------------------------------------------------------------- the client without a cache

  /** The directory and the name in it that a plain walk makes of an absolute path. */
  function Target(t: Tree, path: string): (nat, string)
    requires Absolute(path)
  {
    (Reached(t, Parent(path)), Basename(path))
  }

  /** One call of a client that walks every path from the root: the tree afterwards, and the answer. */
  function Uncached(t: Tree, op: Op): (Tree, Answer)
    requires OpOk(op)
  {
    CallAt(t, if op.Tick? then (0, "") else Target(t, op.path), op)
  }

  predicate CallsOk(ops: seq<Op>) {
    forall i :: 0 <= i < |ops| ==> OpOk(ops[i])
  }

  function UncachedRun(t: Tree, ops: seq<Op>): (Tree, seq<Answer>)
    requires CallsOk(ops)
  {
    if ops == [] then (t, [])
    else
      var before := UncachedRun(t, ops[..|ops| - 1]);
      var step := Uncached(before.0, ops[|ops| - 1]);
      (step.0, before.1 + [step.1])
  }

  // ---------------------------------------------------------------- the client with a cache

  /** A call that was made: what happened to be in fi when it started, get_dirid's readings of the clock, the
      moment after get_dirid, the answer, and the moment after the call. */
  datatype Call = Call(op: Op, fi: Info, times: seq<nat>, found: State, answer: Answer, after: State)

  /** The directory and the name in it that get_dirid makes of the path. */
  function Key(s: State, c: Call): (nat, string)
    requires OpOk(c.op) && !c.op.Tick?
  {
    (Destination(s, c.op.path, c.fi, c.times).0, Basename(c.op.path))
  }

  /** What a call does: get_dirid, the request to the server, and after a deletion by rmdir the removal of
      the path from the cache. */
  predicate Called(s: State, c: Call) {
    OpOk(c.op) &&
    if c.op.Tick? then
      && c.found == c.after == State(s.tree, s.cache, c.after.clock)
      && s.clock <= c.after.clock && c.answer == Nothing
    else
      && Located(s, c.op.path, c.fi, c.times, c.found)
      && (c.after.tree, c.answer) == CallAt(s.tree, Key(s, c), c.op)
      && c.after.cache == (if c.op.Rmdir? && c.answer == Removal(Done) then RemoveFirst(c.found.cache, c.op.path)
                           else c.found.cache)
      && c.after.clock == c.found.clock
  }

  /** get_dirid meets nothing that is missing, or nothing that fools it. */
  predicate Resolving(s: State, c: Call) {
    c.op.Tick? || !Absolute(c.op.path) || Resolves(s.tree, Parent(c.op.path), Start(s, c.op.path, c.times).name, c.fi)
  }

  /** The own path of the directory that rmdir deletes when it is asked for path. */
  function DeletedPath(t: Tree, path: string): string
    requires Absolute(path)
  {
    ReachedPath(t, Parent(path)) + "/" + Basename(path)
  }

  /** A call that deletes a directory leaves no unexpired entry with the path of that directory. */
  ghost predicate LeavesNothing(s: State, c: Call) {
    c.op.Rmdir? && Absolute(c.op.path) && c.after.tree != s.tree ==>
      Misses(c.after.cache, DeletedPath(s.tree, c.op.path), c.after.clock)
  }

  lemma PathParts(path: string)
    requires Absolute(path)
    ensures '/' !in Basename(path) && path == Parent(path) + "/" + Basename(path)
  {
    hide LastIndexOf;
  }

  /** It is the path asked for exactly when every parent component is a directory; and it is gone
      after the deletion. */
  lemma DeletedPathMeaning(t: Tree, path: string)
    requires TreeOk(t) && Absolute(path)
    requires var key := Target(t, path); Child(t, key.0, key.1).Some? && EmptyDir(t, Child(t, key.0, key.1).value)
    ensures var key, name := Target(t, path), DeletedPath(t, path);
            && (name == path <==> Walk(t, Parent(path)).Some?)
            && Walk(t, name) == Child(t, key.0, key.1) && Walk(t - {key}, name).None?
  {
    hide Walk, Reached, ReachedPath, Parent, Basename;
    var key, prefix := Target(t, path), ReachedPath(t, Parent(path));
    PathParts(path);
    ReachedHasPath(t, Parent(path));
    WalkAppend(t, prefix, key.1);
    WalkSurvivesDelete(t, key, prefix);
    WalkAppend(t - {key}, prefix, key.1);
    WalkAppend(t, Parent(path), key.1);
  }

  /** A deletion by rmdir leaves a cache right if and only if, after the path asked for has been taken out,
      no unexpired entry has the path of the directory that was deleted. */
  lemma RmdirCoherentForCache(t: Tree, path: string, c: seq<Entry>, now: nat)
    requires TreeOk(t) && Absolute(path) && CacheOk(c, now) && Coherent(c, t, now)
    requires var key := Target(t, path); Child(t, key.0, key.1).Some? && EmptyDir(t, Child(t, key.0, key.1).value)
    ensures Coherent(RemoveFirst(c, path), t - {Target(t, path)}, now) <==>
            Misses(RemoveFirst(c, path), DeletedPath(t, path), now)
    ensures Walk(t, Parent(path)).Some? ==> Misses(RemoveFirst(c, path), DeletedPath(t, path), now)
  {
    hide Walk, Target, DeletedPath, RemoveFirst, CacheOk, Parent;
    DeletedPathMeaning(t, path);
    RemoveFirstKeeps(c, path, t, now);
    if Misses(RemoveFirst(c, path), DeletedPath(t, path), now) {
      DeleteKeepsCoherent(RemoveFirst(c, path), t, Target(t, path), DeletedPath(t, path), now);
    }
  }

  lemma CreateKeepsCoherent(c: seq<Entry>, t: Tree, key: (nat, string), node: Node, now: nat)
    requires Coherent(c, t, now) && key !in t
    ensures Coherent(c, t[key := node], now)
  {
    hide Walk;
    forall i | 0 <= i < |c| && Fresh(c[i], now) ensures Walk(t[key := node], c[i].dirname) == Some(c[i].did) {
      WalkSurvivesAdd(t, key, node, c[i].dirname);
    }
  }

  lemma CallKeepsTree(t: Tree, key: (nat, string), op: Op)
    requires TreeOk(t)
    ensures TreeOk(CallAt(t, key, op).0)
  {
  }

  /** Every call keeps the list newest first, without entries from the future, and with one ID for each
      name, whatever it is asked for. */
  lemma CalledOk(s: State, c: Call)
    requires StateOk(s) && Called(s, c)
    ensures StateOk(c.found) && StateOk(c.after) && s.clock <= c.after.clock
  {
    hide CacheOk, CallAt, Located, TreeOk, RemoveFirst, Key;
    if c.op.Tick? {
      KeepsWithTime(s.cache, s.tree, s.clock, c.after.clock);
    } else {
      LocatedOk(s, c.op.path, c.fi, c.times, c.found);
      CallKeepsTree(s.tree, Key(s, c), c.op);
      RemoveFirstKeeps(c.found.cache, c.op.path, s.tree, c.found.clock);
    }
  }

  /**
    One call with a coherent cache. get_dirid leaves a coherent cache exactly if it resolves. Then the call
    changes the tree and answers as if there were no cache, and the cache is coherent afterwards exactly if
    no entry of a directory that was deleted is left in it.
   */
  lemma CalledMeaning(s: State, c: Call)
    requires StateOk(s) && CoherentAt(s) && Called(s, c)
    ensures CoherentAt(c.found) <==> Resolving(s, c)
    ensures CoherentAt(c.found) ==> (c.after.tree, c.answer) == Uncached(s.tree, c.op)
    ensures CoherentAt(c.found) ==> (CoherentAt(c.after) <==> LeavesNothing(s, c))
  {
    hide CacheOk, Coherent, Located, TreeOk, RemoveFirst, Resolves, Reached, Destination, Parent, Basename, Misses;
    hide DeletedPath, Start;
    if c.op.Tick? {
      KeepsWithTime(s.cache, s.tree, s.clock, c.after.clock);
    } else {
      LocatedMeaning(s, c.op.path, c.fi, c.times, c.found);
      if CoherentAt(c.found) {
        LocatedOk(s, c.op.path, c.fi, c.times, c.found);
        AfterRequest(s, c);
      }
    }
  }

  lemma AfterRequest(s: State, c: Call)
    requires !c.op.Tick? && Called(s, c) && Key(s, c) == Target(s.tree, c.op.path)
    requires TreeOk(s.tree) && CacheOk(c.found.cache, c.found.clock) && Coherent(c.found.cache, s.tree, c.found.clock)
    ensures CoherentAt(c.after) <==> LeavesNothing(s, c)
  {
    hide CacheOk, Coherent, Located, TreeOk, RemoveFirst, Destination, Parent, Basename, Misses, DeletedPath, Target;
    var path, key, t, d, now := c.op.path, Key(s, c), s.tree, c.found.cache, c.found.clock;
    RemoveFirstKeeps(d, path, t, now);
    if c.after.tree == t {
    } else if c.op.Rmdir? {
      assert EmptyDir(t, Child(t, key.0, key.1).value);
      RmdirCoherentForCache(t, path, d, now);
    } else if c.op.Unlink? {
      DeleteKeepsCoherent(d, t, key, path, now);
    } else {
      CreateKeepsCoherent(d, t, key, if c.op.Mkdir? then Dir(c.op.newDid) else File, now);
    }
  }

  // ---------------------------------------------------------------- what a call does to the server

  /** A directory of that ID exists: the root, or one that some name stands for. */
  ghost predicate Exists(t: Tree, d: nat) {
    d == 2 || exists k :: k in t && t[k] == Dir(d)
  }

  /** The node a creation makes, and the answers it can get. */
  lemma CreationEffect(s: State, c: Call)
    requires Called(s, c) && (c.op.Mkdir? || c.op.Creat?)
    ensures var key, t, node := Key(s, c), s.tree, if c.op.Mkdir? then Dir(c.op.newDid) else File;
            && (c.answer == Reply(0) <==> && Exists(t, key.0) && key !in t && c.op.refusal == 0
                                          && (c.op.Mkdir? ==> c.op.newDid != 0 && !Exists(t, c.op.newDid)))
            && c.after.tree == (if c.answer == Reply(0) then t[key := node] else t)
            && (Exists(t, key.0) && key in t ==> c.answer == Reply(-5017))
            && (!Exists(t, key.0) ==> c.answer == Reply(-5018))
            && (Exists(t, key.0) && key !in t && c.op.refusal != 0 ==> c.answer == Reply(c.op.refusal))
  {
    hide Located, Key;
  }

  /** The nine codes that make a deletion fail. */
  predicate IsRefusal(rc: int) {
    rc in {-5000, -5032, -5018, -5031, -5007, -5025, -5014, -5019, -1}
  }

  /** The node a deletion takes away, and the answers it can get: nothing is done, and it is said why, when the
      node is missing, of the wrong kind or not empty, or the server refuses with one of the nine codes. */
  lemma DeletionEffect(s: State, c: Call)
    requires Called(s, c) && (c.op.Unlink? || c.op.Rmdir?)
    ensures var key, t := Key(s, c), s.tree;
            var same := c.after.tree == t;
            if c.op.Unlink? && key in t && t[key].Dir? then c.answer == Removal(IsDirectory) && same
            else if c.op.Rmdir? && (key !in t || t[key].File?) then c.answer == Removal(NotDirectory) && same
            else if key !in t then c.answer == Removal(Failed(-5018)) && same
            else if t[key].Dir? && !EmptyDir(t, t[key].did) then c.answer == Removal(Failed(-5007)) && same
            else if IsRefusal(c.op.refusal) then c.answer == Removal(Failed(c.op.refusal)) && same
            else c.answer == Removal(Done) && c.after.tree == if c.op.refusal == 0 then t - {key} else t
  {
    hide Located, Key;
  }

  /** A call that only looks. */
  lemma NoEffect(s: State, c: Call)
    requires Called(s, c) && (c.op.Tick? || c.op.Resolve?)
    ensures c.after.tree == s.tree
    ensures c.answer == if c.op.Tick? then Nothing else Place(Key(s, c).0, Key(s, c).1)
  {
    hide Located, Key;
  }

  /** A successful mkdir that resolved, below a parent that is there: the path is a new directory with the ID
      the server gave, and every other node is as it was. */
  lemma MkdirMakesDirectory(s: State, c: Call)
    requires StateOk(s) && CoherentAt(s) && Called(s, c) && c.op.Mkdir? && CoherentAt(c.found)
    requires c.answer == Reply(0) && Walk(s.tree, Parent(c.op.path)).Some?
    ensures Walk(s.tree, c.op.path).None? && Walk(c.after.tree, c.op.path) == Some(c.op.newDid)
    ensures var key := (Walk(s.tree, Parent(c.op.path)).value, Basename(c.op.path));
            key !in s.tree && c.after.tree == s.tree[key := Dir(c.op.newDid)]
  {
    hide Called, StateOk, CoherentAt, Walk, Reached, Key, Parent, Basename;
    CreationAt(s, c);
  }

  /** A successful creat under the same conditions: the name is a file, and every other node is as it was. */
  lemma CreatMakesFile(s: State, c: Call)
    requires StateOk(s) && CoherentAt(s) && Called(s, c) && c.op.Creat? && CoherentAt(c.found)
    requires c.answer == Reply(0) && Walk(s.tree, Parent(c.op.path)).Some?
    ensures Walk(c.after.tree, c.op.path).None?
    ensures var key := (Walk(s.tree, Parent(c.op.path)).value, Basename(c.op.path));
            key !in s.tree && c.after.tree == s.tree[key := File]
  {
    hide Called, StateOk, CoherentAt, Walk, Reached, Key, Parent, Basename;
    CreationAt(s, c);
  }

  lemma CreationAt(s: State, c: Call)
    requires StateOk(s) && CoherentAt(s) && Called(s, c) && (c.op.Mkdir? || c.op.Creat?) && CoherentAt(c.found)
    requires c.answer == Reply(0) && Walk(s.tree, Parent(c.op.path)).Some?
    ensures var d, base := Walk(s.tree, Parent(c.op.path)).value, Basename(c.op.path);
            var node := if c.op.Mkdir? then Dir(c.op.newDid) else File;
            && (d, base) !in s.tree && c.after.tree == s.tree[(d, base) := node]
            && Walk(s.tree, c.op.path).None?
            && Walk(c.after.tree, c.op.path) == if c.op.Mkdir? then Some(c.op.newDid) else None
  {
    hide StateOk, CoherentAt, Walk, Reached, Parent, Basename, Destination, Located;
    var path, t := c.op.path, s.tree;
    ResolvedKey(s, c);
    CreationEffect(s, c);
    ReachedOfWalk(t, Parent(path));
    PathParts(path);
    WalkAppend(t, Parent(path), Basename(path));
    WalkSurvivesAdd(t, Key(s, c), if c.op.Mkdir? then Dir(c.op.newDid) else File, Parent(path));
    WalkAppend(c.after.tree, Parent(path), Basename(path));
  }

  /** A call that resolved is about the name that the plain walk finds. */
  lemma ResolvedKey(s: State, c: Call)
    requires StateOk(s) && CoherentAt(s) && Called(s, c) && !c.op.Tick? && CoherentAt(c.found)
    ensures Key(s, c) == (Reached(s.tree, Parent(c.op.path)), Basename(c.op.path))
  {
    hide StateOk, CoherentAt, Located, Destination, Reached, Parent, Basename;
    LocatedMeaning(s, c.op.path, c.fi, c.times, c.found);
  }

  /** A deletion that resolved and was carried out, below a parent that is there: it took exactly the node with
      that name, a file for unlink and an empty directory for rmdir. */
  lemma DeletionTakesNode(s: State, c: Call)
    requires StateOk(s) && CoherentAt(s) && Called(s, c) && (c.op.Unlink? || c.op.Rmdir?) && CoherentAt(c.found)
    requires c.after.tree != s.tree && Walk(s.tree, Parent(c.op.path)).Some?
    ensures var key := (Walk(s.tree, Parent(c.op.path)).value, Basename(c.op.path));
            && key in s.tree && c.after.tree == s.tree - {key} && c.answer == Removal(Done)
            && (if c.op.Unlink? then s.tree[key] == File
                else Walk(s.tree, c.op.path) == Some(s.tree[key].did) && EmptyDir(s.tree, s.tree[key].did))
    ensures Walk(c.after.tree, c.op.path).None?
  {
    hide StateOk, CoherentAt, Walk, Reached, Parent, Basename, Destination, Located;
    var path, t := c.op.path, s.tree;
    ResolvedKey(s, c);
    DeletionEffect(s, c);
    ReachedOfWalk(t, Parent(path));
    PathParts(path);
    WalkAppend(t, Parent(path), Basename(path));
    assert TreeOk(t) by { OkTree(s); }
    if c.op.Rmdir? { EmptyIsElsewhere(t, Key(s, c), Parent(path)); }
    WalkSurvivesDelete(t, Key(s, c), Parent(path));
    WalkAppend(c.after.tree, Parent(path), Basename(path));
  }

  lemma OkTree(s: State)
    requires StateOk(s)
    ensures TreeOk(s.tree)
  {
  }

  /** An empty directory is not the one its name stands in. */
  lemma EmptyIsElsewhere(t: Tree, key: (nat, string), parent: string)
    requires key in t && t[key].Dir? && EmptyDir(t, t[key].did) && Walk(t, parent) == Some(key.0)
    ensures Walk(t, parent).value != t[key].did
  {
    hide Walk;
  }

  // ---------------------------------------------------------------- runs

  /** The moment before the i-th call. */
  function Before(first: State, calls: seq<Call>, i: nat): State
    requires i <= |calls|
  {
    if i == 0 then first else calls[i - 1].after
  }

  /** The calls were made one after the other. */
  predicate IsRun(first: State, ops: seq<Op>, calls: seq<Call>) {
    |calls| == |ops| &&
    forall i :: 0 <= i < |ops| ==> calls[i].op == ops[i] && Called(Before(first, calls, i), calls[i])
  }

  function Answers(calls: seq<Call>): seq<Answer> {
    seq(|calls|, i requires 0 <= i < |calls| => calls[i].answer)
  }

  /** In the first n calls, right after get_dirid and after the call, every unexpired entry has named an
      existing directory and held its ID. */
  ghost predicate AlwaysCoherent(calls: seq<Call>, n: nat)
    requires n <= |calls|
  {
    forall i :: 0 <= i < n ==> CoherentAt(calls[i].found) && CoherentAt(calls[i].after)
  }

  /** The first n calls all resolved, and left nothing of what they deleted. */
  ghost predicate AllRight(first: State, calls: seq<Call>, n: nat)
    requires n <= |calls|
  {
    forall i :: 0 <= i < n ==>
      Resolving(Before(first, calls, i), calls[i]) && LeavesNothing(Before(first, calls, i), calls[i])
  }

  /** Whatever the calls ask for, the list is in order after each. */
  lemma {:induction false} RunOk(first: State, ops: seq<Op>, calls: seq<Call>, n: nat)
    requires StateOk(first) && CallsOk(ops) && IsRun(first, ops, calls) && n <= |calls|
    ensures StateOk(Before(first, calls, n)) && (n > 0 ==> StateOk(calls[n - 1].found))
  {
    hide StateOk, Called, IsRun;
    if n > 0 {
      RunOk(first, ops, calls, n - 1);
      RunCall(first, ops, calls, n - 1);
      CalledOk(Before(first, calls, n - 1), calls[n - 1]);
    }
  }

  /**
    Any run from a coherent cache. It has been coherent all along if and only if every call has resolved and
    no rmdir has left an entry of what it deleted. As long as it has, the tree and all the answers are those
    of a client without a cache, also for the call that spoils it at last.
   */
  lemma {:induction false} RunRightIff(first: State, ops: seq<Op>, calls: seq<Call>, n: nat)
    requires StateOk(first) && CoherentAt(first) && CallsOk(ops) && IsRun(first, ops, calls) && n <= |calls|
    ensures AlwaysCoherent(calls, n) <==> AllRight(first, calls, n)
    ensures n == 0 || (AlwaysCoherent(calls, n - 1) && CoherentAt(calls[n - 1].found)) ==>
              UncachedRun(first.tree, ops[..n]) == (Before(first, calls, n).tree, Answers(calls[..n]))
  {
    hide StateOk, CoherentAt, Called, Resolving, LeavesNothing, Uncached, UncachedRun, AlwaysCoherent, AllRight, IsRun;
    if n == 0 {
      assert ops[..0] == [] && Answers(calls[..0]) == [];
      NoCall(first, calls);
    } else {
      var s, c := Before(first, calls, n - 1), calls[n - 1];
      RunRightIff(first, ops, calls, n - 1);
      RunOk(first, ops, calls, n - 1);
      OneMoreCall(first, calls, n);
      RunCall(first, ops, calls, n - 1);
      if AlwaysCoherent(calls, n - 1) {
        CalledMeaning(s, c);
        UncachedStep(first.tree, ops, n - 1);
        assert Answers(calls[..n]) == Answers(calls[..n - 1]) + [c.answer];
      }
    }
  }

  lemma NoCall(first: State, calls: seq<Call>)
    ensures AlwaysCoherent(calls, 0) && AllRight(first, calls, 0)
    ensures UncachedRun(first.tree, []) == (first.tree, [])
  {
  }

  lemma RunCall(first: State, ops: seq<Op>, calls: seq<Call>, i: nat)
    requires IsRun(first, ops, calls) && i < |calls|
    ensures |calls| == |ops| && calls[i].op == ops[i] && Called(Before(first, calls, i), calls[i])
  {
    hide Called;
  }

  lemma OneMoreCall(first: State, calls: seq<Call>, n: nat)
    requires CoherentAt(first) && 0 < n <= |calls|
    ensures var s, c := Before(first, calls, n - 1), calls[n - 1];
            && (AlwaysCoherent(calls, n) <==>
                AlwaysCoherent(calls, n - 1) && CoherentAt(c.found) && CoherentAt(c.after))
            && (AllRight(first, calls, n) <==> AllRight(first, calls, n - 1) && Resolving(s, c) && LeavesNothing(s, c))
            && (AlwaysCoherent(calls, n - 1) ==>
                CoherentAt(s) && (n == 1 || (AlwaysCoherent(calls, n - 2) && CoherentAt(calls[n - 2].found))))
  {
    hide CoherentAt, Called, Resolving, LeavesNothing;
  }

  lemma AlwaysCoherentBefore(calls: seq<Call>, n: nat)
    requires 0 < n <= |calls| && AlwaysCoherent(calls, n)
    ensures AlwaysCoherent(calls, n - 1) && CoherentAt(calls[n - 1].found)
  {
  }

  lemma NoRun(s: State)
    ensures IsRun(s, [], []) && Before(s, [], 0) == s && Answers([]) == []
  {
  }

  /** One more call makes a longer run. */
  lemma RunAnother(first: State, ops: seq<Op>, calls: seq<Call>, c: Call)
    requires IsRun(first, ops, calls) && Called(Before(first, calls, |calls|), c)
    ensures IsRun(first, ops + [c.op], calls + [c]) && Before(first, calls + [c], |calls| + 1) == c.after
    ensures Answers(calls + [c]) == Answers(calls) + [c.answer]
  {
    hide Called;
    forall i | 0 <= i < |calls| + 1
      ensures (calls + [c])[i].op == (ops + [c.op])[i] && Called(Before(first, calls + [c], i), (calls + [c])[i])
    {
      assert i < |calls| ==> Called(Before(first, calls, i), calls[i]);
      assert Before(first, calls + [c], i) == Before(first, calls, i);
    }
  }

  lemma UncachedStep(t: Tree, ops: seq<Op>, i: nat)
    requires CallsOk(ops) && i < |ops|
    ensures var before := UncachedRun(t, ops[..i]);
            var step := Uncached(before.0, ops[i]);
            UncachedRun(t, ops[..i + 1]) == (step.0, before.1 + [step.1])
  {
    assert ops[..i + 1][..i] == ops[..i];
  }

  // ---------------------------------------------------------------- the calls that are safe

  /** Nothing on the way to the parent is missing, and if the call is an rmdir that deletes something, the
      parent is there. */
  predicate WellAimed(t: Tree, op: Op)
    requires OpOk(op)
  {
    op.Tick? ||
    (NothingMissing(t, Parent(op.path)) && (op.Rmdir? && Uncached(t, op).0 != t ==> Walk(t, Parent(op.path)).Some?))
  }

  /** A well-aimed call keeps a coherent cache coherent, and is answered as without a cache. */
  lemma WellAimedKeeps(s: State, c: Call)
    requires StateOk(s) && CoherentAt(s) && Called(s, c) && WellAimed(s.tree, c.op)
    ensures CoherentAt(c.found) && CoherentAt(c.after)
  {
    hide CacheOk, Coherent, Located, TreeOk, RemoveFirst, NothingMissing, ReachedPath, Parent, Basename, Walk;
    hide Misses, Start;
    CalledMeaning(s, c);
    if c.op.Rmdir? && c.after.tree != s.tree {
      hide CoherentAt, StateOk;
      LocatedOk(s, c.op.path, c.fi, c.times, c.found);
      var key := Target(s.tree, c.op.path);
      assert EmptyDir(s.tree, Child(s.tree, key.0, key.1).value);
      RmdirCoherentForCache(s.tree, c.op.path, c.found.cache, c.found.clock);
    }
  }

  /**
    The calls that keep the cache right, whatever coherent cache they meet, whatever happens to be in fi and
    however slow the clock: exactly the well-aimed ones.
   */
  lemma CallSafeIff(t: Tree, op: Op)
    requires TreeOk(t) && OpOk(op)
    ensures WellAimed(t, op) <==>
            forall s: State, c: Call :: s.tree == t && c.op == op && StateOk(s) && CoherentAt(s) && Called(s, c) ==>
              CoherentAt(c.found) && CoherentAt(c.after)
  {
    hide CacheOk, Coherent, Called, TreeOk, WellAimed;
    forall s: State, c: Call |
      WellAimed(t, op) && s.tree == t && c.op == op && StateOk(s) && CoherentAt(s) && Called(s, c)
      ensures CoherentAt(c.found) && CoherentAt(c.after)
    {
      WellAimedKeeps(s, c);
    }
    if !WellAimed(t, op) {
      var s, c := Spoiling(t, op);
    }
  }

  /** Any call that is not well aimed spoils some coherent cache. */
  lemma Spoiling(t: Tree, op: Op) returns (s: State, c: Call)
    requires TreeOk(t) && OpOk(op) && !WellAimed(t, op)
    ensures s.tree == t && c.op == op && StateOk(s) && CoherentAt(s) && Called(s, c)
    ensures !(CoherentAt(c.found) && CoherentAt(c.after))
  {
    if NothingMissing(t, Parent(op.path)) {
      s, c := SpoilingRmdir(t, op);
    } else {
      s := State(t, [], 0);
      var times, found := LocatedInNoTime(s, op.path, Info(true, 0));
      c := CallOf(s, op, Info(true, 0), times, found);
      CalledMeaning(s, c);
    }
  }

  lemma SpoilingRmdir(t: Tree, op: Op) returns (s: State, c: Call)
    requires TreeOk(t) && OpOk(op) && !WellAimed(t, op) && NothingMissing(t, Parent(op.path))
    ensures s.tree == t && c.op == op && StateOk(s) && CoherentAt(s) && Called(s, c)
    ensures !CoherentAt(c.after)
  {
    hide CacheOk, Coherent, TreeOk, Walk, RemoveFirst, NothingMissing, ReachedPath, Parent, Basename, Start;
    hide Destination, DeletedPath, Reached;
    var path, key := op.path, Target(t, op.path);
    assert EmptyDir(t, Child(t, key.0, key.1).value);
    DeletedPathMeaning(t, path);
    var e := Entry(DeletedPath(t, path), Child(t, key.0, key.1).value, 0);
    OneEntry(e, t, path);
    s := State(t, [e], 0);
    assert Fresh(e, 0);
    var times, found := LocatedInNoTime(s, path, Info(true, 0));
    c := CallOf(s, op, Info(true, 0), times, found);
    CalledMeaning(s, c);
    assert Resolving(s, c);
    RemoveFirstLeaves(found.cache, path, e);
    DirNotZero(t, key);
    NotMissed(c.after.cache, e, 0);
  }

  lemma DirNotZero(t: Tree, key: (nat, string))
    requires TreeOk(t) && Child(t, key.0, key.1).Some?
    ensures Child(t, key.0, key.1).value != 0
  {
  }

  lemma NotMissed(c: seq<Entry>, e: Entry, now: nat)
    requires e in c && Fresh(e, now) && e.did != 0
    ensures !Misses(c, e.dirname, now)
  {
    var i :| 0 <= i < |c| && c[i] == e;
  }

  function TickCall(s: State, later: nat): (c: Call)
    requires s.clock <= later
    ensures c.op == Tick && Called(s, c) && c.answer == Nothing && c.after == State(s.tree, s.cache, later)
  {
    var after := State(s.tree, s.cache, later);
    Call(Tick, Info(false, 0), [], after, Nothing, after)
  }

  function CallOf(s: State, op: Op, fi: Info, times: seq<nat>, found: State): (c: Call)
    requires OpOk(op) && !op.Tick? && Located(s, op.path, fi, times, found)
    ensures c.op == op && c.fi == fi && c.times == times && c.found == found && Called(s, c)
  {
    var r := CallAt(s.tree, (Destination(s, op.path, fi, times).0, Basename(op.path)), op);
    var list := if op.Rmdir? && r.1 == Removal(Done) then RemoveFirst(found.cache, op.path) else found.cache;
    Call(op, fi, times, found, r.1, State(r.0, list, found.clock))
  }

  lemma {:induction false} RemoveFirstLeaves(c: seq<Entry>, name: string, e: Entry)
    requires e in c && e.dirname != name
    ensures e in RemoveFirst(c, name)
  {
    if c[0].dirname != name && c[0] != e { RemoveFirstLeaves(c[1..], name, e); }
  }

  /** A sequence of calls that are well aimed at the trees of a client without a cache: however it runs, the
      cache is right all along, and the tree and all the answers are those of that client. */
  lemma {:induction false} WellAimedRun(first: State, ops: seq<Op>, calls: seq<Call>, n: nat)
    requires StateOk(first) && CoherentAt(first) && CallsOk(ops) && IsRun(first, ops, calls) && n <= |calls|
    requires forall i :: 0 <= i < n ==> WellAimed(UncachedRun(first.tree, ops[..i]).0, ops[i])
    ensures AlwaysCoherent(calls, n)
    ensures UncachedRun(first.tree, ops[..n]) == (Before(first, calls, n).tree, Answers(calls[..n]))
  {
    hide StateOk, CoherentAt, Called, Resolving, LeavesNothing, Uncached, WellAimed, UncachedRun, IsRun, AlwaysCoherent;
    hide AllRight;
    RunRightIff(first, ops, calls, n);
    if n > 0 {
      WellAimedRun(first, ops, calls, n - 1);
      RunOk(first, ops, calls, n - 1);
      RunCall(first, ops, calls, n - 1);
      OneMoreCall(first, calls, n);
      WellAimedKeeps(Before(first, calls, n - 1), calls[n - 1]);
    } else {
      NoCall(first, calls);
    }
  }

  /** The failing family is not empty: rmdir of /a/x/b with a file /a/x deletes /a/b, still cached. */
  lemma RmdirBelowFile(a: string, b: string, x: string, t: Tree)
    requires '/' !in a && '/' !in b && '/' !in x && x != b
    requires t == map[(2, a) := Dir(5), (5, b) := Dir(7), (5, x) := File]
    ensures var parent := "/" + a + "/" + x;
            Reached(t, parent) == 5 && NothingMissing(t, parent) && Walk(t, parent).None? && Child(t, 5, b) == Some(7)
    ensures var c := [Entry("/" + a + "/" + b, 7, 100)];
            CacheOk(c, 100) && Coherent(c, t, 100) &&
            !Coherent(RemoveFirst(c, "/" + a + "/" + x + "/" + b), t - {(5, b)}, 100)
  {
    hide Walk, Reached, RemoveFirst, Coherent, CacheOk, NothingMissing, ReachedPath;
    var t' := t - {(5, b)};
    var pa := "/" + a;
    assert Walk(t, pa) == Some(5) by {
      assert Walk(t, "") == Some(AFP_ROOT_DID) by { RootWalk(t); }
      assert pa == "" + "/" + a;
      WalkAppend(t, "", a);
    }
    WalkAppend(t, pa, b);
    WalkAppend(t, pa, x);
    WalkAppend(t', pa, b);
    var parent := pa + "/" + x;
    assert parent[..|pa|] == pa && parent[|pa| + 1..|parent|] == x && parent[..|parent|] == parent;
    WalkStep(t, parent, |pa|, |parent|);
    var e := Entry(pa + "/" + b, 7, 100);
    var path := pa + "/" + x + "/" + b;
    assert path != e.dirname by { assert |path| > |e.dirname|; }
    OneEntry(e, t, path);
    OneEntry(e, t', path);
  }
}
