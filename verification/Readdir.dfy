/**
  Enumerating a directory in batches: ll_readdir (lib/lowlevel.c) chains the linked lists that
  afp_enumerateext2_reply (lib/proto_directory.c) builds, by the next pointers of their nodes.
 */
module Readdir {
  import opened Codes
  import opened Strings

  const BATCH: nat := 20

  /** The codes that end the enumeration with EIO. */
  predicate IsFatal(rc: int) {
    rc in {-1, kFPBitmapErr, kFPMiscErr, kFPObjectTypeErr, kFPParamErr, kFPCallNotSupported}
  }

  lemma FatalCodes(rc: int)
    ensures IsFatal(rc) <==> rc in {-1, -5004, -5014, -5025, -5019, -5024}
  {
  }

  class FileInfo {
    const name: string
    var next: FileInfo?

    constructor (name: string)
      ensures this.name == name && next == null
    {
      this.name, next := name, null;
    }
  }

  /** The nodes reached from head along next, in order, each once. */
  ghost predicate Chain(head: FileInfo?, nodes: seq<FileInfo>)
    reads set n | n in nodes
  {
    && head == (if nodes == [] then null else nodes[0])
    && (forall i, j :: 0 <= i < j < |nodes| ==> nodes[i] != nodes[j])
    && (forall i :: 0 <= i < |nodes| - 1 ==> nodes[i].next == nodes[i + 1])
    && (nodes != [] ==> nodes[|nodes| - 1].next == null)
  }

  ghost function Names(nodes: seq<FileInfo>): (s: seq<string>)
    ensures |s| == |nodes| && forall i :: 0 <= i < |s| ==> s[i] == nodes[i].name
  {
    seq(|nodes|, i requires 0 <= i < |nodes| => nodes[i].name)
  }

  lemma ChainOfNone()
    ensures Chain(null, []) && Names([]) == []
  {
  }

  lemma ChainOfOne(n: FileInfo)
    requires n.next == null
    ensures Chain(n, [n]) && Names([n]) == [n.name]
  {
  }

  lemma NamesConcat(a: seq<FileInfo>, b: seq<FileInfo>)
    ensures Names(a + b) == Names(a) + Names(b)
  {
  }

  /** Hanging a list behind the last node, or making it the list. */
  method Append(fileBase: FileInfo?, last: FileInfo?, base: FileInfo?,
                ghost nodes: seq<FileInfo>, ghost more: seq<FileInfo>) returns (newBase: FileInfo?)
    requires Chain(fileBase, nodes) && Chain(base, more)
    requires last == if nodes == [] then null else nodes[|nodes| - 1]
    requires forall n :: n in more ==> n !in nodes
    modifies last
    ensures Chain(newBase, nodes + more)
  {
    ghost var all := nodes + more;
    assert last != null ==> last in nodes;
    if fileBase == null {
      newBase := base;
      assert all == more;
    } else {
      forall k | 0 <= k < |more| ensures more[k] != last { assert more[k] in more; }
      last.next := base;
      newBase := fileBase;
      forall i | 0 <= i < |all| - 1 ensures all[i].next == all[i + 1] {
        if i >= |nodes| {
          assert all[i] == more[i - |nodes|] && all[i + 1] == more[i - |nodes| + 1];
        } else if i < |nodes| - 1 {
          assert all[i] == nodes[i] && all[i + 1] == nodes[i + 1];
        }
      }
      forall i, j | 0 <= i < j < |all| ensures all[i] != all[j] {
        if i < |nodes| <= j { assert all[i] in nodes && all[j] == more[j - |nodes|] && all[j] in more; }
      }
      assert Chain(newBase, all);
    }
  }

  /** afp_enumerateext2_reply: a fresh list of the entries of one reply. */
  method EnumerateReply(entries: seq<string>) returns (fileBase: FileInfo?, ghost nodes: seq<FileInfo>)
    ensures Chain(fileBase, nodes) && Names(nodes) == entries
    ensures forall n :: n in nodes ==> fresh(n)
  {
    hide Names, Chain;
    fileBase, nodes := null, [];
    var fileCur: FileInfo? := null;
    ChainOfNone();
    for i := 0 to |entries|
      invariant |nodes| == i && Chain(fileBase, nodes) && Names(nodes) == entries[..i]
      invariant fileCur == (if nodes == [] then null else nodes[|nodes| - 1])
      invariant forall n :: n in nodes ==> fresh(n)
    {
      var newFile := new FileInfo(entries[i]);
      ChainOfOne(newFile);
      NamesConcat(nodes, [newFile]);
      assert fileCur != null ==> fileCur in nodes;
      fileBase := Append(fileBase, fileCur, newFile, nodes, [newFile]);
      fileCur, nodes := newFile, nodes + [newFile];
    }
  }

  /** A directory on the server. It may be gone once vanishesAfter of its entries have been delivered, and
      it may promise to answer without other errors, or, if not, always with the code refusal. */
  class RemoteDir {
    const entries: seq<string>
    const vanishesAfter: Option<nat>
    const errorFree: bool
    const refusal: Option<int>

    constructor (names: seq<string>, vanishesAfter: Option<nat>, errorFree: bool, refusal: Option<int>)
      ensures entries == names && this.vanishesAfter == vanishesAfter
      ensures this.errorFree == errorFree && this.refusal == refusal
    {
      entries, this.vanishesAfter, this.errorFree, this.refusal := names, vanishesAfter, errorFree, refusal;
    }

    /** How many entries can be had before the directory is gone. */
    function Deliverable(): (n: nat)
      ensures n <= |entries|
    {
      if vanishesAfter.Some? && vanishesAfter.value < |entries| then vanishesAfter.value else |entries|
    }

    /** afp_enumerateext2, which is asked for 20 entries at a time: from 1 to that many from the 1-based
        startIndex on, "not found" past the end, "directory not found" when it is gone, or one of the errors
        ll_readdir knows. */
    method Enumerate(reqcount: nat, startIndex: nat) returns (rc: int, base: FileInfo?, ghost nodes: seq<FileInfo>)
      requires reqcount == 20 && startIndex > 0
      ensures Chain(base, nodes) && forall n :: n in nodes ==> fresh(n)
      ensures rc == 0 ==> 1 <= |nodes| <= reqcount && startIndex - 1 + |nodes| <= Deliverable()
                                 && Names(nodes) == entries[startIndex - 1..startIndex - 1 + |nodes|]
      ensures rc == -5018 ==> nodes == [] && startIndex > |entries|
      ensures rc == -5029 ==> vanishesAfter.Some? && startIndex - 1 >= vanishesAfter.value
      ensures rc != 0 ==> nodes == []
      ensures rc in {0, -5018, -5000, -5029} || IsFatal(rc)
      ensures errorFree ==> rc in {0, -5018, -5029} && !IsFatal(rc)
      ensures !errorFree && refusal.Some? && (refusal.value == kFPAccessDenied || IsFatal(refusal.value)) ==>
                rc == refusal.value
    {
      rc, base, nodes := *, null, [];
      if refusal.Some? { rc := refusal.value; }
      if !errorFree && (rc == kFPAccessDenied || IsFatal(rc)) {
        return;
      }
      if vanishesAfter.Some? && startIndex - 1 >= vanishesAfter.value {
        rc := kFPDirNotFound;
        return;
      }
      if startIndex > |entries| {
        rc := kFPObjectNotFound;
        return;
      }
      var left := Deliverable() - (startIndex - 1);
      var n :| 1 <= n <= left && n <= reqcount;
      rc := kFPNoErr;
      base, nodes := EnumerateReply(entries[startIndex - 1..startIndex - 1 + n]);
    }
  }

  /** Past the end of the fresh list, counting its nodes. */
  method Advance(last: FileInfo?, startIndex: nat, base: FileInfo?, ghost more: seq<FileInfo>)
    returns (newLast: FileInfo?, newStart: nat)
    requires Chain(base, more)
    ensures newStart == startIndex + |more|
    ensures newLast == if more == [] then last else more[|more| - 1]
  {
    newLast, newStart := last, startIndex;
    var p := base;
    ghost var k := 0;
    while p != null
      invariant 0 <= k <= |more| && p == (if k < |more| then more[k] else null)
      invariant newStart == startIndex + k
      invariant newLast == if k == 0 then last else more[k - 1]
      decreases |more| - k
    {
      newStart := newStart + 1;
      newLast := p;
      p := p.next;
      k := k + 1;
    }
  }

  /** The nodes hold the first entries of the directory. */
  ghost predicate Collected(d: RemoteDir, nodes: seq<FileInfo>) {
    |nodes| <= d.Deliverable() && Names(nodes) == d.entries[..|nodes|]
  }

  lemma CollectMore(d: RemoteDir, nodes: seq<FileInfo>, more: seq<FileInfo>)
    requires Collected(d, nodes) && |nodes| + |more| <= d.Deliverable()
    requires Names(more) == d.entries[|nodes|..|nodes| + |more|]
    ensures Collected(d, nodes + more)
  {
    hide Names;
    NamesConcat(nodes, more);
  }

  lemma GoneAt(d: RemoteDir, startIndex: nat)
    requires startIndex > |d.entries| || (d.vanishesAfter.Some? && startIndex - 1 >= d.vanishesAfter.value)
    ensures startIndex - 1 >= d.Deliverable()
  {
  }

  lemma CollectedStart(d: RemoteDir)
    ensures Chain(null, []) && Collected(d, [])
  {
  }

  lemma CollectedEnd(d: RemoteDir, nodes: seq<FileInfo>)
    requires Collected(d, nodes)
    ensures |nodes| <= d.Deliverable() && (|nodes| == d.Deliverable() ==> Names(nodes) == d.entries[..d.Deliverable()])
    ensures d.entries[..d.Deliverable()] == d.entries <==> d.vanishesAfter.None? || d.vanishesAfter.value >= |d.entries|
  {
    hide Names;
  }

  /**
    ll_readdir for AFP 3. When it returns 0, the list is a proper one and holds the directory's entries in
    order, as many as could be had: all of them if and only if the directory did not vanish before the
    last one was delivered. The caller gets 0 in either case.
   */
  method LlReaddir(d: RemoteDir) returns (ret: int, fb: FileInfo?, ghost nodes: seq<FileInfo>)
    ensures ret in {0, -EIO, -EACCES}
    ensures d.errorFree ==> ret == 0
    ensures !d.errorFree && d.refusal == Some(-5000) ==> ret == -13
    ensures !d.errorFree && d.refusal.Some? && d.refusal.value in {-1, -5004, -5014, -5025, -5019, -5024} ==> ret == -5
    ensures ret == 0 ==> Chain(fb, nodes) && Names(nodes) == d.entries[..d.Deliverable()]
    ensures ret == 0 ==> (Names(nodes) == d.entries <==> d.vanishesAfter.None? || d.vanishesAfter.value >= |d.entries|)
  {
    hide Names, Chain, IsFatal, Collected, RemoteDir.Deliverable;
    var fileBase: FileInfo?, last: FileInfo? := null, null;
    CollectedStart(d);
    ghost var refused := !d.errorFree && d.refusal.Some?
                         && (d.refusal.value == kFPAccessDenied || IsFatal(d.refusal.value));
    if d.refusal.Some? { FatalCodes(d.refusal.value); }
    FatalCodes(kFPAccessDenied);
    var startIndex, exit := 1, false;
    nodes, fb := [], null;
    while !exit
      invariant Chain(fileBase, nodes) && Collected(d, nodes)
      invariant startIndex == 1 + |nodes|
      invariant last == (if nodes == [] then null else nodes[|nodes| - 1])
      invariant forall n :: n in nodes ==> fresh(n)
      invariant exit ==> |nodes| == d.Deliverable() && !refused
      decreases |d.entries| - |nodes|, !exit
    {
      CollectedEnd(d, nodes);
      var rc, base, more := d.Enumerate(BATCH, startIndex);
      if IsFatal(rc) {
        return -EIO, null, nodes;
      }
      if rc == kFPAccessDenied {
        return -EACCES, null, nodes;
      }
      if rc == kFPDirNotFound {
        GoneAt(d, startIndex);
        exit := true;
      } else {
        if rc == kFPNoErr { CollectMore(d, nodes, more); } else { assert nodes + more == nodes; }
        assert last != null ==> last in nodes;
        fileBase := Append(fileBase, last, base, nodes, more);
        nodes := nodes + more;
        last, startIndex := Advance(last, startIndex, base, more);
        if rc == kFPObjectNotFound { exit := true; GoneAt(d, startIndex); }
      }
    }
    CollectedEnd(d, nodes);
    ret, fb := 0, fileBase;
  }

  /** A directory that vanishes between its first and its second entry: 0, and a list of one. */
  method PartialListing() returns (ret: int, fb: FileInfo?, ghost nodes: seq<FileInfo>)
    ensures ret == 0 && Chain(fb, nodes) && Names(nodes) == ["a"]
  {
    hide Names, Chain;
    var d := new RemoteDir(["a", "b"], Some(1), true, None);
    ret, fb, nodes := LlReaddir(d);
    assert d.entries[..1] == ["a"];
  }
}
