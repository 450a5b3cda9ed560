/**
  The end of a mount (lib/afp.c): unmounting a volume, unmounting all volumes of a server, and taking
  the server out of the list of servers when nothing of it is mounted any more.
 */
module Unmounting {

  datatype MountState = Unmounted | Mounted | Dismounting

  class Volume {
    var mounted: MountState
    const server: Server

    constructor (server: Server, mounted: MountState)
      ensures this.server == server && this.mounted == mounted
    {
      this.server, this.mounted := server, mounted;
    }
  }

  /** A server; once freed, its memory and that of its volumes may not be touched. */
  class Server {
    var volumes: seq<Volume>
    var next: Server?
    var freed: bool

    constructor ()
      ensures volumes == [] && next == null && !freed
    {
      volumes, next, freed := [], null, false;
    }

    /** Each volume belongs to this server and stands once in its table. */
    ghost predicate Owns()
      reads this
    {
      && (forall i :: 0 <= i < |volumes| ==> volumes[i].server == this)
      && forall i, j :: 0 <= i < j < |volumes| ==> volumes[i] != volumes[j]
    }

    ghost function States(): (s: seq<MountState>)
      reads this, volumes
      ensures |s| == |volumes| && forall i :: 0 <= i < |s| ==> s[i] == volumes[i].mounted
    {
      seq(|volumes|, i requires 0 <= i < |volumes| reads this, volumes => volumes[i].mounted)
    }
  }

  // The code reaches the fields of servers and volumes only through these members. Each needs a server that
  // has not been freed, since a server's memory and that of its volume table go with it.

  function MountedOf(v: Volume): MountState
    requires !v.server.freed
    reads v, v.server
  {
    v.mounted
  }

  method SetMounted(v: Volume, state: MountState)
    requires !v.server.freed
    modifies v`mounted
    ensures v.mounted == state
  {
    v.mounted := state;
  }

  function ServerOf(v: Volume): Server
    requires !v.server.freed
    reads v.server
  {
    v.server
  }

  function VolumesOf(s: Server): seq<Volume>
    requires !s.freed
    reads s
  {
    s.volumes
  }

  function NextOf(s: Server): Server?
    requires !s.freed
    reads s
  {
    s.next
  }

  method SetNext(s: Server, next: Server?)
    requires !s.freed
    modifies s`next
    ensures s.next == next
  {
    s.next := next;
  }

  /** free(server) */
  method Free(s: Server)
    requires !s.freed
    modifies s`freed
    ensures s.freed
  {
    s.freed := true;
  }

  /** Whether unmounting has anything to do. */
  ghost predicate Acts(volume: Volume?)
    reads volume
  {
    volume != null && volume.mounted == Mounted
  }

  /** The list without s, the others in their order. */
  ghost function Others(servers: seq<Server>, s: Server): (r: seq<Server>)
    ensures s !in r && (forall x :: x in r ==> x in servers)
    ensures forall x :: x in servers && x != s ==> x in r
  {
    if servers == [] then []
    else if servers[0] == s then Others(servers[1..], s)
    else [servers[0]] + Others(servers[1..], s)
  }

  lemma {:induction false} OthersOfAbsent(servers: seq<Server>, s: Server)
    requires s !in servers
    ensures Others(servers, s) == servers
  {
    if servers != [] { OthersOfAbsent(servers[1..], s); }
  }

  lemma {:induction false} OthersOfSplit(before: seq<Server>, s: Server, after: seq<Server>)
    requires s !in before && s !in after
    ensures Others(before + [s] + after, s) == before + after
  {
    var all := before + [s] + after;
    if before == [] {
      assert all[1..] == after && before + after == after;
      OthersOfAbsent(after, s);
    } else {
      assert all[1..] == before[1..] + [s] + after;
      OthersOfSplit(before[1..], s, after);
      assert before + after == [before[0]] + (before[1..] + after);
    }
  }

  function NoneMounted(states: seq<MountState>): (b: bool)
    ensures b <==> forall i :: 0 <= i < |states| ==> states[i] == Unmounted
  {
    forall i :: 0 <= i < |states| ==> states[i] == Unmounted
  }

  lemma IsUpdate(was: seq<MountState>, states: seq<MountState>, k: nat, state: MountState)
    requires k < |was| == |states| && states[k] == state
    requires forall i :: 0 <= i < |was| && i != k ==> states[i] == was[i]
    ensures states == was[k := state]
  {
  }

  /** Every mounted volume taken down, the others as they were. */
  function TakenDown(states: seq<MountState>): (r: seq<MountState>)
    ensures |r| == |states|
    ensures forall i :: 0 <= i < |r| ==> r[i] == if states[i] == Mounted then Unmounted else states[i]
  {
    seq(|states|, i requires 0 <= i < |states| => if states[i] == Mounted then Unmounted else states[i])
  }

  /** The global list of servers (server_base). */
  class Client {
    var serverBase: Server?
    ghost var servers: seq<Server>

    ghost predicate Linked()
      reads this, servers
    {
      && serverBase == (if servers == [] then null else servers[0])
      && (forall i, j :: 0 <= i < j < |servers| ==> servers[i] != servers[j])
      && (forall i :: 0 <= i < |servers| - 1 ==> servers[i].next == servers[i + 1])
      && (servers != [] ==> servers[|servers| - 1].next == null)
    }

    /** No server in the list has been freed. */
    ghost predicate Valid()
      reads this, servers
    {
      Linked() && forall s :: s in servers ==> !s.freed
    }

    constructor ()
      ensures Valid() && servers == []
    {
      serverBase, servers := null, [];
    }

    method SomethingIsMounted(server: Server) returns (some: bool)
      requires !server.freed && server.Owns()
      ensures some == !NoneMounted(server.States())
    {
      var i := 0;
      while i < |VolumesOf(server)|
        invariant 0 <= i <= |server.volumes|
        invariant forall j :: 0 <= j < i ==> server.volumes[j].mounted == Unmounted
      {
        if MountedOf(VolumesOf(server)[i]) != Unmounted {
          assert server.States()[i] != Unmounted;
          return true;
        }
        i := i + 1;
      }
      return false;
    }

    /** Taking s out of the list and freeing it; -1, and no change, when it is not in the list. */
    method AfpServerRemove(s: Server) returns (rc: int)
      requires Valid() && !s.freed
      modifies this, s`freed, servers`next
      ensures Valid() && servers == Others(old(servers), s)
      ensures rc == (if s in old(servers) then 0 else -1) && s.freed == (s in old(servers))
    {
      hide Others;
      ghost var was := servers;
      if s == serverBase {
        assert was == [] + [s] + was[1..];
        OthersOfSplit([], s, was[1..]);
        UnlinkHead(s);
        return 0;
      }
      var s2 := serverBase;
      ghost var k := 0;
      while s2 != null
        invariant 0 <= k <= |was| && s2 == (if k < |was| then was[k] else null)
        invariant forall j :: 0 <= j <= k && j < |was| ==> was[j] != s
        decreases |was| - k
      {
        if s == NextOf(s2) {
          assert k + 1 < |was| && was[k + 1] == s;
          assert was == was[..k + 1] + [s] + was[k + 2..];
          OthersOfSplit(was[..k + 1], s, was[k + 2..]);
          Unlink(s, s2, k);
          return 0;
        }
        s2, k := NextOf(s2), k + 1;
      }
      OthersOfAbsent(servers, s);
      return -1;
    }

    /** server_base = s->next and freeing s. */
    method UnlinkHead(s: Server)
      requires Valid() && serverBase == s
      modifies this, s`freed
      ensures Valid() && servers == old(servers[1..]) && s.freed
    {
      ghost var was := servers;
      serverBase, servers := NextOf(s), was[1..];
      Free(s);
      assert forall i :: 0 <= i < |servers| ==> servers[i] == was[i + 1];
    }

    /** s2->next = s->next and freeing s. */
    method Unlink(s: Server, s2: Server, ghost k: nat)
      requires Valid() && k + 1 < |servers| && servers[k] == s2 && servers[k + 1] == s
      modifies this`servers, s2`next, s`freed
      ensures Valid() && servers == old(servers[..k + 1] + servers[k + 2..]) && s.freed
    {
      ghost var was := servers;
      SetNext(s2, NextOf(s));
      servers := was[..k + 1] + was[k + 2..];
      Free(s);
      assert forall i :: 0 <= i < |servers| ==> servers[i] == was[if i <= k then i else i + 1];
      assert k + 2 < |was| ==> s2.next == was[k + 2];
      assert k + 2 == |was| ==> s2.next == null;
    }

    /** The client's own unmount routine, which may ask for the same volume again: nothing changes. */
    method UnmountHook(volume: Volume)
      requires Valid() && volume.mounted == Dismounting && !volume.server.freed
      decreases 0, 1
    {
      var again: bool := *;
      if again {
        var rc := AfpUnmountVolume(volume);
      }
    }

    /**
      Taking one volume down. Exactly when that was the last volume of the server not yet unmounted, the
      server leaves the list and is freed, and the caller is told by -1. A volume that is not mounted,
      in particular one already being unmounted, gives -1 and nothing is modified.
     */
    method AfpUnmountVolume(volume: Volume?) returns (rc: int)
      requires Valid()
      requires volume != null ==> !volume.server.freed
      requires Acts(volume) ==> volume in volume.server.volumes && volume.server.Owns() && volume.server in servers
      modifies if Acts(volume) then {this} else {}
      modifies (if Acts(volume) then {volume} else {})`mounted
      modifies (if Acts(volume) then {volume.server} else {})`freed
      modifies (if Acts(volume) then servers else [])`next
      ensures Valid()
      ensures !old(Acts(volume)) ==> rc == -1
      ensures old(Acts(volume)) ==>
                var server := volume.server;
                && volume.mounted == Unmounted
                && (forall k :: 0 <= k < |server.volumes| && server.volumes[k] == volume ==>
                      server.States() == old(server.States())[k := Unmounted])
                && rc == (if NoneMounted(server.States()) then -1 else 0)
                && server.freed == NoneMounted(server.States())
                && servers == (if server.freed then Others(old(servers), server) else old(servers))
      decreases if Acts(volume) then 1 else 0, 0
    {
      hide Others, Linked, NoneMounted, Server.States;
      if volume == null { return -1; }
      var server := ServerOf(volume);
      ghost var was := server.States();
      if MountedOf(volume) != Mounted { return -1; }
      SetMounted(volume, Dismounting);
      UnmountHook(volume);
      SetMounted(volume, Unmounted);
      forall k | 0 <= k < |server.volumes| && server.volumes[k] == volume
        ensures server.States() == was[k := Unmounted]
      {
        IsUpdate(was, server.States(), k, Unmounted);
      }
      var some := SomethingIsMounted(server);
      if some { return 0; }
      var removed := AfpServerRemove(server);
      return -1;
    }

    /**
      Unmounting all: afterwards no volume is mounted. The server is removed and freed exactly when
      something was mounted and nothing is left half-way in another unmount, and then the loop is left at
      once, by 1; otherwise the server stays and the result is 0.
     */
    method AfpUnmountAllVolumes(server: Server) returns (rc: int)
      requires Valid() && server in servers && server.Owns()
      modifies this, server`freed, server.volumes`mounted, servers`next
      ensures Valid()
      ensures server.States() == TakenDown(old(server.States()))
      ensures server.freed == (Mounted in old(server.States()) && Dismounting !in old(server.States()))
      ensures servers == if server.freed then Others(old(servers), server) else old(servers)
      ensures rc == if server.freed then 1 else 0
    {
      hide Others, Linked, Server.States, NoneMounted, Midway, TakenDown;
      ghost var was := server.States();
      MidwayStart(was);
      var i := 0;
      while i < |VolumesOf(server)|
        invariant 0 <= i <= |server.volumes|
        invariant Valid() && server in servers && servers == old(servers) && server.Owns()
        invariant server.States() == Midway(was, i)
        invariant Mounted in was[..i] ==> !NoneMounted(Midway(was, i))
      {
        MidwayStep(was, i);
        if MountedOf(VolumesOf(server)[i]) == Mounted {
          rc := AfpUnmountVolume(VolumesOf(server)[i]);
          if rc != 0 {
            NoneLeft(was, i + 1);
            return 1;
          }
        }
        i := i + 1;
      }
      SomeLeft(was);
      return 0;
    }
  }

  /** The states when the loop over all volumes reaches volume i. */
  function Midway(states: seq<MountState>, i: nat): (r: seq<MountState>)
    requires i <= |states|
    ensures |r| == |states|
  {
    TakenDown(states[..i]) + states[i..]
  }

  lemma MidwayStart(states: seq<MountState>)
    ensures Midway(states, 0) == states
  {
  }

  lemma MidwayStep(states: seq<MountState>, i: nat)
    requires i < |states|
    ensures Midway(states, i)[i] == states[i]
    ensures Midway(states, i + 1) ==
            if states[i] == Mounted then Midway(states, i)[i := Unmounted] else Midway(states, i)
    ensures states[..i + 1] == states[..i] + [states[i]]
  {
  }

  lemma NoneLeft(states: seq<MountState>, i: nat)
    requires i <= |states| && NoneMounted(Midway(states, i))
    ensures TakenDown(states) == Midway(states, i) && Dismounting !in states
  {
    forall j | 0 <= j < |states| ensures TakenDown(states)[j] == Unmounted && states[j] != Dismounting {
      assert Midway(states, i)[j] == Unmounted;
    }
  }

  lemma SomeLeft(states: seq<MountState>)
    ensures Midway(states, |states|) == TakenDown(states)
    ensures !NoneMounted(TakenDown(states)) ==> Dismounting in states
  {
    assert states[..|states|] == states;
  }
}
