/**
  The session object and the functions of lib/dsi.c that update it in place, each proved to do what the
  functions of Dsi and DsiRuns say. read() is an oracle: it returns any nonempty part of what has arrived.
 */
module DsiServers {
  import opened Bytes
  import opened Dsi
  import opened DsiRuns

  const ETIMEDOUT := 110

  predicate DistinctIssues(q: seq<Request>) {
    forall j, k :: 0 <= j < k < |q| ==> q[j].issue != q[k].issue
  }

  lemma PositionOf(q: seq<Request>, i: nat)
    requires DistinctIssues(q) && i < |q|
    ensures Position(q, q[i].issue) == i
  {
  }

  class DsiServer {
    const bufsize: nat
    const incomingBuffer: array<byte>
    var dataRead: nat
    var commandRequests: seq<Request>
    var requestsPending: int
    var runtPackets: nat
    var rxBytes: nat
    var lastRequestId: nat
    var sends: nat
    var arrived: seq<byte>           // what the socket holds
    ghost var handled: seq<seq<byte>>  // the packets passed to reply handlers

    ghost predicate Valid()
      reads this
    {
      HEADER <= bufsize == incomingBuffer.Length && dataRead <= bufsize
    }

    ghost function State(): Server
      reads this, incomingBuffer
      requires Valid()
    {
      Server(incomingBuffer[..dataRead], commandRequests, requestsPending, rxBytes, lastRequestId, sends, handled)
    }

    constructor (size: nat)
      requires HEADER <= size
      ensures Valid() && fresh(incomingBuffer) && bufsize == size && arrived == [] && runtPackets == 0
      ensures State() == Server([], [], 0, 0, 0, 0, []) && QueueOk(State())
    {
      bufsize, incomingBuffer := size, new byte[size];
      dataRead, commandRequests, requestsPending, runtPackets, rxBytes := 0, [], 0, 0, 0;
      lastRequestId, sends, arrived, handled := 0, 0, [], [];
    }

    // ------------------------------------------------------------ the request queue

    /** dsi_setup_header and the enqueueing half of dsi_send. */
    method Send(subcommand: nat, wait: int, rx: RxBuffer) returns (issue: nat)
      requires Valid()
      modifies this
      ensures Valid() && State() == Enqueue(old(State()), subcommand, wait, rx) && issue == old(sends)
      ensures arrived == old(arrived) && runtPackets == old(runtPackets)
    {
      if lastRequestId == 65535 { lastRequestId := 0; } else { lastRequestId := lastRequestId + 1; }
      issue := sends;
      commandRequests := commandRequests + [Request(lastRequestId, subcommand, wait, false, 0, rx, issue)];
      requestsPending := requestsPending + 1;
      sends := sends + 1;
    }

    /** dsi_find_request. */
    method FindRequest(id: nat) returns (i: int)
      ensures i == Find(commandRequests, id)
    {
      i := 0;
      while i < |commandRequests|
        invariant 0 <= i <= |commandRequests|
        invariant forall k :: 0 <= k < i ==> commandRequests[k].requestid != id
      {
        if commandRequests[i].requestid == id { return; }
        i := i + 1;
      }
      i := -1;
    }

    /** dsi_remove_from_request_queue. */
    method RemoveRequest(issue: nat) returns (rc: int)
      requires Valid()
      modifies this`commandRequests, this`requestsPending
      ensures Valid() && State() == Remove(old(State()), issue)
      ensures rc == if Position(old(commandRequests), issue) >= 0 then 0 else -1
    {
      var p := 0;
      while p < |commandRequests|
        invariant 0 <= p <= |commandRequests| && commandRequests == old(commandRequests)
        invariant forall k :: 0 <= k < p ==> commandRequests[k].issue != issue
      {
        if commandRequests[p].issue == issue {
          assert p == Position(commandRequests, issue);
          commandRequests := commandRequests[..p] + commandRequests[p + 1..];
          requestsPending := requestsPending - 1;
          return 0;
        }
        p := p + 1;
      }
      return -1;
    }

    /** The end of dsi_send: the sender was woken, or its wait ran out, or it does not wait. It returns
        the code that was stored in its request, and takes the request out of the queue. The request of a
        sender that does not wait may be answered first; dsi_recv has then freed it, and the code that is
        read from it may be anything. */
    method LeaveQueue(issue: nat, timedOut: bool) returns (rc: int)
      requires Valid()
      modifies this`commandRequests, this`requestsPending
      ensures Valid() && State() == Remove(old(State()), issue)
      ensures timedOut ==> rc == 110
      ensures var i := Position(old(commandRequests), issue);
              !timedOut && i >= 0 ==> rc == old(commandRequests)[i].returnCode
    {
      rc := *;
      var p := 0;
      while p < |commandRequests| && commandRequests[p].issue != issue
        invariant 0 <= p <= |commandRequests|
        invariant forall k :: 0 <= k < p ==> commandRequests[k].issue != issue
      {
        p := p + 1;
      }
      if p < |commandRequests| { rc := commandRequests[p].returnCode; }
      if timedOut { rc := ETIMEDOUT; }
      var _ := RemoveRequest(issue);
    }

    // ------------------------------------------------------------ receiving

    /** read(fd, ., amount): at least one byte if some have arrived and some are wanted. */
    method Read(amount: int) returns (bytes: seq<byte>)
      modifies this`arrived
      ensures bytes + arrived == old(arrived) && (amount >= 0 ==> |bytes| <= amount) && (amount < 0 ==> bytes == [])
      ensures amount > 0 && old(arrived) != [] ==> bytes != []
    {
      if amount <= 0 || arrived == [] {
        return [];
      }
      var most := if amount < |arrived| then amount else |arrived|;
      var n :| 1 <= n <= most;
      bytes := arrived[..n];
      arrived := arrived[n..];
    }

    /** What read() does to the buffer. */
    method Store(bytes: seq<byte>)
      requires Valid() && dataRead + |bytes| <= bufsize
      modifies this`dataRead, this`rxBytes, incomingBuffer
      ensures Valid() && dataRead == old(dataRead) + |bytes| && rxBytes == old(rxBytes) + |bytes|
      ensures incomingBuffer[..dataRead] == old(incomingBuffer[..dataRead]) + bytes
    {
      for k := 0 to |bytes|
        invariant dataRead == old(dataRead) && rxBytes == old(rxBytes)
        invariant incomingBuffer[..dataRead + k] == old(incomingBuffer[..dataRead]) + bytes[..k]
      {
        incomingBuffer[dataRead + k] := bytes[k];
      }
      dataRead := dataRead + |bytes|;
      rxBytes := rxBytes + |bytes|;
    }

    /** Where dsi_recv ends: wake the sender, or drop a request that nobody waits for. */
    method FinishRequest(i: int)
      requires Valid() && -1 <= i < |commandRequests|
      requires DistinctIssues(commandRequests)
      modifies this`commandRequests, this`requestsPending
      ensures Valid() && State() == Finish(old(State()), i)
    {
      if i >= 0 {
        if commandRequests[i].wait != 0 {
          commandRequests := commandRequests[i := commandRequests[i].(wait := 0, doneWaiting := true)];
        } else {
          PositionOf(commandRequests, i);
          var _ := RemoveRequest(commandRequests[i].issue);
        }
      }
    }

    /** after_processing: drop the packet, and shift what lies behind it. */
    method DropPacket(length: nat)
      requires Valid() && dataRead >= length + HEADER
      modifies this`dataRead, incomingBuffer
      ensures Valid()
      ensures incomingBuffer[..dataRead] ==
              var b := old(incomingBuffer[..dataRead]); if |b| == length + HEADER then [] else Leftover(b, length)
    {
      if dataRead == length + HEADER {
        dataRead := 0;
      } else {
        var sizeToCopy := dataRead - (length + HEADER);
        ghost var b := incomingBuffer[..dataRead];
        Shift(length, sizeToCopy);
        dataRead := dataRead - sizeToCopy;
        assert incomingBuffer[..dataRead] == (b[length..length + sizeToCopy] + b[sizeToCopy..])[..dataRead];
      }
    }

    /** From the label after_processing on. */
    method AfterPacket(length: nat, i: int)
      requires Valid() && dataRead >= length + HEADER && length == Length(incomingBuffer[..dataRead])
      requires -1 <= i < |commandRequests| && DistinctIssues(commandRequests)
      modifies this`dataRead, this`commandRequests, this`requestsPending, incomingBuffer
      ensures Valid() && State() == AfterProcessing(old(State()), i)
    {
      hide Finish, Leftover, Length;
      DropPacket(length);
      FinishRequest(i);
    }

    /** Copying n bytes from offset from to the front. */
    method Shift(from: nat, n: nat)
      requires Valid() && from + n <= dataRead
      modifies incomingBuffer
      ensures incomingBuffer[..dataRead] ==
              old(incomingBuffer[..dataRead])[from..from + n] + old(incomingBuffer[..dataRead])[n..]
    {
      ghost var b := incomingBuffer[..dataRead];
      var tmp := incomingBuffer[from..from + n];
      assert tmp == b[from..from + n];
      for k := 0 to n
        invariant forall j :: 0 <= j < k ==> incomingBuffer[j] == tmp[j]
        invariant forall j :: k <= j < dataRead ==> incomingBuffer[j] == b[j]
      {
        incomingBuffer[k] := tmp[k];
      }
    }

    /** dsi_recv. read() is called at most once; taken is what it delivered. */
    method Receive() returns (ret: int, ghost taken: seq<byte>)
      requires Valid() && DistinctIssues(commandRequests)
      requires InBounds(State(), |arrived|, bufsize)
      modifies this, incomingBuffer
      ensures Valid() && taken + arrived == old(arrived)
      ensures old(arrived) != [] && Want(old(State()), bufsize) > 0 ==>
                && 0 < |taken| <= Want(old(State()), bufsize)
                && Received(State(), ret, runtPackets - old(runtPackets)) == Recv(old(State()), taken)
      ensures taken == [] ==> ret == -1 && incomingBuffer[..dataRead] == old(incomingBuffer[..dataRead])
    {
      hide Find, RecvBody, RecvEmpty, FromBE, InBounds;
      var amount := HEADER - dataRead;
      if amount > 0 {
        var bytes := Read(amount);
        taken := bytes;
        if bytes == [] {
          ret := -1;
          return;
        }
        Store(bytes);
        if dataRead == HEADER && Length(incomingBuffer[..dataRead]) == 0 {
          ret := ReceiveEmpty();
        } else {
          ret := 0;
        }
      } else {
        ret, taken := ReceiveBody();
      }
    }

    /** dsi_recv from the label gotenough on, for a packet without a body. */
    method ReceiveEmpty() returns (ret: int)
      requires Valid() && dataRead == HEADER && DistinctIssues(commandRequests)
      requires Length(incomingBuffer[..dataRead]) == 0
      modifies this, incomingBuffer
      ensures Valid() && arrived == old(arrived)
      ensures Received(State(), ret, runtPackets - old(runtPackets)) == RecvEmpty(old(State()))
    {
      hide Find, Position, FromBE, Signed32, AfterProcessing;
      var h := incomingBuffer[..dataRead];
      var i := FindRequest(RequestId(h));
      if i < 0 && Flags(h) == DSI_REPLY {
        runtPackets := runtPackets + 1;
      }
      if i >= 0 {
        commandRequests := commandRequests[i := commandRequests[i].(returnCode := ErrorCode(h))];
        if commandRequests[i].IsRead() {
          dataRead := 0;
          FinishRequest(i);
          return 0;
        }
      }
      if !KnownCommand(Command(h)) {
        return -1;
      }
      ghost var d := Dispatch(State(), i);
      handled := d.handled;
      AfterPacket(0, i);
      return 0;
    }

    /** dsi_recv from the label gotenough on, when there is a body to read. */
    method ReceiveBody() returns (ret: int, ghost taken: seq<byte>)
      requires Valid() && dataRead >= HEADER && DistinctIssues(commandRequests)
      requires InBounds(State(), |arrived|, bufsize)
      modifies this, incomingBuffer
      ensures Valid() && taken + arrived == old(arrived)
      ensures old(arrived) != [] && Want(old(State()), bufsize) > 0 ==>
                && 0 < |taken| <= Want(old(State()), bufsize)
                && Received(State(), ret, runtPackets - old(runtPackets)) == RecvBody(old(State()), taken)
      ensures taken == [] ==> ret == -1 && incomingBuffer[..dataRead] == old(incomingBuffer[..dataRead])
    {
      hide Find, Position, FromBE, Signed32, IntoRequest, IntoBuffer;
      var h := incomingBuffer[..dataRead];
      var i := FindRequest(RequestId(h));
      if i >= 0 {
        commandRequests := commandRequests[i := commandRequests[i].(returnCode := ErrorCode(h))];
      }
      assert State() == SetCode(old(State()), i, ErrorCode(h));
      if i >= 0 && commandRequests[i].IsRead() {
        ret, taken := ReceiveIntoRequest(h, i);
      } else {
        var runt := i < 0 && Flags(h) == DSI_REPLY;
        if runt {
          runtPackets := runtPackets + 1;
        }
        ret, taken := ReceiveIntoBuffer(h, i, runt);
      }
    }

    /** The branch for replies to afpRead and afpReadExt: straight into the request's own buffer. */
    method ReceiveIntoRequest(h: seq<byte>, i: nat) returns (ret: int, ghost taken: seq<byte>)
      requires Valid() && DistinctIssues(commandRequests) && h == incomingBuffer[..dataRead] && |h| == HEADER
      requires i < |commandRequests| && commandRequests[i].IsRead() && commandRequests[i].rx.maxsize > 0
      modifies this, incomingBuffer
      ensures Valid() && taken + arrived == old(arrived) && runtPackets == old(runtPackets)
      ensures var rx := old(commandRequests[i].rx);
              var newmax := if rx.maxsize < Length(h) then rx.maxsize - |rx.data| else Length(h) - |rx.data|;
              if newmax <= 0 || old(arrived) == [] then ret == -1 && taken == [] && State() == old(State())
              else 0 < |taken| <= newmax && ret == 0 && State() == IntoRequest(old(State()), i, taken)
    {
      var rx := commandRequests[i].rx;
      var newmax := rx.maxsize - |rx.data|;
      if newmax > Length(h) - |rx.data| { newmax := Length(h) - |rx.data|; }
      var bytes := Read(newmax);
      taken := bytes;
      if bytes == [] {
        ret := -1;
        return;
      }
      rxBytes := rxBytes + |bytes|;
      rx := rx.(data := rx.data + bytes);
      commandRequests := commandRequests[i := commandRequests[i].(rx := rx)];
      if |rx.data| == Length(h) {
        dataRead := 0;
        FinishRequest(i);
      }
      ret := 0;
    }

    /** The branch for all other packets: into the packet buffer, and on to a handler when complete. */
    method ReceiveIntoBuffer(h: seq<byte>, i: int, runt: bool) returns (ret: int, ghost taken: seq<byte>)
      requires Valid() && DistinctIssues(commandRequests) && h == incomingBuffer[..dataRead] && |h| >= HEADER
      requires -1 <= i < |commandRequests|
      requires var want := if Length(h) < bufsize then Length(h) else bufsize;
               dataRead + (if |arrived| < want then |arrived| else want) <= bufsize
      modifies this, incomingBuffer
      ensures Valid() && taken + arrived == old(arrived) && runtPackets == old(runtPackets)
      ensures var want := if Length(h) < bufsize then Length(h) else bufsize;
              if want == 0 || old(arrived) == [] then ret == -1 && taken == [] && State() == old(State())
              else 0 < |taken| <= want && (State(), ret) == IntoBuffer(old(State()), i, runt, taken)
    {
      hide Find, Position, FromBE, Signed32, AfterProcessing;
      var length := Length(h);
      var amount := if length < bufsize then length else bufsize;
      var bytes := Read(amount);
      taken := bytes;
      if bytes == [] {
        ret := -1;
        return;
      }
      assert (h + bytes)[8..12] == h[8..12];
      Store(bytes);
      ghost var s := State();
      if dataRead < HEADER + length {
        ret := 0;
        return;
      }
      if !runt {
        if !KnownCommand(Command(h)) {
          ret := -1;
          return;
        }
        handled := Dispatch(s, i).handled;
      }
      AfterPacket(length, i);
      ret := 0;
    }
  }
}
