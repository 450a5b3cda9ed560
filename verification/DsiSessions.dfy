/**
  Sessions of the DSI transport (lib/dsi.c), byte by byte: one thread calls dsi_recv whenever something has
  arrived, while senders enqueue requests and leave at any time, also while a packet is half in.

  A session refines the packet-wise runs of DsiRuns, and it does so exactly as long as no sender leaves
  while the body of the reply to its read is partly in.
 */
module DsiSessions {
  import opened Bytes
  import opened Dsi
  import opened DsiRuns

  /** A sender's step, or a read() of dsi_recv. */
  datatype Input =
    | Call(e: Event)
    | Arrival(chunk: seq<byte>)

  function Step(s: Server, x: Input): Server
    requires x.Call? ==> EventOk(x.e)
  {
    match x
    case Call(e) => Apply(s, e)
    case Arrival(chunk) => Recv(s, chunk).server
  }

  predicate InputsOk(xs: seq<Input>) {
    forall x :: x in xs ==> x.Call? ==> EventOk(x.e) && !x.e.Reply?
  }

  function Session(s: Server, xs: seq<Input>): Server
    requires InputsOk(xs)
  {
    if xs == [] then s else Step(Session(s, xs[..|xs| - 1]), xs[|xs| - 1])
  }

  // ---------------------------------------------------------------- the packets of a session

  /** How far a session is in its inbound stream: the packet-wise events so far, the packets that are not
      complete yet, and how many bytes of the first of them are in. */
  datatype Progress = Progress(log: seq<Event>, rest: seq<Frame>, n: nat)

  predicate ProgressOk(p: Progress) {
    && (forall e :: e in p.log ==> EventOk(e))
    && (forall f :: f in p.rest ==> f.Ok())
    && (p.n > 0 ==> p.rest != [] && p.n < |p.rest[0].Bytes()|)
  }

  /** A packet becomes one event with its last byte. */
  function Advance(p: Progress, x: Input): Progress {
    match x
    case Call(e) => p.(log := p.log + [e])
    case Arrival(chunk) =>
      if p.rest != [] && p.n + |chunk| == |p.rest[0].Bytes()|
      then Progress(p.log + [Reply(p.rest[0])], p.rest[1..], 0)
      else p.(n := p.n + |chunk|)
  }

  function ProgressOf(fs: seq<Frame>, xs: seq<Input>): Progress {
    if xs == [] then Progress([], fs, 0) else Advance(ProgressOf(fs, xs[..|xs| - 1]), xs[|xs| - 1])
  }

  /** The state with none of the bytes of the packet that is coming in. */
  function Base(s: Server, p: Progress): Server
    requires ProgressOk(p)
  {
    Run(s, p.log)
  }

  /** The state that the progress determines. */
  function Expected(s: Server, p: Progress): Server
    requires ProgressOk(p)
  {
    if p.n == 0 then Base(s, p) else assert p.rest[0] in p.rest; Partial(Base(s, p), p.rest[0], p.n)
  }

  /** What the server and the network keep to: a read brings the next bytes of the stream, not past the
      packet; the packet is a reply, and to a read that waits for it the first one, with no more than was
      asked for; and a request is not answered before it is sent, so that no new request takes the id of a
      packet whose body is coming in. */
  predicate Allowed(s: Server, p: Progress, x: Input)
    requires ProgressOk(p)
  {
    match x
    case Call(e) =>
      EventOk(e) && !e.Reply?
      && (e.Send? && p.n > HEADER ==>
            NextId(Base(s, p).lastRequestId) != (assert p.rest[0] in p.rest; RequestId(p.rest[0].header)))
    case Arrival(chunk) =>
      p.rest != [] && p.rest[0].Ok() && Arrives(p.rest[0], p.n, chunk) && Takes(Base(s, p).queue, p.rest[0])
  }

  /** A session with all that, in which read() never brings more than dsi_recv asks for, and no request grows
      65536 sends old. */
  predicate Legal(s: Server, fs: seq<Frame>, xs: seq<Input>, bufsize: nat) {
    && InputsOk(xs)
    && ProgressOk(ProgressOf(fs, xs))
    && Young(Base(s, ProgressOf(fs, xs)))
    && (xs != [] ==>
          var init, x := xs[..|xs| - 1], xs[|xs| - 1];
          && Legal(s, fs, init, bufsize) && Allowed(s, ProgressOf(fs, init), x)
          && (x.Arrival? ==> |x.chunk| <= Want(Session(s, init), bufsize)))
  }

  /** A sender leaves while part of the body of the reply to its read is in. */
  predicate AbandonsRead(s: Server, p: Progress, x: Input)
    requires ProgressOk(p)
  {
    && x.Call? && x.e.Leave? && p.n > HEADER
    && var q := Base(s, p).queue;
       var i := (assert p.rest[0] in p.rest; Find(q, RequestId(p.rest[0].header)));
       i >= 0 && q[i].IsRead() && Position(q, x.e.issue) == i
  }

  /** Body bytes arrive of a packet that is longer than the packet buffer and goes there: its request is
      gone, or is no read. */
  predicate TooLong(s: Server, p: Progress, x: Input, bufsize: nat)
    requires ProgressOk(p)
  {
    && x.Arrival? && p.n >= HEADER
    && (assert p.rest[0] in p.rest; ToBuffer(Base(s, p).queue, p.rest[0]))
    && |p.rest[0].Bytes()| > bufsize
  }

  predicate NeverTooLong(s: Server, fs: seq<Frame>, xs: seq<Input>, bufsize: nat)
    requires Legal(s, fs, xs, bufsize)
  {
    xs != [] ==> && NeverTooLong(s, fs, xs[..|xs| - 1], bufsize)
                 && !TooLong(s, ProgressOf(fs, xs[..|xs| - 1]), xs[|xs| - 1], bufsize)
  }

  predicate NeverAbandonsRead(s: Server, fs: seq<Frame>, xs: seq<Input>, bufsize: nat)
    requires Legal(s, fs, xs, bufsize)
  {
    xs != [] ==> && NeverAbandonsRead(s, fs, xs[..|xs| - 1], bufsize)
                 && !AbandonsRead(s, ProgressOf(fs, xs[..|xs| - 1]), xs[|xs| - 1])
  }

  // ---------------------------------------------------------------- steps inside a packet

  lemma FindAppended(q: seq<Request>, r: Request, id: nat)
    requires r.requestid != id
    ensures Find(q + [r], id) == Find(q, id)
  {
    hide Find;
    var a, b := Find(q, id), Find(q + [r], id);
    if a >= 0 { assert (q + [r])[a] == q[a]; }
    if b >= 0 { assert b < |q| && (q + [r])[b] == q[b]; }
  }

  /** Enqueueing a request does not disturb a packet that is coming in. */
  lemma SendCommutes(b: Server, f: Frame, n: nat, e: Event)
    requires f.Ok() && 0 < n < |f.Bytes()| && e.Send? && EventOk(e)
    requires n > HEADER ==> NextId(b.lastRequestId) != RequestId(f.header)
    ensures Partial(Apply(b, e), f, n) == Apply(Partial(b, f, n), e)
  {
    hide Find, RequestId, ErrorCode;
    if n > HEADER {
      var r := Request(NextId(b.lastRequestId), e.subcommand, e.wait, false, 0, e.rx, b.issued);
      FindAppended(b.queue, r, RequestId(f.header));
      var i := Find(b.queue, RequestId(f.header));
      if i >= 0 {
        var q := Partial(b, f, n).queue[i];
        assert (b.queue + [r])[i := q] == b.queue[i := q] + [r];
      }
    }
  }

  lemma PositionUpdated(q: seq<Request>, i: nat, r: Request, issue: nat)
    requires i < |q| && r.issue == q[i].issue
    ensures Position(q[i := r], issue) == Position(q, issue)
  {
    hide Position;
    var a, b := Position(q, issue), Position(q[i := r], issue);
    if a >= 0 { assert q[i := r][a].issue == issue; }
    if b >= 0 { assert q[b].issue == issue; }
  }

  lemma FindInGap(q: seq<Request>, j: nat, id: nat)
    requires DistinctIds(q) && j < |q|
    ensures var i := Find(q, id);
            Find(Without(q, j), id) == if i < 0 || i == j then -1 else if j < i then i - 1 else i
  {
    hide Find;
    var i, k := Find(q, id), Find(Without(q, j), id);
    if k >= 0 { assert Without(q, j)[k] == q[if k < j then k else k + 1]; }
    if i >= 0 && i != j { assert Without(q, j)[if j < i then i - 1 else i] == q[i]; }
  }

  lemma WithoutUpdated(q: seq<Request>, j: nat, i: nat, r: Request)
    requires i < |q| && j < |q|
    ensures i == j ==> Without(q[i := r], j) == Without(q, j)
    ensures i != j ==> Without(q[i := r], j) == Without(q, j)[(if j < i then i - 1 else i) := r]
  {
  }

  /** A sender that leaves does not disturb it either, unless its read is being filled: a packet without
      its request is one for nobody. */
  lemma LeaveCommutes(b: Server, f: Frame, n: nat, issue: nat)
    requires f.Ok() && 0 < n < |f.Bytes()| && DistinctIds(b.queue)
    requires n > HEADER ==>
               var i := Find(b.queue, RequestId(f.header));
               !(i >= 0 && b.queue[i].IsRead() && Position(b.queue, issue) == i)
    ensures Partial(Remove(b, issue), f, n) == Remove(Partial(b, f, n), issue)
  {
    hide Find, RequestId, ErrorCode, Position, Without;
    var j := Position(b.queue, issue);
    var i := Find(b.queue, RequestId(f.header));
    if n > HEADER && i >= 0 {
      var r := Partial(b, f, n).queue[i];
      PositionUpdated(b.queue, i, r, issue);
      if j >= 0 {
        FindInGap(b.queue, j, RequestId(f.header));
        WithoutUpdated(b.queue, j, i, r);
      }
    } else if n > HEADER && j >= 0 {
      FindInGap(b.queue, j, RequestId(f.header));
    }
  }

  lemma RunOneMore(s: Server, log: seq<Event>, e: Event)
    requires (forall x :: x in log ==> EventOk(x)) && EventOk(e)
    ensures Run(s, log + [e]) == Apply(Run(s, log), e)
  {
    assert (log + [e])[..|log|] == log;
  }

  lemma AdvanceOk(p: Progress, x: Input)
    requires ProgressOk(p) && (x.Call? ==> EventOk(x.e))
    requires x.Arrival? ==> p.rest != [] && p.rest[0].Ok() && Arrives(p.rest[0], p.n, x.chunk)
    ensures ProgressOk(Advance(p, x))
  {
  }

  /** One step of a session, as long as no read is abandoned: the state stays the expected one, and dsi_recv
      reports no error. */
  lemma StepAsExpected(s: Server, p: Progress, x: Input)
    requires ProgressOk(p) && Allowed(s, p, x) && !AbandonsRead(s, p, x)
    requires var b := Base(s, p); b.incoming == [] && DistinctIds(b.queue)
    ensures ProgressOk(Advance(p, x)) && Base(s, Advance(p, x)).incoming == []
    ensures Step(Expected(s, p), x) == Expected(s, Advance(p, x))
    ensures x.Arrival? ==> Recv(Expected(s, p), x.chunk).ret == 0
  {
    hide Run, Find, Partial, Deliver, Recv, Takes, RequestId, Position;
    AdvanceOk(p, x);
    var b := Base(s, p);
    match x {
      case Call(e) =>
        RunOneMore(s, p.log, e);
        if p.n > 0 {
          var f := p.rest[0];
          assert f in p.rest && f.Ok();
          if e.Send? { SendCommutes(b, f, p.n, e); } else { LeaveCommutes(b, f, p.n, e.issue); }
        }
      case Arrival(chunk) =>
        var f := p.rest[0];
        assert f in p.rest && f.Ok();
        if p.n < HEADER { ReadInHeader(b, f, p.n, chunk, 0); } else { ReadInBody(b, f, p.n, chunk); }
        if p.n + |chunk| == |f.Bytes()| {
          RunOneMore(s, p.log, Reply(f));
          DeliverKeepsBuffer(b, f);
        }
    }
  }

  /** The memory of an arrival: it runs over the end of the packet buffer only if the packet is too long for
      it, and in any case with the last byte of one that is. */
  lemma ArrivalBounds(s: Server, p: Progress, x: Input, bufsize: nat)
    requires ProgressOk(p) && Allowed(s, p, x) && x.Arrival? && Base(s, p).incoming == []
    requires |x.chunk| <= Want(Expected(s, p), bufsize)
    ensures !TooLong(s, p, x, bufsize) ==> InBounds(Expected(s, p), |x.chunk|, bufsize)
    ensures TooLong(s, p, x, bufsize) && Advance(p, x).n == 0 ==> !InBounds(Expected(s, p), |x.chunk|, bufsize)
  {
    hide Run, Find, Partial, Want, InBounds, Takes, ToBuffer, RequestId;
    var b, f := Base(s, p), p.rest[0];
    assert f in p.rest && f.Ok();
    if p.n < HEADER { ReadInHeader(b, f, p.n, x.chunk, bufsize); } else { BodyBounds(b, f, p.n, x.chunk, bufsize); }
  }

  // ---------------------------------------------------------------- what every step keeps

  /** Changing a request's code or buffer. */
  lemma UpdateKeepsQueue(s: Server, t: Server, i: nat, r: Request)
    requires QueueOk(s) && i < |s.queue| && t.queue == s.queue[i := r]
    requires r.requestid == s.queue[i].requestid && r.issue == s.queue[i].issue && (r.doneWaiting ==> r.wait == 0)
    requires t.requestsPending == s.requestsPending && t.lastRequestId == s.lastRequestId && t.issued == s.issued
    ensures QueueOk(t)
  {
  }

  lemma FinishKeepsQueue(s: Server, i: int)
    requires QueueOk(s) && i < |s.queue|
    ensures QueueOk(Finish(s, i))
  {
    hide QueueOk;
    if i >= 0 {
      if s.queue[i].wait != 0 {
        UpdateKeepsQueue(s, Finish(s, i), i, s.queue[i].(wait := 0, doneWaiting := true));
      } else {
        GapKeepsQueue(s, Finish(s, i), i);
      }
    }
  }

  lemma SetCodeKeepsQueue(s: Server, i: int, code: int)
    requires QueueOk(s) && i < |s.queue|
    ensures var t := SetCode(s, i, code); QueueOk(t) && |t.queue| == |s.queue| && t.incoming == s.incoming
  {
    if i >= 0 { UpdateKeepsQueue(s, SetCode(s, i, code), i, s.queue[i].(returnCode := code)); }
  }

  lemma AfterProcessingKeepsQueue(s: Server, i: int)
    requires QueueOk(s) && |s.incoming| >= HEADER && |s.incoming| >= HEADER + Length(s.incoming) && i < |s.queue|
    ensures QueueOk(AfterProcessing(s, i)) && QueueOk(AfterProcessing(Dispatch(s, i), i))
  {
    hide Finish, Leftover, Command, Length;
    var length := Length(s.incoming);
    var buf := if |s.incoming| == length + HEADER then [] else Leftover(s.incoming, length);
    FinishKeepsQueue(s.(incoming := buf), i);
    FinishKeepsQueue(Dispatch(s, i).(incoming := buf), i);
  }

  lemma IntoRequestKeepsQueue(s: Server, i: nat, chunk: seq<byte>)
    requires QueueOk(s) && |s.incoming| >= HEADER && i < |s.queue|
    ensures QueueOk(IntoRequest(s, i, chunk))
  {
    hide Finish, Length;
    var r := s.queue[i].(rx := s.queue[i].rx.(data := s.queue[i].rx.data + chunk));
    var s1 := s.(queue := s.queue[i := r], rxBytes := s.rxBytes + |chunk|);
    UpdateKeepsQueue(s, s1, i, r);
    FinishKeepsQueue(s1.(incoming := []), i);
  }

  lemma IntoBufferKeepsQueue(s: Server, i: int, runt: bool, chunk: seq<byte>)
    requires QueueOk(s) && |s.incoming| >= HEADER && i < |s.queue|
    ensures QueueOk(IntoBuffer(s, i, runt, chunk).0)
  {
    hide AfterProcessing, Dispatch, FromBE, KnownCommand, Command, Leftover;
    var s1 := s.(incoming := s.incoming + chunk, rxBytes := s.rxBytes + |chunk|);
    assert s1.incoming[8..12] == s.incoming[8..12];
    if |s1.incoming| >= HEADER + Length(s.incoming) { AfterProcessingKeepsQueue(s1, i); }
  }

  /** dsi_recv keeps the queue in order whatever it reads. */
  lemma RecvKeepsQueue(s: Server, chunk: seq<byte>)
    requires QueueOk(s)
    ensures QueueOk(Recv(s, chunk).server)
  {
    hide Find, Finish, AfterProcessing, Dispatch, IntoRequest, IntoBuffer, SetCode, Length, Flags, Command;
    hide RequestId, ErrorCode, KnownCommand;
    if |s.incoming| < HEADER {
      var s1 := s.(incoming := s.incoming + chunk, rxBytes := s.rxBytes + |chunk|);
      if |s1.incoming| == HEADER && Length(s1.incoming) == 0 {
        var i := Find(s1.queue, RequestId(s1.incoming));
        var s2 := SetCode(s1, i, ErrorCode(s1.incoming));
        SetCodeKeepsQueue(s1, i, ErrorCode(s1.incoming));
        if i >= 0 && s1.queue[i].IsRead() {
          FinishKeepsQueue(s2.(incoming := []), i);
        } else {
          AfterProcessingKeepsQueue(s2, i);
        }
      }
    } else {
      var i := Find(s.queue, RequestId(s.incoming));
      var s1 := SetCode(s, i, ErrorCode(s.incoming));
      SetCodeKeepsQueue(s, i, ErrorCode(s.incoming));
      if i >= 0 && s.queue[i].IsRead() {
        IntoRequestKeepsQueue(s1, i, chunk);
      } else {
        IntoBufferKeepsQueue(s1, i, i < 0 && Flags(s.incoming) == DSI_REPLY, chunk);
      }
    }
  }

  /** In any session at all, also one whose framing is broken, requests_pending is the length of the queue
      and ids follow the order of the sends. */
  lemma {:induction false} SessionKeepsQueue(s: Server, xs: seq<Input>)
    requires QueueOk(s) && InputsOk(xs)
    ensures QueueOk(Session(s, xs))
    decreases |xs|
  {
    hide QueueOk, Recv, Apply;
    if xs != [] {
      var init, x := xs[..|xs| - 1], xs[|xs| - 1];
      SessionKeepsQueue(s, init);
      if x.Call? { StepKeepsQueue(Session(s, init), x.e); } else { RecvKeepsQueue(Session(s, init), x.chunk); }
    }
  }

  // ---------------------------------------------------------------- whole sessions

  /** What every session starts from. */
  ghost predicate StartOk(s: Server, fs: seq<Frame>) {
    s.incoming == [] && QueueOk(s) && forall f :: f in fs ==> f.Ok()
  }

  lemma StartFacts(s: Server, fs: seq<Frame>)
    requires StartOk(s, fs)
    ensures var p := Progress([], fs, 0); ProgressOk(p) && Base(s, p) == s && Expected(s, p) == s
  {
  }

  lemma LegalFacts(s: Server, fs: seq<Frame>, xs: seq<Input>, bufsize: nat)
    requires StartOk(s, fs) && Legal(s, fs, xs, bufsize)
    ensures var b := Base(s, ProgressOf(fs, xs)); QueueOk(b) && DistinctIds(b.queue)
  {
    hide Run, QueueOk, Young, DistinctIds;
    var p := ProgressOf(fs, xs);
    RunKeepsQueue(s, p.log);
    YoungIdsDiffer(Base(s, p));
  }

  /**
    A session in which no read is abandoned half-way is, at every moment, where the packet-wise run of its
    progress is, with the bytes of one packet on top.
   */
  lemma {:induction false} SessionAsExpected(s: Server, fs: seq<Frame>, xs: seq<Input>, bufsize: nat)
    requires StartOk(s, fs) && Legal(s, fs, xs, bufsize) && NeverAbandonsRead(s, fs, xs, bufsize)
    ensures Session(s, xs) == Expected(s, ProgressOf(fs, xs))
    ensures Base(s, ProgressOf(fs, xs)).incoming == []
    ensures xs != [] && xs[|xs| - 1].Arrival? ==> Recv(Session(s, xs[..|xs| - 1]), xs[|xs| - 1].chunk).ret == 0
    decreases |xs|
  {
    hide StartOk, Allowed, AbandonsRead, Expected, Base, Advance, ProgressOk, Step, QueueOk, DistinctIds, Recv, Young;
    hide Want;
    if xs == [] {
      StartFacts(s, fs);
      StartsEmpty(s, fs);
    } else {
      var init := xs[..|xs| - 1];
      SessionAsExpected(s, fs, init, bufsize);
      LegalFacts(s, fs, init, bufsize);
      StepAsExpected(s, ProgressOf(fs, init), xs[|xs| - 1]);
    }
  }

  lemma StartsEmpty(s: Server, fs: seq<Frame>)
    requires StartOk(s, fs)
    ensures s.incoming == []
  {
  }

  /** At every packet boundary of the session the packet buffer is empty. */
  predicate BoundariesEmpty(s: Server, fs: seq<Frame>, xs: seq<Input>)
    requires InputsOk(xs)
  {
    && (ProgressOf(fs, xs).n == 0 ==> Session(s, xs).incoming == [])
    && (xs != [] ==> BoundariesEmpty(s, fs, xs[..|xs| - 1]))
  }

  lemma {:induction false} NeverAbandonedKeepsBoundaries(s: Server, fs: seq<Frame>, xs: seq<Input>, bufsize: nat)
    requires StartOk(s, fs) && Legal(s, fs, xs, bufsize) && NeverAbandonsRead(s, fs, xs, bufsize)
    ensures BoundariesEmpty(s, fs, xs)
    decreases |xs|
  {
    hide StartOk, Allowed, AbandonsRead, Base, Advance, ProgressOk, Step, Young;
    SessionAsExpected(s, fs, xs, bufsize);
    if xs != [] { NeverAbandonedKeepsBoundaries(s, fs, xs[..|xs| - 1], bufsize); }
  }

  // ---------------------------------------------------------------- an abandoned read

  /**
    The failing input: the sender of a read times out and leaves when n bytes of its reply are in, some of
    them body. Then the rest of the body goes to the packet buffer as if the body started again, and when
    the packet is complete dsi_recv has returned 0 and still waits for bytes of it: the next packet will
    be taken for them.
   */
  lemma AbandonedRead(b: Server, f: Frame, n: nat, issue: nat)
    requires b.incoming == [] && DistinctIds(b.queue)
    requires f.Ok() && HEADER < n < |f.Bytes()| && Flags(f.header) == DSI_REPLY
    requires var i := Find(b.queue, RequestId(f.header)); i >= 0 && b.queue[i].IsRead() && Position(b.queue, issue) == i
    ensures var r := Recv(Remove(Partial(b, f, n), issue), f.Bytes()[n..]);
            && r.ret == 0 && r.runts == 1 && r.server.incoming == f.header + f.Bytes()[n..]
            && HEADER < |r.server.incoming| < |f.Bytes()| && r.server.queue == Remove(b, issue).queue
  {
    hide Find, RequestId, ErrorCode, Position;
    StrandedAfterLeave(b, f, n, issue);
    StrandedByArrival(Remove(b, issue), f, n, n, f.Bytes()[n..]);
    assert f.Bytes()[n..n] + f.Bytes()[n..] == f.Bytes()[n..];
  }

  /** A packet whose read was abandoned when lost bytes of it were in, with n of its bytes in. */
  function Stranded(b: Server, f: Frame, lost: nat, n: nat): Server
    requires HEADER <= lost <= n <= |f.Bytes()|
  {
    b.(incoming := f.header + f.Bytes()[lost..n], rxBytes := b.rxBytes + n)
  }

  lemma StrandedAfterLeave(b: Server, f: Frame, n: nat, issue: nat)
    requires f.Ok() && HEADER < n < |f.Bytes()| && DistinctIds(b.queue)
    requires var i := Find(b.queue, RequestId(f.header)); i >= 0 && b.queue[i].IsRead() && Position(b.queue, issue) == i
    ensures Remove(Partial(b, f, n), issue) == Stranded(Remove(b, issue), f, n, n)
    ensures Find(Remove(b, issue).queue, RequestId(f.header)) < 0
  {
    hide Find, RequestId, ErrorCode, Position;
    var i := Find(b.queue, RequestId(f.header));
    var r := Partial(b, f, n).queue[i];
    PositionUpdated(b.queue, i, r, issue);
    WithoutUpdated(b.queue, i, i, r);
    FindInGap(b.queue, i, RequestId(f.header));
    assert f.header + f.Bytes()[n..n] == f.header;
  }

  /** More bytes of such a packet only lengthen the buffer, and never complete it. */
  lemma StrandedByArrival(b: Server, f: Frame, lost: nat, n: nat, chunk: seq<byte>)
    requires f.Ok() && HEADER < lost <= n < |f.Bytes()| && Flags(f.header) == DSI_REPLY
    requires n + |chunk| <= |f.Bytes()| && chunk == f.Bytes()[n..n + |chunk|]
    requires Find(b.queue, RequestId(f.header)) < 0
    ensures Recv(Stranded(b, f, lost, n), chunk) == Received(Stranded(b, f, lost, n + |chunk|), 0, 1)
  {
    hide Find, FromBE, Signed32;
    var st := Stranded(b, f, lost, n);
    SameHeader(f.header, f.Bytes()[lost..n]);
    assert f.Bytes()[lost..n] + chunk == f.Bytes()[lost..n + |chunk|];
    assert st.incoming + chunk == f.header + f.Bytes()[lost..n + |chunk|];
  }

  /** The packet has ended, but whatever comes next is taken for bytes that it still lacks. */
  lemma NextPacketSwallowed(b: Server, f: Frame, lost: nat, chunk: seq<byte>)
    requires f.Ok() && HEADER < lost <= |f.Bytes()| && Flags(f.header) == DSI_REPLY
    requires Find(b.queue, RequestId(f.header)) < 0 && |chunk| < lost - HEADER
    ensures var st := Stranded(b, f, lost, |f.Bytes()|);
            Recv(st, chunk) == Received(st.(incoming := st.incoming + chunk, rxBytes := st.rxBytes + |chunk|), 0, 1)
  {
    hide Find, FromBE, Signed32;
    SameHeader(f.header, f.Bytes()[lost..]);
    assert f.Bytes()[lost..|f.Bytes()|] == f.Bytes()[lost..];
  }

  lemma StrandedByCall(b: Server, f: Frame, lost: nat, n: nat, e: Event)
    requires f.Ok() && HEADER < lost <= n < |f.Bytes()| && EventOk(e) && !e.Reply? && DistinctIds(b.queue)
    requires e.Send? ==> NextId(b.lastRequestId) != RequestId(f.header)
    requires Find(b.queue, RequestId(f.header)) < 0
    ensures Apply(Stranded(b, f, lost, n), e) == Stranded(Apply(b, e), f, lost, n)
    ensures Find(Apply(b, e).queue, RequestId(f.header)) < 0
  {
    hide Find, RequestId, Position;
    if e.Send? {
      var r := Request(NextId(b.lastRequestId), e.subcommand, e.wait, false, 0, e.rx, b.issued);
      FindAppended(b.queue, r, RequestId(f.header));
    } else if Position(b.queue, e.issue) >= 0 {
      FindInGap(b.queue, Position(b.queue, e.issue), RequestId(f.header));
    }
  }

  /** The session st is stuck in the first of the packets rest. */
  predicate IsStranded(s: Server, p: Progress, st: Server, rest: seq<Frame>, lost: nat) {
    && ProgressOk(p) && p.rest == rest && rest != [] && rest[0].Ok() && HEADER < lost <= p.n
    && Find(Base(s, p).queue, RequestId(rest[0].header)) < 0
    && st == Stranded(Base(s, p), rest[0], lost, p.n)
  }

  lemma StrandedStep(s: Server, p: Progress, x: Input, st: Server, lost: nat)
    requires IsStranded(s, p, st, p.rest, lost) && Allowed(s, p, x) && DistinctIds(Base(s, p).queue)
    ensures var q := Advance(p, x);
            IsStranded(s, q, Step(st, x), p.rest, lost)
            || (ProgressOk(q) && q.n == 0 && |q.rest| < |p.rest| && Step(st, x).incoming != [])
  {
    hide Run, Find, Recv, RequestId, FromBE, Signed32, Position;
    AdvanceOk(p, x);
    var b, f := Base(s, p), p.rest[0];
    match x {
      case Call(e) =>
        RunOneMore(s, p.log, e);
        StrandedByCall(b, f, lost, p.n, e);
      case Arrival(chunk) =>
        StrandedByArrival(b, f, lost, p.n, chunk);
    }
  }

  /** After the first abandoned read a session is stuck in its packet, until that packet ends without the
      buffer being empty. */
  lemma {:induction false} AfterAbandoning(s: Server, fs: seq<Frame>, xs: seq<Input>, m: nat, bufsize: nat)
    requires StartOk(s, fs) && Legal(s, fs, xs, bufsize) && m < |xs| && Legal(s, fs, xs[..m], bufsize)
    requires NeverAbandonsRead(s, fs, xs[..m], bufsize) && AbandonsRead(s, ProgressOf(fs, xs[..m]), xs[m])
    ensures var pm, p := ProgressOf(fs, xs[..m]), ProgressOf(fs, xs);
            IsStranded(s, p, Session(s, xs), pm.rest, pm.n) || (|p.rest| < |pm.rest| && !BoundariesEmpty(s, fs, xs))
    decreases |xs|
  {
    hide StartOk, Base, ProgressOk, Step, Young, IsStranded, Allowed, AbandonsRead, QueueOk, DistinctIds, Advance;
    hide NeverAbandonsRead;
    var init := xs[..|xs| - 1];
    LegalFacts(s, fs, init, bufsize);
    if |init| == m {
      SessionAsExpected(s, fs, init, bufsize);
      AbandoningStep(s, ProgressOf(fs, init), xs[m]);
    } else {
      assert init[..m] == xs[..m] && init[m] == xs[m];
      AfterAbandoning(s, fs, init, m, bufsize);
      var pm, p, x := ProgressOf(fs, xs[..m]), ProgressOf(fs, init), xs[|xs| - 1];
      if IsStranded(s, p, Session(s, init), pm.rest, pm.n) {
        StrandedRest(s, p, Session(s, init), pm.rest, pm.n);
        StrandedStep(s, p, x, Session(s, init), pm.n);
      } else {
        AdvanceShortens(p, x);
      }
    }
  }

  lemma StrandedRest(s: Server, p: Progress, st: Server, rest: seq<Frame>, lost: nat)
    requires IsStranded(s, p, st, rest, lost)
    ensures p.rest == rest
  {
  }

  lemma AdvanceShortens(p: Progress, x: Input)
    ensures |Advance(p, x).rest| <= |p.rest|
  {
  }

  lemma AbandoningStep(s: Server, p: Progress, x: Input)
    requires ProgressOk(p) && Allowed(s, p, x) && AbandonsRead(s, p, x) && DistinctIds(Base(s, p).queue)
    ensures IsStranded(s, Advance(p, x), Step(Expected(s, p), x), p.rest, p.n)
  {
    hide Run, Find, Partial, RequestId, Position, Remove;
    AdvanceOk(p, x);
    RunOneMore(s, p.log, x.e);
    assert p.rest[0] in p.rest;
    StrandedAfterLeave(Base(s, p), p.rest[0], p.n, x.e.issue);
  }

  /** The first place where a session abandons a read. */
  lemma {:induction false} FirstAbandoned(s: Server, fs: seq<Frame>, xs: seq<Input>, bufsize: nat) returns (m: nat)
    requires Legal(s, fs, xs, bufsize) && !NeverAbandonsRead(s, fs, xs, bufsize)
    ensures m < |xs| && Legal(s, fs, xs[..m], bufsize)
    ensures NeverAbandonsRead(s, fs, xs[..m], bufsize) && AbandonsRead(s, ProgressOf(fs, xs[..m]), xs[m])
    decreases |xs|
  {
    hide AbandonsRead, Allowed, Young, ProgressOk, Base;
    var init := xs[..|xs| - 1];
    if NeverAbandonsRead(s, fs, init, bufsize) {
      m := |init|;
    } else {
      m := FirstAbandoned(s, fs, init, bufsize);
      assert init[..m] == xs[..m];
    }
  }

  // ---------------------------------------------------------------- the packet buffer

  /** Every read() of the session has had room for what it brought. */
  predicate WithinMemory(s: Server, xs: seq<Input>, bufsize: nat)
    requires InputsOk(xs)
  {
    xs != [] ==>
      var init, x := xs[..|xs| - 1], xs[|xs| - 1];
      WithinMemory(s, init, bufsize) && (x.Arrival? ==> InBounds(Session(s, init), |x.chunk|, bufsize))
  }

  lemma {:induction false} ShortIsWithin(s: Server, fs: seq<Frame>, xs: seq<Input>, bufsize: nat)
    requires StartOk(s, fs) && Legal(s, fs, xs, bufsize)
    requires NeverAbandonsRead(s, fs, xs, bufsize) && NeverTooLong(s, fs, xs, bufsize)
    ensures WithinMemory(s, xs, bufsize)
    decreases |xs|
  {
    hide StartOk, Allowed, AbandonsRead, TooLong, Expected, Base, Advance, ProgressOk, Step, Want, InBounds, Young;
    if xs != [] {
      var init, x := xs[..|xs| - 1], xs[|xs| - 1];
      ShortIsWithin(s, fs, init, bufsize);
      SessionAsExpected(s, fs, init, bufsize);
      if x.Arrival? { ArrivalBounds(s, ProgressOf(fs, init), x, bufsize); }
    }
  }

  /** Part of the body of a packet that is too long for the packet buffer is in it. */
  predicate IsTooLong(s: Server, p: Progress, bufsize: nat) {
    && ProgressOk(p) && p.n > HEADER
    && (assert p.rest[0] in p.rest; ToBuffer(Base(s, p).queue, p.rest[0])) && |p.rest[0].Bytes()| > bufsize
  }

  lemma ToBufferStays(b: Server, f: Frame, e: Event)
    requires f.Ok() && EventOk(e) && !e.Reply? && DistinctIds(b.queue) && ToBuffer(b.queue, f)
    requires e.Send? ==> NextId(b.lastRequestId) != RequestId(f.header)
    ensures ToBuffer(Apply(b, e).queue, f)
  {
    hide Find, RequestId, Position;
    var i := Find(b.queue, RequestId(f.header));
    if e.Send? {
      var r := Request(NextId(b.lastRequestId), e.subcommand, e.wait, false, 0, e.rx, b.issued);
      FindAppended(b.queue, r, RequestId(f.header));
    } else if Position(b.queue, e.issue) >= 0 {
      FindInGap(b.queue, Position(b.queue, e.issue), RequestId(f.header));
    }
  }

  lemma TooLongStep(s: Server, p: Progress, x: Input, bufsize: nat)
    requires ProgressOk(p) && Allowed(s, p, x) && (IsTooLong(s, p, bufsize) || TooLong(s, p, x, bufsize))
    requires Base(s, p).incoming == [] && DistinctIds(Base(s, p).queue)
    requires x.Arrival? ==> |x.chunk| <= Want(Expected(s, p), bufsize)
    ensures IsTooLong(s, Advance(p, x), bufsize)
            || (x.Arrival? && !InBounds(Expected(s, p), |x.chunk|, bufsize))
  {
    hide Run, Find, Partial, Want, InBounds, Takes, ToBuffer, RequestId, Expected;
    AdvanceOk(p, x);
    var f := p.rest[0];
    assert f in p.rest;
    match x {
      case Call(e) =>
        RunOneMore(s, p.log, e);
        ToBufferStays(Base(s, p), f, e);
      case Arrival(chunk) =>
        if Advance(p, x).n == 0 { ArrivalBounds(s, p, x, bufsize); }
    }
  }

  /** A packet that is too long has run over the end of the packet buffer by the time it is complete. */
  lemma {:induction false} TooLongOverruns(s: Server, fs: seq<Frame>, xs: seq<Input>, bufsize: nat)
    requires StartOk(s, fs) && Legal(s, fs, xs, bufsize)
    requires NeverAbandonsRead(s, fs, xs, bufsize) && !NeverTooLong(s, fs, xs, bufsize)
    ensures IsTooLong(s, ProgressOf(fs, xs), bufsize) || !WithinMemory(s, xs, bufsize)
    decreases |xs|
  {
    hide StartOk, Allowed, AbandonsRead, TooLong, Expected, Base, Advance, ProgressOk, Step, Want, InBounds, Young;
    hide IsTooLong, DistinctIds, QueueOk;
    var init, x := xs[..|xs| - 1], xs[|xs| - 1];
    if !NeverTooLong(s, fs, init, bufsize) { TooLongOverruns(s, fs, init, bufsize); }
    if WithinMemory(s, init, bufsize) {
      SessionAsExpected(s, fs, init, bufsize);
      LegalFacts(s, fs, init, bufsize);
      TooLongStep(s, ProgressOf(fs, init), x, bufsize);
    }
  }

  // ---------------------------------------------------------------- the main result

  /** Every queued request has been answered by exactly the replies to it, at most one, and a request that
      is done holds that reply's code and body. */
  ghost predicate AnswersRight(s: Server, fs: seq<Frame>, xs: seq<Input>)
    requires InputsOk(xs) && ProgressOk(ProgressOf(fs, xs))
  {
    forall r :: r in Session(s, xs).queue ==> AnsweredBy(r, RepliesFor(s, ProgressOf(fs, xs).log, r.issue))
  }

  lemma {:induction false} LogStaysYoung(s: Server, fs: seq<Frame>, xs: seq<Input>, bufsize: nat)
    requires StartOk(s, fs) && Legal(s, fs, xs, bufsize)
    ensures StaysYoung(s, ProgressOf(fs, xs).log)
    decreases |xs|
  {
    hide Young, Allowed, StartOk, Run, StaysYoung, EventOk, Want, Session, Base;
    var log := ProgressOf(fs, xs).log;
    YoungOfBase(s, ProgressOf(fs, xs));
    if xs == [] {
      YoungAtFirst(s);
    } else {
      var init := xs[..|xs| - 1];
      LogStaysYoung(s, fs, init, bufsize);
      YoungExtended(s, ProgressOf(fs, init).log, log);
    }
  }

  lemma YoungOfBase(s: Server, p: Progress)
    requires ProgressOk(p) && Young(Base(s, p))
    ensures Young(Run(s, p.log))
  {
  }

  lemma YoungAtFirst(s: Server)
    requires Young(Run(s, []))
    ensures StaysYoung(s, [])
  {
    hide Young, Run;
    var none: seq<Event> := [];
    assert none[..0] == none;
  }

  lemma YoungExtended(s: Server, before: seq<Event>, log: seq<Event>)
    requires (forall e :: e in log ==> EventOk(e)) && before <= log && |log| <= |before| + 1
    requires (forall e :: e in before ==> EventOk(e)) && StaysYoung(s, before) && Young(Run(s, log))
    ensures StaysYoung(s, log)
  {
    hide Young, Run, EventOk;
    assert log[..|log|] == log;
    forall n | 0 <= n <= |log| ensures Young(Run(s, log[..n])) {
      if n <= |before| { assert log[..n] == before[..n]; }
    }
  }

  lemma QueuedInBase(s: Server, p: Progress, r: Request)
    requires ProgressOk(p) && r in Expected(s, p).queue
    requires p.n > 0 ==> r.requestid != (assert p.rest[0] in p.rest; RequestId(p.rest[0].header))
    ensures r in Run(s, p.log).queue
  {
    hide Run, RequestId, ErrorCode, Find;
    if p.n > 0 {
      var b, f := Base(s, p), p.rest[0];
      assert f in p.rest && f.Ok();
      var k :| 0 <= k < |Expected(s, p).queue| && Expected(s, p).queue[k] == r;
      assert b.queue[k] == r;
    }
  }

  lemma LegalIsOk(s: Server, fs: seq<Frame>, xs: seq<Input>, bufsize: nat)
    requires StartOk(s, fs) && Legal(s, fs, xs, bufsize)
    ensures QueueOk(s) && ProgressOk(ProgressOf(fs, xs)) && forall e :: e in ProgressOf(fs, xs).log ==> EventOk(e)
  {
  }

  /** At any moment of a session that abandons no read, the queued requests have their own answers; the one
      whose reply is coming in may have part of it. */
  lemma OwnReplies(s: Server, fs: seq<Frame>, xs: seq<Input>, r: Request, bufsize: nat)
    requires StartOk(s, fs) && s.queue == [] && Legal(s, fs, xs, bufsize) && NeverAbandonsRead(s, fs, xs, bufsize)
    requires r in Session(s, xs).queue
    requires var p := ProgressOf(fs, xs);
             p.n > 0 ==> r.requestid != (assert p.rest[0] in p.rest; RequestId(p.rest[0].header))
    ensures AnsweredBy(r, RepliesFor(s, ProgressOf(fs, xs).log, r.issue))
  {
    hide *;
    var p := ProgressOf(fs, xs);
    SessionAsExpected(s, fs, xs, bufsize);
    LogStaysYoung(s, fs, xs, bufsize);
    LegalIsOk(s, fs, xs, bufsize);
    QueuedInBase(s, p, r);
    OwnReplyOverRuns(s, p.log, r);
  }

  /**
    The transport as a whole. Take any session in which senders enqueue and leave whenever they like, also
    inside packets, and let all packets of the stream be complete in the end. Nothing has been written behind
    the packet buffer, it has been empty at every packet boundary, and every queued request has its own
    reply's code and body, if and only if no sender left while the body of the reply to its read was partly
    in, and no body came in of a packet longer than the packet buffer whose request was gone or no read.
   */
  lemma FramingHoldsIff(s: Server, fs: seq<Frame>, xs: seq<Input>, bufsize: nat)
    requires StartOk(s, fs) && s.queue == [] && Legal(s, fs, xs, bufsize) && ProgressOf(fs, xs).rest == []
    ensures NeverAbandonsRead(s, fs, xs, bufsize) && NeverTooLong(s, fs, xs, bufsize) <==>
            WithinMemory(s, xs, bufsize) && BoundariesEmpty(s, fs, xs) && AnswersRight(s, fs, xs)
  {
    hide *;
    DeframingHoldsIff(s, fs, xs, bufsize);
    if NeverAbandonsRead(s, fs, xs, bufsize) {
      if NeverTooLong(s, fs, xs, bufsize) {
        ShortIsWithin(s, fs, xs, bufsize);
      } else {
        TooLongOverruns(s, fs, xs, bufsize);
        NothingTooLong(s, ProgressOf(fs, xs), bufsize);
      }
    }
  }

  lemma NothingTooLong(s: Server, p: Progress, bufsize: nat)
    requires p.rest == []
    ensures !IsTooLong(s, p, bufsize)
  {
    hide Base, ToBuffer;
  }

  /** The part of it that is about the bytes, as if the packet buffer had no end. */
  lemma DeframingHoldsIff(s: Server, fs: seq<Frame>, xs: seq<Input>, bufsize: nat)
    requires StartOk(s, fs) && s.queue == [] && Legal(s, fs, xs, bufsize) && ProgressOf(fs, xs).rest == []
    ensures NeverAbandonsRead(s, fs, xs, bufsize) <==> BoundariesEmpty(s, fs, xs) && AnswersRight(s, fs, xs)
  {
    hide Base, Step, Run, Young, IsStranded, Allowed, AbandonsRead, AnsweredBy, RepliesFor, Session, Advance;
    hide BoundariesEmpty;
    if NeverAbandonsRead(s, fs, xs, bufsize) {
      NeverAbandonedKeepsBoundaries(s, fs, xs, bufsize);
      forall r | r in Session(s, xs).queue ensures AnsweredBy(r, RepliesFor(s, ProgressOf(fs, xs).log, r.issue)) {
        OwnReplies(s, fs, xs, r, bufsize);
      }
    } else {
      var m := FirstAbandoned(s, fs, xs, bufsize);
      AfterAbandoning(s, fs, xs, m, bufsize);
      var pm, p := ProgressOf(fs, xs[..m]), ProgressOf(fs, xs);
      if IsStranded(s, p, Session(s, xs), pm.rest, pm.n) { StrandedHasRest(s, p, Session(s, xs), pm.rest, pm.n); }
    }
  }

  lemma StrandedHasRest(s: Server, p: Progress, st: Server, rest: seq<Frame>, lost: nat)
    requires IsStranded(s, p, st, rest, lost)
    ensures p.rest != []
  {
  }

  // ---------------------------------------------------------------- the failing family is not empty

  const REPLY: Frame := Frame([1, 2, 0, 1, 0, 0, 0, 0, 0, 0, 0, 2, 0, 0, 0, 0], [7, 8])
  const START: Server := Server([], [], 0, 0, 0, 0, [])

  lemma Two(a: byte, b: byte)
    ensures FromBE([a, b]) == 256 * a + b
  {
    var s: seq<byte> := [a, b];
    assert s[..1] == [a] && FromBE([a]) == a;
  }

  lemma ReplyFields()
    ensures REPLY.Ok() && RequestId(REPLY.header) == 1
    ensures Flags(REPLY.header) == DSI_REPLY && Command(REPLY.header) == DSI_DSICommand
    ensures |REPLY.Bytes()| == 18 && REPLY.Bytes()[..16] == REPLY.header
    ensures REPLY.Bytes()[16..17] == [7] && REPLY.Bytes()[17..18] == [8]
  {
    var h := REPLY.header;
    Two(h[2], h[3]);
    assert h[2..4] == [h[2], h[3]];
    Two(h[8], h[9]);
    assert FromBE([h[8], h[9], h[10]]) == 0 by { assert [h[8], h[9], h[10]][..2] == [h[8], h[9]]; }
    assert FromBE([h[8], h[9], h[10], h[11]]) == 2 by { assert [h[8], h[9], h[10], h[11]][..3] == [h[8], h[9], h[10]]; }
    assert h[8..12] == [h[8], h[9], h[10], h[11]];
  }

  lemma SessionMore(s: Server, xs: seq<Input>, x: Input)
    requires InputsOk(xs) && InputsOk([x])
    ensures InputsOk(xs + [x]) && Session(s, xs + [x]) == (assert x in [x]; Step(Session(s, xs), x))
  {
    assert x in [x] && (xs + [x])[..|xs|] == xs;
  }

  function Sent(size: nat): Event {
    Send(afpReadExt, 5, RxBuffer(size, []))
  }

  const SENT: Event := Sent(2)
  const HEADER_IN: seq<Input> := [Call(SENT)] + [Arrival(REPLY.header)]
  const HALF_IN: seq<Input> := HEADER_IN + [Arrival([7])]
  const TIMEOUT: seq<Input> := HALF_IN + [Call(Leave(0))] + [Arrival([8])]

  lemma AfterSend(size: nat)
    ensures var b := Apply(START, Sent(size));
            && b.incoming == [] && |b.queue| == 1 && b.queue[0].IsRead() && b.queue[0].rx == RxBuffer(size, [])
            && Find(b.queue, 1) == 0 && Position(b.queue, 0) == 0 && DistinctIds(b.queue)
            && Remove(b, 0).queue == [] && Find([], 1) < 0 && b.issued == 1 && b.queue[0].issue == 0
  {
  }

  lemma HeaderIn(f: Frame, size: nat)
    requires f.Ok() && RequestId(f.header) == 1 && Flags(f.header) == DSI_REPLY && KnownCommand(Command(f.header))
    requires 0 < |f.body| <= size
    ensures var xs, b := [Call(Sent(size))] + [Arrival(f.header)], Apply(START, Sent(size));
            && InputsOk(xs) && Session(START, xs) == Partial(b, f, HEADER)
            && Takes(b.queue, f) && !ToBuffer(b.queue, f)
  {
    hide Find, Position, Partial, Recv, FromBE, Apply, Session, Remove;
    AfterSend(size);
    SessionOfNone(START);
    SessionMore(START, [], Call(Sent(size)));
    assert [] + [Call(Sent(size))] == [Call(Sent(size))];
    assert f.Bytes()[..HEADER] == f.header;
    ReadInHeader(Apply(START, Sent(size)), f, 0, f.header, 0);
    SessionMore(START, [Call(Sent(size))], Arrival(f.header));
  }

  lemma HalfIn()
    ensures InputsOk(HALF_IN) && REPLY.Ok() && Session(START, HALF_IN) == Partial(Apply(START, SENT), REPLY, 17)
    ensures InputsOk(HEADER_IN) && 1 <= Want(Session(START, HEADER_IN), 2048)
  {
    hide Find, Position, Partial, Recv, FromBE, Apply, Session, Remove, Want, InBounds, Takes, ToBuffer;
    ReplyFields();
    AfterSend(2);
    HeaderIn(REPLY, 2);
    ReadInBody(Apply(START, SENT), REPLY, 16, [7]);
    BodyBounds(Apply(START, SENT), REPLY, 16, [7], 2048);
    SessionMore(START, HEADER_IN, Arrival([7]));
  }

  lemma SessionOfNone(s: Server)
    ensures InputsOk([]) && Session(s, []) == s
  {
  }

  lemma HalfLeft()
    ensures InputsOk(HALF_IN + [Call(Leave(0))]) && REPLY.Ok() && |REPLY.Bytes()| == 18
    ensures var st := Session(START, HALF_IN + [Call(Leave(0))]);
            && st == Remove(Partial(Apply(START, SENT), REPLY, 17), 0) && st.incoming == REPLY.header
            && 1 <= Want(st, 2048)
  {
    hide Find, Position, Partial, Recv, FromBE, Session, Remove;
    ReplyFields();
    AfterSend(2);
    HalfIn();
    SessionMore(START, HALF_IN, Call(Leave(0)));
    StrandedAfterLeave(Apply(START, SENT), REPLY, 17, 0);
    assert REPLY.header + REPLY.Bytes()[17..17] == REPLY.header;
  }

  /** A read of two bytes whose sender times out between them: the second byte stays behind the header. */
  lemma TimeoutInsideRead()
    ensures InputsOk(TIMEOUT)
    ensures Session(START, TIMEOUT).incoming == REPLY.header + [8] && Session(START, TIMEOUT).queue == []
  {
    hide Find, Position, Partial, Recv, FromBE, Session, Remove;
    ReplyFields();
    AfterSend(2);
    HalfLeft();
    AbandonedRead(Apply(START, SENT), REPLY, 17, 0);
    assert REPLY.Bytes()[17..] == [8];
    SessionMore(START, HALF_IN + [Call(Leave(0))], Arrival([8]));
  }

  lemma LegalMore(s: Server, fs: seq<Frame>, xs: seq<Input>, x: Input, bufsize: nat)
    requires Legal(s, fs, xs, bufsize) && Allowed(s, ProgressOf(fs, xs), x)
    requires x.Arrival? ==> |x.chunk| <= Want(Session(s, xs), bufsize)
    requires ProgressOk(Advance(ProgressOf(fs, xs), x)) && Young(Base(s, Advance(ProgressOf(fs, xs), x)))
    ensures Legal(s, fs, xs + [x], bufsize) && ProgressOf(fs, xs + [x]) == Advance(ProgressOf(fs, xs), x)
  {
    hide Allowed, ProgressOk, Young, Base, Advance, Want, Session;
    assert (xs + [x])[..|xs|] == xs && (xs + [x])[|xs|] == x;
    AllowedIsOk(s, ProgressOf(fs, xs), x);
  }

  lemma AllowedIsOk(s: Server, p: Progress, x: Input)
    requires ProgressOk(p) && Allowed(s, p, x)
    ensures x.Call? ==> EventOk(x.e) && !x.e.Reply?
  {
  }

  const LEFT: seq<Event> := [SENT] + [Leave(0)]

  /** The packet-wise runs that the moments of that session stand on. */
  lemma TimeoutBases()
    ensures Run(START, []) == START && Run(START, [SENT]) == Apply(START, SENT)
    ensures Run(START, LEFT) == Remove(Apply(START, SENT), 0) && REPLY.Ok()
    ensures Run(START, LEFT + [Reply(REPLY)]) == Deliver(Remove(Apply(START, SENT), 0), REPLY)
    ensures Takes(Run(START, [SENT]).queue, REPLY) && Takes(Run(START, LEFT).queue, REPLY)
    ensures Young(START) && Young(Run(START, [SENT]))
    ensures Young(Run(START, LEFT)) && Young(Run(START, LEFT + [Reply(REPLY)]))
  {
    hide Find, Position, FromBE, Remove, Run, Signed32;
    ReplyFields();
    AfterSend(2);
    assert Run(START, []) == START by { RunOfNone(START); }
    RunOneMore(START, [], SENT);
    RunOneMore(START, [SENT], Leave(0));
    RunOneMore(START, LEFT, Reply(REPLY));
    assert [] + [SENT] == [SENT];
  }

  lemma RunOfNone(s: Server)
    ensures Run(s, []) == s
  {
  }

  /** And that session is one the server and the network may bring about. */
  lemma TimeoutIsLegal()
    ensures StartOk(START, [REPLY]) && Legal(START, [REPLY], TIMEOUT, 2048) && ProgressOf([REPLY], TIMEOUT).rest == []
  {
    hide Find, Position, Legal, ProgressOf, FromBE, Remove, Session, Recv, Run, Takes, Young, Want, NextId, Deliver;
    ReplyFields();
    TimeoutBases();
    HalfIn();
    HalfLeft();
    SessionOfNone(START);
    assert [] + [SENT] == [SENT] && [] + [Call(SENT)] == [Call(SENT)];
    LegalAtStart(START, [REPLY], 2048);
    LegalMore(START, [REPLY], [], Call(SENT), 2048);
    SessionMore(START, [], Call(SENT));
    assert 16 <= Want(Apply(START, SENT), 2048) by { WantsHeader(Apply(START, SENT), 2048); }
    LegalMore(START, [REPLY], [Call(SENT)], Arrival(REPLY.header), 2048);
    LegalMore(START, [REPLY], HEADER_IN, Arrival([7]), 2048);
    LegalMore(START, [REPLY], HALF_IN, Call(Leave(0)), 2048);
    LegalMore(START, [REPLY], HALF_IN + [Call(Leave(0))], Arrival([8]), 2048);
  }

  lemma WantsHeader(s: Server, bufsize: nat)
    requires s.incoming == []
    ensures Want(s, bufsize) == HEADER
  {
  }

  lemma LegalAtStart(s: Server, fs: seq<Frame>, bufsize: nat)
    requires StartOk(s, fs) && Young(s)
    ensures Legal(s, fs, [], bufsize) && ProgressOf(fs, []) == Progress([], fs, 0)
  {
  }

  /** Any read of more than the packet buffer holds, whose sender leaves when only the header of the reply is
      in: the body goes to the packet buffer, and as soon as it is there, over its end. */
  lemma LateReplyOverruns(f: Frame, bufsize: nat)
    requires f.Ok() && RequestId(f.header) == 1 && Flags(f.header) == DSI_REPLY && KnownCommand(Command(f.header))
    requires |f.Bytes()| > bufsize && f.body != []
    ensures var xs := [Call(Sent(|f.body|))] + [Arrival(f.header)] + [Call(Leave(0))];
            && InputsOk(xs) && Session(START, xs).queue == [] && Session(START, xs).incoming == f.header
            && !InBounds(Session(START, xs), |f.body|, bufsize)
  {
    hide Find, Position, Recv, FromBE, Session, Remove;
    var before, b := [Call(Sent(|f.body|))] + [Arrival(f.header)], Apply(START, Sent(|f.body|));
    AfterSend(|f.body|);
    HeaderIn(f, |f.body|);
    SessionMore(START, before, Call(Leave(0)));
    assert f.header[..HEADER] == f.header;
    LeaveCommutes(b, f, HEADER, 0);
    assert Session(START, before + [Call(Leave(0))]) == Remove(Partial(b, f, HEADER), 0);
  }
}
