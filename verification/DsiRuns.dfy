/**
  Runs of the request queue (lib/dsi.c), packet by packet: senders enqueue, replies come in, and senders
  leave with an answer or after a timeout, in any order. Setting up the header and enqueueing are one step.
  DsiSessions shows that the byte-wise runs of a real session are these.
 */
module DsiRuns {
  import opened Bytes
  import opened Dsi

  datatype Event =
    | Send(subcommand: nat, wait: int, rx: RxBuffer)
    | Reply(f: Frame)
    | Leave(issue: nat)

  /** dsi_setup_header's counter. */
  function NextId(last: nat): nat {
    if last == 65535 then 0 else last + 1
  }

  /** dsi_setup_header and the first half of dsi_send. */
  function Enqueue(s: Server, subcommand: nat, wait: int, rx: RxBuffer): Server {
    var id := NextId(s.lastRequestId);
    s.(lastRequestId := id, issued := s.issued + 1, requestsPending := s.requestsPending + 1,
       queue := s.queue + [Request(id, subcommand, wait, false, 0, rx, s.issued)])
  }

  /** The index of the request with that issue number, or -1. */
  function Position(q: seq<Request>, issue: nat): (i: int)
    ensures -1 <= i < |q|
    ensures i >= 0 ==> q[i].issue == issue && forall k :: 0 <= k < i ==> q[k].issue != issue
    ensures i < 0 ==> forall k :: 0 <= k < |q| ==> q[k].issue != issue
  {
    if q == [] then -1
    else if q[0].issue == issue then 0
    else
      var i := Position(q[1..], issue);
      assert forall k :: 0 < k < |q| ==> q[k] == q[1..][k - 1];
      if i < 0 then -1 else i + 1
  }

  /** dsi_remove_from_request_queue. */
  function Remove(s: Server, issue: nat): Server {
    var i := Position(s.queue, issue);
    if i < 0 then s
    else s.(queue := Without(s.queue, i), requestsPending := s.requestsPending - 1)
  }

  /** A reply is a proper packet, and a request comes with an empty buffer. */
  predicate EventOk(e: Event) {
    && (e.Reply? ==> e.f.Ok())
    && (e.Send? ==> e.rx.data == [])
  }

  function Apply(s: Server, e: Event): Server
    requires EventOk(e)
  {
    match e
    case Send(subcommand, wait, rx) => Enqueue(s, subcommand, wait, rx)
    case Reply(f) => Deliver(s, f)
    case Leave(issue) => Remove(s, issue)
  }

  function Run(s: Server, es: seq<Event>): Server
    requires forall e :: e in es ==> EventOk(e)
  {
    if es == [] then s else Apply(Run(s, es[..|es| - 1]), es[|es| - 1])
  }

  // ---------------------------------------------------------------- what every step keeps

  /** The id that the request of that issue number carries. */
  function IdOf(issue: nat): nat {
    (issue + 1) % 65536
  }

  ghost predicate QueueOk(s: Server) {
    && s.requestsPending == |s.queue|
    && s.lastRequestId == s.issued % 65536
    && (forall k :: 0 <= k < |s.queue| ==>
          s.queue[k].requestid == IdOf(s.queue[k].issue) && s.queue[k].issue < s.issued)
    && (forall j, k :: 0 <= j < k < |s.queue| ==> s.queue[j].issue < s.queue[k].issue)
    && (forall k :: 0 <= k < |s.queue| && s.queue[k].doneWaiting ==> s.queue[k].wait == 0)
  }

  /** The queue, with one request changed in what a reply may change, or with one request gone. */
  lemma DeliveredQueue(s: Server, f: Frame)
    requires f.Ok()
    ensures var i := Find(s.queue, RequestId(f.header));
            var d := Deliver(s, f);
            && d.lastRequestId == s.lastRequestId && d.issued == s.issued
            && (i < 0 ==> d.queue == s.queue && d.requestsPending == s.requestsPending)
            && (i >= 0 && s.queue[i].wait != 0 ==>
                  d.queue == s.queue[i := Answered(s.queue[i], [f])] && d.requestsPending == s.requestsPending)
            && (i >= 0 && s.queue[i].wait == 0 ==>
                  d.queue == Without(s.queue, i) && d.requestsPending == s.requestsPending - 1)
  {
    hide Find, RequestId, ErrorCode, Command, Flags;
    var i := Find(s.queue, RequestId(f.header));
    if i >= 0 { DeliverToQueued(s, f, i); }
  }

  lemma GapKeepsQueue(s: Server, t: Server, i: nat)
    requires QueueOk(s) && i < |s.queue|
    requires t.queue == Without(s.queue, i) && t.requestsPending == s.requestsPending - 1
    requires t.lastRequestId == s.lastRequestId && t.issued == s.issued
    ensures QueueOk(t)
  {
    assert forall k :: 0 <= k < |t.queue| ==> t.queue[k] == s.queue[if k < i then k else k + 1];
  }

  /** requests_pending is the length of the queue, and ids follow the order of the sends, after every step. */
  lemma StepKeepsQueue(s: Server, e: Event)
    requires QueueOk(s) && EventOk(e)
    ensures QueueOk(Apply(s, e))
  {
    hide Find, Position, Deliver;
    match e
    case Send(subcommand, wait, rx) =>
      var t := Apply(s, e);
      assert forall k :: 0 <= k < |s.queue| ==> t.queue[k] == s.queue[k];
    case Leave(issue) =>
      var i := Position(s.queue, issue);
      if i >= 0 { GapKeepsQueue(s, Apply(s, e), i); }
    case Reply(f) =>
      DeliveredQueue(s, f);
      var i := Find(s.queue, RequestId(f.header));
      if i >= 0 && s.queue[i].wait == 0 {
        GapKeepsQueue(s, Deliver(s, f), i);
      }
  }

  lemma {:induction false} RunKeepsQueue(s: Server, es: seq<Event>)
    requires QueueOk(s) && forall e :: e in es ==> EventOk(e)
    ensures QueueOk(Run(s, es))
  {
    if es != [] {
      hide Apply, QueueOk;
      RunKeepsQueue(s, es[..|es| - 1]);
      StepKeepsQueue(Run(s, es[..|es| - 1]), es[|es| - 1]);
    }
  }

  /** Two outstanding requests carry the same id exactly when a multiple of 65536 sends lies between them. */
  lemma SameIdIff(s: Server, j: nat, k: nat)
    requires QueueOk(s) && j < k < |s.queue|
    ensures s.queue[j].requestid == s.queue[k].requestid <==> (s.queue[k].issue - s.queue[j].issue) % 65536 == 0
  {
    var a, b := s.queue[j].issue + 1, s.queue[k].issue + 1;
    var p, q := a / 65536, b / 65536;
    assert a == 65536 * p + a % 65536 && b == 65536 * q + b % 65536;
    var d := b % 65536 - a % 65536;
    assert b - a == 65536 * (q - p) + d && -65536 < d < 65536;
  }

  /** The oldest outstanding request is not yet 65536 sends old. */
  predicate Young(s: Server) {
    s.queue != [] ==> s.issued <= s.queue[0].issue + 65536
  }

  lemma YoungIdsDiffer(s: Server)
    requires QueueOk(s) && Young(s)
    ensures DistinctIds(s.queue)
  {
    forall j, k | 0 <= j < k < |s.queue| ensures s.queue[j].requestid != s.queue[k].requestid {
      SameIdIff(s, j, k);
      var d := s.queue[k].issue - s.queue[j].issue;
      assert j > 0 ==> s.queue[0].issue < s.queue[j].issue;
      assert 0 < d < 65536;
    }
  }

  // ---------------------------------------------------------------- who gets which answer

  /** The replies that carried the id of the request number issue after it was sent. */
  function RepliesFor(s: Server, es: seq<Event>, issue: nat): seq<Frame>
    requires forall e :: e in es ==> EventOk(e)
  {
    if es == [] then []
    else
      var init, e := es[..|es| - 1], es[|es| - 1];
      assert EventOk(e);
      RepliesFor(s, init, issue) +
      if e.Reply? && issue < Run(s, init).issued && RequestId(e.f.header) == IdOf(issue) then [e.f] else []
  }

  /** All along the run the ids in use were distinct. */
  ghost predicate StaysYoung(s: Server, es: seq<Event>)
    requires forall e :: e in es ==> EventOk(e)
  {
    forall n :: 0 <= n <= |es| ==> Young(Run(s, es[..n]))
  }

  /** A request has been answered once and holds that reply's code and, for a read, its body; or it has
      not been answered, and its buffer is empty. */
  predicate AnsweredBy(r: Request, fs: seq<Frame>) {
    if !r.doneWaiting then fs == [] && r.rx.data == []
    else |fs| == 1 && |fs[0].header| >= HEADER && r.returnCode == ErrorCode(fs[0].header)
         && r.rx.data == if r.IsRead() then fs[0].body else []
  }

  /** The code is the one the reply was written with. */
  lemma AnsweredWithCode(r: Request, f: Frame, flags: byte, command: byte, id: nat, code: int, reserved: seq<byte>)
    requires AnsweredBy(r, [f]) && r.doneWaiting && |f.body| < 0x1_0000_0000 && |reserved| == 4
    requires id < 0x1_0000 && -0x8000_0000 <= code < 0x8000_0000
    requires f.header == HeaderOf(flags, command, id, code, |f.body|, reserved)
    ensures r.returnCode == code && r.rx.data == if r.subcommand in {27, 60} then f.body else []
  {
    hide ErrorCode, HeaderOf;
    HeaderComesBack(flags, command, id, code, |f.body|, reserved);
  }

  /** From the sending of a request to its answer: the reply that carries the next id, written with some code,
      completes exactly this request, with that code and, for a read, with its body. */
  lemma RequestIsAnswered(s: Server, subcommand: nat, wait: int, rx: RxBuffer, f: Frame, command: byte, code: int,
                          reserved: seq<byte>)
    requires f.Ok() && wait != 0 && rx.data == [] && |f.body| < 0x1_0000_0000 && |reserved| == 4
    requires s.lastRequestId < 0x1_0000 && -0x8000_0000 <= code < 0x8000_0000
    requires var id := (s.lastRequestId + 1) % 0x1_0000;
             && f.header == HeaderOf(1, command, id, code, |f.body|, reserved)
             && forall k :: 0 <= k < |s.queue| ==> s.queue[k].requestid != id
    ensures var d := Deliver(Apply(s, Send(subcommand, wait, rx)), f);
            && |d.queue| == |s.queue| + 1 && d.queue[..|s.queue|] == s.queue
            && var r := d.queue[|s.queue|];
               && r.issue == s.issued && r.subcommand == subcommand && r.doneWaiting && r.wait == 0
               && r.returnCode == code && r.rx == RxBuffer(rx.maxsize, if subcommand in {27, 60} then f.body else [])
  {
    hide HeaderOf, RequestId, ErrorCode, Find, Length;
    var id := (s.lastRequestId + 1) % 0x1_0000;
    HeaderComesBack(1, command, id, code, |f.body|, reserved);
    var t := Apply(s, Send(subcommand, wait, rx));
    var i := Find(t.queue, id);
    assert t.queue[|s.queue|].requestid == id;
    assert forall k :: 0 <= k < |s.queue| ==> t.queue[k].requestid != id;
    assert i == |s.queue|;
    assert [] + f.body == f.body;
  }

  lemma NoReplyYet(s: Server, es: seq<Event>, issue: nat)
    requires forall e :: e in es ==> EventOk(e)
    requires QueueOk(s) && issue >= Run(s, es).issued
    ensures RepliesFor(s, es, issue) == []
  {
    if es != [] {
      var init, e := es[..|es| - 1], es[|es| - 1];
      assert Run(s, init).issued <= Run(s, es).issued by {
        assert EventOk(e);
        if e.Reply? { DeliveredQueue(Run(s, init), e.f); }
      }
      NoReplyYet(s, init, issue);
    }
  }

  /** o became r by the event e. */
  ghost predicate Became(o: Request, e: Event, r: Request)
    requires EventOk(e)
  {
    && o.issue == r.issue && o.requestid == IdOf(o.issue)
    && if e.Reply? && RequestId(e.f.header) == IdOf(r.issue)
       then !o.doneWaiting && r == Answered(o, [e.f])
       else r == o
  }

  lemma OriginInReply(s: Server, f: Frame, r: Request) returns (o: Request)
    requires f.Ok() && QueueOk(s) && DistinctIds(s.queue) && r in Deliver(s, f).queue
    ensures o in s.queue && o.issue < s.issued && Became(o, Reply(f), r)
  {
    hide Find, Deliver, RequestId, ErrorCode, IdOf;
    DeliveredQueue(s, f);
    var i := Find(s.queue, RequestId(f.header));
    var d := Deliver(s, f);
    var k :| 0 <= k < |d.queue| && d.queue[k] == r;
    if i < 0 {
      o := s.queue[k];
    } else if s.queue[i].wait != 0 {
      o := s.queue[k];
      if k != i { assert o.requestid != s.queue[i].requestid; }
    } else {
      o := s.queue[if k < i then k else k + 1];
      assert o == r && o.requestid != s.queue[i].requestid;
    }
  }

  /** Where a queued request comes from: it was just sent, or it was queued before the event. */
  lemma Origin(s: Server, e: Event, r: Request) returns (o: Request)
    requires EventOk(e) && QueueOk(s) && DistinctIds(s.queue) && r in Apply(s, e).queue
    ensures s.issued <= Apply(s, e).issued && r.issue < Apply(s, e).issued
    ensures (e.Send? && r.issue == s.issued && !r.doneWaiting && r.rx.data == [])
            || (o in s.queue && o.issue < s.issued && Became(o, e, r))
  {
    hide Find, Deliver, RequestId, ErrorCode, IdOf, Position;
    StepKeepsQueue(s, e);
    o := r;
    match e
    case Send(_, _, _) =>
    case Leave(_) =>
      assert r in s.queue;
    case Reply(f) =>
      DeliveredQueue(s, f);
      o := OriginInReply(s, f, r);
  }

  lemma NotYetAnswered(r: Request)
    requires !r.doneWaiting && r.rx.data == []
    ensures AnsweredBy(r, [])
  {
  }

  lemma StillAnsweredBy(o: Request, e: Event, r: Request, fs: seq<Frame>)
    requires EventOk(e) && Became(o, e, r) && AnsweredBy(o, fs)
    ensures AnsweredBy(r, fs + if e.Reply? && RequestId(e.f.header) == IdOf(r.issue) then [e.f] else [])
  {
    hide RequestId, ErrorCode;
    assert fs + [] == fs;
    assert fs == [] ==> forall f: Frame :: fs + [f] == [f];
  }

  lemma StaysYoungBefore(s: Server, es: seq<Event>)
    requires es != [] && (forall e :: e in es ==> EventOk(e)) && StaysYoung(s, es)
    ensures var init := es[..|es| - 1]; StaysYoung(s, init) && Young(Run(s, init))
  {
    hide EventOk, Young, Run;
    var init := es[..|es| - 1];
    forall n | 0 <= n <= |init| ensures Young(Run(s, init[..n])) {
      assert init[..n] == es[..n];
    }
    assert init[..|init|] == init;
  }

  /**
    Reply matching over any run that starts with nothing outstanding: while no request grows 65536 sends
    old, each request that is still queued has been answered by exactly the replies that carried its own
    id since it was sent, and holds the code of that reply and, if it is a read, its body.
   */
  lemma {:induction false} OwnReplyOverRuns(s: Server, es: seq<Event>, r: Request)
    requires s.queue == [] && QueueOk(s) && (forall e :: e in es ==> EventOk(e)) && StaysYoung(s, es)
    requires r in Run(s, es).queue
    ensures AnsweredBy(r, RepliesFor(s, es, r.issue)) && r.issue < Run(s, es).issued
    decreases |es|
  {
    if es != [] {
      hide Apply, RequestId, ErrorCode, IdOf, Young, QueueOk, DistinctIds, Became, AnsweredBy, Answered, StaysYoung;
      hide EventOk;
      var init, e := es[..|es| - 1], es[|es| - 1];
      var t := Run(s, init);
      RunKeepsQueue(s, init);
      StaysYoungBefore(s, es);
      YoungIdsDiffer(t);
      var o := Origin(t, e, r);
      if e.Send? && r.issue == t.issued {
        NoReplyYet(s, init, r.issue);
        NotYetAnswered(r);
      } else {
        OwnReplyOverRuns(s, init, o);
        StillAnsweredBy(o, e, r, RepliesFor(s, init, r.issue));
      }
    }
  }

  /** A reply that no request is waiting for changes nothing but the byte count (and runt_packets, which
      ReadInHeader and ReadInBody count), unless it is empty and not the reply to a command. */
  lemma UnmatchedReply(s: Server, f: Frame)
    requires f.Ok() && Find(s.queue, RequestId(f.header)) < 0
    ensures (f.body != [] || Command(f.header) in {DSI_DSICommand, DSI_DSIWrite}) <==>
            Deliver(s, f) == s.(rxBytes := s.rxBytes + |f.Bytes()|)
  {
    hide Find, RequestId;
    var h := s.handled;
    assert h + [f.header] != h by { assert |h + [f.header]| == |h| + 1; }
  }
}
