/**
  The DSI transport (lib/dsi.c) on values: what one call of dsi_recv does with the bytes it reads, how
  replies are matched to waiting senders, and that neither depends on how the stream was cut up.
 */
module Dsi {
  import opened Bytes

  const HEADER: nat := 16

  const DSI_REPLY := 1
  const DSI_DSICloseSession := 1
  const DSI_DSICommand := 2
  const DSI_DSIGetStatus := 3
  const DSI_DSIOpenSession := 4
  const DSI_DSITickle := 5
  const DSI_DSIWrite := 6
  const DSI_DSIAttention := 8

  const afpRead := 27
  const afpReadExt := 60

  // The fields of struct dsi_header, in network order.

  function Flags(h: seq<byte>): byte requires |h| >= HEADER { h[0] }
  function Command(h: seq<byte>): byte requires |h| >= HEADER { h[1] }
  function RequestId(h: seq<byte>): nat requires |h| >= HEADER { FromBE(h[2..4]) }
  function ErrorCode(h: seq<byte>): int requires |h| >= HEADER { Signed32(FromBE(h[4..8])) }
  function Length(h: seq<byte>): nat requires |h| >= HEADER { FromBE(h[8..12]) }

  /** The commands dsi_recv has a case for. */
  predicate KnownCommand(c: byte) {
    c in {DSI_DSICloseSession, DSI_DSICommand, DSI_DSIGetStatus, DSI_DSIOpenSession, DSI_DSITickle, DSI_DSIWrite,
          DSI_DSIAttention}
  }

  /** struct dsi_header as it is sent. */
  function HeaderOf(flags: byte, command: byte, id: nat, code: int, length: nat, reserved: seq<byte>): seq<byte> {
    [flags, command] + ToBE(id, 2) + ToBE(code % 0x1_0000_0000, 4) + ToBE(length, 4) + reserved
  }

  /** Every field is read from where it was put. */
  lemma HeaderComesBack(flags: byte, command: byte, id: nat, code: int, length: nat, reserved: seq<byte>)
    requires id < 0x1_0000 && -0x8000_0000 <= code < 0x8000_0000 && length < 0x1_0000_0000 && |reserved| == 4
    ensures var h := HeaderOf(flags, command, id, code, length, reserved);
            && |h| == 16 && Flags(h) == flags && Command(h) == command && RequestId(h) == id
            && ErrorCode(h) == code && Length(h) == length
  {
    hide FromBE, ToBE;
    var h, c := HeaderOf(flags, command, id, code, length, reserved), code % 0x1_0000_0000;
    assert h[2..4] == ToBE(id, 2) && h[4..8] == ToBE(c, 4) && h[8..12] == ToBE(length, 4);
    FromBEOfToBE(id, 2);
    FromBEOfToBE(c, 4);
    FromBEOfToBE(length, 4);
  }

  /** Access denied, in reply to request 1. */
  lemma AccessDeniedHeader()
    ensures var h: seq<byte> := [1, 2, 0, 1, 0xFF, 0xFF, 0xEC, 0x78, 0, 0, 0, 0, 0, 0, 0, 0];
            Flags(h) == 1 && Command(h) == 2 && RequestId(h) == 1 && ErrorCode(h) == -5000 && Length(h) == 0
  {
    hide FromBE, ToBE;
    var h: seq<byte> := [1, 2, 0, 1, 0xFF, 0xFF, 0xEC, 0x78, 0, 0, 0, 0, 0, 0, 0, 0];
    BigEndian(1);
    BigEndian(0xFFFF_EC78);
    BigEndian(0);
    assert h == HeaderOf(1, 2, 1, -5000, 0, [0, 0, 0, 0]);
    HeaderComesBack(1, 2, 1, -5000, 0, [0, 0, 0, 0]);
  }

  /** The numbers on the wire. */
  lemma ProtocolNumbers(c: byte, r: Request)
    ensures KnownCommand(c) <==> c in {1, 2, 3, 4, 5, 6, 8}
    ensures r.IsRead() <==> r.subcommand == 27 || r.subcommand == 60
  {
  }

  // ---------------------------------------------------------------- requests

  /** struct afp_rx_buffer: data holds the first size bytes. Requests other than reads have none here. */
  datatype RxBuffer = RxBuffer(maxsize: nat, data: seq<byte>)

  /** struct dsi_request. issue is the position of its dsi_send among all of the session's; it stands for
      the pointer to the request. */
  datatype Request = Request(requestid: nat, subcommand: nat, wait: int, doneWaiting: bool,
                             returnCode: int, rx: RxBuffer, issue: nat)
  {
    predicate IsRead() { subcommand == afpRead || subcommand == afpReadExt }
  }

  /** dsi_find_request: the index of the first request of that id, or -1. */
  function Find(q: seq<Request>, id: nat): (i: int)
    ensures -1 <= i < |q|
    ensures i >= 0 ==> q[i].requestid == id && forall k :: 0 <= k < i ==> q[k].requestid != id
    ensures i < 0 ==> forall k :: 0 <= k < |q| ==> q[k].requestid != id
  {
    if q == [] then -1
    else if q[0].requestid == id then 0
    else
      var i := Find(q[1..], id);
      assert forall k :: 0 < k < |q| ==> q[k] == q[1..][k - 1];
      if i < 0 then -1 else i + 1
  }

  /** The client's side of a session: incoming is incoming_buffer[..data_read], and handled lists the
      packets that dsi_recv passed on to a reply handler. */
  datatype Server = Server(incoming: seq<byte>, queue: seq<Request>, requestsPending: int, rxBytes: nat,
                           lastRequestId: nat, issued: nat, handled: seq<seq<byte>>)

  /** The last lines of dsi_recv: wake the sender, or drop a request nobody waits for. */
  function Finish(s: Server, i: int): Server
    requires i < |s.queue|
  {
    if i < 0 then s
    else if s.queue[i].wait != 0 then s.(queue := s.queue[i := s.queue[i].(wait := 0, doneWaiting := true)])
    else s.(queue := s.queue[..i] + s.queue[i + 1..], requestsPending := s.requestsPending - 1)
  }

  // ---------------------------------------------------------------- one call of dsi_recv

  /** What dsi_recv asks read() for. */
  function Want(s: Server, bufsize: nat): int {
    if |s.incoming| < HEADER then HEADER - |s.incoming|
    else
      var i := Find(s.queue, RequestId(s.incoming));
      var length := Length(s.incoming);
      if i >= 0 && s.queue[i].IsRead() then
        var rx := s.queue[i].rx;
        if rx.maxsize < length then rx.maxsize - |rx.data| else length - |rx.data|
      else if length < bufsize then length else bufsize
  }

  /** The memory that dsi_recv relies on: a body that goes to the packet buffer, with whatever a read may
      bring, stays inside it; and a read's reply starts right behind a bare header. */
  predicate InBounds(s: Server, available: nat, bufsize: nat) {
    |s.incoming| >= HEADER ==>
      var i := Find(s.queue, RequestId(s.incoming));
      if i >= 0 && s.queue[i].IsRead() then |s.incoming| == HEADER && s.queue[i].rx.maxsize > 0
      else |s.incoming| + (if available < Want(s, bufsize) then available else Want(s, bufsize)) <= bufsize
  }

  /** The result of a call: the new state, the return value, and by how much runt_packets went up. */
  datatype Received = Received(server: Server, ret: int, runts: int)

  /** The switch on the command. Commands and writes go to the handler of their request's subcommand,
      if there is a request and it has one. */
  function Dispatch(s: Server, i: int): Server
    requires |s.incoming| >= HEADER && i < |s.queue|
  {
    if Command(s.incoming) in {DSI_DSICommand, DSI_DSIWrite} && (i < 0 || s.queue[i].subcommand == 0) then s
    else s.(handled := s.handled + [s.incoming])
  }

  /** The branch for bytes behind the packet. The copy starts at offset length, where the packet's last
      16 bytes still are, and data_read keeps the packet's size. */
  function Leftover(buf: seq<byte>, length: nat): seq<byte>
    requires |buf| >= length + HEADER
  {
    var extra := |buf| - (length + HEADER);
    (buf[length..length + extra] + buf[extra..])[..length + HEADER]
  }

  function AfterProcessing(s: Server, i: int): Server
    requires |s.incoming| >= HEADER && |s.incoming| >= HEADER + Length(s.incoming) && i < |s.queue|
  {
    var length := Length(s.incoming);
    Finish(s.(incoming := if |s.incoming| == length + HEADER then [] else Leftover(s.incoming, length)), i)
  }

  function SetCode(s: Server, i: int, code: int): Server
    requires i < |s.queue|
  {
    if i < 0 then s else s.(queue := s.queue[i := s.queue[i].(returnCode := code)])
  }

  /** A header that announces no body, complete in the buffer. */
  function RecvEmpty(s: Server): Received
    requires |s.incoming| == HEADER && Length(s.incoming) == 0
  {
    var h := s.incoming;
    var i := Find(s.queue, RequestId(h));
    var runts := if i < 0 && Flags(h) == DSI_REPLY then 1 else 0;
    var s1 := SetCode(s, i, ErrorCode(h));
    if i >= 0 && s.queue[i].IsRead() then Received(Finish(s1.(incoming := []), i), 0, runts)
    else if !KnownCommand(Command(h)) then Received(s1, -1, runts)
    else Received(AfterProcessing(Dispatch(s1, i), i), 0, runts)
  }

  /** Body bytes of a read's reply: into the request's own buffer. */
  function IntoRequest(s: Server, i: nat, chunk: seq<byte>): Server
    requires |s.incoming| >= HEADER && i < |s.queue|
  {
    var rx := s.queue[i].rx.(data := s.queue[i].rx.data + chunk);
    var s1 := s.(queue := s.queue[i := s.queue[i].(rx := rx)], rxBytes := s.rxBytes + |chunk|);
    if |rx.data| == Length(s.incoming) then Finish(s1.(incoming := []), i) else s1
  }

  /** Body bytes of any other packet: into the packet buffer, and on to a handler when it is complete. */
  function IntoBuffer(s: Server, i: int, runt: bool, chunk: seq<byte>): (Server, int)
    requires |s.incoming| >= HEADER && i < |s.queue|
  {
    var s1 := s.(incoming := s.incoming + chunk, rxBytes := s.rxBytes + |chunk|);
    assert s1.incoming[8..12] == s.incoming[8..12];
    if |s1.incoming| < HEADER + Length(s.incoming) then (s1, 0)
    else if runt then (AfterProcessing(s1, i), 0)
    else if !KnownCommand(Command(s.incoming)) then (s1, -1)
    else (AfterProcessing(Dispatch(s1, i), i), 0)
  }

  /** The header is in; the call reads body bytes. */
  function RecvBody(s: Server, chunk: seq<byte>): Received
    requires |s.incoming| >= HEADER
  {
    var h := s.incoming;
    var i := Find(s.queue, RequestId(h));
    var runt := i < 0 && Flags(h) == DSI_REPLY;
    var s1 := SetCode(s, i, ErrorCode(h));
    if i >= 0 && s.queue[i].IsRead() then Received(IntoRequest(s1, i, chunk), 0, 0)
    else
      var r := IntoBuffer(s1, i, runt, chunk);
      Received(r.0, r.1, if runt then 1 else 0)
  }

  /** dsi_recv, when read() delivers chunk. */
  function Recv(s: Server, chunk: seq<byte>): Received {
    if |s.incoming| < HEADER then
      var s1 := s.(incoming := s.incoming + chunk, rxBytes := s.rxBytes + |chunk|);
      if |s1.incoming| == HEADER && Length(s1.incoming) == 0 then RecvEmpty(s1) else Received(s1, 0, 0)
    else RecvBody(s, chunk)
  }

  function RecvAll(s: Server, chunks: seq<seq<byte>>): Received {
    if chunks == [] then Received(s, 0, 0)
    else
      var r := RecvAll(s, chunks[..|chunks| - 1]);
      var last := Recv(r.server, chunks[|chunks| - 1]);
      Received(last.server, if r.ret < 0 then r.ret else last.ret, r.runts + last.runts)
  }

  // ---------------------------------------------------------------- the reference: whole packets

  datatype Frame = Frame(header: seq<byte>, body: seq<byte>) {
    predicate Ok() {
      |header| == HEADER && Length(header) == |body|
    }
    function Bytes(): seq<byte> { header + body }
  }

  /** A reply dealt with in one piece: its request gets the return code and, for a read, the body; other
      packets go to their handler; the sender is woken. A reply to nobody leaves only its byte count. */
  function Deliver(s: Server, f: Frame): Server
    requires f.Ok()
  {
    var s1 := s.(rxBytes := s.rxBytes + |f.Bytes()|);
    var i := Find(s.queue, RequestId(f.header));
    if i < 0 then
      if f.body == [] then Dispatch(s1.(incoming := f.header), i).(incoming := s.incoming) else s1
    else
      var q := s.queue[i];
      var answered := q.(returnCode := ErrorCode(f.header),
                         rx := if q.IsRead() then q.rx.(data := q.rx.data + f.body) else q.rx);
      var told := Dispatch(s1.(incoming := f.Bytes()), i).(incoming := s.incoming);
      Finish((if q.IsRead() then s1 else told).(queue := s.queue[i := answered]), i)
  }

  /** The body goes to the packet buffer: no request of that id is waiting, or it is no read. */
  predicate ToBuffer(q: seq<Request>, f: Frame)
    requires f.Ok()
  {
    var i := Find(q, RequestId(f.header));
    i < 0 || !q[i].IsRead()
  }

  /** The packet is one the server may send: a reply, and to a read the first one, with no more than was
      asked for. */
  predicate Takes(q: seq<Request>, f: Frame) {
    && f.Ok() && Flags(f.header) == DSI_REPLY && KnownCommand(Command(f.header))
    && (!ToBuffer(q, f) ==> var r := q[Find(q, RequestId(f.header))]; r.rx.data == [] && |f.body| <= r.rx.maxsize)
  }

  /** And it fits where it goes. */
  predicate Fits(q: seq<Request>, f: Frame, bufsize: nat) {
    Takes(q, f) && (ToBuffer(q, f) ==> |f.Bytes()| <= bufsize)
  }

  predicate AllFit(s: Server, fs: seq<Frame>, bufsize: nat)
    decreases |fs|
  {
    fs == [] || (Fits(s.queue, fs[0], bufsize) && AllFit(Deliver(s, fs[0]), fs[1..], bufsize))
  }

  /** Where things stand when n bytes of the packet f are in, 0 < n < |f.Bytes()|. */
  function Partial(s: Server, f: Frame, n: nat): Server
    requires f.Ok() && n < |f.Bytes()|
  {
    var s1 := s.(rxBytes := s.rxBytes + n);
    var i := Find(s.queue, RequestId(f.header));
    if n <= HEADER then s1.(incoming := f.header[..n])
    else if i < 0 then s1.(incoming := f.Bytes()[..n])
    else
      var q := s.queue[i].(returnCode := ErrorCode(f.header));
      if q.IsRead() then
        s1.(incoming := f.header, queue := s.queue[i := q.(rx := q.rx.(data := q.rx.data + f.body[..n - HEADER]))])
      else
        s1.(incoming := f.Bytes()[..n], queue := s.queue[i := q])
  }

  /** The state after n bytes of a stream of packets, whatever the reads were. */
  function StateAt(s: Server, fs: seq<Frame>, n: nat): Server
    requires forall f :: f in fs ==> f.Ok()
    decreases |fs|
  {
    if fs == [] then s
    else if n < |fs[0].Bytes()| then (if n == 0 then s else Partial(s, fs[0], n))
    else StateAt(Deliver(s, fs[0]), fs[1..], n - |fs[0].Bytes()|)
  }

  // ---------------------------------------------------------------- one read inside a packet

  lemma SameHeader(h: seq<byte>, more: seq<byte>)
    requires |h| == HEADER
    ensures |h + more| >= HEADER
    ensures Flags(h + more) == Flags(h) && Command(h + more) == Command(h) && RequestId(h + more) == RequestId(h)
    ensures ErrorCode(h + more) == ErrorCode(h) && Length(h + more) == Length(h)
  {
    var b := h + more;
    assert b[2..4] == h[2..4] && b[4..8] == h[4..8] && b[8..12] == h[8..12];
  }

  /** How much of the packet f a single read may bring when n bytes of it are in: no more than dsi_recv
      asks for, and nothing from behind the packet. */
  predicate Arrives(f: Frame, n: nat, chunk: seq<byte>)
    requires f.Ok()
  {
    && 0 < |chunk| && n + |chunk| <= |f.Bytes()| && chunk == f.Bytes()[n..n + |chunk|]
    && (n < HEADER ==> n + |chunk| <= HEADER)
  }

  lemma FindUpdated(q: seq<Request>, i: int, r: Request, id: nat)
    requires 0 <= i < |q| && r.requestid == q[i].requestid
    ensures Find(q[i := r], id) == Find(q, id)
  {
    var q' := q[i := r];
    assert forall k :: 0 <= k < |q| ==> q'[k].requestid == q[k].requestid;
    var a, b := Find(q, id), Find(q', id);
    if a >= 0 { assert q'[a].requestid == id; }
    if b >= 0 { assert q[b].requestid == id; }
  }

  lemma ReadInHeader(s: Server, f: Frame, n: nat, chunk: seq<byte>, bufsize: nat)
    requires s.incoming == [] && Takes(s.queue, f) && n < HEADER && Arrives(f, n, chunk)
    ensures var st := if n == 0 then s else Partial(s, f, n);
            var r := Recv(st, chunk);
            && |chunk| <= Want(st, bufsize) && InBounds(st, |chunk|, bufsize) && r.ret == 0
            && r.server == (if n + |chunk| == |f.Bytes()| then Deliver(s, f) else Partial(s, f, n + |chunk|))
            && r.runts == (if n + |chunk| == |f.Bytes()| && Find(s.queue, RequestId(f.header)) < 0 then 1 else 0)
  {
    hide Find, FromBE, Deliver, RecvBody, RecvEmpty, Signed32;
    var m := n + |chunk|;
    var st := if n == 0 then s else Partial(s, f, n);
    assert f.Bytes()[..m] == f.header[..m] == f.header[..n] + chunk;
    if m == HEADER {
      assert f.header[..m] == f.header;
      if f.body == [] {
        assert f.Bytes() == f.header;
        var s1 := st.(incoming := f.header, rxBytes := s.rxBytes + HEADER);
        assert Recv(st, chunk) == RecvEmpty(s1);
        EmptyIsDelivered(s, f);
      }
    }
  }

  lemma EmptyIsDelivered(s: Server, f: Frame)
    requires s.incoming == [] && f.Ok() && f.body == []
    requires Flags(f.header) == DSI_REPLY && KnownCommand(Command(f.header))
    ensures RecvEmpty(s.(incoming := f.header, rxBytes := s.rxBytes + HEADER)) ==
            Received(Deliver(s, f), 0, if Find(s.queue, RequestId(f.header)) < 0 then 1 else 0)
  {
    hide Find, FromBE, Signed32, RequestId, ErrorCode, KnownCommand, Leftover;
    assert f.Bytes() == f.header;
    var i := Find(s.queue, RequestId(f.header));
    if i >= 0 {
      var q := s.queue[i];
      assert q.rx.data + f.body == q.rx.data;
      assert q.rx.(data := q.rx.data) == q.rx;
    }
  }

  lemma ReadInBody(s: Server, f: Frame, n: nat, chunk: seq<byte>)
    requires s.incoming == [] && Takes(s.queue, f) && HEADER <= n < |f.Bytes()| && Arrives(f, n, chunk)
    ensures var r := Recv(Partial(s, f, n), chunk);
            && r.ret == 0
            && r.server == (if n + |chunk| == |f.Bytes()| then Deliver(s, f) else Partial(s, f, n + |chunk|))
            && r.runts == (if Find(s.queue, RequestId(f.header)) < 0 then 1 else 0)
  {
    var i := Find(s.queue, RequestId(f.header));
    assert f.header[..HEADER] == f.header;
    if i >= 0 && s.queue[i].IsRead() {
      ReadInReadBody(s, f, n, chunk, i);
    } else {
      ReadInOtherBody(s, f, n, chunk, i);
    }
  }

  /** The memory a read of body bytes needs: the body of a read's reply has its own; in the packet buffer
      bytes behind the bufsize-th run over its end. */
  lemma BodyBounds(s: Server, f: Frame, n: nat, chunk: seq<byte>, bufsize: nat)
    requires s.incoming == [] && Takes(s.queue, f) && HEADER <= n < |f.Bytes()| && Arrives(f, n, chunk)
    ensures var st := Partial(s, f, n);
            if ToBuffer(s.queue, f)
            then (|chunk| <= Want(st, bufsize) <==> |chunk| <= bufsize)
                 && (|chunk| <= bufsize ==> (InBounds(st, |chunk|, bufsize) <==> n + |chunk| <= bufsize))
            else |chunk| <= Want(st, bufsize) && InBounds(st, |chunk|, bufsize)
  {
    var i := Find(s.queue, RequestId(f.header));
    assert f.header[..HEADER] == f.header;
    if ToBuffer(s.queue, f) {
      ReadInOtherBody(s, f, n, chunk, i);
      PartialOther(s, f, n, i);
    } else {
      ReadInReadBody(s, f, n, chunk, i);
    }
  }

  /** The request of a read once n bytes of its reply are in. */
  function Filled(q: Request, f: Frame, n: nat): Request
    requires f.Ok() && HEADER <= n <= HEADER + |f.body|
  {
    if n == HEADER then q
    else q.(returnCode := ErrorCode(f.header), rx := q.rx.(data := q.rx.data + f.body[..n - HEADER]))
  }

  lemma PartialRead(s: Server, f: Frame, n: nat, i: int)
    requires s.incoming == [] && f.Ok() && HEADER <= n < |f.Bytes()|
    requires i == Find(s.queue, RequestId(f.header)) && i >= 0 && s.queue[i].IsRead()
    ensures Partial(s, f, n) ==
            s.(incoming := f.header, rxBytes := s.rxBytes + n, queue := s.queue[i := Filled(s.queue[i], f, n)])
    ensures Find(Partial(s, f, n).queue, RequestId(f.header)) == i
  {
    assert f.header[..HEADER] == f.header;
    assert s.queue[i := s.queue[i]] == s.queue;
    FindUpdated(s.queue, i, Filled(s.queue[i], f, n), RequestId(f.header));
  }

  lemma ReadInReadBody(s: Server, f: Frame, n: nat, chunk: seq<byte>, i: int)
    requires s.incoming == [] && f.Ok() && HEADER <= n < |f.Bytes()| && Arrives(f, n, chunk)
    requires i == Find(s.queue, RequestId(f.header)) && i >= 0 && s.queue[i].IsRead() && s.queue[i].rx.data == []
    ensures var st := Partial(s, f, n);
            && |st.incoming| == HEADER && Find(st.queue, RequestId(st.incoming)) == i && st.queue[i].IsRead()
            && st.queue[i].rx == s.queue[i].rx.(data := f.body[..n - HEADER]) && Length(st.incoming) == |f.body|
            && RecvBody(st, chunk) ==
               Received(if n + |chunk| == |f.Bytes()| then Deliver(s, f) else Partial(s, f, n + |chunk|), 0, 0)
  {
    hide Find, Partial, FromBE, Signed32;
    var m := n + |chunk|;
    var q := s.queue[i];
    PartialRead(s, f, n, i);
    assert q.rx.(data := []) == q.rx && f.body[..0] == [];
    assert f.body[..m - HEADER] == f.body[..n - HEADER] + chunk;
    var st := Partial(s, f, n);
    var x := Filled(q, f, n).(returnCode := ErrorCode(f.header));
    assert x.(rx := x.rx.(data := x.rx.data + chunk)) == Filled(q, f, m);
    assert st.queue[i := x][i := Filled(q, f, m)] == s.queue[i := Filled(q, f, m)];
    if m == |f.Bytes()| {
      assert f.body[..m - HEADER] == f.body;
    } else {
      PartialRead(s, f, m, i);
    }
  }

  lemma PartialOther(s: Server, f: Frame, n: nat, i: int)
    requires s.incoming == [] && f.Ok() && HEADER <= n < |f.Bytes()|
    requires i == Find(s.queue, RequestId(f.header)) && (i < 0 || !s.queue[i].IsRead())
    ensures var st := Partial(s, f, n);
            && st.incoming == f.Bytes()[..n] && |st.incoming| == n && st.rxBytes == s.rxBytes + n
            && Flags(st.incoming) == Flags(f.header) && Command(st.incoming) == Command(f.header)
            && RequestId(st.incoming) == RequestId(f.header) && Length(st.incoming) == |f.body|
            && ErrorCode(st.incoming) == ErrorCode(f.header)
            && Find(st.queue, RequestId(f.header)) == i && (i < 0 || !st.queue[i].IsRead())
            && SetCode(st, i, ErrorCode(f.header)).queue == SetCode(s, i, ErrorCode(f.header)).queue
            && st == (if n == HEADER then s else SetCode(s, i, ErrorCode(f.header)))
                     .(incoming := f.Bytes()[..n], rxBytes := s.rxBytes + n)
  {
    assert f.header[..HEADER] == f.header;
    assert f.Bytes()[..n] == f.header + f.body[..n - HEADER];
    SameHeader(f.header, f.body[..n - HEADER]);
    if i >= 0 {
      FindUpdated(s.queue, i, s.queue[i].(returnCode := ErrorCode(f.header)), RequestId(f.header));
    }
  }

  lemma ReadInOtherBody(s: Server, f: Frame, n: nat, chunk: seq<byte>, i: int)
    requires s.incoming == [] && f.Ok() && HEADER <= n < |f.Bytes()| && Arrives(f, n, chunk)
    requires Flags(f.header) == DSI_REPLY && KnownCommand(Command(f.header))
    requires i == Find(s.queue, RequestId(f.header)) && (i < 0 || !s.queue[i].IsRead())
    ensures var st := Partial(s, f, n);
            && |st.incoming| >= HEADER && RequestId(st.incoming) == RequestId(f.header)
            && Find(st.queue, RequestId(st.incoming)) == i && (i < 0 || !st.queue[i].IsRead())
            && Length(st.incoming) == |f.body|
            && RecvBody(st, chunk) ==
               Received(if n + |chunk| == |f.Bytes()| then Deliver(s, f) else Partial(s, f, n + |chunk|),
                        0, if i < 0 then 1 else 0)
  {
    hide Find, Partial, FromBE, Signed32;
    var m := n + |chunk|;
    PartialOther(s, f, n, i);
    assert f.Bytes()[..m] == f.Bytes()[..n] + chunk;
    if m < |f.Bytes()| {
      PartialOther(s, f, m, i);
    } else {
      assert f.Bytes()[..m] == f.Bytes();
      SameHeader(f.header, f.body);
      assert i >= 0 ==>
               s.queue[i].(returnCode := ErrorCode(f.header)) ==
               s.queue[i].(returnCode := ErrorCode(f.header), rx := s.queue[i].rx);
    }
  }

  // ---------------------------------------------------------------- whole streams, any cut

  function Total(chunks: seq<seq<byte>>): nat {
    if chunks == [] then 0 else Total(chunks[..|chunks| - 1]) + |chunks[|chunks| - 1]|
  }

  /** A read may bring chunk next when n bytes of the stream are in. */
  predicate ArrivesAt(fs: seq<Frame>, n: nat, chunk: seq<byte>)
    requires forall f :: f in fs ==> f.Ok()
    decreases |fs|
  {
    fs != [] &&
    if n < |fs[0].Bytes()| then Arrives(fs[0], n, chunk) else ArrivesAt(fs[1..], n - |fs[0].Bytes()|, chunk)
  }

  /** A way for the stream, or a beginning of it, to come in. */
  predicate Schedule(fs: seq<Frame>, chunks: seq<seq<byte>>)
    requires forall f :: f in fs ==> f.Ok()
  {
    chunks == [] || (Schedule(fs, chunks[..|chunks| - 1])
                     && ArrivesAt(fs, Total(chunks[..|chunks| - 1]), chunks[|chunks| - 1]))
  }

  function DeliverAll(s: Server, fs: seq<Frame>): Server
    requires forall f :: f in fs ==> f.Ok()
    decreases |fs|
  {
    if fs == [] then s else DeliverAll(Deliver(s, fs[0]), fs[1..])
  }

  lemma DeliverKeepsBuffer(s: Server, f: Frame)
    requires f.Ok()
    ensures Deliver(s, f).incoming == s.incoming
  {
  }

  lemma StateAtStart(s: Server, fs: seq<Frame>)
    requires forall f :: f in fs ==> f.Ok()
    ensures StateAt(s, fs, 0) == s
  {
    if fs != [] { assert fs[0].Ok(); }
  }

  lemma {:induction false} OneRead(s: Server, fs: seq<Frame>, n: nat, chunk: seq<byte>, bufsize: nat)
    requires s.incoming == [] && AllFit(s, fs, bufsize) && (forall f :: f in fs ==> f.Ok()) && ArrivesAt(fs, n, chunk)
    ensures var st := StateAt(s, fs, n);
            && |chunk| <= Want(st, bufsize) && InBounds(st, |chunk|, bufsize)
            && Recv(st, chunk).ret == 0 && Recv(st, chunk).server == StateAt(s, fs, n + |chunk|)
    decreases |fs|
  {
    hide Recv, Want, Partial, Deliver, Takes, ToBuffer, InBounds;
    var f := fs[0];
    if n >= |f.Bytes()| {
      DeliverKeepsBuffer(s, f);
      OneRead(Deliver(s, f), fs[1..], n - |f.Bytes()|, chunk, bufsize);
    } else {
      if n < HEADER {
        ReadInHeader(s, f, n, chunk, bufsize);
      } else {
        ReadInBody(s, f, n, chunk);
        BodyBounds(s, f, n, chunk, bufsize);
      }
      if n + |chunk| == |f.Bytes()| {
        StateAtStart(Deliver(s, f), fs[1..]);
      }
    }
  }

  /**
    Deframing does not depend on how the stream is cut: after any sequence of reads the client is in the
    state that the number of bytes received determines, it has reported no error, and it has never been
    brought more than it asked for or than its buffer holds.
   */
  lemma {:induction false} DeframingIndependentOfChunking(
    s: Server, fs: seq<Frame>, chunks: seq<seq<byte>>, bufsize: nat)
    requires s.incoming == [] && AllFit(s, fs, bufsize) && (forall f :: f in fs ==> f.Ok()) && Schedule(fs, chunks)
    ensures RecvAll(s, chunks).ret == 0 && RecvAll(s, chunks).server == StateAt(s, fs, Total(chunks))
    ensures chunks != [] ==>
              var st, last := RecvAll(s, chunks[..|chunks| - 1]).server, |chunks[|chunks| - 1]|;
              last <= Want(st, bufsize) && InBounds(st, last, bufsize)
    decreases |chunks|
  {
    hide Recv, AllFit, ArrivesAt, Want, StateAt, InBounds;
    if chunks == [] {
      StateAtStart(s, fs);
    } else {
      var init := chunks[..|chunks| - 1];
      DeframingIndependentOfChunking(s, fs, init, bufsize);
      OneRead(s, fs, Total(init), chunks[|chunks| - 1], bufsize);
    }
  }

  function StreamLength(fs: seq<Frame>): nat {
    if fs == [] then 0 else |fs[0].Bytes()| + StreamLength(fs[1..])
  }

  /** At the end of the first packets the buffer is empty and exactly those packets are dealt with. */
  lemma {:induction false} FrameBoundary(s: Server, fs: seq<Frame>, k: nat)
    requires s.incoming == [] && k <= |fs| && (forall f :: f in fs ==> f.Ok())
    ensures StateAt(s, fs, StreamLength(fs[..k])) == DeliverAll(s, fs[..k])
    ensures StateAt(s, fs, StreamLength(fs[..k])).incoming == []
    decreases k
  {
    hide Deliver, Partial;
    if k == 0 {
      StateAtStart(s, fs);
    } else {
      DeliverKeepsBuffer(s, fs[0]);
      assert fs[..k][1..] == fs[1..][..k - 1];
      FrameBoundary(Deliver(s, fs[0]), fs[1..], k - 1);
    }
  }

  /** Until its last byte is in, a packet wakes nobody and reaches no handler. */
  lemma NothingBeforeTheLastByte(s: Server, f: Frame, n: nat)
    requires s.incoming == [] && f.Ok() && 0 < n < |f.Bytes()|
    ensures var p := Partial(s, f, n);
            && p.handled == s.handled && |p.queue| == |s.queue| && p.requestsPending == s.requestsPending
            && 0 < |p.incoming|
            && forall k :: 0 <= k < |s.queue| ==>
                 p.queue[k].wait == s.queue[k].wait && p.queue[k].doneWaiting == s.queue[k].doneWaiting
  {
  }

  /** A complete packet with a command that dsi_recv does not know, unless it is a reply to a read or to nobody,
      makes it fail, and the packet stays in the buffer. */
  lemma UnknownCommandFails(s: Server, chunk: seq<byte>)
    requires |s.incoming| >= 16 && |s.incoming + chunk| >= 16 + Length(s.incoming)
    requires s.incoming[1] !in {1, 2, 3, 4, 5, 6, 8}
    requires var i := Find(s.queue, RequestId(s.incoming));
             if i < 0 then s.incoming[0] != 1 else s.queue[i].subcommand !in {27, 60}
    ensures Recv(s, chunk).ret == -1 && Recv(s, chunk).server.incoming == s.incoming + chunk
    ensures |Recv(s, chunk).server.queue| == |s.queue| && Recv(s, chunk).server.handled == s.handled
  {
    hide Find, FromBE, Signed32;
    var b := s.incoming + chunk;
    assert b[2..4] == s.incoming[2..4] && b[8..12] == s.incoming[8..12];
  }

  lemma LeftoverAt(buf: seq<byte>, length: nat)
    requires |buf| > length + HEADER
    ensures var rest := Leftover(buf, length);
            && |rest| == length + 16
            && forall k :: 0 <= k < |rest| ==> rest[k] == buf[if k < |buf| - |rest| then length + k else k]
  {
  }

  /** A read that reaches behind a packet that is not a read's reply breaks the framing: data_read ends
      up as the packet's own size instead of 0, and the bytes in front are a copy from offset length on, of
      which the first 16 belong to the packet. Together with OneRead this is exact: the buffer is empty
      after the packet's last read if and only if that read brings nothing from behind the packet. */
  lemma OverreadIff(s: Server, chunk: seq<byte>)
    requires |s.incoming| >= HEADER
    requires var i := Find(s.queue, RequestId(s.incoming)); i < 0 || !s.queue[i].IsRead()
    requires KnownCommand(Command(s.incoming))
    requires |s.incoming + chunk| >= HEADER + Length(s.incoming)
    ensures Recv(s, chunk).server.incoming == [] <==> |s.incoming + chunk| == HEADER + Length(s.incoming)
    ensures var b, rest, length := s.incoming + chunk, Recv(s, chunk).server.incoming, Length(s.incoming);
            |b| > 16 + length ==>
              && |rest| == 16 + length
              && forall k :: 0 <= k < |rest| ==> rest[k] == b[if k < |b| - |rest| then length + k else k]
  {
    hide Recv, Leftover, Find, Length, RequestId, Command, KnownCommand;
    AfterLastRead(s, chunk);
    var b := s.incoming + chunk;
    if |b| > HEADER + Length(s.incoming) { LeftoverAt(b, Length(s.incoming)); }
  }

  lemma AfterLastRead(s: Server, chunk: seq<byte>)
    requires |s.incoming| >= HEADER
    requires var i := Find(s.queue, RequestId(s.incoming)); i < 0 || !s.queue[i].IsRead()
    requires KnownCommand(Command(s.incoming))
    requires |s.incoming + chunk| >= HEADER + Length(s.incoming)
    ensures var b, length := s.incoming + chunk, Length(s.incoming);
            Recv(s, chunk).server.incoming == if |b| == HEADER + length then [] else Leftover(b, length)
  {
    hide Find, FromBE, Signed32, Leftover, KnownCommand;
    var b := s.incoming + chunk;
    assert b[2..4] == s.incoming[2..4] && b[8..12] == s.incoming[8..12];
  }

  // ---------------------------------------------------------------- every request is answered once

  predicate DistinctIds(q: seq<Request>) {
    forall j, k :: 0 <= j < k < |q| ==> q[j].requestid != q[k].requestid
  }

  /** Replies to queued requests, one each, whether or not somebody waits for them. */
  predicate OneReplyEach(q: seq<Request>, fs: seq<Frame>) {
    && (forall f :: f in fs ==> f.Ok())
    && (forall j, k :: 0 <= j < k < |fs| ==>
          fs[j].Ok() && fs[k].Ok() && RequestId(fs[j].header) != RequestId(fs[k].header))
    && (forall f :: f in fs ==> Find(q, RequestId(f.header)) >= 0)
  }

  /** The request r after the replies fs, one of which may be its own. */
  function Answered(r: Request, fs: seq<Frame>): Request
    requires forall f :: f in fs ==> f.Ok()
  {
    if fs == [] then r
    else if assert fs[0].Ok(); RequestId(fs[0].header) == r.requestid then
      r.(wait := 0, doneWaiting := true, returnCode := ErrorCode(fs[0].header),
         rx := if r.IsRead() then r.rx.(data := r.rx.data + fs[0].body) else r.rx)
    else Answered(r, fs[1..])
  }

  predicate HasReply(r: Request, fs: seq<Frame>)
    requires forall f :: f in fs ==> f.Ok()
  {
    exists f :: f in fs && f.Ok() && RequestId(f.header) == r.requestid
  }

  /** What is left of one request. */
  function Rest(r: Request, fs: seq<Frame>): seq<Request>
    requires forall f :: f in fs ==> f.Ok()
  {
    if r.wait == 0 && HasReply(r, fs) then [] else [Answered(r, fs)]
  }

  /** The queue after the replies fs: waiting senders have their answers, a request nobody waits for is gone
      once its reply is in, and the order is as before. */
  function Settled(q: seq<Request>, fs: seq<Frame>): seq<Request>
    requires forall f :: f in fs ==> f.Ok()
  {
    if q == [] then []
    else Rest(q[0], fs) + Settled(q[1..], fs)
  }

  /** The packets that go to a reply handler: all but the replies to reads and to requests without a
      subcommand. */
  function PassedOn(q: seq<Request>, fs: seq<Frame>): seq<seq<byte>>
    requires forall f :: f in fs ==> f.Ok()
  {
    if fs == [] then []
    else
      assert fs[0].Ok();
      var i := Find(q, RequestId(fs[0].header));
      (if i >= 0 && (q[i].IsRead() || (q[i].subcommand == 0 && Command(fs[0].header) in {DSI_DSICommand, DSI_DSIWrite}))
       then [] else [fs[0].Bytes()]) + PassedOn(q, fs[1..])
  }

  /** The queue without its element i. */
  function Without(q: seq<Request>, i: nat): (r: seq<Request>)
    requires i < |q|
    ensures |r| == |q| - 1 && forall k :: 0 <= k < |r| ==> r[k] == q[if k < i then k else k + 1]
  {
    q[..i] + q[i + 1..]
  }

  /** One reply changes its own request, or takes it out of the queue when nobody waits for it. */
  lemma DeliverToQueued(s: Server, f: Frame, i: int)
    requires f.Ok() && i == Find(s.queue, RequestId(f.header)) && i >= 0
    ensures var d := Deliver(s, f);
            && d.queue ==
               (if s.queue[i].wait != 0 then s.queue[i := Answered(s.queue[i], [f])] else Without(s.queue, i))
            && d.requestsPending - |d.queue| == s.requestsPending - |s.queue|
            && d.handled == s.handled + PassedOn(s.queue, [f])
            && d.incoming == s.incoming && d.rxBytes == s.rxBytes + |f.Bytes()|
            && d.lastRequestId == s.lastRequestId && d.issued == s.issued
  {
    hide Find, ErrorCode;
    SameHeader(f.header, f.body);
    var q := s.queue[i];
    var answered := q.(returnCode := ErrorCode(f.header),
                       rx := if q.IsRead() then q.rx.(data := q.rx.data + f.body) else q.rx);
    var u := s.queue[i := answered];
    assert u[i := answered.(wait := 0, doneWaiting := true)] == s.queue[i := answered.(wait := 0, doneWaiting := true)];
    assert u[..i] + u[i + 1..] == Without(s.queue, i);
  }

  /** Requests with other ids are found as before, wherever they now stand. */
  lemma FindWithout(q: seq<Request>, i: nat, id: nat)
    requires i < |q| && q[i].requestid != id
    ensures var a, b := Find(q, id), Find(Without(q, i), id);
            (a < 0 <==> b < 0) && (a >= 0 ==> Without(q, i)[b] == q[a])
  {
    hide Find;
    var a, b := Find(q, id), Find(Without(q, i), id);
    if a >= 0 { assert Without(q, i)[if a < i then a else a - 1] == q[a]; }
    if b >= 0 { assert q[if b < i then b else b + 1] == Without(q, i)[b]; }
  }

  /** The requests that the replies fs belong to are the same in both queues. */
  ghost predicate SameTargets(q: seq<Request>, q': seq<Request>, fs: seq<Frame>) {
    forall f :: f in fs ==>
      f.Ok() &&
      var i, j := Find(q, RequestId(f.header)), Find(q', RequestId(f.header)); i >= 0 && j >= 0 && q[i] == q'[j]
  }

  lemma {:induction false} PassedOnSameTargets(q: seq<Request>, q': seq<Request>, fs: seq<Frame>)
    requires (forall f :: f in fs ==> f.Ok()) && SameTargets(q, q', fs)
    ensures PassedOn(q, fs) == PassedOn(q', fs)
  {
    if fs != [] {
      hide Find;
      assert fs[0].Ok();
      PassedOnSameTargets(q, q', fs[1..]);
    }
  }

  lemma {:induction false} NotAnswered(r: Request, fs: seq<Frame>)
    requires forall f :: f in fs ==> f.Ok() && RequestId(f.header) != r.requestid
    ensures Answered(r, fs) == r
  {
    if fs != [] {
      NotAnswered(r, fs[1..]);
    }
  }

  /** One reply does not touch the request that another one belongs to. */
  lemma OtherTarget(q: seq<Request>, i: nat, g: Frame, f: Frame, bufsize: nat)
    requires g.Ok() && i < |q| && q[i].requestid == RequestId(g.header) && Fits(q, f, bufsize)
    requires RequestId(f.header) != RequestId(g.header) && Find(q, RequestId(f.header)) >= 0
    ensures var d := if q[i].wait != 0 then q[i := Answered(q[i], [g])] else Without(q, i);
            var a, b := Find(q, RequestId(f.header)), Find(d, RequestId(f.header));
            b >= 0 && q[a] == d[b] && Fits(d, f, bufsize)
  {
    hide Find, RequestId, Flags, Command, Answered;
    if q[i].wait != 0 {
      AnsweredKeepsId(q[i], g);
      FindUpdated(q, i, Answered(q[i], [g]), RequestId(f.header));
    } else {
      FindWithout(q, i, RequestId(f.header));
    }
  }

  lemma StillDistinct(q: seq<Request>, i: nat, g: Frame)
    requires DistinctIds(q) && g.Ok() && i < |q|
    ensures DistinctIds(if q[i].wait != 0 then q[i := Answered(q[i], [g])] else Without(q, i))
  {
    hide Answered;
    AnsweredKeepsId(q[i], g);
  }

  /** One reply of several leaves the other requests as they were, and the rest of the replies theirs. */
  lemma RestAfterOne(s: Server, fs: seq<Frame>, bufsize: nat)
    requires fs != [] && DistinctIds(s.queue) && OneReplyEach(s.queue, fs)
    requires forall f :: f in fs ==> Fits(s.queue, f, bufsize)
    ensures fs[0].Ok() && Find(s.queue, RequestId(fs[0].header)) >= 0
    ensures var d := Deliver(s, fs[0]);
            && DistinctIds(d.queue) && OneReplyEach(d.queue, fs[1..])
            && (forall f :: f in fs[1..] ==> Fits(d.queue, f, bufsize))
            && SameTargets(s.queue, d.queue, fs[1..])
  {
    hide Find, Deliver, RequestId, Flags, Command, Answered, Fits, DistinctIds, Without;
    OtherIds(s.queue, fs);
    assert fs[0] in fs && fs[0].Ok();
    var i := Find(s.queue, RequestId(fs[0].header));
    DeliverToQueued(s, fs[0], i);
    var d := Deliver(s, fs[0]);
    StillDistinct(s.queue, i, fs[0]);
    forall f | f in fs[1..]
      ensures f.Ok() && Fits(d.queue, f, bufsize)
      ensures var a, b := Find(s.queue, RequestId(f.header)), Find(d.queue, RequestId(f.header));
              a >= 0 && b >= 0 && s.queue[a] == d.queue[b]
    {
      assert f in fs;
      OtherTarget(s.queue, i, fs[0], f, bufsize);
    }
    forall j, k | 0 <= j < k < |fs[1..]|
      ensures fs[1..][j].Ok() && fs[1..][k].Ok() && RequestId(fs[1..][j].header) != RequestId(fs[1..][k].header)
    {
      assert fs[1..][j] == fs[j + 1] && fs[1..][k] == fs[k + 1];
    }
  }

  lemma AnsweredKeepsId(r: Request, f: Frame)
    requires f.Ok()
    ensures Answered(r, [f]).requestid == r.requestid && Answered(r, [f]).subcommand == r.subcommand
  {
  }

  lemma {:induction false} RepliesFit(s: Server, fs: seq<Frame>, bufsize: nat)
    requires DistinctIds(s.queue) && OneReplyEach(s.queue, fs)
    requires forall f :: f in fs ==> Fits(s.queue, f, bufsize)
    ensures AllFit(s, fs, bufsize)
    decreases |fs|
  {
    if fs != [] {
      hide Find, Deliver, Fits, SameTargets;
      RestAfterOne(s, fs, bufsize);
      assert fs[0] in fs;
      RepliesFit(Deliver(s, fs[0]), fs[1..], bufsize);
    }
  }

  lemma PassedOnCons(q: seq<Request>, fs: seq<Frame>)
    requires fs != [] && forall f :: f in fs ==> f.Ok()
    ensures fs[0].Ok() && PassedOn(q, fs) == PassedOn(q, [fs[0]]) + PassedOn(q, fs[1..])
  {
    hide Find;
    assert fs[0].Ok();
    assert [fs[0]][1..] == [] && PassedOn(q, []) == [];
  }

  lemma {:induction false} RepliesHandled(s: Server, fs: seq<Frame>, bufsize: nat)
    requires DistinctIds(s.queue) && OneReplyEach(s.queue, fs)
    requires forall f :: f in fs ==> Fits(s.queue, f, bufsize)
    ensures DeliverAll(s, fs).handled == s.handled + PassedOn(s.queue, fs)
    decreases |fs|
  {
    if fs != [] {
      hide Find, Deliver, Fits, PassedOn, OneReplyEach, DistinctIds, RequestId, SameTargets;
      RestAfterOne(s, fs, bufsize);
      RepliesHandled(Deliver(s, fs[0]), fs[1..], bufsize);
      PassedOnByOne(s, Deliver(s, fs[0]), fs);
    }
  }

  lemma {:induction false} PassedOnByOne(s: Server, d: Server, fs: seq<Frame>)
    requires fs != [] && (forall f :: f in fs ==> f.Ok())
    requires fs[0].Ok() && Find(s.queue, RequestId(fs[0].header)) >= 0 && d == Deliver(s, fs[0])
    requires SameTargets(s.queue, d.queue, fs[1..])
    ensures d.handled + PassedOn(d.queue, fs[1..]) == s.handled + PassedOn(s.queue, fs)
  {
    hide Find, Deliver, PassedOn, RequestId, Answered, SameTargets, Without;
    var one, rest := PassedOn(s.queue, [fs[0]]), PassedOn(s.queue, fs[1..]);
    DeliverToQueued(s, fs[0], Find(s.queue, RequestId(fs[0].header)));
    PassedOnSameTargets(s.queue, d.queue, fs[1..]);
    PassedOnCons(s.queue, fs);
    assert (s.handled + one) + rest == s.handled + (one + rest);
  }

  lemma {:induction false} RepliesCounted(s: Server, fs: seq<Frame>, bufsize: nat)
    requires DistinctIds(s.queue) && OneReplyEach(s.queue, fs)
    requires forall f :: f in fs ==> Fits(s.queue, f, bufsize)
    ensures DeliverAll(s, fs).requestsPending - |DeliverAll(s, fs).queue| == s.requestsPending - |s.queue|
    ensures DeliverAll(s, fs).rxBytes == s.rxBytes + StreamLength(fs)
    decreases |fs|
  {
    if fs != [] {
      hide Find, Deliver, Fits, PassedOn, OneReplyEach, DistinctIds, RequestId, Length, Answered, SameTargets;
      RestAfterOne(s, fs, bufsize);
      DeliverToQueued(s, fs[0], Find(s.queue, RequestId(fs[0].header)));
      RepliesCounted(Deliver(s, fs[0]), fs[1..], bufsize);
    }
  }

  lemma RestOfOne(r: Request, f: Frame)
    requires f.Ok()
    ensures Rest(r, [f]) == if RequestId(f.header) != r.requestid then [r]
                            else if r.wait == 0 then [] else [Answered(r, [f])]
  {
    hide RequestId, ErrorCode;
    assert f in [f] && [f][1..] == [];
    if RequestId(f.header) != r.requestid { NotAnswered(r, [f]); }
  }

  lemma {:induction false} SettledByOther(q: seq<Request>, f: Frame)
    requires f.Ok() && forall k :: 0 <= k < |q| ==> q[k].requestid != RequestId(f.header)
    ensures Settled(q, [f]) == q
    decreases |q|
  {
    if q != [] {
      hide RequestId, Rest;
      RestOfOne(q[0], f);
      SettledByOther(q[1..], f);
    }
  }

  lemma InTail(q: seq<Request>, id: nat, i: nat)
    requires DistinctIds(q) && i == Find(q, id) && i < |q|
    ensures DistinctIds(q[1..])
    ensures i > 0 ==> q[0].requestid != id && Find(q[1..], id) == i - 1
    ensures i == 0 ==> forall k :: 0 <= k < |q[1..]| ==> q[1..][k].requestid != id
    ensures i == 0 ==> Without(q, 0) == q[1..]
  {
  }

  /** After one reply the queue is settled with it. */
  lemma {:induction false} SettledByOne(q: seq<Request>, f: Frame, i: int)
    requires f.Ok() && DistinctIds(q) && i == Find(q, RequestId(f.header))
    ensures i < 0 ==> Settled(q, [f]) == q
    ensures i >= 0 && q[i].wait != 0 ==> Settled(q, [f]) == q[i := Answered(q[i], [f])]
    ensures i >= 0 && q[i].wait == 0 ==> Settled(q, [f]) == Without(q, i)
    decreases |q|
  {
    hide RequestId, Rest, Answered, Find, DistinctIds, Without;
    if i < 0 {
      SettledByOther(q, f);
    } else {
      RestOfOne(q[0], f);
      InTail(q, RequestId(f.header), i);
      if i == 0 {
        SettledByOther(q[1..], f);
      } else {
        SettledByOne(q[1..], f, i - 1);
        TailUpdated(q, i, Answered(q[i], [f]));
      }
    }
  }

  lemma TailUpdated(q: seq<Request>, i: nat, r: Request)
    requires 0 < i < |q|
    ensures [q[0]] + Without(q[1..], i - 1) == Without(q, i)
    ensures [q[0]] + q[1..][i - 1 := r] == q[i := r]
  {
  }

  lemma RestByMore(r: Request, fs: seq<Frame>)
    requires fs != [] && (forall f :: f in fs ==> f.Ok())
    requires forall f :: f in fs[1..] ==> f.Ok() && fs[0].Ok() && RequestId(f.header) != RequestId(fs[0].header)
    ensures fs[0].Ok()
    ensures var one := Rest(r, [fs[0]]); if one == [] then Rest(r, fs) == [] else Rest(one[0], fs[1..]) == Rest(r, fs)
  {
    hide RequestId, ErrorCode;
    assert fs[0] in fs && fs[0].Ok();
    var one := [fs[0]];
    assert fs == one + fs[1..] && fs[0] in one;
    if RequestId(fs[0].header) == r.requestid {
      NotAnswered(Answered(r, one), fs[1..]);
    } else {
      NotAnswered(r, one);
    }
  }

  /** Settling with one reply and then with the others is settling with all. */
  lemma {:induction false} SettledByMore(q: seq<Request>, fs: seq<Frame>)
    requires fs != [] && (forall f :: f in fs ==> f.Ok())
    requires forall f :: f in fs[1..] ==> f.Ok() && fs[0].Ok() && RequestId(f.header) != RequestId(fs[0].header)
    ensures fs[0].Ok() && Settled(Settled(q, [fs[0]]), fs[1..]) == Settled(q, fs)
    decreases |q|
  {
    assert fs[0] in fs && fs[0].Ok();
    if q != [] {
      hide RequestId, Rest;
      SettledByMore(q[1..], fs);
      RestByMore(q[0], fs);
      var one, tail := Rest(q[0], [fs[0]]), Settled(q[1..], [fs[0]]);
      if one == [] { assert one + tail == tail; } else { assert (one + tail)[1..] == tail; }
    }
  }

  lemma {:induction false} RepliesSettle(s: Server, fs: seq<Frame>, bufsize: nat)
    requires DistinctIds(s.queue) && OneReplyEach(s.queue, fs)
    requires forall f :: f in fs ==> Fits(s.queue, f, bufsize)
    ensures DeliverAll(s, fs).queue == Settled(s.queue, fs)
    decreases |fs|
  {
    if fs == [] {
      SettledByNone(s.queue);
    } else {
      hide Find, Deliver, Fits, Answered, PassedOn, RequestId, Length, Settled, SameTargets, OneReplyEach, DistinctIds;
      RestAfterOne(s, fs, bufsize);
      DeliverToQueued(s, fs[0], Find(s.queue, RequestId(fs[0].header)));
      RepliesSettle(Deliver(s, fs[0]), fs[1..], bufsize);
      SettledByOne(s.queue, fs[0], Find(s.queue, RequestId(fs[0].header)));
      OtherIds(s.queue, fs);
      SettledByMore(s.queue, fs);
    }
  }

  lemma OtherIds(q: seq<Request>, fs: seq<Frame>)
    requires OneReplyEach(q, fs) && fs != []
    ensures forall f :: f in fs ==> f.Ok()
    ensures forall f :: f in fs[1..] ==> f.Ok() && fs[0].Ok() && RequestId(f.header) != RequestId(fs[0].header)
  {
    hide Find, RequestId;
    forall f | f in fs[1..] ensures f.Ok() && fs[0].Ok() && RequestId(f.header) != RequestId(fs[0].header) {
      var j :| 0 <= j < |fs[1..]| && fs[1..][j] == f;
      assert fs[j + 1] == f;
    }
  }

  lemma {:induction false} SettledByNone(q: seq<Request>)
    ensures Settled(q, []) == q
  {
    if q != [] { SettledByNone(q[1..]); }
  }

  /**
    The whole transport: replies to queued requests, one each and none too large, cut into reads in any
    way. Every waiting request that has a reply is completed by it, once, with its return code and, for a
    read, with exactly the body in its buffer; a request nobody waits for leaves the queue with its reply;
    every other reply goes to a handler as the packet that was sent; nothing is left over.
   */
  lemma EveryReplyReachesItsRequest(s: Server, fs: seq<Frame>, chunks: seq<seq<byte>>, bufsize: nat)
    requires s.incoming == [] && DistinctIds(s.queue) && OneReplyEach(s.queue, fs)
    requires forall f :: f in fs ==> Fits(s.queue, f, bufsize)
    requires Schedule(fs, chunks) && Total(chunks) == StreamLength(fs)
    ensures var r := RecvAll(s, chunks);
            && r.ret == 0 && r.server.incoming == [] && r.server.queue == Settled(s.queue, fs)
            && r.server.requestsPending - |r.server.queue| == s.requestsPending - |s.queue|
            && r.server.handled == s.handled + PassedOn(s.queue, fs)
  {
    hide RecvAll, StateAt, Settled, PassedOn, Fits, Schedule, Total, Find, DeliverAll;
    RepliesFit(s, fs, bufsize);
    RepliesHandled(s, fs, bufsize);
    RepliesCounted(s, fs, bufsize);
    RepliesSettle(s, fs, bufsize);
    DeframingIndependentOfChunking(s, fs, chunks, bufsize);
    FrameBoundary(s, fs, |fs|);
    assert fs[..|fs|] == fs;
  }

  lemma {:induction false} AnsweredByOwn(r: Request, fs: seq<Frame>, k: nat)
    requires (forall f :: f in fs ==> f.Ok()) && k < |fs|
    requires forall i, j :: 0 <= i < j < |fs| ==>
               fs[i].Ok() && fs[j].Ok() && RequestId(fs[i].header) != RequestId(fs[j].header)
    requires fs[k].Ok() && RequestId(fs[k].header) == r.requestid
    ensures var a := Answered(r, fs);
            && a.issue == r.issue && a.doneWaiting && a.returnCode == ErrorCode(fs[k].header)
            && a.rx.data == if r.IsRead() then r.rx.data + fs[k].body else r.rx.data
    decreases |fs|
  {
    hide RequestId, ErrorCode;
    if k > 0 {
      assert fs[0].Ok();
      var rest := fs[1..];
      assert forall i :: 0 <= i < |rest| ==> rest[i] == fs[i + 1];
      AnsweredByOwn(r, rest, k - 1);
    }
  }

  lemma {:induction false} SettledHolds(q: seq<Request>, fs: seq<Frame>, j: nat)
    requires (forall f :: f in fs ==> f.Ok()) && j < |q| && q[j].wait != 0
    ensures Answered(q[j], fs) in Settled(q, fs)
    decreases |q|
  {
    hide Answered;
    if j > 0 { SettledHolds(q[1..], fs, j - 1); }
  }

  /**
    What a waiting sender gets, whatever the other replies are and however the stream is cut: its request is
    done, with the code that its reply was written with in the four bytes from the fifth of the header on,
    and if it is a read, with the reply's body.
   */
  lemma WaitingSenderGetsReply(s: Server, fs: seq<Frame>, chunks: seq<seq<byte>>, bufsize: nat, j: nat, k: nat,
                               command: byte, code: int, reserved: seq<byte>)
    requires s.incoming == [] && DistinctIds(s.queue) && OneReplyEach(s.queue, fs)
    requires forall f :: f in fs ==> Fits(s.queue, f, bufsize)
    requires Schedule(fs, chunks) && Total(chunks) == StreamLength(fs)
    requires j < |s.queue| && s.queue[j].wait != 0 && s.queue[j].requestid < 0x1_0000 && k < |fs|
    requires -0x8000_0000 <= code < 0x8000_0000 && |fs[k].body| < 0x1_0000_0000 && |reserved| == 4
    requires fs[k].header == HeaderOf(1, command, s.queue[j].requestid, code, |fs[k].body|, reserved)
    ensures exists r :: r in RecvAll(s, chunks).server.queue && r.issue == s.queue[j].issue && r.doneWaiting
                        && r.returnCode == code
                        && r.rx.data == if r.subcommand in {27, 60} then s.queue[j].rx.data + fs[k].body
                                        else s.queue[j].rx.data
  {
    hide RecvAll, Settled, Fits, Schedule, Total, Find, DistinctIds, RequestId, ErrorCode, Length, HeaderOf, Answered;
    EveryReplyReachesItsRequest(s, fs, chunks, bufsize);
    HeaderComesBack(1, command, s.queue[j].requestid, code, |fs[k].body|, reserved);
    AnsweredByOwn(s.queue[j], fs, k);
    AnsweredKeepsKind(s.queue[j], fs);
    SettledHolds(s.queue, fs, j);
  }

  lemma {:induction false} AnsweredKeepsKind(r: Request, fs: seq<Frame>)
    requires forall f :: f in fs ==> f.Ok()
    ensures Answered(r, fs).subcommand == r.subcommand
    decreases |fs|
  {
    hide RequestId, ErrorCode;
    if fs != [] {
      assert fs[0].Ok();
      AnsweredKeepsKind(r, fs[1..]);
    }
  }

  /** Which packets a reply handler sees, by the numbers on the wire. */
  lemma PassedOnNumbers(q: seq<Request>, f: Frame)
    requires f.Ok() && Find(q, RequestId(f.header)) >= 0
    ensures var r := q[Find(q, RequestId(f.header))];
            PassedOn(q, [f]) == if r.subcommand in {27, 60} || (r.subcommand == 0 && f.header[1] in {2, 6}) then []
                                else [f.Bytes()]
  {
    hide Find;
    assert [f][1..] == [] && PassedOn(q, []) == [];
  }
}
