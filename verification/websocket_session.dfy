/** The one-client session loop of src/websocket.cpp (`task`, `send_message`, `handle_frame`, `process_handshake`). */
module WebSocketSession {
  import opened Words
  import opened WebSocketFrame
  import opened WebSocketHandshake

  const RECV_BUFFER_SIZE: nat := 512
  const OP_TEXT: byte := 0x1

  /** What the server does to sockets, in order. `ok` is whether the call took the bytes. */
  datatype Event =
    | Accepted(fd: int)
    | Upgrade(fd: int, response: seq<byte>, ok: bool)
    | Frame(fd: int, bytes: seq<byte>)
    | Closed(fd: int)

  /** What the outside world answers during one turn of the loop. */
  datatype Turn = Turn(
    select: int,             // result of lwip_select on the listening or the client socket
    accepted: int,           // result of lwip_accept
    recvResult: int,         // result of lwip_recv when it is not positive
    received: seq<byte>,     // the bytes of a positive lwip_recv
    sendOk: bool,            // whether lwip_send took the handshake response
    queue: seq<seq<byte>>    // messages in the queue at the end of the turn, status included
  )

  // ----- What a log of events is allowed to look like -----

  /** The connection after a log: nobody, a client before its 101 response, or after it. */
  datatype Peer = Nobody | Opened(fd: nat) | Upgraded(fd: nat)

  datatype Outcome = Fine(peer: Peer) | Violation

  /** One event against the protocol: one live client, frames only after the 101 response and before
      the close. A close of a negative descriptor does nothing and is tolerated when nobody is connected. */
  function Judge(peer: Peer, e: Event): Outcome {
    match e
    case Accepted(fd) => if peer == Nobody && fd >= 0 then Fine(Opened(fd)) else Violation
    case Upgrade(fd, _, ok) =>
      if peer.Opened? && peer.fd == fd then Fine(if ok then Upgraded(fd) else peer) else Violation
    case Frame(fd, _) => if peer.Upgraded? && peer.fd == fd then Fine(peer) else Violation
    case Closed(fd) =>
      if peer != Nobody && peer.fd == fd then Fine(Nobody)
      else if peer == Nobody && fd < 0 then Fine(Nobody)
      else Violation
  }

  function Replay(log: seq<Event>): Outcome {
    if log == [] then Fine(Nobody)
    else
      match Replay(log[..|log| - 1])
      case Violation => Violation
      case Fine(peer) => Judge(peer, log[|log| - 1])
  }

  lemma ReplayMore(log: seq<Event>, peer: Peer, e: Event)
    requires Replay(log) == Fine(peer)
    ensures Replay(log + [e]) == Judge(peer, e)
  {
    assert (log + [e])[..|log|] == log;
  }

  /** The judgement of `events` from a given peer on. */
  function JudgeAll(peer: Peer, events: seq<Event>): Outcome
    decreases |events|
  {
    if events == [] then Fine(peer)
    else
      match Judge(peer, events[0])
      case Violation => Violation
      case Fine(next) => JudgeAll(next, events[1..])
  }

  lemma {:induction false} ReplayExtends(log: seq<Event>, peer: Peer, events: seq<Event>)
    requires Replay(log) == Fine(peer)
    ensures Replay(log + events) == JudgeAll(peer, events)
    decreases |events|
  {
    if events == [] {
      assert log + events == log;
    } else {
      var more := log + [events[0]];
      assert more[..|more| - 1] == log;
      assert log + events == more + events[1..];
      match Judge(peer, events[0])
      case Fine(next) => ReplayExtends(more, next, events[1..]);
      case Violation => ViolationStays(more, events[1..]);
    }
  }

  lemma {:induction false} ViolationStays(log: seq<Event>, events: seq<Event>)
    requires Replay(log) == Violation
    ensures Replay(log + events) == Violation
  {
    if events == [] {
      assert log + events == log;
    } else {
      ViolationStays(log, events[..|events| - 1]);
      assert (log + events)[..|log + events| - 1] == log + events[..|events| - 1];
    }
  }

  // ----- What one turn does, as a function of the connection and the world -----

  function FrameEvents(fd: int, action: Action): seq<Event> {
    match action
    case Pong => [Frame(fd, [0x8A, 0])]
    case CloseReply => [Frame(fd, [0x88, 0]), Closed(fd)]
    case _ => []
  }

  function HandshakeEvents(fd: int, reply: Option<seq<byte>>, sendOk: bool): seq<Event> {
    match reply
    case None => [Closed(fd)]
    case Some(response) =>
      if sendOk then [Upgrade(fd, response, true)] else [Upgrade(fd, response, false), Closed(fd)]
  }

  /** What the receive buffer of a turn asks for, before and after the upgrade. */
  function Reply(t: Turn): Option<seq<byte>>
    requires |t.received| <= RECV_BUFFER_SIZE
  {
    HandshakeReply(CString(ReceivedBuffer(t.received, RECV_BUFFER_SIZE)))
  }

  function Asked(t: Turn): Action
    requires |t.received| <= RECV_BUFFER_SIZE
    requires PayloadInBuffer(ReceivedBuffer(t.received, RECV_BUFFER_SIZE), |t.received|)
  {
    FrameAction(ReceivedBuffer(t.received, RECV_BUFFER_SIZE), |t.received|)
  }

  /** The events of the accept-or-serve part of a turn. */
  function Served(peer: Peer, t: Turn): seq<Event>
    requires AdmissibleTurn(peer, t)
  {
    if peer == Nobody then
      if t.select > 0 && t.accepted >= 0 then [Accepted(t.accepted)] else []
    else if t.select < 0 then [Closed(peer.fd)]
    else if t.select == 0 then []
    else if t.received == [] then [Closed(peer.fd), Closed(-1)]
    else if peer.Opened? then HandshakeEvents(peer.fd, Reply(t), t.sendOk)
    else FrameEvents(peer.fd, Asked(t))
  }

  /** The message handed to the application, if any. */
  function Deliveries(peer: Peer, t: Turn): seq<(byte, seq<byte>)>
    requires AdmissibleTurn(peer, t)
  {
    if peer.Upgraded? && t.select > 0 && t.received != [] then
      match Asked(t)
      case Deliver(op, payload) => [(op, payload)]
      case _ => []
    else []
  }

  /** The frames of the queued messages that fit, in order, for an upgraded client only. */
  function QueueFrames(peer: Peer, queue: seq<seq<byte>>): seq<Event> {
    if queue == [] || !peer.Upgraded? then []
    else
      var last := queue[|queue| - 1];
      QueueFrames(peer, queue[..|queue| - 1])
      + if |last| + 10 > SEND_BUFFER_SIZE then [] else [Frame(peer.fd, ServerFrame(OP_TEXT, last))]
  }

  lemma QueueStart(peer: Peer, queue: seq<seq<byte>>)
    ensures QueueFrames(peer, queue[..0]) == []
  {}

  lemma QueueOneMore(peer: Peer, queue: seq<seq<byte>>, i: nat)
    requires i < |queue|
    ensures QueueFrames(peer, queue[..i + 1])
            == QueueFrames(peer, queue[..i])
               + if !peer.Upgraded? || |queue[i]| + 10 > SEND_BUFFER_SIZE then []
                 else [Frame(peer.fd, ServerFrame(OP_TEXT, queue[i]))]
  {
    hide ServerFrame;
    assert queue[..i + 1][..i] == queue[..i];
  }

  lemma OneEvent(peer: Peer, e: Event)
    ensures JudgeAll(peer, [e]) == Judge(peer, e)
  {
    match Judge(peer, e)
    case Violation =>
    case Fine(next) => assert [e][1..] == [] && JudgeAll(next, []) == Fine(next);
  }

  lemma TwoEvents(peer: Peer, e: Event, f: Event)
    requires Judge(peer, e).Fine?
    ensures JudgeAll(peer, [e, f]) == Judge(Judge(peer, e).peer, f)
  {
    assert [e, f][1..] == [f];
    OneEvent(Judge(peer, e).peer, f);
  }

  /** A turn never breaks the protocol, from any connection. */
  lemma ServedIsLegal(peer: Peer, t: Turn)
    requires AdmissibleTurn(peer, t)
    ensures JudgeAll(peer, Served(peer, t)).Fine?
  {
    hide FrameAction, HandshakeReply, ReceivedBuffer, PayloadInBuffer, JudgeAll;
    if peer == Nobody {
      if t.select > 0 && t.accepted >= 0 {
        OneEvent(peer, Accepted(t.accepted));
      } else {
        NoEvent(peer);
      }
    } else if t.select < 0 {
      OneEvent(peer, Closed(peer.fd));
    } else if t.select == 0 {
      NoEvent(peer);
    } else if t.received == [] {
      TwoEvents(peer, Closed(peer.fd), Closed(-1));
    } else if peer.Opened? {
      HandshakeIsLegal(peer.fd, Reply(t), t.sendOk);
    } else {
      FrameIsLegal(peer.fd, Asked(t));
    }
  }

  lemma NoEvent(peer: Peer)
    ensures JudgeAll(peer, []) == Fine(peer)
  {}

  lemma HandshakeIsLegal(fd: nat, reply: Option<seq<byte>>, sendOk: bool)
    ensures JudgeAll(Opened(fd), HandshakeEvents(fd, reply, sendOk)).Fine?
  {
    hide JudgeAll;
    match reply
    case None => OneEvent(Opened(fd), Closed(fd));
    case Some(response) =>
      if sendOk {
        OneEvent(Opened(fd), Upgrade(fd, response, true));
      } else {
        TwoEvents(Opened(fd), Upgrade(fd, response, false), Closed(fd));
      }
  }

  lemma FrameIsLegal(fd: nat, action: Action)
    ensures JudgeAll(Upgraded(fd), FrameEvents(fd, action))
            == Fine(if action.CloseReply? then Nobody else Upgraded(fd))
  {
    hide JudgeAll;
    match action
    case Pong => OneEvent(Upgraded(fd), Frame(fd, [0x8A, 0]));
    case CloseReply => TwoEvents(Upgraded(fd), Frame(fd, [0x88, 0]), Closed(fd));
    case Ignore => NoEvent(Upgraded(fd));
    case Deliver(_, _) => NoEvent(Upgraded(fd));
  }

  lemma {:induction false} QueueIsLegal(peer: Peer, queue: seq<seq<byte>>)
    ensures JudgeAll(peer, QueueFrames(peer, queue)) == Fine(peer)
  {
    if queue != [] && peer.Upgraded? {
      var before, last := queue[..|queue| - 1], queue[|queue| - 1];
      QueueIsLegal(peer, before);
      if |last| + 10 <= SEND_BUFFER_SIZE {
        var e := Frame(peer.fd, ServerFrame(OP_TEXT, last));
        OneEvent(peer, e);
        JudgeAppend(peer, QueueFrames(peer, before), peer, [e]);
      } else {
        assert QueueFrames(peer, before) + [] == QueueFrames(peer, before);
      }
    }
  }

  lemma {:induction false} JudgeAppend(peer: Peer, first: seq<Event>, middle: Peer, second: seq<Event>)
    requires JudgeAll(peer, first) == Fine(middle)
    ensures JudgeAll(peer, first + second) == JudgeAll(middle, second)
    decreases |first|
  {
    if first == [] {
      assert first + second == second;
    } else {
      assert (first + second)[1..] == first[1..] + second;
      JudgeAppend(Judge(peer, first[0]).peer, first[1..], middle, second);
    }
  }

  /** Every turn is admissible for the connection the turns before it have left. */
  ghost predicate AdmissibleRun(turns: seq<Turn>)
    decreases |turns|, 0
  {
    turns == []
    || (AdmissibleRun(turns[..|turns| - 1])
        && AdmissibleTurn(RunOf(turns[..|turns| - 1]).0, turns[|turns| - 1]))
  }

  lemma {:induction false} AdmissiblePrefix(turns: seq<Turn>, n: nat)
    requires AdmissibleRun(turns) && n <= |turns|
    ensures AdmissibleRun(turns[..n])
  {
    if n == |turns| {
      assert turns[..n] == turns;
    } else {
      AdmissiblePrefix(turns[..|turns| - 1], n);
      assert turns[..|turns| - 1][..n] == turns[..n];
    }
  }

  /** The connection and the whole log after any number of turns. */
  function RunOf(turns: seq<Turn>): (r: (Peer, seq<Event>))
    requires AdmissibleRun(turns)
    decreases |turns|, 1
  {
    if turns == [] then (Nobody, [])
    else
      var (peer, log) := RunOf(turns[..|turns| - 1]);
      var t := turns[|turns| - 1];
      ServedIsLegal(peer, t);
      var next := JudgeAll(peer, Served(peer, t)).peer;
      (next, log + Served(peer, t) + QueueFrames(next, t.queue))
  }

  /** Safety over whole runs: the log of every run is legal and ends in the server's own view. */
  lemma {:induction false} RunIsLegal(turns: seq<Turn>)
    requires AdmissibleRun(turns)
    ensures Replay(RunOf(turns).1) == Fine(RunOf(turns).0)
  {
    if turns == [] {
    } else {
      RunIsLegal(turns[..|turns| - 1]);
      var (peer, log) := RunOf(turns[..|turns| - 1]);
      var t := turns[|turns| - 1];
      ServedIsLegal(peer, t);
      var next := JudgeAll(peer, Served(peer, t)).peer;
      ReplayExtends(log, peer, Served(peer, t));
      QueueIsLegal(next, t.queue);
      ReplayExtends(log + Served(peer, t), next, QueueFrames(next, t.queue));
    }
  }

  /** The frames and closes for a received frame, by its bits: a PING is answered with a PONG, a CLOSE
      with a CLOSE and the end of the connection, and nothing else with anything. */
  predicate FrameDone(msg: seq<byte>, length: int, log: seq<Event>, log': seq<Event>, fd: int, fd': int)
    requires length <= |msg|
  {
    if HeaderComplete(msg, length) && msg[0] % 0x10 == 0x9 then log' == log + [Frame(fd, [0x8A, 0])] && fd' == fd
    else if HeaderComplete(msg, length) && msg[0] % 0x10 == 0x8
    then log' == log + [Frame(fd, [0x88, 0]), Closed(fd)] && fd' == -1
    else log' == log && fd' == fd
  }

  /** What is delivered for it: the payload of a final data frame, with its opcode. */
  ghost predicate FrameDelivered(msg: seq<byte>, length: int, hasHandler: bool,
                                 was: seq<(byte, seq<byte>)>, now: seq<(byte, seq<byte>)>)
    requires length <= |msg| && |msg| >= 14
  {
    if hasHandler && HeaderComplete(msg, length) && msg[0] % 0x10 !in {0x8, 0x9, 0xA} && msg[0] >= 0x80
    then exists payload :: HasPayload(msg, payload) && now == was + [(msg[0] % 0x10, payload)]
    else now == was
  }

  /** The same for a turn: what an upgraded client's frame makes the server send, close and deliver. */
  lemma ServedByOpcode(fd: nat, t: Turn)
    requires AdmissibleTurn(Upgraded(fd), t) && t.select > 0 && t.received != []
    ensures var msg := ReceivedBuffer(t.received, RECV_BUFFER_SIZE);
            var next := JudgeAll(Upgraded(fd), Served(Upgraded(fd), t));
            && next.Fine?
            && FrameDone(msg, |t.received|, [], Served(Upgraded(fd), t), fd, if next.peer == Nobody then -1 else fd)
            && FrameDelivered(msg, |t.received|, true, [], Deliveries(Upgraded(fd), t))
  {
    hide FrameAction, ReceivedBuffer, HasPayload, JudgeAll, HeaderComplete, PayloadInBuffer;
    var msg := ReceivedBuffer(t.received, RECV_BUFFER_SIZE);
    FrameByOpcode(msg, |t.received|);
    FrameIsLegal(fd, Asked(t));
  }

  class Server {
    const sendBuf: array<byte>
    const recvBuf: array<byte>
    var socket: int
    var established: bool
    const hasHandler: bool
    var delivered: seq<(byte, seq<byte>)>
    ghost var log: seq<Event>

    /** The invariant of the loop head: established implies a socket, and the log so far is legal. */
    ghost predicate Valid()
      reads this
    {
      && sendBuf.Length == SEND_BUFFER_SIZE && recvBuf.Length == RECV_BUFFER_SIZE
      && (established ==> socket >= 0)
      && Replay(log) == Fine(CurrentPeer())
    }

    ghost function CurrentPeer(): Peer
      reads this
    {
      if socket < 0 then Nobody else if established then Upgraded(socket) else Opened(socket)
    }

    constructor (hasHandler: bool)
      ensures Valid() && socket < 0 && log == [] && delivered == []
      ensures fresh(sendBuf) && fresh(recvBuf)
      ensures this.hasHandler == hasHandler
    {
      sendBuf := new byte[512];
      recvBuf := new byte[512];
      socket := -1;
      established := false;
      this.hasHandler := hasHandler;
      delivered := [];
      log := [];
    }

    /** `send_message`. */
    method SendMessage(op: byte, message: seq<byte>)
      requires Valid() && op < 0x10
      modifies sendBuf, this`log
      ensures Valid()
      ensures log == if |message| + 10 > SEND_BUFFER_SIZE || !established then old(log)
                     else old(log) + [Frame(socket, ServerFrame(op, message))]
    {
      if |message| + 10 > SEND_BUFFER_SIZE {
        return;
      }
      if !established {
        return;
      }
      hide Replay;
      var packetSize := BuildFrame(op, message, sendBuf);
      ReplayMore(log, CurrentPeer(), Frame(socket, sendBuf[..packetSize]));
      log := log + [Frame(socket, sendBuf[..packetSize])];
    }

    method CloseSocket()
      requires Valid()
      modifies this`socket, this`established, this`log
      ensures Valid() && socket == -1 && !established
      ensures log == old(log) + [Closed(old(socket))]
    {
      hide Replay;
      ReplayMore(log, CurrentPeer(), Closed(socket));
      log := log + [Closed(socket)];
      socket := -1;
      established := false;
    }

    /** `handle_frame`. */
    method HandleFrame(length: int)
      requires Valid() && established
      requires length <= RECV_BUFFER_SIZE && PayloadInBuffer(recvBuf[..], length)
      modifies this`socket, this`established, this`log, this`delivered, recvBuf
      ensures Valid()
      ensures match FrameAction(old(recvBuf[..]), length)
              case Ignore => log == old(log) && delivered == old(delivered) && socket == old(socket)
              case Pong => log == old(log) + [Frame(socket, [0x8A, 0])]
                           && delivered == old(delivered) && socket == old(socket)
              case CloseReply => log == old(log) + [Frame(old(socket), [0x88, 0]), Closed(old(socket))]
                                 && delivered == old(delivered) && socket == -1
              case Deliver(op, payload) =>
                log == old(log) && socket == old(socket)
                && delivered == if hasHandler then old(delivered) + [(op, payload)] else old(delivered)
      ensures var msg := old(recvBuf[..]);
              FrameDone(msg, length, old(log), log, old(socket), socket)
              && FrameDelivered(msg, length, hasHandler, old(delivered), delivered)
    {
      hide Replay, Masked;
      FrameByOpcode(recvBuf[..], length);
      if length < 2 {
        return;
      }
      var buf := recvBuf[..];
      if length < HeaderLen(buf) {
        return;
      }
      if Opcode(buf) == OP_PING {
        ReplayMore(log, CurrentPeer(), Frame(socket, [0x8A, 0]));
        log := log + [Frame(socket, [0x8A, 0])];
        return;
      }
      if Opcode(buf) == OP_PONG {
        return;
      }
      if Opcode(buf) == OP_CLOSE {
        ghost var fd := socket;
        ReplayMore(log, CurrentPeer(), Frame(socket, [0x88, 0]));
        log := log + [Frame(socket, [0x88, 0])];
        CloseSocket();
        assert log == old(log) + [Frame(fd, [0x88, 0]), Closed(fd)];
        return;
      }
      if IsFin(buf) {
        var len, at := MessageLen(buf), PayloadOffset(buf);
        if IsMasked(buf) {
          Unmask(recvBuf, at, len, buf[MaskOffset(buf)..MaskOffset(buf) + 4]);
        }
        if hasHandler {
          delivered := delivered + [(Opcode(buf), recvBuf[at..at + len])];
        }
      }
    }

    /** `process_handshake` on the zero-padded receive buffer. */
    method ProcessHandshake(sendOk: bool) returns (ok: bool)
      requires Valid() && !established
      requires socket < 0 ==> CString(recvBuf[..]) == []
      modifies this`log
      ensures ok ==> socket >= 0
      ensures sendBuf.Length == SEND_BUFFER_SIZE && recvBuf.Length == RECV_BUFFER_SIZE
      ensures var reply := HandshakeReply(CString(recvBuf[..]));
              if reply.None? then !ok && log == old(log)
              else ok == sendOk && log == old(log) + [Upgrade(socket, reply.value, sendOk)]
      ensures Replay(log) == Fine(if ok then Upgraded(socket) else CurrentPeer())
    {
      hide Replay, CString;
      var reply := BuildResponse(recvBuf[..]);
      if reply.None? {
        return false;
      }
      NothingIsNoRequest();
      hide HandshakeReply;
      ReplayMore(log, CurrentPeer(), Upgrade(socket, reply.value, sendOk));
      log := log + [Upgrade(socket, reply.value, sendOk)];
      ok := sendOk;
    }

    /** `memset` and `lwip_recv` into the receive buffer. */
    method Receive(data: seq<byte>)
      requires |data| <= recvBuf.Length
      modifies recvBuf
      ensures recvBuf[..] == ReceivedBuffer(data, recvBuf.Length)
    {
      forall i | 0 <= i < recvBuf.Length {
        recvBuf[i] := 0;
      }
      forall i | 0 <= i < |data| {
        recvBuf[i] := data[i];
      }
    }

    /** One turn of the `while (1)` loop of `task`. */
    method OneTurn(t: Turn)
      requires Valid() && AdmissibleTurn(CurrentPeer(), t)
      modifies this`socket, this`established, this`log, this`delivered, sendBuf, recvBuf
      ensures Valid()
      ensures var peer := old(CurrentPeer());
              && JudgeAll(peer, Served(peer, t)) == Fine(CurrentPeer())
              && log == old(log) + Served(peer, t) + QueueFrames(CurrentPeer(), t.queue)
              && delivered == old(delivered) + if hasHandler then Deliveries(peer, t) else []
    {
      hide Replay, FrameAction, HandshakeReply, PayloadInBuffer;
      ghost var peer := CurrentPeer();
      if socket < 0 {
        if t.select > 0 {
          if t.accepted >= 0 {
            ReplayMore(log, Nobody, Accepted(t.accepted));
            log := log + [Accepted(t.accepted)];
            socket := t.accepted;
          }
        }
      } else {
        ServeClient(t);
      }
      assert log == old(log) + Served(peer, t);
      ReplayExtends(old(log), peer, Served(peer, t));
      SendQueue(t.queue);
    }

    /** The loop that drains the queue. */
    method SendQueue(queue: seq<seq<byte>>)
      requires Valid()
      modifies this`log, sendBuf
      ensures Valid()
      ensures log == old(log) + QueueFrames(CurrentPeer(), queue)
    {
      hide Replay, QueueFrames, ServerFrame;
      QueueStart(CurrentPeer(), queue);
      for i := 0 to |queue|
        invariant Valid()
        invariant log == old(log) + QueueFrames(CurrentPeer(), queue[..i])
      {
        QueueOneMore(CurrentPeer(), queue, i);
        if established {
          SendMessage(OP_TEXT, queue[i]);
        }
      }
      assert queue[..|queue|] == queue;
    }

    /** `if (process_handshake(...)) established = true; else close`. */
    method Handshake(sendOk: bool)
      requires Valid() && !established
      requires socket < 0 ==> CString(recvBuf[..]) == []
      modifies this`socket, this`established, this`log
      ensures Valid()
      ensures log == old(log) + HandshakeEvents(old(socket), HandshakeReply(CString(recvBuf[..])), sendOk)
    {
      hide HandshakeReply, CString, Replay;
      ghost var peer := CurrentPeer();
      var ok := ProcessHandshake(sendOk);
      if ok {
        established := true;
      } else {
        ReplayMore(log, peer, Closed(socket));
        log := log + [Closed(socket)];
        socket := -1;
      }
    }

    /** The branch of the loop with a client connected. */
    method ServeClient(t: Turn)
      requires Valid() && socket >= 0 && AdmissibleTurn(CurrentPeer(), t)
      modifies this`socket, this`established, this`log, this`delivered, recvBuf
      ensures Valid()
      ensures var peer := old(CurrentPeer());
              && log == old(log) + Served(peer, t)
              && delivered == old(delivered) + if hasHandler then Deliveries(peer, t) else []
    {
      hide Replay, FrameAction, HandshakeReply, PayloadInBuffer, CString, ReceivedBuffer;
      if t.select > 0 {
        Receive(t.received);
        var recvBytes := if |t.received| > 0 then |t.received| else t.recvResult;
        if recvBytes <= 0 {
          CloseSocket();
          EmptyRequest(recvBuf.Length);
          NothingIsNoRequest();
        }
        if !established {
          Handshake(t.sendOk);
        } else {
          HandleFrame(recvBytes);
        }
      } else if t.select < 0 {
        CloseSocket();
      }
    }
  }

  lemma NothingIsNoRequest()
    ensures HandshakeReply([]) == None
  {
    assert |Ascii("GET /")| == 5;
  }

  function ReceivedBuffer(data: seq<byte>, n: nat): (r: seq<byte>)
    requires |data| <= n
    ensures |r| == n
  {
    data + seq(n - |data|, i => 0)
  }

  lemma EmptyRequest(n: nat)
    requires n > 0
    ensures CString(ReceivedBuffer([], n)) == []
  {}

  /** A positive receive count is what was received, and a final data frame from an upgraded client
      has its payload inside the receive buffer. */
  predicate AdmissibleTurn(peer: Peer, t: Turn) {
    && t.recvResult <= 0 && |t.received| <= RECV_BUFFER_SIZE
    && (peer.Upgraded? && t.select > 0
        ==> PayloadInBuffer(ReceivedBuffer(t.received, RECV_BUFFER_SIZE), |t.received|))
  }

  /** Every admissible run of the loop, from start-up. */
  method Run(turns: seq<Turn>, hasHandler: bool) returns (s: Server)
    requires AdmissibleRun(turns)
    ensures s.Valid() && s.log == RunOf(turns).1 && s.CurrentPeer() == RunOf(turns).0
  {
    s := new Server(hasHandler);
    for i := 0 to |turns|
      invariant s.Valid() && fresh(s) && fresh(s.sendBuf) && fresh(s.recvBuf)
      invariant AdmissibleRun(turns[..i])
      invariant s.log == RunOf(turns[..i]).1 && s.CurrentPeer() == RunOf(turns[..i]).0
    {
      AdmissiblePrefix(turns, i + 1);
      assert turns[..i + 1][..i] == turns[..i];
      s.OneTurn(turns[i]);
    }
    assert turns[..|turns|] == turns;
  }

  /** A client whose whole request arrives in one turn, without zero bytes and shorter than the receive
      buffer, is sent the accept value of its own key, and is upgraded if the response goes out. */
  lemma KeyIsAnsweredInTurn(fd: nat, t: Turn, before: seq<byte>, key: seq<byte>, after: seq<byte>)
    requires t.received == KeyRequest(before, key, after) && |t.received| < RECV_BUFFER_SIZE && 0 !in t.received
    requires t.recvResult <= 0 && t.select > 0 && t.sendOk
    requires Ascii("GET /") <= before && |key| <= KEY_ROOM && PlainKey(before, key, after)
    ensures Served(Opened(fd), t) == [Upgrade(fd, ResponseText(AcceptValue(key)), true)]
    ensures JudgeAll(Opened(fd), Served(Opened(fd), t)) == Fine(Upgraded(fd))
  {
    hide PlainKey, AcceptValue, ResponseText, HandshakeReply, CString;
    WholeRequest(t.received, RECV_BUFFER_SIZE);
    HandshakeAnswersKey(before, key, after);
    OneEvent(Opened(fd), Upgrade(fd, ResponseText(AcceptValue(key)), true));
  }

  /** Turns without a request or a frame: a client is accepted when nobody is connected, and nobody is
      connected after an error or the end of the stream. */
  lemma ServedWithoutData(peer: Peer, t: Turn)
    requires AdmissibleTurn(peer, t)
    ensures peer == Nobody && t.select > 0 && t.accepted >= 0 ==>
              JudgeAll(peer, Served(peer, t)) == Fine(Opened(t.accepted))
    ensures peer == Nobody && (t.select <= 0 || t.accepted < 0) ==> JudgeAll(peer, Served(peer, t)) == Fine(Nobody)
    ensures peer != Nobody && (t.select < 0 || (t.select > 0 && t.received == [])) ==>
              JudgeAll(peer, Served(peer, t)) == Fine(Nobody) && Closed(peer.fd) in Served(peer, t)
    ensures peer != Nobody && t.select == 0 ==> Served(peer, t) == []
  {
    hide JudgeAll;
    if peer == Nobody {
      if t.select > 0 && t.accepted >= 0 {
        OneEvent(peer, Accepted(t.accepted));
      } else {
        NoEvent(peer);
      }
    } else if t.select < 0 {
      OneEvent(peer, Closed(peer.fd));
    } else if t.select > 0 && t.received == [] {
      TwoEvents(peer, Closed(peer.fd), Closed(-1));
    }
  }

  /** Any other request ends the connection without an answer. */
  lemma UnansweredIsClosed(fd: nat, t: Turn)
    requires t.recvResult <= 0 && t.select > 0 && 0 < |t.received| <= RECV_BUFFER_SIZE
    requires var request := CString(ReceivedBuffer(t.received, RECV_BUFFER_SIZE));
             Ascii("GET /") <= request ==> forall p: nat, q: nat :: !KeyBetween(request, p, q)
    ensures Served(Opened(fd), t) == [Closed(fd)]
  {
    hide CString, ReceivedBuffer, HandshakeReply, KeyBetween, Ascii;
    AnsweredIff(CString(ReceivedBuffer(t.received, RECV_BUFFER_SIZE)));
  }

  /** Queued messages that fit the send buffer go out one frame each, in order. */
  lemma {:induction false} QueueInOrder(fd: nat, queue: seq<seq<byte>>)
    requires forall i :: 0 <= i < |queue| ==> |queue[i]| + 10 <= SEND_BUFFER_SIZE
    ensures |QueueFrames(Upgraded(fd), queue)| == |queue|
    ensures forall i :: 0 <= i < |queue| ==>
                          QueueFrames(Upgraded(fd), queue)[i] == Frame(fd, ServerFrame(OP_TEXT, queue[i]))
  {
    hide ServerFrame;
    if queue != [] {
      QueueInOrder(fd, queue[..|queue| - 1]);
    }
  }

  lemma {:induction false} WholeRequest(request: seq<byte>, n: nat)
    requires |request| < n && 0 !in request
    ensures CString(ReceivedBuffer(request, n)) == request
  {
    if request != [] {
      WholeRequest(request[1..], n - 1);
      assert ReceivedBuffer(request, n)[1..] == ReceivedBuffer(request[1..], n - 1);
    }
  }

  // ----- What a legal log means -----

  lemma {:induction false} ReplayPrefix(log: seq<Event>, n: nat)
    requires n <= |log| && Replay(log).Fine?
    ensures Replay(log[..n]).Fine?
  {
    if n == |log| {
      assert log[..n] == log;
    } else {
      ReplayPrefix(log[..|log| - 1], n);
      assert log[..|log| - 1][..n] == log[..n];
    }
  }

  /** Why a client counts as upgraded: its 101 response was sent and it has not been closed since. */
  lemma {:induction false} UpgradedBecause(log: seq<Event>, fd: nat) returns (j: nat)
    requires Replay(log) == Fine(Upgraded(fd))
    ensures j < |log| && log[j].Upgrade? && log[j].fd == fd && log[j].ok
    ensures forall k :: j < k < |log| ==> !log[k].Closed?
  {
    var front, e := log[..|log| - 1], log[|log| - 1];
    if e.Upgrade? {
      j := |log| - 1;
    } else {
      j := UpgradedBecause(front, fd);
      assert forall k :: 0 <= k < |front| ==> log[k] == front[k];
    }
  }

  /** No data, status or control frame before the 101 response of its connection or after its close. */
  lemma FramesOnlyWhileUpgraded(log: seq<Event>, i: nat) returns (j: nat)
    requires Replay(log).Fine? && i < |log| && log[i].Frame?
    ensures j < i && log[j].Upgrade? && log[j].ok && log[j].fd == log[i].fd
    ensures forall k :: j < k < i ==> !log[k].Closed?
  {
    ReplayPrefix(log, i + 1);
    assert log[..i + 1][..i] == log[..i];
    j := UpgradedBecause(log[..i], log[i].fd);
    assert forall k :: 0 <= k < i ==> log[..i][k] == log[k];
  }

  function CountAccepts(log: seq<Event>, fd: nat): nat {
    if log == [] then 0
    else CountAccepts(log[..|log| - 1], fd) + (if log[|log| - 1] == Accepted(fd) then 1 else 0)
  }

  function CountCloses(log: seq<Event>, fd: nat): nat {
    if log == [] then 0
    else CountCloses(log[..|log| - 1], fd) + (if log[|log| - 1] == Closed(fd) then 1 else 0)
  }

  /** Every accepted socket is closed exactly once, the live one not yet. */
  lemma {:induction false} AcceptsMatchCloses(log: seq<Event>, fd: nat)
    requires Replay(log).Fine?
    ensures CountAccepts(log, fd) == CountCloses(log, fd)
            + (if Replay(log).peer != Nobody && Replay(log).peer.fd == fd then 1 else 0)
  {
    if log != [] {
      AcceptsMatchCloses(log[..|log| - 1], fd);
    }
  }
}
