/** `dhcp_server_process` of dhcpserver/dhcpserver.cpp on raw packets. */
module DhcpServer {
  import opened Words
  import opened DhcpLease
  import opened DhcpOptions

  const MSG_SIZE: nat := 548
  const MIN_SIZE: nat := 243
  const BASE_IP: nat := 16
  const DISCOVER_TYPE: byte := 1
  const OFFER_TYPE: byte := 2
  const REQUEST_TYPE: byte := 3
  const ACK_TYPE: byte := 5
  /** Offsets in `dhcp_msg_t`: yiaddr, chaddr, and the options after the magic cookie. */
  const YIADDR: nat := 16
  const CHADDR: nat := 28
  const OPTIONS: nat := 240
  /** Bytes after the message that a malformed option can make the code look at. */
  const BEYOND: nat := 6

  const OPT_SUBNET_MASK: byte := 1
  const OPT_ROUTER: byte := 3
  const OPT_DNS: byte := 6
  const OPT_DOMAIN_NAME: byte := 15
  const OPT_REQUESTED_IP: byte := 50
  const OPT_LEASE_TIME: byte := 51
  const OPT_MSG_TYPE: byte := 53
  const OPT_SERVER_ID: byte := 54

  type Address = a: seq<byte> | |a| == 4 witness [0, 0, 0, 0]

  /** The message structure in memory: the packet over whatever the stack held before. */
  type Memory = b: seq<byte> | |b| == MSG_SIZE + BEYOND witness seq(MSG_SIZE + BEYOND, i => 0)

  function Received(packet: seq<byte>, stack: Memory): (r: Memory) {
    var len := if |packet| < MSG_SIZE then |packet| else MSG_SIZE;
    packet[..len] + stack[len..]
  }

  function ClientMac(buf: Memory): Mac {
    buf[CHADDR..CHADDR + 6]
  }

  /** The slot a REQUEST asks for, if it asks for one of this server's addresses. */
  function RequestedSlot(buf: Memory, ip: Address): Option<nat> {
    match FindFrom(buf[OPTIONS..], OPT_REQUESTED_IP, 0)
    case None => None
    case Some(o) =>
      var at := OPTIONS + o;
      if buf[at + 2..at + 5] != ip[..3] then None
      else
        var yi := (buf[at + 5] - BASE_IP) % 0x100;
        if yi >= SLOTS then None else Some(yi)
  }

  /** The step of the lease table that a message asks for. */
  function Decode(buf: Memory, ip: Address, times: Times): (r: Option<Msg>)
    ensures r.Some? ==> ValidMsg(r.value)
  {
    if buf[OPTIONS + 2] == DISCOVER_TYPE then Some(Discover(ClientMac(buf), times))
    else if buf[OPTIONS + 2] == REQUEST_TYPE then
      match RequestedSlot(buf, ip)
      case None => None
      case Some(slot) => Some(Request(ClientMac(buf), slot, times[0]))
    else None
  }

  /** The answer to a packet and the table after it. */
  function Handle(leases: Table, packet: seq<byte>, stack: Memory, ip: Address, times: Times): (Table, Answer) {
    if |packet| < MIN_SIZE then (leases, Silent)
    else
      match Decode(Received(packet, stack), ip, times)
      case None => (leases, Silent)
      case Some(msg) => Step(leases, msg)
  }

  function ReplyOptions(msgType: byte, ip: Address, nm: Address, domain: Option<seq<byte>>): seq<Opt> {
    [Opt(OPT_MSG_TYPE, [msgType]), Opt(OPT_SERVER_ID, ip), Opt(OPT_SUBNET_MASK, nm), Opt(OPT_ROUTER, ip),
     Opt(OPT_DNS, ip)]
    + (if domain.Some? then [Opt(OPT_DOMAIN_NAME, domain.value)] else [])
    + [Opt(OPT_LEASE_TIME, Bytes32(86_400))]
  }

  /** The fixed part of what is sent. */
  function ReplyHead(buf: Memory, slot: nat, ip: Address): (head: seq<byte>)
    requires slot < SLOTS
    ensures |head| == OPTIONS
  {
    [OFFER_TYPE] + buf[1..YIADDR] + ip[..3] + [BASE_IP + slot] + buf[YIADDR + 4..OPTIONS]
  }

  lemma HeadByte(buf: Memory, slot: nat, ip: Address, i: nat)
    requires slot < SLOTS && i < OPTIONS
    ensures ReplyHead(buf, slot, ip)[i]
            == if i == 0 then OFFER_TYPE
               else if YIADDR <= i < YIADDR + 3 then ip[i - YIADDR]
               else if i == YIADDR + 3 then BASE_IP + slot
               else buf[i]
  {}

  /** The packet that is sent: header with opcode and offered address, options, END. */
  function ReplyPacket(buf: Memory, slot: nat, msgType: byte, ip: Address, nm: Address,
                       domain: Option<seq<byte>>): seq<byte>
    requires slot < SLOTS
  {
    ReplyHead(buf, slot, ip)
    + EncodeAll(ReplyOptions(msgType, ip, nm, domain)) + [END]
  }

  /** What a client learns from a reply, in any buffer that starts with it, reading as RFC 2132 does:
      the message is its own with opcode and address filled in; message type (53), subnet mask (1),
      server (54), router (3), name server (6), domain (15) and lease time in seconds (51), then END. */
  ghost predicate Announces(reply: seq<byte>, kind: byte, slot: nat, request: Memory,
                            ip: Address, nm: Address, domain: Option<seq<byte>>)
  {
    && OPTIONS + 7 < |reply| < OPTIONS + SEARCH_LIMIT && reply[|reply| - 1] == END
    && reply[0] == 2 && reply[YIADDR..YIADDR + 4] == ip[..3] + [BASE_IP + slot]
    && (forall i :: 1 <= i < OPTIONS && !(YIADDR <= i < YIADDR + 4) ==> reply[i] == request[i])
    && forall memory: seq<byte> :: reply <= memory && |memory| > OPTIONS + SEARCH_LIMIT ==>
         OptionsAnnounce(memory[OPTIONS..], |reply| - OPTIONS, kind, ip, nm, domain)
  }

  predicate OptionsAnnounce(opt: seq<byte>, size: nat, kind: byte, ip: Address, nm: Address, domain: Option<seq<byte>>)
    requires |opt| > SEARCH_LIMIT
  {
    && ReadOption(opt, 53) == Some([kind]) && ReadOption(opt, 1) == Some(nm) && ReadOption(opt, 54) == Some(ip)
    && ReadOption(opt, 3) == Some(ip) && ReadOption(opt, 6) == Some(ip) && ReadOption(opt, 15) == domain
    && (ReadOption(opt, 51).Some? && |ReadOption(opt, 51).value| == 4
        && BigEndianValue(ReadOption(opt, 51).value) == LEASE_MS / 1000)
    && (StandardFind(opt, 51, 0).Some? && StandardFind(opt, 51, 0).value + 7 == size)
  }

  /** Every reply that is built announces all that. */
  lemma ReplyAnnounces(buf: Memory, slot: nat, kind: byte, ip: Address, nm: Address, domain: Option<seq<byte>>)
    requires slot < SLOTS && (domain.Some? ==> |domain.value| <= 255)
    ensures Announces(ReplyPacket(buf, slot, kind, ip, nm, domain), kind, slot, buf, ip, nm, domain)
  {
    var reply, opts := ReplyPacket(buf, slot, kind, ip, nm, domain), ReplyOptions(kind, ip, nm, domain);
    ReplySize(kind, ip, nm, domain);
    hide ReplyOptions, EncodeAll, ReplyHead;
    var head := ReplyHead(buf, slot, ip);
    assert reply == head + EncodeAll(opts) + [END];
    forall i | 0 <= i < OPTIONS
      ensures reply[i] == if i == 0 then OFFER_TYPE
                          else if YIADDR <= i < YIADDR + 3 then ip[i - YIADDR]
                          else if i == YIADDR + 3 then BASE_IP + slot
                          else buf[i]
    {
      HeadByte(buf, slot, ip, i);
    }
    assert reply[YIADDR..YIADDR + 4] == ip[..3] + [BASE_IP + slot];
    hide ReplyPacket;
    forall memory: seq<byte> | reply <= memory && |memory| > OPTIONS + SEARCH_LIMIT
      ensures OptionsAnnounce(memory[OPTIONS..], |reply| - OPTIONS, kind, ip, nm, domain)
    {
      OptionsStand(memory, head, opts, reply);
      OptionsReadBack(memory[OPTIONS..], kind, ip, nm, domain);
    }
  }

  lemma ReplySize(kind: byte, ip: Address, nm: Address, domain: Option<seq<byte>>)
    ensures var n := |EncodeAll(ReplyOptions(kind, ip, nm, domain))|;
            n == 33 + if domain.Some? then 2 + |domain.value| else 0
  {
    var a, b, c := Opt(OPT_MSG_TYPE, [kind]), Opt(OPT_SERVER_ID, ip), Opt(OPT_SUBNET_MASK, nm);
    var d, e, last := Opt(OPT_ROUTER, ip), Opt(OPT_DNS, ip), Opt(OPT_LEASE_TIME, Bytes32(86_400));
    OptionsWritten(kind, ip, nm, domain);
    hide EncodeAll, ReplyOptions;
    NoOptionsYet();
    EncodeAppend([], a);
    EncodeAppend([] + [a], b);
    EncodeAppend([] + [a] + [b], c);
    EncodeAppend([] + [a] + [b] + [c], d);
    EncodeAppend([] + [a] + [b] + [c] + [d], e);
    var five := OptionsBeforeDomain(kind, ip, nm);
    if domain.Some? {
      EncodeAppend(five, Opt(OPT_DOMAIN_NAME, domain.value));
      EncodeAppend(five + [Opt(OPT_DOMAIN_NAME, domain.value)], last);
    } else {
      EncodeAppend(five, last);
    }
  }

  lemma NoOptionsYet()
    ensures EncodeAll([]) == []
  {}

  lemma OptionsStand(memory: seq<byte>, head: seq<byte>, opts: seq<Opt>, reply: seq<byte>)
    requires |head| == OPTIONS && reply == head + EncodeAll(opts) + [END] && reply <= memory
    requires |EncodeAll(opts)| < SEARCH_LIMIT && |memory| > OPTIONS + SEARCH_LIMIT
    ensures Stand(memory[OPTIONS..], 0, opts)
  {
    hide EncodeAll;
    var all := EncodeAll(opts);
    var end := OPTIONS + |all|;
    assert memory[0..0 + |reply|] == reply;
    assert reply[OPTIONS..end] == all && reply[end] == END;
    Within(memory, 0, reply, OPTIONS, end);
    assert memory[end] == reply[end];
    assert memory[OPTIONS..][0..0 + |all|] == memory[0 + OPTIONS..0 + end];
  }

  lemma OptionsReadBack(opt: seq<byte>, kind: byte, ip: Address, nm: Address, domain: Option<seq<byte>>)
    requires |opt| > SEARCH_LIMIT && Stand(opt, 0, ReplyOptions(kind, ip, nm, domain))
    requires domain.Some? ==> |domain.value| <= 255
    ensures OptionsAnnounce(opt, |EncodeAll(ReplyOptions(kind, ip, nm, domain))| + 1, kind, ip, nm, domain)
  {
    var opts := ReplyOptions(kind, ip, nm, domain);
    OptionsInOrder(kind, ip, nm, domain);
    hide Stand, EncodeAll, WellFormed, NoPads, ReadOption, StandardFind, ReplyOptions, Bytes32;
    WrittenReadsBack(opt, opts, 53, 0);
    WrittenReadsBack(opt, opts, 54, 1);
    WrittenReadsBack(opt, opts, 1, 2);
    WrittenReadsBack(opt, opts, 3, 3);
    WrittenReadsBack(opt, opts, 6, 4);
    WrittenReadsBack(opt, opts, 15, if domain.Some? then 5 else |opts|);
    WrittenReadsBack(opt, opts, 51, |opts| - 1);
    LeaseSeconds();
  }

  lemma OptionsInOrder(kind: byte, ip: Address, nm: Address, domain: Option<seq<byte>>)
    requires domain.Some? ==> |domain.value| <= 255
    ensures var opts := ReplyOptions(kind, ip, nm, domain);
            && WellFormed(opts) && NoPads(opts) && |opts| == (if domain.Some? then 7 else 6)
            && opts[0] == Opt(53, [kind]) && opts[1] == Opt(54, ip) && opts[2] == Opt(1, nm)
            && opts[3] == Opt(3, ip) && opts[4] == Opt(6, ip)
            && opts[|opts| - 1] == Opt(51, Bytes32(86_400)) && (domain.Some? ==> opts[5] == Opt(15, domain.value))
  {
    hide Bytes32;
  }

  lemma LeaseSeconds()
    ensures BigEndianValue(Bytes32(86_400)) == LEASE_MS / 1000
  {
    var b := Bytes32(86_400);
    assert b == [0, 1, 0x51, 0x80];
    assert b[..3][..2] == b[..2] && b[..2][..1] == b[..1] && BigEndianValue(b[..1]) == 0;
    assert BigEndianValue(b[..2]) == 1 && BigEndianValue(b[..3]) == 0x151;
  }

  /** What is sent for an answer, if anything. */
  function ReplyFor(answer: Answer, packet: seq<byte>, stack: Memory, ip: Address, nm: Address,
                    domain: Option<seq<byte>>): Option<seq<byte>>
    requires !answer.Silent? ==> answer.slot < SLOTS
  {
    match answer
    case Silent => None
    case Offer(slot) => Some(ReplyPacket(Received(packet, stack), slot, OFFER_TYPE, ip, nm, domain))
    case Ack(slot) => Some(ReplyPacket(Received(packet, stack), slot, ACK_TYPE, ip, nm, domain))
  }

  /** A packet is answered with an OFFER exactly when it is long enough, its third option byte is
      DISCOVER, and some slot is the client's, free, or seen as expired. */
  lemma DiscoverIsAnsweredIff(leases: Table, packet: seq<byte>, stack: Memory, ip: Address, times: Times)
    ensures Handle(leases, packet, stack, ip, times).1.Offer?
            <==> && |packet| >= MIN_SIZE && Received(packet, stack)[OPTIONS + 2] == 1
                 && exists k :: 0 <= k < SLOTS
                                && (leases[k].mac == Received(packet, stack)[28..34] || leases[k].mac == ZERO_MAC
                                    || SeesExpired(leases[k].expiry, times[k]))
  {
    hide SeesExpired, Received;
    if |packet| >= MIN_SIZE {
      DiscoverSound(leases, ClientMac(Received(packet, stack)), times);
    }
  }

  /** A packet is acknowledged exactly when it is long enough, its third option byte is REQUEST, the
      address that `opt_find` finds is one of this server's, and that slot is the sender's or free; then
      the slot is the sender's. */
  lemma RequestIsAckedIff(leases: Table, packet: seq<byte>, stack: Memory, ip: Address, times: Times, slot: nat)
    requires slot < SLOTS
    ensures var buf := Received(packet, stack);
            var asked := FindFrom(buf[OPTIONS..], 50, 0);
            Handle(leases, packet, stack, ip, times).1 == Ack(slot)
            <==> && |packet| >= MIN_SIZE && buf[OPTIONS + 2] == 3 && asked.Some?
                 && buf[OPTIONS..][asked.value + 2..asked.value + 6] == ip[..3] + [16 + slot]
                 && (leases[slot].mac == buf[28..34] || leases[slot].mac == ZERO_MAC)
    ensures Handle(leases, packet, stack, ip, times).1 == Ack(slot) ==>
              Handle(leases, packet, stack, ip, times).0
              == leases[slot := Lease(Received(packet, stack)[28..34], ExpiryOf(times[0]))]
  {
    hide SeesExpired, Received, FindFrom;
    var buf := Received(packet, stack);
    if |packet| >= MIN_SIZE && buf[OPTIONS + 2] == 3 {
      match FindFrom(buf[OPTIONS..], 50, 0)
      case None =>
      case Some(o) => AddressSelectsIff(buf, o, ip, slot);
    }
  }

  lemma AddressSelectsIff(buf: Memory, o: nat, ip: Address, slot: nat)
    requires slot < SLOTS && FindFrom(buf[OPTIONS..], OPT_REQUESTED_IP, 0) == Some(o)
    ensures RequestedSlot(buf, ip) == Some(slot) <==> buf[OPTIONS..][o + 2..o + 6] == ip[..3] + [BASE_IP + slot]
  {
    hide FindFrom;
    var data, at := buf[OPTIONS..][o + 2..o + 6], OPTIONS + o;
    assert buf[at + 2..at + 5] == data[..3] && buf[at + 5] == data[3];
    ThreeAndOne(data, ip[..3], BASE_IP + slot);
  }

  lemma ThreeAndOne(data: seq<byte>, front: seq<byte>, last: byte)
    requires |data| == 4 && |front| == 3
    ensures data == front + [last] <==> data[..3] == front && data[3] == last
  {
    assert (front + [last])[..3] == front && data == data[..3] + [data[3]];
  }

  class Server {
    const ip: Address
    const nm: Address
    const domain: Option<seq<byte>>
    const lease: array<Lease>

    ghost predicate Valid() {
      lease.Length == SLOTS && (domain.Some? ==> |domain.value| <= 255)
    }

    /** `dhcp_server_init`: all slots free. */
    constructor (ip: Address, nm: Address, domain: Option<seq<byte>>)
      requires domain.Some? ==> |domain.value| <= 255
      ensures Valid() && fresh(lease) && lease[..] == FRESH
      ensures this.ip == ip && this.nm == nm && this.domain == domain
    {
      this.ip := ip;
      this.nm := nm;
      this.domain := domain;
      lease := new Lease[8](i => Lease(ZERO_MAC, 0));
    }

    /** The loop over the slots of DHCPDISCOVER. */
    method DiscoverLoop(m: Mac, times: Times) returns (yi: nat)
      requires Valid()
      modifies lease
      ensures yi == OfferedSlot(old(lease[..]), m, times)
      ensures lease[..] == AfterDiscover(old(lease[..]), m, times)
    {
      hide SeesExpired, FirstUsable, FirstHolder, Progress, OfferedSlot, AfterDiscover;
      ghost var was: Table := lease[..];
      yi := 8;
      var i := 0;
      ghost var seen := yi;
      NoProgress(was, times);
      while i < 8
        invariant 0 <= i <= 8
        invariant forall k :: 0 <= k < i ==> was[k].mac != m
        invariant Progress(was, lease[..], times, i, yi)
      {
        ProgressHere(was, lease[..], times, i, yi);
        seen := yi;
        if lease[i].mac == m {
          yi := i;
          break;
        }
        ghost var before := lease[..];
        if yi == 8 {
          if lease[i].mac == ZERO_MAC {
            yi := i;
          }
          if SeesExpired(lease[i].expiry, times[i]) {
            lease[i] := lease[i].(mac := ZERO_MAC);
            yi := i;
          }
        }
        ProgressStep(was, before, lease[..], times, i, seen, yi);
        i := i + 1;
      }
      Concludes(was, lease[..], times, m, i, if i < 8 then seen else yi, yi);
    }

    /** `dhcp_server_process`: the reply it broadcasts, if any. */
    method Process(packet: seq<byte>, stack: Memory, times: Times) returns (reply: Option<seq<byte>>)
      requires Valid()
      modifies lease
      ensures (lease[..], reply) == (
                var (after, answer) := Handle(old(lease[..]), packet, stack, ip, times);
                (after, ReplyFor(answer, packet, stack, ip, nm, domain)))
      ensures reply.Some? ==>
                var answer := Handle(old(lease[..]), packet, stack, ip, times).1;
                && (answer.Offer? || answer.Ack?)
                && Announces(reply.value, if answer.Ack? then 5 else 2, answer.slot, Received(packet, stack),
                             ip, nm, domain)
    {
      hide SeesExpired, ReplyPacket, FirstHolder, FirstUsable, Received, Announces;
      if |packet| < MIN_SIZE {
        return None;
      }
      var buf := Received(packet, stack);
      var m := ClientMac(buf);
      if buf[OPTIONS + 2] == DISCOVER_TYPE {
        var yi := DiscoverLoop(m, times);
        if yi == 8 {
          return None;
        }
        var bytes := BuildReply(buf, yi, OFFER_TYPE);
        ReplyAnnounces(buf, yi, OFFER_TYPE, ip, nm, domain);
        return Some(bytes);
      } else if buf[OPTIONS + 2] == REQUEST_TYPE {
        var o := OptFind(buf[OPTIONS..], OPT_REQUESTED_IP);
        if o == None {
          return None;
        }
        var at := OPTIONS + o.value;
        if buf[at + 2..at + 5] != ip[..3] {
          return None;
        }
        var yi := (buf[at + 5] - BASE_IP) % 0x100;
        if yi >= 8 {
          return None;
        }
        if lease[yi].mac == m {
        } else if lease[yi].mac == ZERO_MAC {
          lease[yi] := lease[yi].(mac := m);
        } else {
          return None;
        }
        lease[yi] := lease[yi].(expiry := U32(U32(times[0]) + LEASE_MS) / TWO16);
        assert lease[..] == AfterRequest(old(lease[..]), m, yi, times[0]);
        var bytes := BuildReply(buf, yi, ACK_TYPE);
        ReplyAnnounces(buf, yi, ACK_TYPE, ip, nm, domain);
        return Some(bytes);
      } else {
        return None;
      }
    }

    /** The option writing at the end of `dhcp_server_process`, over the received message. */
    method BuildReply(buf: Memory, slot: nat, msgType: byte) returns (bytes: seq<byte>)
      requires Valid() && slot < SLOTS
      ensures bytes == ReplyPacket(buf, slot, msgType, ip, nm, domain)
    {
      hide EncodeAll, ReplyOptions;
      var out := new byte[MSG_SIZE](i requires 0 <= i < MSG_SIZE => buf[i]);
      out[0] := OFFER_TYPE;
      out[YIADDR], out[YIADDR + 1], out[YIADDR + 2], out[YIADDR + 3] := ip[0], ip[1], ip[2], BASE_IP + slot;
      ghost var head := ReplyHead(buf, slot, ip);
      forall i | 0 <= i < OPTIONS
        ensures out[i] == head[i]
      {
        HeadByte(buf, slot, ip, i);
      }
      assert out[..OPTIONS] == head;
      bytes := WriteOptions(out, msgType, head);
    }

    method WriteOptions(out: array<byte>, msgType: byte, ghost head: seq<byte>) returns (bytes: seq<byte>)
      requires Valid() && out.Length == MSG_SIZE && out[..OPTIONS] == head
      modifies out
      ensures bytes == head + EncodeAll(ReplyOptions(msgType, ip, nm, domain)) + [END]
    {
      hide EncodeAll, EncodeOpt, Bytes32, ReplyOptions, OptionsBeforeDomain;
      var o := WriteAddresses(out, msgType, head);
      ghost var opts := OptionsBeforeDomain(msgType, ip, nm);
      if domain.Some? {
        OptionsSoFar(head, opts, Opt(OPT_DOMAIN_NAME, domain.value));
        o := WriteN(out, o, OPT_DOMAIN_NAME, domain.value);
        opts := opts + [Opt(OPT_DOMAIN_NAME, domain.value)];
      }
      OptionsSoFar(head, opts, Opt(OPT_LEASE_TIME, Bytes32(86_400)));
      o := WriteU32(out, o, OPT_LEASE_TIME, 86_400);
      OptionsWritten(msgType, ip, nm, domain);
      ghost var written := out[..o];
      out[o] := END;
      bytes := out[..o + 1];
      assert bytes == written + [END];
    }

    /** The message type and the four addresses. */
    method WriteAddresses(out: array<byte>, msgType: byte, ghost head: seq<byte>) returns (o: nat)
      requires out.Length == MSG_SIZE && out[..OPTIONS] == head
      modifies out
      ensures o == OPTIONS + 27 && out[..o] == head + EncodeAll(OptionsBeforeDomain(msgType, ip, nm))
    {
      hide EncodeAll, EncodeOpt;
      ghost var opts := [];
      OptionsSoFar(head, [], Opt(OPT_MSG_TYPE, [msgType]));
      o := WriteU8(out, OPTIONS, OPT_MSG_TYPE, msgType);
      opts := opts + [Opt(OPT_MSG_TYPE, [msgType])];
      o, opts := Write4(out, o, OPT_SERVER_ID, ip, head, opts);
      o, opts := Write4(out, o, OPT_SUBNET_MASK, nm, head, opts);
      o, opts := Write4(out, o, OPT_ROUTER, ip, head, opts);
      o, opts := Write4(out, o, OPT_DNS, ip, head, opts);
    }
  }

  /** The options in the order in which they are written. */
  lemma OptionsWritten(msgType: byte, ip: Address, nm: Address, domain: Option<seq<byte>>)
    ensures ReplyOptions(msgType, ip, nm, domain)
            == ((if domain.None? then OptionsBeforeDomain(msgType, ip, nm)
                 else OptionsBeforeDomain(msgType, ip, nm) + [Opt(OPT_DOMAIN_NAME, domain.value)])
                + [Opt(OPT_LEASE_TIME, Bytes32(86_400))])
  {}

  function OptionsBeforeDomain(msgType: byte, ip: Address, nm: Address): seq<Opt> {
    [] + [Opt(OPT_MSG_TYPE, [msgType])] + [Opt(OPT_SERVER_ID, ip)] + [Opt(OPT_SUBNET_MASK, nm)]
    + [Opt(OPT_ROUTER, ip)] + [Opt(OPT_DNS, ip)]
  }

  // ----- Whole runs -----

  /** One received packet, the memory under it, and the clock readings while it is handled. */
  datatype Input = Input(packet: seq<byte>, stack: Memory, times: Times)

  function MessageIn(input: Input, ip: Address): Option<Msg> {
    if |input.packet| < MIN_SIZE then None else Decode(Received(input.packet, input.stack), ip, input.times)
  }

  /** No message, or one. */
  function ListOf(msg: Option<Msg>): seq<Msg> {
    match msg
    case None => []
    case Some(m) => [m]
  }

  /** The messages of a run of packets, those that are ignored left out. */
  function Messages(inputs: seq<Input>, ip: Address): (r: seq<Msg>)
    ensures ValidRun(r)
  {
    if inputs == [] then []
    else Messages(inputs[..|inputs| - 1], ip) + ListOf(MessageIn(inputs[|inputs| - 1], ip))
  }

  lemma RunOneMore(leases: Table, msgs: seq<Msg>, msg: Msg)
    requires ValidRun(msgs) && ValidMsg(msg)
    ensures Run(leases, msgs + [msg]) == Step(Run(leases, msgs), msg).0
  {
    RunSplit(leases, msgs + [msg], |msgs|);
    assert (msgs + [msg])[..|msgs|] == msgs && (msgs + [msg])[|msgs|..] == [msg] && [msg][1..] == [];
  }

  /** Packet i is answered as its message is in the run of all messages. */
  ghost predicate AnsweredAsInRun(inputs: seq<Input>, i: nat, reply: Option<seq<byte>>,
                                  ip: Address, nm: Address, domain: Option<seq<byte>>)
    requires i < |inputs|
  {
    var msgs, k := Messages(inputs, ip), |Messages(inputs[..i], ip)|;
    match MessageIn(inputs[i], ip)
    case None => reply == None
    case Some(msg) =>
      && k < |msgs| && msgs[k] == msg
      && reply == ReplyFor(AnswerAt(FRESH, msgs, k), inputs[i].packet, inputs[i].stack, ip, nm, domain)
  }

  /** Over any packets the table is that of the run of their messages from an empty one, and each
      reply is the answer in that run, so what is proved of runs holds of the server. */
  method ServePackets(ip: Address, nm: Address, domain: Option<seq<byte>>, inputs: seq<Input>)
    returns (s: Server, replies: seq<Option<seq<byte>>>)
    requires domain.Some? ==> |domain.value| <= 255
    ensures s.lease[..] == Run(FRESH, Messages(inputs, ip))
    ensures |replies| == |inputs|
    ensures forall i :: 0 <= i < |inputs| ==> AnsweredAsInRun(inputs, i, replies[i], ip, nm, domain)
  {
    hide Handle, Run, Messages, ReplyFor, AnsweredAsInRun;
    s := new Server(ip, nm, domain);
    replies := [];
    NoMessagesYet(inputs, ip);
    for i := 0 to |inputs|
      invariant s.Valid() && s.ip == ip && s.nm == nm && s.domain == domain && fresh(s.lease)
      invariant s.lease[..] == Run(FRESH, Messages(inputs[..i], ip))
      invariant |replies| == i
      invariant forall k :: 0 <= k < i ==> AnsweredAsInRun(inputs, k, replies[k], ip, nm, domain)
    {
      ghost var before: Table := s.lease[..];
      var reply := s.Process(inputs[i].packet, inputs[i].stack, inputs[i].times);
      replies := replies + [reply];
      OnePacket(before, inputs, i, ip);
      OneReply(before, inputs, i, ip, nm, domain);
    }
    assert inputs[..|inputs|] == inputs;
  }

  lemma NoMessagesYet(inputs: seq<Input>, ip: Address)
    ensures Run(FRESH, Messages(inputs[..0], ip)) == FRESH
  {}

  lemma OnePacket(before: Table, inputs: seq<Input>, i: nat, ip: Address)
    requires i < |inputs| && before == Run(FRESH, Messages(inputs[..i], ip))
    ensures Handle(before, inputs[i].packet, inputs[i].stack, ip, inputs[i].times).0
            == Run(FRESH, Messages(inputs[..i + 1], ip))
  {
    hide Step, Run, Decode, Received;
    assert inputs[..i + 1][..i] == inputs[..i];
    var msgs := Messages(inputs[..i], ip);
    match MessageIn(inputs[i], ip) {
      case None => assert msgs + [] == msgs;
      case Some(msg) => RunOneMore(FRESH, msgs, msg);
    }
  }

  lemma {:induction false} MessagesPrefix(inputs: seq<Input>, i: nat, ip: Address)
    requires i <= |inputs|
    ensures Messages(inputs[..i], ip) <= Messages(inputs, ip)
  {
    hide MessageIn;
    if i == |inputs| {
      assert inputs[..i] == inputs;
    } else {
      var front := inputs[..|inputs| - 1];
      MessagesPrefix(front, i, ip);
      assert front[..i] == inputs[..i];
    }
  }

  lemma OneReply(before: Table, inputs: seq<Input>, i: nat, ip: Address, nm: Address, domain: Option<seq<byte>>)
    requires i < |inputs| && before == Run(FRESH, Messages(inputs[..i], ip))
    ensures var answer := Handle(before, inputs[i].packet, inputs[i].stack, ip, inputs[i].times).1;
            var reply := ReplyFor(answer, inputs[i].packet, inputs[i].stack, ip, nm, domain);
            AnsweredAsInRun(inputs, i, reply, ip, nm, domain)
  {
    hide Step, Run, Decode, Received;
    assert inputs[..i + 1][..i] == inputs[..i];
    MessagesPrefix(inputs, i + 1, ip);
    MessagesPrefix(inputs, i, ip);
    var msgs, done := Messages(inputs, ip), Messages(inputs[..i], ip);
    assert msgs[..|done|] == done;
    assert Messages(inputs[..i + 1], ip) <= msgs;
  }

  /** The message type that a reply carries. */
  function ReplyType(reply: seq<byte>): byte
    requires |reply| > OPTIONS + 2
  {
    reply[OPTIONS + 2]
  }

  /** A reply shows its kind and its address. */
  lemma ReplyCarries(buf: Memory, slot: nat, msgType: byte, ip: Address, nm: Address, domain: Option<seq<byte>>)
    requires slot < SLOTS
    ensures var reply := ReplyPacket(buf, slot, msgType, ip, nm, domain);
            |reply| > OPTIONS + 2 && ReplyType(reply) == msgType && ReplyAddress(reply) == ip[..3] + [BASE_IP + slot]
  {
    var opts := ReplyOptions(msgType, ip, nm, domain);
    assert opts[0] == Opt(OPT_MSG_TYPE, [msgType]);
    assert EncodeAll(opts) == EncodeOpt(opts[0]) + EncodeAll(opts[1..]);
    assert EncodeAll(opts)[2] == msgType;
  }

  lemma ReplyShows(answer: Answer, packet: seq<byte>, stack: Memory, ip: Address, nm: Address,
                   domain: Option<seq<byte>>, reply: seq<byte>)
    requires !answer.Silent? ==> answer.slot < SLOTS
    requires ReplyFor(answer, packet, stack, ip, nm, domain) == Some(reply)
    ensures !answer.Silent? && |reply| > OPTIONS + 2
    ensures answer.Ack? <==> ReplyType(reply) == ACK_TYPE
    ensures ReplyAddress(reply) == ip[..3] + [BASE_IP + answer.slot]
  {
    hide ReplyPacket, Received, ReplyType, ReplyAddress;
    ReplyCarries(Received(packet, stack), answer.slot, if answer.Ack? then ACK_TYPE else OFFER_TYPE, ip, nm, domain);
  }

  /** In bytes, over any run of packets: after an ACK of an address to one client, no reply with that
      address goes to another for more than a day. */
  lemma RepliesAreExclusiveForADay(inputs: seq<Input>, ip: Address, nm: Address, domain: Option<seq<byte>>, start: nat,
                                   i: nat, j: nat, first: seq<byte>, second: seq<byte>)
    requires Ordered(Messages(inputs, ip), start) && i < j < |inputs|
    requires AnsweredAsInRun(inputs, i, Some(first), ip, nm, domain) && |first| > OPTIONS + 2
    requires AnsweredAsInRun(inputs, j, Some(second), ip, nm, domain) && |second| > OPTIONS + 2
    requires ReplyType(first) == ACK_TYPE && ReplyAddress(second) == ReplyAddress(first)
    requires MessageIn(inputs[i], ip).value.mac != ZERO_MAC
    requires MessageIn(inputs[i], ip).value.mac != MessageIn(inputs[j], ip).value.mac
    ensures LastTime(MessageIn(inputs[j], ip).value) > LastTime(MessageIn(inputs[i], ip).value) + LEASE_MS
  {
    hide ReplyFor, Messages, Run, Ordered, ReplyType, ReplyAddress;
    var msgs := Messages(inputs, ip);
    var a, b := |Messages(inputs[..i], ip)|, |Messages(inputs[..j], ip)|;
    LaterPacketLaterMessage(inputs, i, j, ip);
    var one, two := AnswerAt(FRESH, msgs, a), AnswerAt(FRESH, msgs, b);
    ReplyShows(one, inputs[i].packet, inputs[i].stack, ip, nm, domain, first);
    ReplyShows(two, inputs[j].packet, inputs[j].stack, ip, nm, domain, second);
    assert ReplyAddress(first)[3] == BASE_IP + one.slot && ReplyAddress(second)[3] == BASE_IP + two.slot;
    AcksAreExclusiveForADay(FRESH, msgs, start, a, b);
  }

  lemma LaterPacketLaterMessage(inputs: seq<Input>, i: nat, j: nat, ip: Address)
    requires i < j < |inputs| && MessageIn(inputs[i], ip).Some?
    ensures |Messages(inputs[..i], ip)| < |Messages(inputs[..j], ip)|
  {
    hide MessageIn;
    MessagesPrefix(inputs[..j], i + 1, ip);
    assert inputs[..j][..i + 1] == inputs[..i + 1] && inputs[..i + 1][..i] == inputs[..i];
  }

  /** `opt_write_n` of an address, and the list of options written so far. */
  method Write4(out: array<byte>, at: nat, tag: byte, a: Address, ghost head: seq<byte>, ghost opts: seq<Opt>)
    returns (next: nat, ghost opts': seq<Opt>)
    requires at + 6 <= out.Length && out[..at] == head + EncodeAll(opts)
    modifies out
    ensures next == at + 6 && opts' == opts + [Opt(tag, a)]
    ensures out[..next] == head + EncodeAll(opts')
  {
    OptionsSoFar(head, opts, Opt(tag, a));
    next := WriteN(out, at, tag, a);
    opts' := opts + [Opt(tag, a)];
  }

  lemma OptionsSoFar(head: seq<byte>, opts: seq<Opt>, o: Opt)
    ensures head + EncodeAll(opts) + EncodeOpt(o) == head + EncodeAll(opts + [o])
    ensures opts == [] ==> head + EncodeAll(opts) == head
  {
    EncodeAppend(opts, o);
  }

  /** Where the DISCOVER loop stands before it looks at slot i without having met the client. */
  ghost predicate Progress(was: Table, leases: seq<Lease>, times: Times, i: nat, yi: nat)
    requires i <= SLOTS
  {
    var u := FirstUsable(was, times, 0);
    if i <= u then yi == 8 && leases == was
    else
      yi == u
      && leases == if SeesExpired(was[u].expiry, times[u]) then was[u := was[u].(mac := ZERO_MAC)] else was
  }

  lemma NoProgress(was: Table, times: Times)
    ensures Progress(was, was, times, 0, SLOTS)
  {}

  /** Slots from i on are untouched. */
  lemma ProgressHere(was: Table, leases: seq<Lease>, times: Times, i: nat, yi: nat)
    requires i < SLOTS && Progress(was, leases, times, i, yi)
    ensures |leases| == SLOTS && forall k :: i <= k < SLOTS ==> leases[k] == was[k]
  {}

  /** What one turn of the loop does to the table and to `yi`. */
  lemma ProgressStep(was: Table, leases: seq<Lease>, leases': seq<Lease>, times: Times, i: nat, yi: nat, yi': nat)
    requires i < SLOTS && Progress(was, leases, times, i, yi) && |leases| == SLOTS
    requires yi' == if yi == SLOTS && Usable(leases[i], times[i]) then i else yi
    requires leases' == if yi == SLOTS && SeesExpired(leases[i].expiry, times[i])
                        then leases[i := leases[i].(mac := ZERO_MAC)] else leases
    ensures Progress(was, leases', times, i + 1, yi')
  {
    hide SeesExpired;
    var u := FirstUsable(was, times, 0);
    assert i <= u ==> (u == i <==> Usable(was[i], times[i]));
  }

  /** The loop has stopped at slot h, the client's first or past the last. */
  lemma Concludes(was: Table, leases: seq<Lease>, times: Times, m: Mac, h: nat, seen: nat, yi: nat)
    requires h <= SLOTS && (forall k :: 0 <= k < h ==> was[k].mac != m)
    requires h < SLOTS ==> was[h].mac == m && yi == h
    requires Progress(was, leases, times, h, seen) && (h == SLOTS ==> yi == seen)
    ensures yi == OfferedSlot(was, m, times) && leases == AfterDiscover(was, m, times)
  {
    hide SeesExpired, Usable;
    HolderIs(was, m, h);
  }

  lemma HolderIs(was: Table, m: Mac, h: nat)
    requires h <= SLOTS && (forall k :: 0 <= k < h ==> was[k].mac != m)
    requires h < SLOTS ==> was[h].mac == m
    ensures FirstHolder(was, m, 0) == h
  {}

  /** A client's REQUEST message for `address`: some header, message type, other options, END. */
  function ClientRequest(header: seq<byte>, between: seq<Opt>, address: Address, after: seq<Opt>): seq<byte>
    requires |header| == OPTIONS
  {
    header + EncodeAll([Opt(OPT_MSG_TYPE, [REQUEST_TYPE])] + between + [Opt(OPT_REQUESTED_IP, address)] + after) + [END]
  }

  /** The address a reply carries. */
  function ReplyAddress(reply: seq<byte>): Address
    requires |reply| > YIADDR + 4
  {
    reply[YIADDR..YIADDR + 4]
  }

  /** By the standard's reading the options ask for this address. */
  predicate AsksFor(opt: seq<byte>, address: Address)
    requires |opt| == MSG_SIZE + BEYOND - OPTIONS
  {
    match StandardFind(opt, OPT_REQUESTED_IP, 0)
    case None => false
    case Some(o) => opt[o + 2..o + 6] == address
  }

  /** The whole exchange in bytes, for any message with aligned PADs that asks for the address just
      offered to its sender: it is acknowledged exactly when the third option byte, where the message
      type stands if it comes first, is REQUEST. */
  lemma OfferedAddressIsAckedIff(leases: Table, discover: seq<byte>, stack: Memory, ip: Address, nm: Address,
                                 domain: Option<seq<byte>>, times: Times,
                                 request: seq<byte>, stack': Memory, times': Times)
    requires Handle(leases, discover, stack, ip, times).1.Offer? && |request| >= MIN_SIZE
    requires ClientMac(Received(request, stack')) == ClientMac(Received(discover, stack))
    requires Aligned(Received(request, stack')[OPTIONS..], 0)
    requires var answer := Handle(leases, discover, stack, ip, times).1;
             AsksFor(Received(request, stack')[OPTIONS..],
                     ReplyAddress(ReplyPacket(Received(discover, stack), answer.slot, OFFER_TYPE, ip, nm, domain)))
    ensures var (offered, answer) := Handle(leases, discover, stack, ip, times);
            Handle(offered, request, stack', ip, times').1 == Ack(answer.slot)
            <==> Received(request, stack')[OPTIONS + 2] == REQUEST_TYPE
  {
    hide EncodeAll, ReplyOptions, SeesExpired, AfterDiscover, OfferedSlot, Received, Aligned;
    var (offered, answer) := Handle(leases, discover, stack, ip, times);
    var slot, m := answer.slot, ClientMac(Received(discover, stack));
    var address := ReplyAddress(ReplyPacket(Received(discover, stack), slot, OFFER_TYPE, ip, nm, domain));
    assert address == ip[..3] + [BASE_IP + slot];
    var buf := Received(request, stack');
    if buf[OPTIONS + 2] == REQUEST_TYPE {
      AlignedSlotIsFound(buf, ip, slot);
      OfferIsGranted(leases, m, times, times'[0]);
    }
  }

  lemma AlignedSlotIsFound(buf: Memory, ip: Address, slot: nat)
    requires slot < SLOTS && Aligned(buf[OPTIONS..], 0) && AsksFor(buf[OPTIONS..], ip[..3] + [BASE_IP + slot])
    ensures RequestedSlot(buf, ip) == Some(slot)
  {
    hide Aligned, StandardFind, FindFrom;
    var opt := buf[OPTIONS..];
    AlignedAgrees(opt, OPT_REQUESTED_IP, 0);
    AddressIsSlot(buf, FindFrom(opt, OPT_REQUESTED_IP, 0).value, ip, slot);
  }

  /** A REQUEST that RFC 2132 allows: message type, one PAD, the address, END, and PADs to the end. */
  function PaddedRequest(header: seq<byte>, address: Address): seq<byte>
    requires |header| == OPTIONS
  {
    header + [OPT_MSG_TYPE, 1, REQUEST_TYPE, PAD, OPT_REQUESTED_IP, 4] + address + [END]
    + Zeros(MSG_SIZE - OPTIONS - 11)
  }

  /** The standard finds the address in it; the server does not, and never answers, whatever its table. */
  lemma OnePadLosesRequest(leases: Table, header: seq<byte>, address: Address, ip: Address, stack: Memory, times: Times)
    requires |header| == OPTIONS
    ensures AsksFor(Received(PaddedRequest(header, address), stack)[OPTIONS..], address)
    ensures Handle(leases, PaddedRequest(header, address), stack, ip, times) == (leases, Silent)
  {
    hide Aligned, SeesExpired, Step, PaddedRequest, Received;
    var packet := PaddedRequest(header, address);
    PaddedOptions(header, address, stack);
    var buf := Received(packet, stack);
    PadHidesAddress(buf[OPTIONS..]);
    assert buf[OPTIONS + 2] == buf[OPTIONS..][2];
  }

  lemma PaddedOptions(header: seq<byte>, address: Address, stack: Memory)
    requires |header| == OPTIONS
    ensures var opt := Received(PaddedRequest(header, address), stack)[OPTIONS..];
            && opt[..6] == [OPT_MSG_TYPE, 1, REQUEST_TYPE, PAD, OPT_REQUESTED_IP, 4]
            && opt[6..10] == address && (forall j :: 11 <= j < SEARCH_LIMIT ==> opt[j] == PAD)
    ensures |PaddedRequest(header, address)| == MSG_SIZE
  {
    var packet, head := PaddedRequest(header, address), [OPT_MSG_TYPE, 1, REQUEST_TYPE, PAD, OPT_REQUESTED_IP, 4];
    var z := Zeros(MSG_SIZE - OPTIONS - 11);
    assert packet[OPTIONS..] == head + address + [END] + z;
    var opt := Received(packet, stack)[OPTIONS..];
    assert opt == packet[OPTIONS..] + stack[MSG_SIZE..];
    assert forall j :: 11 <= j < SEARCH_LIMIT ==> opt[j] == z[j - 11];
  }

  lemma PadHidesAddress(opt: seq<byte>)
    requires |opt| > SEARCH_LIMIT && opt[..6] == [OPT_MSG_TYPE, 1, REQUEST_TYPE, PAD, OPT_REQUESTED_IP, 4]
    requires forall j :: 11 <= j < SEARCH_LIMIT ==> opt[j] == PAD
    ensures FindFrom(opt, OPT_REQUESTED_IP, 0) == None && StandardFind(opt, OPT_REQUESTED_IP, 0) == Some(4)
    ensures opt[2] == REQUEST_TYPE
  {
    var head := opt[..6];
    assert opt[0] == head[0] && opt[1] == head[1] && opt[2] == head[2] && opt[3] == head[3] && opt[4] == head[4];
    assert FindFrom(opt, OPT_REQUESTED_IP, 0) == FindFrom(opt, OPT_REQUESTED_IP, 3)
        == FindFrom(opt, OPT_REQUESTED_IP, 55);
    AllPadFindsNothing(opt, OPT_REQUESTED_IP, 55);
    assert StandardFind(opt, OPT_REQUESTED_IP, 0) == StandardFind(opt, OPT_REQUESTED_IP, 3)
        == StandardFind(opt, OPT_REQUESTED_IP, 4) == Some(4);
  }

  lemma {:induction false} AllPadFindsNothing(opt: seq<byte>, cmd: byte, i: nat)
    requires |opt| > SEARCH_LIMIT && cmd != PAD && forall j :: i <= j < SEARCH_LIMIT ==> opt[j] == PAD
    ensures FindFrom(opt, cmd, i) == None
    decreases SEARCH_LIMIT - i
  {
    if i < SEARCH_LIMIT {
      AllPadFindsNothing(opt, cmd, i + 2 + opt[i + 1]);
    }
  }

  /** The same for a message made of options with length bytes, the message type first, any others
      around the address: it is acknowledged. */
  lemma OfferedAddressIsAcked(leases: Table, discover: seq<byte>, stack: Memory, ip: Address, nm: Address,
                              domain: Option<seq<byte>>, times: Times,
                              header: seq<byte>, between: seq<Opt>, after: seq<Opt>, stack': Memory, times': Times)
    requires Handle(leases, discover, stack, ip, times).1.Offer?
    requires |header| == OPTIONS && header[CHADDR..CHADDR + 6] == ClientMac(Received(discover, stack))
    requires WellFormed(between) && WellFormed(after)
    requires forall k :: 0 <= k < |between| ==> between[k].tag != OPT_REQUESTED_IP
    requires var asked := Opt(OPT_REQUESTED_IP, [0, 0, 0, 0]);
             |EncodeAll([Opt(OPT_MSG_TYPE, [REQUEST_TYPE])] + between + [asked] + after)| < SEARCH_LIMIT
    ensures var (offered, answer) := Handle(leases, discover, stack, ip, times);
            var reply := ReplyPacket(Received(discover, stack), answer.slot, OFFER_TYPE, ip, nm, domain);
            var address := ReplyAddress(reply);
            Handle(offered, ClientRequest(header, between, address, after), stack', ip, times').1 == Ack(answer.slot)
  {
    hide EncodeAll, ReplyOptions, SeesExpired, AfterDiscover, OfferedSlot, WellFormed;
    var (offered, answer) := Handle(leases, discover, stack, ip, times);
    var slot, m := answer.slot, ClientMac(Received(discover, stack));
    var reply := ReplyPacket(Received(discover, stack), slot, OFFER_TYPE, ip, nm, domain);
    var address := ReplyAddress(reply);
    assert address == ip[..3] + [BASE_IP + slot];
    RequestIsDecoded(header, between, address, after, stack', ip, slot, times');
    OfferIsGranted(leases, m, times, times'[0]);
  }

  lemma {:induction false} EncodedLength(first: seq<Opt>, a: Opt, b: Opt, rest: seq<Opt>)
    requires |a.data| == |b.data|
    ensures |EncodeAll(first + [a] + rest)| == |EncodeAll(first + [b] + rest)|
  {
    if first == [] {
      assert ([a] + rest)[1..] == rest && ([b] + rest)[1..] == rest;
      assert [] + [a] + rest == [a] + rest && [] + [b] + rest == [b] + rest;
    } else {
      EncodedLength(first[1..], a, b, rest);
      assert (first + [a] + rest)[1..] == first[1..] + [a] + rest;
      assert (first + [b] + rest)[1..] == first[1..] + [b] + rest;
    }
  }

  lemma RequestIsDecoded(header: seq<byte>, between: seq<Opt>, address: Address, after: seq<Opt>,
                         stack: Memory, ip: Address, slot: nat, times: Times)
    requires |header| == OPTIONS && slot < SLOTS && address == ip[..3] + [BASE_IP + slot]
    requires WellFormed(between) && WellFormed(after)
    requires forall k :: 0 <= k < |between| ==> between[k].tag != OPT_REQUESTED_IP
    requires var asked := Opt(OPT_REQUESTED_IP, [0, 0, 0, 0]);
             |EncodeAll([Opt(OPT_MSG_TYPE, [REQUEST_TYPE])] + between + [asked] + after)| < SEARCH_LIMIT
    ensures var packet := ClientRequest(header, between, address, after);
            && |packet| >= MIN_SIZE
            && Decode(Received(packet, stack), ip, times) == Some(Request(header[CHADDR..CHADDR + 6], slot, times[0]))
  {
    hide EncodeAll, Received, RequestedSlot, ClientMac, EncodeOpt;
    var kind := Opt(OPT_MSG_TYPE, [REQUEST_TYPE]);
    var first, wanted := [kind] + between, Opt(OPT_REQUESTED_IP, address);
    var opts := first + [wanted] + after;
    EncodedLength(first, wanted, Opt(OPT_REQUESTED_IP, [0, 0, 0, 0]), after);
    var all := EncodeAll(opts);
    var buf := Received(header + all + [END], stack);
    PacketInMemory(header, all, stack);
    assert opts[0] == kind && opts[|first|] == wanted;
    TypeInFront(buf, opts);
    assert forall k :: 0 <= k < |first| ==> opts[k] == first[k];
    SlotIsFound(buf, opts, |first|, ip, slot);
  }

  lemma TypeInFront(buf: Memory, opts: seq<Opt>)
    requires opts != [] && opts[0] == Opt(OPT_MSG_TYPE, [REQUEST_TYPE]) && |EncodeAll(opts)| < SEARCH_LIMIT
    requires buf[OPTIONS..][0..0 + |EncodeAll(opts)|] == EncodeAll(opts)
    ensures buf[OPTIONS + 2] == REQUEST_TYPE && |EncodeAll(opts)| >= 3
  {
    hide EncodeAll;
    HeadOf(buf[OPTIONS..], 0, opts);
    assert buf[OPTIONS..][2] == buf[OPTIONS..][0 + 2..0 + 2 + 1][0];
  }

  lemma PacketInMemory(header: seq<byte>, all: seq<byte>, stack: Memory)
    requires |header| == OPTIONS && |all| < SEARCH_LIMIT
    ensures var buf := Received(header + all + [END], stack);
            && ClientMac(buf) == header[CHADDR..CHADDR + 6]
            && buf[OPTIONS..][0..0 + |all|] == all && buf[OPTIONS..][0 + |all|] == END
  {
    var packet := header + all + [END];
    var buf := Received(packet, stack);
    assert buf[0..0 + |packet|] == packet;
    hide Received;
    var end := OPTIONS + |all|;
    assert packet[CHADDR..CHADDR + 6] == header[CHADDR..CHADDR + 6];
    assert packet[OPTIONS..end] == all && packet[end..end + 1] == [END];
    Within(buf, 0, packet, CHADDR, CHADDR + 6);
    Within(buf, 0, packet, OPTIONS, end);
    Within(buf, 0, packet, end, end + 1);
    assert buf[end] == buf[0 + end..0 + (end + 1)][0];
    assert buf[OPTIONS..][0..0 + |all|] == buf[0 + OPTIONS..0 + end];
  }

  lemma SlotIsFound(buf: Memory, opts: seq<Opt>, n: nat, ip: Address, slot: nat)
    requires WellFormed(opts) && n < |opts| && slot < SLOTS && |EncodeAll(opts)| < SEARCH_LIMIT
    requires buf[OPTIONS..][0..0 + |EncodeAll(opts)|] == EncodeAll(opts) && buf[OPTIONS..][0 + |EncodeAll(opts)|] == END
    requires opts[n] == Opt(OPT_REQUESTED_IP, ip[..3] + [BASE_IP + slot])
    requires forall k :: 0 <= k < n ==> opts[k].tag != OPT_REQUESTED_IP
    ensures RequestedSlot(buf, ip) == Some(slot)
  {
    hide EncodeAll, WellFormed, OffsetOf, FindFrom;
    var opt := buf[OPTIONS..];
    NotFoundIff(opts, OPT_REQUESTED_IP);
    FindWritten(opt, 0, opts, OPT_REQUESTED_IP);
    var k := FoundData(opt, 0, opts, OPT_REQUESTED_IP);
    assert k == n;
    var o := OffsetOf(opts, OPT_REQUESTED_IP).value;
    assert opt[o + 2..o + 6] == ip[..3] + [BASE_IP + slot];
    AddressIsSlot(buf, o, ip, slot);
  }

  /** The four bytes of the address in the message select the slot. */
  lemma AddressIsSlot(buf: Memory, o: nat, ip: Address, slot: nat)
    requires slot < SLOTS && o < SEARCH_LIMIT && buf[OPTIONS..][o + 2..o + 6] == ip[..3] + [BASE_IP + slot]
    requires FindFrom(buf[OPTIONS..], OPT_REQUESTED_IP, 0) == Some(o)
    ensures RequestedSlot(buf, ip) == Some(slot)
  {
    hide FindFrom;
    var data := buf[OPTIONS..][o + 2..o + 6];
    assert data[..3] == ip[..3] && data[3] == BASE_IP + slot;
    assert buf[OPTIONS + o + 2..OPTIONS + o + 5] == data[..3];
    assert buf[OPTIONS + o + 5] == data[3];
  }
}
