/**
 The lease table of dhcpserver/dhcpserver.cpp as a state machine: expiry arithmetic,
 DISCOVER and REQUEST steps, and what holds over whole runs.
 Times are true milliseconds since start; the code sees them modulo 2^32.
 */
module DhcpLease {
  import opened Words

  const SLOTS: nat := 8
  /** DEFAULT_LEASE_TIME_S * 1000. */
  const LEASE_MS: nat := 86_400_000
  const ZERO_MAC: Mac := [0, 0, 0, 0, 0, 0]

  type Mac = m: seq<byte> | |m| == 6 witness [0, 0, 0, 0, 0, 0]

  datatype Lease = Lease(mac: Mac, expiry: nat)

  type Table = t: seq<Lease> | |t| == SLOTS witness seq(SLOTS, i => Lease(ZERO_MAC, 0))

  type Times = t: seq<nat> | |t| == SLOTS witness seq(SLOTS, i => 0)

  // ----- Expiry arithmetic -----

  /** `(cyw43_hal_ticks_ms() + DEFAULT_LEASE_TIME_S * 1000) >> 16`. */
  function ExpiryOf(t: nat): (e: nat)
    ensures e < TWO16
  {
    U32(U32(t) + LEASE_MS) / TWO16
  }

  /** `(int32_t)((expiry << 16 | 0xffff) - cyw43_hal_ticks_ms()) < 0`. */
  function SeesExpired(expiry: nat, t: nat): bool {
    ToInt32(U32(expiry * TWO16 + 0xFFFF) - U32(t)) < 0
  }

  /** The last millisecond at which a lease granted at `granted` still counts as live. */
  function LastLive(granted: nat): (x: nat)
    ensures granted + LEASE_MS <= x < granted + LEASE_MS + TWO16
  {
    (granted + LEASE_MS) / TWO16 * TWO16 + 0xFFFF
  }

  lemma ModOfSum(x: int, y: int, m: int)
    requires m > 0
    ensures (x % m + y) % m == (x + y) % m && (x - y % m) % m == (x - y) % m
  {
    var q, s := x / m, y / m;
    assert x == m * q + x % m && y == m * s + y % m;
    ModUnique(x % m + y, x + y, q, m);
    ModUnique(x - y, x - y % m, s, m);
  }

  /** Numbers that differ by a multiple of m agree modulo m. */
  lemma ModUnique(a: int, b: int, k: int, m: int)
    requires m > 0 && b == a + m * k
    ensures a % m == b % m
  {
    var p, q := a / m, b / m;
    assert a == m * p + a % m && b == m * q + b % m;
    var d := q - p - k;
    assert m * d == a % m - b % m;
    assert -m < m * d < m;
    assert d >= 1 ==> m * d >= m;
    assert d <= -1 ==> m * d <= -m;
  }

  /** The stored 16 bits denote LastLive modulo 2^32. */
  lemma StoredExpiry(granted: nat)
    ensures U32(ExpiryOf(granted) * TWO16 + 0xFFFF) == U32(LastLive(granted))
  {
    var s := granted + LEASE_MS;
    ModOfSum(granted, LEASE_MS, TWO32);
    assert U32(U32(granted) + LEASE_MS) == U32(s);
    var q, r := s / TWO32, s % TWO32;
    assert s == TWO32 * q + r;
    assert s / TWO16 == TWO16 * q + r / TWO16;
    assert LastLive(granted) == (r / TWO16 * TWO16 + 0xFFFF) + TWO32 * q;
    ModUnique(r / TWO16 * TWO16 + 0xFFFF, LastLive(granted), q, TWO32);
  }

  lemma DifferenceModulo(x: int, t: int)
    ensures U32(U32(x) - U32(t)) == U32(x - t)
  {
    ModOfSum(x, 0 - (U32(t) as int), TWO32);
    ModOfSum(x, t, TWO32);
  }

  /** The sign bit of a 32-bit difference. */
  lemma SignOfDifference(d: int)
    ensures ToInt32(d) < 0 <==> (-d - 1) % TWO32 < TWO32 / 2
  {
    var u, p := U32(d), d / TWO32;
    assert d == TWO32 * p + u;
    ModUnique(TWO32 - 1 - u, -d - 1, -p - 1, TWO32);
  }

  /** Exactly when a lease is seen as expired: for 2^31 ms after its last live millisecond,
      and again in every later half period of the clock. */
  lemma ExpiryExactIff(granted: nat, t: nat)
    ensures SeesExpired(ExpiryOf(granted), t)
            <==> (t - LastLive(granted) - 1) % TWO32 < TWO32 / 2
  {
    var x := LastLive(granted);
    StoredExpiry(granted);
    DifferenceModulo(x, t);
    assert ToInt32(U32(x) - U32(t)) == ToInt32(x - t);
    SignOfDifference(x - t);
    assert -(x - t) - 1 == t - x - 1;
  }

  /** A lease is live for the whole lease time. */
  lemma LiveForLeaseTime(granted: nat, t: nat)
    requires granted <= t <= granted + LEASE_MS
    ensures !SeesExpired(ExpiryOf(granted), t)
  {
    ExpiryExactIff(granted, t);
    var d := t - LastLive(granted) - 1;
    ModUnique(d + TWO32, d, -1, TWO32);
  }

  /** It is seen as expired at every time from 65,536 ms after that until the sign bit wraps. */
  lemma ExpiredAfterwards(granted: nat, t: nat)
    requires granted + LEASE_MS + TWO16 <= t <= granted + LEASE_MS + TWO32 / 2
    ensures SeesExpired(ExpiryOf(granted), t)
  {
    ExpiryExactIff(granted, t);
  }

  /** From then on for 2^31 ms an abandoned lease counts as live again. */
  lemma LiveAgainAfterWrap(granted: nat, t: nat)
    requires LastLive(granted) + TWO32 / 2 < t <= LastLive(granted) + TWO32
    ensures !SeesExpired(ExpiryOf(granted), t)
  {
    ExpiryExactIff(granted, t);
  }

  // ----- The two message handlers on the table -----

  /** The first slot at or after i that holds m, or SLOTS. */
  function FirstHolder(leases: Table, m: Mac, i: nat): (h: nat)
    requires i <= SLOTS
    ensures i <= h <= SLOTS
    ensures h < SLOTS ==> leases[h].mac == m
    ensures forall k :: i <= k < h ==> leases[k].mac != m
    decreases SLOTS - i
  {
    if i == SLOTS || leases[i].mac == m then i else FirstHolder(leases, m, i + 1)
  }

  /** Free, or expired at the moment the slot is looked at. */
  predicate Usable(l: Lease, t: nat) {
    l.mac == ZERO_MAC || SeesExpired(l.expiry, t)
  }

  function FirstUsable(leases: Table, times: Times, i: nat): (u: nat)
    requires i <= SLOTS
    ensures i <= u <= SLOTS
    ensures u < SLOTS ==> Usable(leases[u], times[u])
    ensures forall k :: i <= k < u ==> !Usable(leases[k], times[k])
    decreases SLOTS - i
  {
    if i == SLOTS || Usable(leases[i], times[i]) then i else FirstUsable(leases, times, i + 1)
  }

  /** The slot DISCOVER offers: the client's own, else the first usable one, else SLOTS. */
  function OfferedSlot(leases: Table, m: Mac, times: Times): (yi: nat)
    ensures yi <= SLOTS
  {
    var h := FirstHolder(leases, m, 0);
    if h < SLOTS then h else FirstUsable(leases, times, 0)
  }

  /** The table after DISCOVER: the first usable slot is wiped if it lies before the client's own
      slot and had expired. */
  function AfterDiscover(leases: Table, m: Mac, times: Times): (r: Table) {
    var h, u := FirstHolder(leases, m, 0), FirstUsable(leases, times, 0);
    if u < h && SeesExpired(leases[u].expiry, times[u])
    then leases[u := leases[u].(mac := ZERO_MAC)]
    else leases
  }

  /** REQUEST of a slot is granted to its holder, or to anyone when the slot is free. */
  predicate Grants(leases: Table, m: Mac, slot: nat)
    requires slot < SLOTS
  {
    leases[slot].mac == m || leases[slot].mac == ZERO_MAC
  }

  function AfterRequest(leases: Table, m: Mac, slot: nat, t: nat): (r: Table)
    requires slot < SLOTS
  {
    if Grants(leases, m, slot) then leases[slot := Lease(m, ExpiryOf(t))] else leases
  }

  // ----- Runs -----

  datatype Msg =
    | Discover(mac: Mac, times: Times)
    | Request(mac: Mac, slot: nat, time: nat)

  datatype Answer = Silent | Offer(slot: nat) | Ack(slot: nat)

  predicate ValidMsg(msg: Msg) {
    msg.Request? ==> msg.slot < SLOTS
  }

  function Step(leases: Table, msg: Msg): (Table, Answer)
    requires ValidMsg(msg)
  {
    match msg
    case Discover(m, times) =>
      var yi := OfferedSlot(leases, m, times);
      (AfterDiscover(leases, m, times), if yi == SLOTS then Silent else Offer(yi))
    case Request(m, slot, t) =>
      (AfterRequest(leases, m, slot, t), if Grants(leases, m, slot) then Ack(slot) else Silent)
  }

  ghost predicate ValidRun(msgs: seq<Msg>) {
    forall k :: 0 <= k < |msgs| ==> ValidMsg(msgs[k])
  }

  /** The table after the messages, handled in order. */
  function Run(leases: Table, msgs: seq<Msg>): Table
    requires ValidRun(msgs)
    decreases |msgs|
  {
    if msgs == [] then leases else Run(Step(leases, msgs[0]).0, msgs[1..])
  }

  /** The answer to message k. */
  function AnswerAt(leases: Table, msgs: seq<Msg>, k: nat): Answer
    requires ValidRun(msgs) && k < |msgs|
  {
    Step(Run(leases, msgs[..k]), msgs[k]).1
  }

  // ----- DISCOVER is sound -----

  /** A DISCOVER wipes at most one slot, only an expired one, never the client's own; it leads
      nowhere exactly when all slots are live for other clients. */
  lemma DiscoverSound(leases: Table, m: Mac, times: Times)
    ensures var after := AfterDiscover(leases, m, times);
            after == leases
            || exists u :: 0 <= u < SLOTS && SeesExpired(leases[u].expiry, times[u]) && leases[u].mac != m
                           && after == leases[u := leases[u].(mac := ZERO_MAC)]
    ensures OfferedSlot(leases, m, times) == SLOTS
            <==> forall k :: 0 <= k < SLOTS ==> leases[k].mac != m && !Usable(leases[k], times[k])
  {}

  /** An offered address is granted when it is requested next, at any later time. */
  lemma OfferIsGranted(leases: Table, m: Mac, times: Times, t: nat)
    requires OfferedSlot(leases, m, times) < SLOTS
    ensures var yi := OfferedSlot(leases, m, times);
            var after := AfterDiscover(leases, m, times);
            && Step(leases, Discover(m, times)) == (after, Offer(yi))
            && Step(after, Request(m, yi, t)) == (after[yi := Lease(m, ExpiryOf(t))], Ack(yi))
  {
    var yi := OfferedSlot(leases, m, times);
    var after := AfterDiscover(leases, m, times);
    if FirstHolder(leases, m, 0) < SLOTS {
      assert after[yi].mac == m;
    } else {
      assert after[yi].mac == ZERO_MAC;
    }
  }

  // ----- Exclusivity over whole runs -----

  function FirstTime(msg: Msg): nat {
    match msg
    case Discover(_, times) => times[0]
    case Request(_, _, t) => t
  }

  function LastTime(msg: Msg): nat {
    match msg
    case Discover(_, times) => times[SLOTS - 1]
    case Request(_, _, t) => t
  }

  /** Clock readings never go back, within a message or between messages. */
  ghost predicate Ordered(msgs: seq<Msg>, now: nat)
    decreases |msgs|
  {
    msgs == []
    || (now <= FirstTime(msgs[0])
        && (msgs[0].Discover? ==> forall i, j :: 0 <= i <= j < SLOTS ==> msgs[0].times[i] <= msgs[0].times[j])
        && Ordered(msgs[1..], LastTime(msgs[0])))
  }

  /** Slot s belongs to m under a lease granted at time g. */
  predicate Holds(leases: Table, s: nat, m: Mac, g: nat)
    requires s < SLOTS
  {
    leases[s] == Lease(m, ExpiryOf(g))
  }

  /** One message within the lease time leaves the slot with its holder, and is not answered with
      the slot unless it comes from the holder. */
  lemma StepKeepsHolder(leases: Table, msg: Msg, s: nat, m: Mac, g: nat) returns (g': nat)
    requires ValidMsg(msg) && s < SLOTS && m != ZERO_MAC && Holds(leases, s, m, g)
    requires Ordered([msg], g) && LastTime(msg) <= g + LEASE_MS
    ensures g <= g' <= LastTime(msg) || g' == g
    ensures Holds(Step(leases, msg).0, s, m, g')
    ensures msg.mac != m ==> Step(leases, msg).1 != Offer(s) && Step(leases, msg).1 != Ack(s)
  {
    g' := g;
    match msg {
      case Discover(n, times) =>
        LiveForLeaseTime(g, times[s]);
      case Request(n, slot, t) =>
        if slot == s && n == m {
          g' := t;
        }
    }
  }

  /** After an ACK at time `acked`, no message handled in the next 86,400,000 ms takes the slot
      from its client or offers or grants it to another. */
  lemma {:induction false} Exclusive(leases: Table, msgs: seq<Msg>, s: nat, m: Mac, acked: nat, g: nat, now: nat)
    requires ValidRun(msgs) && s < SLOTS && m != ZERO_MAC
    requires acked <= g <= now && Holds(leases, s, m, g) && Ordered(msgs, now)
    requires forall k :: 0 <= k < |msgs| ==> LastTime(msgs[k]) <= acked + LEASE_MS
    ensures Run(leases, msgs)[s].mac == m
    ensures forall k :: 0 <= k < |msgs| && msgs[k].mac != m
                        ==> AnswerAt(leases, msgs, k) != Offer(s) && AnswerAt(leases, msgs, k) != Ack(s)
    decreases |msgs|
  {
    if msgs != [] {
      assert msgs[..0] == [];
      assert Ordered([msgs[0]], g);
      var g' := StepKeepsHolder(leases, msgs[0], s, m, g);
      var next := Step(leases, msgs[0]).0;
      assert LastTime(msgs[0]) >= FirstTime(msgs[0]);
      Exclusive(next, msgs[1..], s, m, acked, g', LastTime(msgs[0]));
      forall k | 1 <= k < |msgs|
        ensures AnswerAt(leases, msgs, k) == AnswerAt(next, msgs[1..], k - 1)
      {
        assert msgs[..k][0] == msgs[0] && msgs[..k][1..] == msgs[1..][..k - 1];
      }
    }
  }

  lemma {:induction false} RunSplit(leases: Table, msgs: seq<Msg>, i: nat)
    requires ValidRun(msgs) && i <= |msgs|
    ensures Run(leases, msgs) == Run(Run(leases, msgs[..i]), msgs[i..])
    decreases |msgs|
  {
    if i > 0 {
      RunSplit(Step(leases, msgs[0]).0, msgs[1..], i - 1);
      assert msgs[..i][0] == msgs[0] && msgs[..i][1..] == msgs[1..][..i - 1];
      assert msgs[1..][i - 1..] == msgs[i..];
    } else {
      assert msgs[..0] == [] && msgs[0..] == msgs;
    }
  }

  lemma {:induction false} OrderedFrom(msgs: seq<Msg>, now: nat, i: nat)
    requires Ordered(msgs, now) && i < |msgs|
    ensures Ordered(msgs[i + 1..], LastTime(msgs[i])) && LastTime(msgs[i]) >= FirstTime(msgs[i])
    ensures forall k :: i <= k < |msgs| ==> FirstTime(msgs[i]) <= LastTime(msgs[k])
    ensures forall k :: 0 <= k < i ==> LastTime(msgs[k]) <= FirstTime(msgs[i])
    ensures now <= FirstTime(msgs[i])
    decreases |msgs|
  {
    if i == 0 {
      forall k | 1 <= k < |msgs|
        ensures FirstTime(msgs[0]) <= LastTime(msgs[k])
      {
        OrderedFrom(msgs[1..], LastTime(msgs[0]), k - 1);
        assert msgs[1..][k - 1] == msgs[k];
      }
    } else {
      OrderedFrom(msgs[1..], LastTime(msgs[0]), i - 1);
      assert msgs[1..][i - 1..][1..] == msgs[i + 1..];
      assert msgs[1..][i..] == msgs[i + 1..];
      assert forall k :: 1 <= k < |msgs| ==> msgs[1..][k - 1] == msgs[k];
    }
  }

  /** The part of a run after message i, up to and including message j. */
  function Later(msgs: seq<Msg>, i: nat, j: nat): seq<Msg>
    requires i < j < |msgs|
  {
    msgs[i + 1..j + 1]
  }

  lemma LaterAnswer(leases: Table, msgs: seq<Msg>, granted: Table, i: nat, j: nat)
    requires ValidRun(msgs) && i < j < |msgs| && ValidRun(Later(msgs, i, j))
    requires Run(granted, msgs[i + 1..j]) == Run(leases, msgs[..j])
    ensures AnswerAt(granted, Later(msgs, i, j), j - i - 1) == AnswerAt(leases, msgs, j)
  {
    assert Later(msgs, i, j)[..j - i - 1] == msgs[i + 1..j];
  }

  lemma RunAcross(leases: Table, msgs: seq<Msg>, i: nat, j: nat)
    requires ValidRun(msgs) && i < j < |msgs|
    ensures Run(Step(Run(leases, msgs[..i]), msgs[i]).0, msgs[i + 1..j]) == Run(leases, msgs[..j])
  {
    var front, middle := msgs[..j], msgs[i..j];
    RunSplit(leases, front, i);
    assert front[..i] == msgs[..i] && front[i..] == middle;
    var before := Run(leases, msgs[..i]);
    assert middle[0] == msgs[i] && middle[1..] == msgs[i + 1..j];
    assert Run(before, middle) == Run(Step(before, middle[0]).0, middle[1..]);
  }

  lemma LaterTimes(msgs: seq<Msg>, start: nat, i: nat, j: nat)
    requires Ordered(msgs, start) && i < j < |msgs|
    ensures Ordered(Later(msgs, i, j), LastTime(msgs[i]))
    ensures forall k :: 0 <= k < j - i ==> LastTime(Later(msgs, i, j)[k]) <= LastTime(msgs[j])
  {
    var upto, later := msgs[..j + 1], Later(msgs, i, j);
    OrderedPrefix(msgs, start, j + 1);
    OrderedFrom(upto, start, i);
    OrderedFrom(upto, start, j);
    assert upto[i + 1..] == later;
    assert forall k :: 0 <= k < j - i ==> later[k] == upto[i + 1 + k];
  }

  predicate Gives(answer: Answer, slot: nat) {
    answer == Offer(slot) || answer == Ack(slot)
  }

  /** An address acknowledged to one client is not acknowledged, or even offered, to another less
      than a lease time later, in any run from any table. */
  lemma AcksAreExclusiveForADay(leases: Table, msgs: seq<Msg>, start: nat, i: nat, j: nat)
    requires ValidRun(msgs) && Ordered(msgs, start) && i < j < |msgs|
    requires AnswerAt(leases, msgs, i).Ack? && Gives(AnswerAt(leases, msgs, j), AnswerAt(leases, msgs, i).slot)
    requires msgs[i].mac != ZERO_MAC && msgs[i].mac != msgs[j].mac
    ensures LastTime(msgs[j]) > LastTime(msgs[i]) + LEASE_MS
  {
    if LastTime(msgs[j]) <= LastTime(msgs[i]) + LEASE_MS {
      var s, m, g := AnswerAt(leases, msgs, i).slot, msgs[i].mac, LastTime(msgs[i]);
      var granted := Step(Run(leases, msgs[..i]), msgs[i]).0;
      assert ValidRun(Later(msgs, i, j));
      RunAcross(leases, msgs, i, j);
      LaterAnswer(leases, msgs, granted, i, j);
      LaterTimes(msgs, start, i, j);
      Exclusive(granted, Later(msgs, i, j), s, m, g, g, g);
    }
  }

  lemma {:induction false} OrderedPrefix(msgs: seq<Msg>, now: nat, n: nat)
    requires Ordered(msgs, now) && n <= |msgs|
    ensures Ordered(msgs[..n], now)
    decreases |msgs|
  {
    if n > 0 {
      OrderedPrefix(msgs[1..], LastTime(msgs[0]), n - 1);
      assert msgs[..n][1..] == msgs[1..][..n - 1];
    }
  }

  // ----- One address per client -----

  /** No client holds two slots. */
  ghost predicate SingleBinding(leases: Table) {
    forall i, j :: 0 <= i < j < SLOTS && leases[i].mac == leases[j].mac ==> leases[i].mac == ZERO_MAC
  }

  /** What each client was last offered, after one more message. */
  function NextOffers(offers: map<Mac, nat>, leases: Table, msg: Msg): map<Mac, nat>
    requires ValidMsg(msg)
  {
    match Step(leases, msg).1
    case Offer(slot) => offers[msg.mac := slot]
    case _ => offers
  }

  /** Every client requests only the address it was last offered. */
  ghost predicate Disciplined(offers: map<Mac, nat>, leases: Table, msgs: seq<Msg>)
    requires ValidRun(msgs)
    decreases |msgs|
  {
    msgs == []
    || ((msgs[0].Request? ==> msgs[0].mac in offers && offers[msgs[0].mac] == msgs[0].slot)
        && Disciplined(NextOffers(offers, leases, msgs[0]), Step(leases, msgs[0]).0, msgs[1..]))
  }

  /** A slot is held only by a client that was last offered it. */
  ghost predicate HeldAsOffered(offers: map<Mac, nat>, leases: Table) {
    forall s :: 0 <= s < SLOTS && leases[s].mac != ZERO_MAC
                ==> leases[s].mac in offers && offers[leases[s].mac] == s
  }

  lemma StepHeldAsOffered(offers: map<Mac, nat>, leases: Table, msg: Msg)
    requires ValidMsg(msg) && HeldAsOffered(offers, leases)
    requires msg.Request? ==> msg.mac in offers && offers[msg.mac] == msg.slot
    ensures HeldAsOffered(NextOffers(offers, leases, msg), Step(leases, msg).0)
  {
    var offers', leases' := NextOffers(offers, leases, msg), Step(leases, msg).0;
    forall s | 0 <= s < SLOTS && leases'[s].mac != ZERO_MAC
      ensures leases'[s].mac in offers' && offers'[leases'[s].mac] == s
    {
      if leases[s].mac == leases'[s].mac && leases[s].mac == msg.mac && msg.Discover? {
        assert FirstHolder(leases, msg.mac, 0) == s;
      }
    }
  }

  /** In every disciplined run from a fresh server, each client holds at most one address. */
  lemma {:induction false} OneAddressPerClient(offers: map<Mac, nat>, leases: Table, msgs: seq<Msg>)
    requires ValidRun(msgs) && HeldAsOffered(offers, leases) && Disciplined(offers, leases, msgs)
    ensures SingleBinding(Run(leases, msgs))
    decreases |msgs|
  {
    if msgs != [] {
      StepHeldAsOffered(offers, leases, msgs[0]);
      OneAddressPerClient(NextOffers(offers, leases, msgs[0]), Step(leases, msgs[0]).0, msgs[1..]);
    }
  }

  /** Without the discipline: a grant keeps addresses single exactly when the client holds no other. */
  lemma GrantKeepsSingleIff(leases: Table, m: Mac, slot: nat, t: nat)
    requires SingleBinding(leases) && m != ZERO_MAC && slot < SLOTS && Grants(leases, m, slot)
    ensures SingleBinding(AfterRequest(leases, m, slot, t))
            <==> forall k :: 0 <= k < SLOTS && k != slot ==> leases[k].mac != m
  {
    var after := AfterRequest(leases, m, slot, t);
    forall k | 0 <= k < SLOTS && k != slot && leases[k].mac == m
      ensures !SingleBinding(after)
    {
      var i, j := if k < slot then k else slot, if k < slot then slot else k;
      assert after[i].mac == after[j].mac == m;
    }
  }

  const FREE: Lease := Lease(ZERO_MAC, 0)
  /** All slots free. */
  const FRESH: Table := [FREE, FREE, FREE, FREE, FREE, FREE, FREE, FREE]

  /** A client that asks for two free addresses in a row, unasked, gets both. */
  lemma UndisciplinedClientHoldsTwo(m: Mac, t: nat)
    requires m != ZERO_MAC
    ensures !SingleBinding(Run(FRESH, [Request(m, 0, t), Request(m, 1, t)]))
  {
    var first := AfterRequest(FRESH, m, 0, t);
    var second := AfterRequest(first, m, 1, t);
    var msgs := [Request(m, 0, t), Request(m, 1, t)];
    assert msgs[1..] == [Request(m, 1, t)] && msgs[1..][1..] == [];
    assert FRESH[0].mac == FRESH[1].mac == ZERO_MAC;
    assert first[1].mac == ZERO_MAC;
    assert Run(FRESH, msgs) == Run(first, msgs[1..]) == second;
    assert second[0].mac == second[1].mac == m;
  }
}
