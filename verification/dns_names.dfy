/** Name walking and matching of the DNS responder (dns/dnsserver.cpp, src/settings.cpp), against
    RFC 1035 sections 3.1 and 4.1.4. */
module DnsNames {
  import opened Words

  type Label = seq<byte>

  const DOT: byte := 0x2E

  // ----- Encoded names -----

  /** RFC 1035 section 3.1: length-prefixed labels. */
  function EncodeLabels(labels: seq<Label>): seq<byte>
    requires LegalLabels(labels)
  {
    if labels == [] then [] else [|labels[0]|] + labels[0] + EncodeLabels(labels[1..])
  }

  /** And the zero byte that ends a name. */
  function EncodeName(labels: seq<Label>): seq<byte>
    requires LegalLabels(labels)
  {
    EncodeLabels(labels) + [0]
  }

  predicate LegalLabels(labels: seq<Label>) {
    forall i :: 0 <= i < |labels| ==> 1 <= |labels[i]| <= 63
  }

  // ----- The walk over a message of `size` bytes at the front of `buffer` -----

  /** What the walk does at an offset. */
  datatype Move = Stop | Jump(next: nat) | Take(name: Label, next: nat)

  /** The low fourteen bits of two bytes. */
  function Target(high: byte, low: byte): nat {
    var top: nat := high % 0x40;
    top * 0x100 + low
  }

  /** Any byte with one of the top two bits set counts as the first of a pointer. */
  function MoveAt(buffer: seq<byte>, size: nat, i: nat): (r: Move)
    requires size < |buffer|
  {
    if i >= size then Stop
    else if buffer[i] >= 0x40 then Jump(Target(buffer[i], buffer[i + 1]))
    else
      var len: nat := buffer[i];
      if i + len >= size || len == 0 then Stop
      else Take(buffer[i + 1..i + 1 + len], i + 1 + len)
  }

  /** The walk stops after at most n moves. */
  predicate StopsIn(buffer: seq<byte>, size: nat, i: nat, n: nat)
    requires size < |buffer|
    decreases n
  {
    var m := MoveAt(buffer, size, i);
    m.Stop? || (n > 0 && StopsIn(buffer, size, m.next, n - 1))
  }

  /** The walk stops; an offset visited twice would be visited for ever, so `size` moves decide. */
  predicate Stops(buffer: seq<byte>, size: nat, i: nat)
    requires size < |buffer|
  {
    StopsIn(buffer, size, i, size)
  }

  function LabelsIn(buffer: seq<byte>, size: nat, i: nat, n: nat): seq<Label>
    requires size < |buffer| && StopsIn(buffer, size, i, n)
    decreases n
  {
    match MoveAt(buffer, size, i)
    case Stop => []
    case Jump(next) => LabelsIn(buffer, size, next, n - 1)
    case Take(name, next) => [name] + LabelsIn(buffer, size, next, n - 1)
  }

  /** The labels the walk finds before it stops. */
  function LabelsAt(buffer: seq<byte>, size: nat, i: nat): seq<Label>
    requires size < |buffer| && Stops(buffer, size, i)
  {
    LabelsIn(buffer, size, i, size)
  }

  /** The number of moves until the walk stops. */
  function Moves(buffer: seq<byte>, size: nat, i: nat, n: nat): (k: nat)
    requires size < |buffer| && StopsIn(buffer, size, i, n)
    ensures k <= n && StopsIn(buffer, size, i, k)
    decreases n
  {
    var m := MoveAt(buffer, size, i);
    if m.Stop? then 0 else 1 + Moves(buffer, size, m.next, n - 1)
  }

  /** Moves and labels are those of the walk, however long it was watched. */
  lemma {:induction false} WatchedLonger(buffer: seq<byte>, size: nat, i: nat, n: nat, n': nat)
    requires size < |buffer| && StopsIn(buffer, size, i, n)
    requires n <= n' || StopsIn(buffer, size, i, n')
    ensures StopsIn(buffer, size, i, n')
    ensures Moves(buffer, size, i, n) == Moves(buffer, size, i, n')
    ensures LabelsIn(buffer, size, i, n) == LabelsIn(buffer, size, i, n')
    decreases n
  {
    hide MoveAt;
    var m := MoveAt(buffer, size, i);
    if !m.Stop? {
      WatchedLonger(buffer, size, m.next, n - 1, n' - 1);
    }
  }

  /** The offsets at which the walk moves on. */
  function Visited(buffer: seq<byte>, size: nat, i: nat, n: nat): set<nat>
    requires size < |buffer| && StopsIn(buffer, size, i, n)
    decreases n
  {
    var m := MoveAt(buffer, size, i);
    if m.Stop? then {} else {i} + Visited(buffer, size, m.next, n - 1)
  }

  lemma {:induction false} VisitedLater(buffer: seq<byte>, size: nat, i: nat, n: nat, p: nat) returns (k: nat)
    requires size < |buffer| && StopsIn(buffer, size, i, n) && p in Visited(buffer, size, i, n)
    ensures p < size && StopsIn(buffer, size, p, k)
    ensures Moves(buffer, size, p, k) <= Moves(buffer, size, i, n)
    decreases n
  {
    var m := MoveAt(buffer, size, i);
    if p == i {
      k := n;
    } else {
      k := VisitedLater(buffer, size, m.next, n - 1, p);
    }
  }

  /** A walk that stops visits no offset twice. */
  lemma {:induction false} VisitedOnce(buffer: seq<byte>, size: nat, i: nat, n: nat)
    requires size < |buffer| && StopsIn(buffer, size, i, n)
    ensures |Visited(buffer, size, i, n)| == Moves(buffer, size, i, n)
    decreases n
  {
    hide MoveAt;
    var m := MoveAt(buffer, size, i);
    if !m.Stop? {
      VisitedOnce(buffer, size, m.next, n - 1);
      if i in Visited(buffer, size, m.next, n - 1) {
        var k := VisitedLater(buffer, size, m.next, n - 1, i);
        WatchedLonger(buffer, size, i, n, k);
        assert false;
      }
    }
  }

  lemma {:induction false} SetBelow(s: set<nat>, bound: nat)
    requires forall x :: x in s ==> x < bound
    ensures |s| <= bound
  {
    if bound > 0 {
      SetBelow(s - {bound - 1}, bound - 1);
    } else {
      assert s == {};
    }
  }

  lemma StopsWithinSize(buffer: seq<byte>, size: nat, i: nat, n: nat)
    requires size < |buffer| && StopsIn(buffer, size, i, n)
    ensures Stops(buffer, size, i)
  {
    forall p | p in Visited(buffer, size, i, n)
      ensures p < size
    {
      var k := VisitedLater(buffer, size, i, n, p);
    }
    SetBelow(Visited(buffer, size, i, n), size);
    VisitedOnce(buffer, size, i, n);
    WatchedLonger(buffer, size, i, Moves(buffer, size, i, n), size);
  }

  ghost predicate StopsEventually(buffer: seq<byte>, size: nat, i: nat)
    requires size < |buffer|
  {
    exists n: nat :: StopsIn(buffer, size, i, n)
  }

  /** Whether the walk ever stops can be told by following it for as many moves as the message has bytes. */
  lemma StopsIff(buffer: seq<byte>, size: nat, i: nat)
    requires size < |buffer|
    ensures StopsEventually(buffer, size, i) <==> Stops(buffer, size, i)
  {
    assert StopsIn(buffer, size, i, size) ==> StopsEventually(buffer, size, i);
    if StopsEventually(buffer, size, i) {
      var n: nat :| StopsIn(buffer, size, i, n);
      StopsWithinSize(buffer, size, i, n);
    }
  }

  /** A pointer to itself is such a walk. */
  lemma {:induction false} PointerToItselfNeverStops(buffer: seq<byte>, size: nat, i: nat, n: nat)
    requires i < size < |buffer| && buffer[i] >= 0x40 && Target(buffer[i], buffer[i + 1]) == i
    ensures !StopsIn(buffer, size, i, n)
    decreases n
  {
    if n > 0 {
      PointerToItselfNeverStops(buffer, size, i, n - 1);
    }
  }

  /** `get_encoded_domain_name_component`: the label and the offset after it. */
  method NextLabel(buffer: seq<byte>, size: nat, offset: nat) returns (found: Option<Label>, next: nat)
    requires size < |buffer| && Stops(buffer, size, offset)
    ensures Stops(buffer, size, next)
    ensures match found
            case None => LabelsAt(buffer, size, offset) == [] && next == offset
            case Some(l) => LabelsAt(buffer, size, offset) == [l] + LabelsAt(buffer, size, next) && next <= size
  {
    hide StopsIn, LabelsIn, Stops, LabelsAt, Target;
    next := offset;
    var i: nat := offset;
    ghost var n: nat := size;
    WatchedWhole(buffer, size, offset);
    while i < size
      invariant n <= size && StopsIn(buffer, size, i, n)
      invariant LabelsIn(buffer, size, i, n) == LabelsAt(buffer, size, offset)
      decreases n
    {
      OneMove(buffer, size, i, n);
      if buffer[i] >= 0x40 {
        i, n := Target(buffer[i], buffer[i + 1]), n - 1;
        continue;
      }
      var len: nat := buffer[i] % 0x40;
      if i + len >= size {
        return None, next;
      }
      if len == 0 {
        return None, next;
      }
      i := i + 1;
      return Some(buffer[i..i + len]), i + len;
    }
    OneMove(buffer, size, i, n);
    return None, next;
  }

  lemma WatchedWhole(buffer: seq<byte>, size: nat, i: nat)
    requires size < |buffer|
    ensures Stops(buffer, size, i) <==> StopsIn(buffer, size, i, size)
    ensures Stops(buffer, size, i) ==> LabelsAt(buffer, size, i) == LabelsIn(buffer, size, i, size)
  {}

  /** The walk from an offset, in terms of the walk after one move. */
  lemma OneMove(buffer: seq<byte>, size: nat, i: nat, n: nat)
    requires size < |buffer| && n <= size && StopsIn(buffer, size, i, n)
    ensures match MoveAt(buffer, size, i)
            case Stop => LabelsIn(buffer, size, i, n) == []
            case Jump(next) =>
              n > 0 && StopsIn(buffer, size, next, n - 1)
              && LabelsIn(buffer, size, i, n) == LabelsIn(buffer, size, next, n - 1)
            case Take(name, next) =>
              n > 0 && Stops(buffer, size, next)
              && LabelsIn(buffer, size, i, n) == [name] + LabelsAt(buffer, size, next)
  {
    hide MoveAt;
    var m := MoveAt(buffer, size, i);
    if m.Take? {
      WatchedLonger(buffer, size, m.next, n - 1, size);
    }
  }

  /** Walking encoded labels returns exactly them, then whatever the walk finds behind them. */
  lemma {:induction false} WalksLabels(buffer: seq<byte>, size: nat, i: nat, labels: seq<Label>, n: nat)
    requires size < |buffer| && LegalLabels(labels)
    requires i + |EncodeLabels(labels)| < size
    requires buffer[i..i + |EncodeLabels(labels)|] == EncodeLabels(labels)
    requires StopsIn(buffer, size, i + |EncodeLabels(labels)|, n)
    ensures StopsIn(buffer, size, i, n + |labels|)
    ensures LabelsIn(buffer, size, i, n + |labels|) == labels + LabelsIn(buffer, size, i + |EncodeLabels(labels)|, n)
    decreases |labels|
  {
    hide MoveAt;
    if labels != [] {
      TakesFirst(buffer, size, i, labels);
      WalksLabels(buffer, size, i + 1 + |labels[0]|, labels[1..], n);
    }
  }

  lemma TakesFirst(buffer: seq<byte>, size: nat, i: nat, labels: seq<Label>)
    requires size < |buffer| && LegalLabels(labels) && labels != []
    requires i + |EncodeLabels(labels)| < size
    requires buffer[i..i + |EncodeLabels(labels)|] == EncodeLabels(labels)
    ensures var next, more := i + 1 + |labels[0]|, EncodeLabels(labels[1..]);
            && MoveAt(buffer, size, i) == Take(labels[0], next)
            && next + |more| == i + |EncodeLabels(labels)| && buffer[next..next + |more|] == more
  {
    hide EncodeLabels, MoveAt;
    var l, more := labels[0], EncodeLabels(labels[1..]);
    EncodeFirst(labels);
    var code := [|l|] + l + more;
    assert |code| == 1 + |l| + |more|;
    CodeParts(l, more);
    Within(buffer, i, code, 1, 1 + |l|);
    Within(buffer, i, code, 1 + |l|, |code|);
    assert buffer[i] == buffer[i..i + |code|][0];
    MoveIsTake(buffer, size, i, |l|);
  }

  lemma CodeParts(l: Label, more: seq<byte>)
    requires |l| <= 63
    ensures var code := [|l|] + l + more;
            code[0] == |l| && code[1..1 + |l|] == l && code[1 + |l|..|code|] == more
  {}

  lemma MoveIsTake(buffer: seq<byte>, size: nat, i: nat, len: nat)
    requires i + len < size < |buffer| && buffer[i] == len && 0 < len < 0x40
    ensures MoveAt(buffer, size, i) == Take(buffer[i + 1..i + 1 + len], i + 1 + len)
  {}

  lemma EncodeFirst(labels: seq<Label>)
    requires LegalLabels(labels) && labels != []
    ensures EncodeLabels(labels) == [|labels[0]|] + labels[0] + EncodeLabels(labels[1..])
  {}

  /** Round trip: walking an encoded name returns exactly its labels, then nothing. */
  lemma WalksEncodedName(before: seq<byte>, labels: seq<Label>, after: seq<byte>, size: nat)
    requires LegalLabels(labels)
    requires |before + EncodeName(labels)| <= size < |before + EncodeName(labels) + after|
    ensures var buffer := before + EncodeName(labels) + after;
            Stops(buffer, size, |before|) && LabelsAt(buffer, size, |before|) == labels
  {
    hide EncodeLabels;
    var buffer := before + EncodeName(labels) + after;
    var e := |before| + |EncodeLabels(labels)|;
    assert buffer[|before|..e] == EncodeLabels(labels) && buffer[e] == 0;
    assert StopsIn(buffer, size, e, 0);
    WalksLabels(buffer, size, |before|, labels, 0);
    StopsWithinSize(buffer, size, |before|, |labels|);
    WatchedLonger(buffer, size, |before|, |labels|, size);
  }

  /** RFC 1035 section 4.1.4: labels that end in a pointer are followed by the labels it points to. */
  lemma WalksCompressedName(buffer: seq<byte>, size: nat, i: nat, labels: seq<Label>, target: nat)
    requires size < |buffer| && LegalLabels(labels)
    requires i + |EncodeLabels(labels)| < size
    requires buffer[i..i + |EncodeLabels(labels)|] == EncodeLabels(labels)
    requires var e := i + |EncodeLabels(labels)|;
             buffer[e] >= 0xC0 && target == Target(buffer[e], buffer[e + 1])
    requires Stops(buffer, size, target)
    ensures Stops(buffer, size, i) && LabelsAt(buffer, size, i) == labels + LabelsAt(buffer, size, target)
  {
    hide EncodeLabels, Target;
    var e := i + |EncodeLabels(labels)|;
    assert MoveAt(buffer, size, e) == Jump(target);
    hide MoveAt;
    assert StopsIn(buffer, size, e, size + 1);
    WalksLabels(buffer, size, i, labels, size + 1);
    StopsWithinSize(buffer, size, i, size + 1 + |labels|);
    WatchedLonger(buffer, size, i, size + 1 + |labels|, size);
  }

  // ----- Dotted names -----

  /** `strchr` from a position. */
  function FindDot(name: seq<byte>, pos: nat): (r: Option<nat>)
    requires pos <= |name|
    ensures r.Some? ==> pos <= r.value < |name| && name[r.value] == DOT
    ensures r.Some? ==> forall i :: pos <= i < r.value ==> name[i] != DOT
    ensures r.None? ==> forall i :: pos <= i < |name| ==> name[i] != DOT
    decreases |name| - pos
  {
    if pos == |name| then None else if name[pos] == DOT then Some(pos) else FindDot(name, pos + 1)
  }

  /** `get_next_domain_name_component`: the component and the position after it. */
  function NextComponent(name: Option<seq<byte>>, pos: nat): (r: (Option<seq<byte>>, nat))
    requires name.Some? ==> pos <= |name.value|
    ensures r.0.Some? ==> name.Some? && pos < r.1 <= |name.value| && r.0.value <= name.value[pos..]
    ensures r.0.None? ==> r.1 == pos
  {
    if name.None? then (None, pos)
    else
      match FindDot(name.value, pos)
      case Some(p) => (Some(name.value[pos..p]), p + 1)
      case None => if pos < |name.value| then (Some(name.value[pos..]), |name.value|) else (None, pos)
  }

  /** All components from a position on. */
  function Components(name: Option<seq<byte>>, pos: nat): seq<seq<byte>>
    requires name.Some? ==> pos <= |name.value|
    decreases if name.Some? then |name.value| - pos else 0
  {
    var (component, next) := NextComponent(name, pos);
    if component.None? then [] else [component.value] + Components(name, next)
  }

  function Join(parts: seq<seq<byte>>): seq<byte> {
    if parts == [] then [] else if |parts| == 1 then parts[0] else parts[0] + [DOT] + Join(parts[1..])
  }

  /** Round trip: a dotted name has exactly its parts as components. */
  lemma {:induction false} ComponentsOfJoin(before: seq<byte>, parts: seq<seq<byte>>)
    requires forall i :: 0 <= i < |parts| ==> DOT !in parts[i]
    requires parts != [] ==> parts[|parts| - 1] != []
    ensures Components(Some(before + Join(parts)), |before|) == parts
    decreases |parts|
  {
    hide FindDot;
    var name := before + Join(parts);
    if parts == [] {
    } else if |parts| == 1 {
      assert name[|before|..] == parts[0];
      assert Components(Some(name), |name|) == [];
      assert FindDot(name, |before|).None? by {
        assert forall i :: |before| <= i < |name| ==> name[i] == parts[0][i - |before|];
      }
    } else {
      var more := before + (parts[0] + [DOT]);
      assert name == more + Join(parts[1..]);
      var p := |before| + |parts[0]|;
      assert name[p] == DOT && name[|before|..p] == parts[0];
      assert forall i :: |before| <= i < p ==> name[i] == parts[0][i - |before|];
      assert FindDot(name, |before|) == Some(p);
      ComponentsOfJoin(more, parts[1..]);
    }
  }

  // ----- Comparison without case -----

  function Lower(b: byte): byte {
    if 0x41 <= b <= 0x5A then b + 0x20 else b
  }

  /** `!strncasecmp(a, b, |a|)`, where b is a C string given without its terminator. */
  function CompareFrom(a: seq<byte>, b: seq<byte>, j: nat): bool
    requires j <= |a| && j <= |b|
    decreases |a| - j
  {
    if j == |a| then true
    else if j == |b| then a[j] == 0
    else if Lower(a[j]) != Lower(b[j]) then false
    else if a[j] == 0 then true
    else CompareFrom(a, b, j + 1)
  }

  /** Equal up to letter case. */
  predicate SameName(a: seq<byte>, b: seq<byte>) {
    |a| == |b| && forall i :: 0 <= i < |a| ==> Lower(a[i]) == Lower(b[i])
  }

  /** Where a C string comparison stops reading a. */
  function FirstZero(a: seq<byte>): (z: nat)
    ensures z <= |a| && (z < |a| ==> a[z] == 0)
    ensures forall i :: 0 <= i < z ==> a[i] != 0
  {
    if a == [] || a[0] == 0 then 0 else 1 + FirstZero(a[1..])
  }

  /** A label that is a prefix of a name up to letter case; one with a zero byte inside counts by
      what stands before it, which must be the whole name. */
  predicate PrefixName(a: seq<byte>, b: seq<byte>) {
    var z := FirstZero(a);
    (if z < |a| then z == |b| else z <= |b|) && forall i :: 0 <= i < z ==> Lower(a[i]) == Lower(b[i])
  }

  lemma {:induction false} CompareMeans(a: seq<byte>, b: seq<byte>, j: nat)
    requires j <= |a| && j <= |b| && 0 !in b
    requires forall i :: 0 <= i < j ==> a[i] != 0 && Lower(a[i]) == Lower(b[i])
    ensures CompareFrom(a, b, j) <==> PrefixName(a, b)
    decreases |a| - j
  {
    if j < |a| && j < |b| && Lower(a[j]) == Lower(b[j]) {
      CompareMeans(a, b, j + 1);
    }
  }

  // ----- The answer -----

  datatype Settings = Settings(
    primary: nat,
    secondary: nat,
    host: seq<byte>,
    domain: Option<seq<byte>>,
    ignoreSuffix: bool
  )

  /** The labels after the first are the first components of the domain, up to letter case. */
  predicate SuffixMatches(labels: seq<Label>, components: seq<seq<byte>>) {
    |labels| <= |components| && forall i :: 0 <= i < |labels| ==> SameName(labels[i], components[i])
  }

  /** Which names get the primary address. */
  predicate IsOurName(s: Settings, labels: seq<Label>) {
    && labels != []
    && PrefixName(labels[0], s.host)
    && (s.ignoreSuffix || SuffixMatches(labels[1..], Components(s.domain, 0)))
  }

  /** `get_address_for_encoded_domain`: the primary address exactly for our names, whenever the walk stops. */
  method AddressFor(s: Settings, buffer: seq<byte>, size: nat, start: nat) returns (ip: nat)
    requires size < |buffer| && Stops(buffer, size, start)
    requires 0 !in s.host && (s.domain.Some? ==> 0 !in s.domain.value)
    ensures ip == if IsOurName(s, LabelsAt(buffer, size, start)) then s.primary else s.secondary
  {
    hide PrefixName, SuffixMatches, Stops, LabelsAt, Remaining, Components, NextComponent;
    var match_, loose := false, false;
    var offset := start;
    var (component, pos) := NextComponent(s.domain, 0);
    ghost var labels, all := LabelsAt(buffer, size, start), Components(s.domain, 0);
    var i := 0;
    StartOfMatch(s.domain, labels);
    while true
      invariant Stops(buffer, size, offset) && i <= |labels| && labels[i..] == LabelsAt(buffer, size, offset)
      invariant s.domain.Some? ==> pos <= |s.domain.value|
      invariant component.Some? ==> 0 !in component.value
      invariant i == 0 ==> !match_ && !loose
      invariant i > 0 ==> loose == (PrefixName(labels[0], s.host) && s.ignoreSuffix)
      invariant i > 0 ==> match_ == (PrefixName(labels[0], s.host) && SuffixMatches(labels[1..i], all))
      invariant match_ || i == 0 ==> Remaining(s.domain, component, pos, all, if i == 0 then 0 else i - 1)
      decreases |labels| - i
    {
      var found, next := NextLabel(buffer, size, offset);
      if found == None {
        assert i == |labels| && (i > 0 ==> labels[1..i] == labels[1..]);
        return if match_ || loose then s.primary else s.secondary;
      }
      offset := next;
      var l := found.value;
      assert labels[i..][0] == l && l == labels[i];
      assert labels[i + 1..] == labels[i..][1..];
      if i == 0 {
        match_, loose := FirstLabel(s, l);
        assert labels[1..1] == [];
      } else {
        assert labels[1..i + 1] == labels[1..i] + [l];
        SuffixStep(labels[1..i], l, all);
        match_, component, pos := LaterLabel(s, match_, component, pos, l, all, labels[1..i]);
      }
      i := i + 1;
    }
  }

  /** The branch for the first label. */
  method FirstLabel(s: Settings, l: Label) returns (match_: bool, loose: bool)
    requires 0 !in s.host
    ensures match_ == PrefixName(l, s.host) && loose == (match_ && s.ignoreSuffix)
  {
    match_, loose := false, false;
    CompareMeans(l, s.host, 0);
    if CompareFrom(l, s.host, 0) {
      match_ := true;
      if s.ignoreSuffix {
        loose := true;
      }
    }
  }

  /** The branches for the labels after the first. */
  method LaterLabel(s: Settings, match0: bool, component0: Option<seq<byte>>, pos0: nat, l: Label,
                    ghost all: seq<seq<byte>>, ghost before: seq<Label>)
    returns (match_: bool, component: Option<seq<byte>>, pos: nat)
    requires component0.Some? ==> 0 !in component0.value
    requires s.domain.Some? ==> pos0 <= |s.domain.value| && 0 !in s.domain.value
    requires match0 ==> Remaining(s.domain, component0, pos0, all, |before|) && SuffixMatches(before, all)
    ensures match_ == (match0 && SuffixMatches(before + [l], all))
    ensures s.domain.Some? ==> pos <= |s.domain.value|
    ensures component.Some? ==> 0 !in component.value
    ensures match_ ==> Remaining(s.domain, component, pos, all, |before| + 1)
  {
    match_, component, pos := match0, component0, pos0;
    SuffixStep(before, l, all);
    if match0 {
      InHand(s.domain, component, pos, all, |before|, l);
    }
    if match_ && component.Some? && |l| == |component.value| && SameText(l, component.value) {
      var following := NextComponent(s.domain, pos);
      component, pos := following.0, following.1;
    } else {
      match_ := false;
    }
  }

  lemma StartOfMatch(domain: Option<seq<byte>>, labels: seq<Label>)
    ensures var (component, pos) := NextComponent(domain, 0);
            Remaining(domain, component, pos, Components(domain, 0), 0)
    ensures labels[0..] == labels && SuffixMatches([], Components(domain, 0))
  {}

  /** `len == domain_len && !strncasecmp(component, domain_comp, len)`. */
  predicate SameText(a: seq<byte>, b: seq<byte>)
    requires |a| == |b|
  {
    CompareFrom(a, b, 0)
  }

  /** The components still to be matched are those from index k on; the next one is in hand. */
  ghost predicate Remaining(domain: Option<seq<byte>>, component: Option<seq<byte>>, pos: nat,
                            all: seq<seq<byte>>, k: nat)
    requires domain.Some? ==> pos <= |domain.value|
  {
    && k <= |all|
    && (component.None? ==> k == |all|)
    && (component.Some? ==> all[k..] == [component.value] + Components(domain, pos))
  }

  /** The component in hand is the one to compare with, and the next call moves on to the one after. */
  lemma InHand(domain: Option<seq<byte>>, component: Option<seq<byte>>, pos: nat, all: seq<seq<byte>>, k: nat, l: Label)
    requires domain.Some? ==> pos <= |domain.value|
    requires Remaining(domain, component, pos, all, k)
    requires component.Some? ==> 0 !in component.value
    ensures component.Some? <==> k < |all|
    ensures component.Some? ==>
              && component.value == all[k]
              && (SameName(l, all[k]) <==> |l| == |component.value| && SameText(l, component.value))
              && var (following, next) := NextComponent(domain, pos); Remaining(domain, following, next, all, k + 1)
  {
    if component.Some? {
      assert all[k + 1..] == all[k..][1..];
      if |l| == |component.value| {
        CompareMeans(l, component.value, 0);
        NoZeroInside(l, component.value);
      }
    }
  }

  /** At equal lengths a prefix is the name itself. */
  lemma NoZeroInside(a: seq<byte>, b: seq<byte>)
    requires |a| == |b| && 0 !in b
    ensures PrefixName(a, b) <==> SameName(a, b)
  {
    var z := FirstZero(a);
    if z < |a| {
      assert Lower(a[z]) != Lower(b[z]);
    }
  }

  lemma SuffixStep(before: seq<Label>, l: Label, all: seq<seq<byte>>)
    ensures SuffixMatches(before + [l], all)
            <==> SuffixMatches(before, all) && |before| < |all| && SameName(l, all[|before|])
  {
    if SuffixMatches(before + [l], all) {
      assert forall i :: 0 <= i < |before| ==> (before + [l])[i] == before[i];
      assert (before + [l])[|before|] == l;
    }
  }

  /** The promise of the responder, in bytes: a query for the configured host in the configured
      domain, in any letter case, is for us. */
  lemma HostInDomainIsOurs(s: Settings, before: seq<byte>, host: Label, parts: seq<Label>, labels: seq<Label>,
                           after: seq<byte>, size: nat)
    requires LegalLabels([host] + labels)
    requires s.domain == Some(Join(parts)) && forall i :: 0 <= i < |parts| ==> DOT !in parts[i]
    requires 0 !in s.host && SameName(host, s.host)
    requires |labels| == |parts| && forall i :: 0 <= i < |parts| ==> SameName(labels[i], parts[i])
    requires |before + EncodeName([host] + labels)| <= size < |before + EncodeName([host] + labels) + after|
    ensures var buffer := before + EncodeName([host] + labels) + after;
            Stops(buffer, size, |before|) && IsOurName(s, LabelsAt(buffer, size, |before|))
  {
    hide LabelsAt, Stops, Components, EncodeName, FirstZero, PrefixName;
    var name := [host] + labels;
    WalksEncodedName(before, name, after, size);
    assert [] + Join(parts) == Join(parts);
    ComponentsOfJoin([], parts);
    assert name[1..] == labels;
    assert forall i :: 0 <= i < |labels| ==> labels[i] == name[i + 1];
    NoZeroInside(host, s.host);
  }

  /** It answers for more than that: any non-empty beginning of the host name alone is enough. */
  lemma BeginningOfHostIsOurs(s: Settings, l: Label)
    requires l != [] && 0 !in l && l <= s.host
    ensures IsOurName(s, [l])
  {
    assert [l][1..] == [];
  }

  /** The other case of an ASCII letter, anything else as it is. */
  function SwapCase(b: byte): byte {
    if 0x41 <= b <= 0x5A then b + 0x20 else if 0x61 <= b <= 0x7A then b - 0x20 else b
  }

  /** The comparison takes a letter for its other case, and nothing else for anything else. */
  lemma LowerIff(a: byte, b: byte)
    ensures Lower(a) == Lower(b) <==> a == b || a == SwapCase(b)
  {}

  /** The same labels up to the case of any letters. */
  ghost predicate SameUpToCase(labels: seq<Label>, labels': seq<Label>) {
    && |labels| == |labels'|
    && forall i :: 0 <= i < |labels| ==>
                     && |labels[i]| == |labels'[i]|
                     && forall j :: 0 <= j < |labels[i]| ==>
                                      labels'[i][j] == labels[i][j] || labels'[i][j] == SwapCase(labels[i][j])
  }

  /** The case of letters in a query never changes the answer. */
  lemma CaseDoesNotMatter(s: Settings, labels: seq<Label>, labels': seq<Label>)
    requires SameUpToCase(labels, labels')
    ensures IsOurName(s, labels) <==> IsOurName(s, labels')
  {
    if labels != [] {
      PrefixUpToCase(labels[0], labels'[0], s.host);
      var all := Components(s.domain, 0);
      forall i | 0 <= i < |labels| - 1 && i < |all|
        ensures SameName(labels[1..][i], all[i]) <==> SameName(labels'[1..][i], all[i])
      {
        NameUpToCase(labels[i + 1], labels'[i + 1], all[i]);
      }
    }
  }

  lemma SwapKeepsLower(b: byte)
    ensures Lower(SwapCase(b)) == Lower(b) && (SwapCase(b) == 0 <==> b == 0)
  {}

  lemma NameUpToCase(l: Label, l': Label, name: seq<byte>)
    requires |l| == |l'| && forall j :: 0 <= j < |l| ==> l'[j] == l[j] || l'[j] == SwapCase(l[j])
    ensures forall j :: 0 <= j < |l| ==> Lower(l'[j]) == Lower(l[j]) && (l'[j] == 0 <==> l[j] == 0)
    ensures SameName(l, name) <==> SameName(l', name)
  {
    forall j | 0 <= j < |l|
      ensures Lower(l'[j]) == Lower(l[j]) && (l'[j] == 0 <==> l[j] == 0)
    {
      SwapKeepsLower(l[j]);
    }
  }

  lemma PrefixUpToCase(l: Label, l': Label, host: seq<byte>)
    requires |l| == |l'| && forall j :: 0 <= j < |l| ==> l'[j] == l[j] || l'[j] == SwapCase(l[j])
    ensures PrefixName(l, host) <==> PrefixName(l', host)
  {
    NameUpToCase(l, l', []);
    hide Lower;
    assert FirstZero(l) == FirstZero(l');
  }

  /** Equal bytes, or the two cases of one letter. */
  predicate SameLetter(a: byte, b: byte) {
    a == b || a == SwapCase(b)
  }

  ghost predicate SameLetters(a: seq<byte>, b: seq<byte>)
    requires |a| <= |b|
  {
    forall j :: 0 <= j < |a| ==> SameLetter(a[j], b[j])
  }

  /** Which names are ours, letter by letter: the first label begins the host name, and each further
      label is the part of the domain in its place (or suffixes are ignored). */
  lemma OurNameIff(s: Settings, labels: seq<Label>, parts: seq<seq<byte>>)
    requires s.domain == Some(Join(parts)) && (forall i :: 0 <= i < |parts| ==> DOT !in parts[i])
    requires parts != [] ==> parts[|parts| - 1] != []
    requires forall i :: 0 <= i < |labels| ==> 0 !in labels[i]
    ensures IsOurName(s, labels)
            <==> && labels != [] && |labels[0]| <= |s.host| && SameLetters(labels[0], s.host)
                 && (s.ignoreSuffix
                     || (|labels| - 1 <= |parts|
                         && forall i :: 0 <= i < |labels| - 1 ==>
                                          |labels[i + 1]| == |parts[i]| && SameLetters(labels[i + 1], parts[i])))
  {
    hide Join, FirstZero, PrefixName;
    assert [] + Join(parts) == Join(parts);
    ComponentsOfJoin([], parts);
    if labels != [] {
      PrefixByLetters(labels[0], s.host);
      forall i | 0 <= i < |labels| - 1 && i < |parts|
        ensures SameName(labels[1..][i], parts[i])
                <==> |labels[i + 1]| == |parts[i]| && SameLetters(labels[i + 1], parts[i])
      {
        NameByLetters(labels[i + 1], parts[i]);
      }
    }
  }

  lemma PrefixByLetters(a: seq<byte>, b: seq<byte>)
    requires 0 !in a
    ensures PrefixName(a, b) <==> |a| <= |b| && SameLetters(a, b)
  {
    assert FirstZero(a) == |a|;
    hide Lower, SwapCase;
    forall j | 0 <= j < |a| && j < |b|
      ensures Lower(a[j]) == Lower(b[j]) <==> SameLetter(a[j], b[j])
    {
      LowerIff(a[j], b[j]);
    }
  }

  lemma NameByLetters(a: seq<byte>, b: seq<byte>)
    ensures SameName(a, b) <==> |a| == |b| && SameLetters(a, b)
  {
    hide Lower, SwapCase;
    forall j | 0 <= j < |a| && j < |b|
      ensures Lower(a[j]) == Lower(b[j]) <==> SameLetter(a[j], b[j])
    {
      LowerIff(a[j], b[j]);
    }
  }
}
