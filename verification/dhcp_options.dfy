/** The option codec of dhcpserver/dhcpserver.cpp, against RFC 2132 section 2. */
module DhcpOptions {
  import opened Words

  const PAD: byte := 0
  const END: byte := 255
  /** `opt_find` looks at this many bytes after the magic cookie. */
  const SEARCH_LIMIT: nat := 308

  datatype Opt = Opt(tag: byte, data: seq<byte>)

  /** Tag, length, data; the length byte truncates. */
  function EncodeOpt(o: Opt): seq<byte> {
    [o.tag, |o.data| % 0x100] + o.data
  }

  function EncodeAll(opts: seq<Opt>): seq<byte> {
    if opts == [] then [] else EncodeOpt(opts[0]) + EncodeAll(opts[1..])
  }

  // ----- Writing -----

  /** `opt_write_n`: writes at the cursor and advances it. */
  method WriteN(buf: array<byte>, at: nat, cmd: byte, data: seq<byte>) returns (next: nat)
    requires at + 2 + |data| <= buf.Length
    modifies buf
    ensures next == at + 2 + |data|
    ensures buf[..next] == old(buf[..at]) + EncodeOpt(Opt(cmd, data))
  {
    buf[at] := cmd;
    buf[at + 1] := |data| % 0x100;
    forall i | 0 <= i < |data| {
      buf[at + 2 + i] := data[i];
    }
    next := at + 2 + |data|;
  }

  /** `opt_write_u8`. */
  method WriteU8(buf: array<byte>, at: nat, cmd: byte, val: byte) returns (next: nat)
    requires at + 3 <= buf.Length
    modifies buf
    ensures next == at + 3
    ensures buf[..next] == old(buf[..at]) + EncodeOpt(Opt(cmd, [val]))
  {
    buf[at] := cmd;
    buf[at + 1] := 1;
    buf[at + 2] := val;
    next := at + 3;
  }

  /** The four bytes of a 32-bit value, most significant first. */
  function Bytes32(val: nat): (s: seq<byte>)
    ensures |s| == 4
  {
    [val / 0x100_0000 % 0x100, val / 0x1_0000 % 0x100, val / 0x100 % 0x100, val % 0x100]
  }

  /** `opt_write_u32`. */
  method WriteU32(buf: array<byte>, at: nat, cmd: byte, val: nat) returns (next: nat)
    requires at + 6 <= buf.Length
    modifies buf
    ensures next == at + 6
    ensures buf[..next] == old(buf[..at]) + EncodeOpt(Opt(cmd, Bytes32(val)))
  {
    buf[at] := cmd;
    buf[at + 1] := 4;
    buf[at + 2] := val / 0x100_0000 % 0x100;
    buf[at + 3] := val / 0x1_0000 % 0x100;
    buf[at + 4] := val / 0x100 % 0x100;
    buf[at + 5] := val % 0x100;
    next := at + 6;
  }

  // ----- Finding -----

  /** The walk of `opt_find` from offset i; `opt` includes the byte the last step may look at. */
  function FindFrom(opt: seq<byte>, cmd: byte, i: nat): (r: Option<nat>)
    requires |opt| > SEARCH_LIMIT
    ensures r.Some? ==> r.value < SEARCH_LIMIT && opt[r.value] == cmd
    decreases SEARCH_LIMIT - i
  {
    if i >= SEARCH_LIMIT || opt[i] == END then None
    else if opt[i] == cmd then Some(i)
    else FindFrom(opt, cmd, i + 2 + opt[i + 1])
  }

  /** `opt_find`: an offset instead of a pointer. */
  method OptFind(opt: seq<byte>, cmd: byte) returns (r: Option<nat>)
    requires |opt| > SEARCH_LIMIT
    ensures r == FindFrom(opt, cmd, 0)
  {
    var i: nat := 0;
    while i < SEARCH_LIMIT && opt[i] != END
      invariant FindFrom(opt, cmd, i) == FindFrom(opt, cmd, 0)
      decreases SEARCH_LIMIT - i
    {
      if opt[i] == cmd {
        return Some(i);
      }
      var skip: nat := opt[i + 1];
      i := i + 2 + skip;
    }
    return None;
  }

  /** What the writers can produce and the walk can tell apart. */
  predicate WellFormed(opts: seq<Opt>) {
    forall k :: 0 <= k < |opts| ==> opts[k].tag != END && |opts[k].data| <= 255
  }

  /** The offset of the first option with a tag, by the list of options alone. */
  function OffsetOf(opts: seq<Opt>, cmd: byte): (r: Option<nat>) {
    if opts == [] then None
    else if opts[0].tag == cmd then Some(0)
    else
      match OffsetOf(opts[1..], cmd)
      case None => None
      case Some(k) => Some(2 + |opts[0].data| + k)
  }

  /** Writing one more option appends its encoding. */
  lemma {:induction false} EncodeAppend(opts: seq<Opt>, o: Opt)
    ensures EncodeAll(opts + [o]) == EncodeAll(opts) + EncodeOpt(o)
  {
    hide EncodeOpt;
    EncodeHead(opts + [o]);
    if opts == [] {
      assert opts + [o] == [o] && [o][1..] == [] && EncodeAll([]) == [];
    } else {
      EncodeHead(opts);
      hide EncodeAll;
      assert (opts + [o])[0] == opts[0] && (opts + [o])[1..] == opts[1..] + [o];
      EncodeAppend(opts[1..], o);
    }
  }

  /** From offset i on stand exactly these options and END, inside the searched bytes. */
  predicate Stand(opt: seq<byte>, i: nat, opts: seq<Opt>) {
    var n := |EncodeAll(opts)|;
    i + n < SEARCH_LIMIT < |opt| && opt[i..i + n] == EncodeAll(opts) && opt[i + n] == END
  }

  /** Round trip: searching written options finds exactly the first one with the tag. */
  lemma {:induction false} FindWritten(opt: seq<byte>, i: nat, opts: seq<Opt>, cmd: byte)
    requires WellFormed(opts) && |opt| > SEARCH_LIMIT && Stand(opt, i, opts)
    ensures match OffsetOf(opts, cmd)
            case None => FindFrom(opt, cmd, i) == None
            case Some(k) => FindFrom(opt, cmd, i) == Some(i + k)
    decreases |opts|
  {
    if opts == [] {
      assert EncodeAll(opts) == [];
    } else {
      TailWellFormed(opts);
      TailStands(opt, i, opts);
      hide Stand, WellFormed;
      FindWritten(opt, i + 2 + |opts[0].data|, opts[1..], cmd);
    }
  }

  lemma TailStands(opt: seq<byte>, i: nat, opts: seq<Opt>)
    requires opts != [] && |opts[0].data| <= 255 && Stand(opt, i, opts)
    ensures i + 1 < SEARCH_LIMIT < |opt| && opt[i] == opts[0].tag && opt[i + 1] == |opts[0].data|
    ensures Stand(opt, i + 2 + |opts[0].data|, opts[1..])
  {
    hide EncodeAll;
    HeadOf(opt, i, opts);
  }

  lemma TailWellFormed(opts: seq<Opt>)
    requires opts != [] && WellFormed(opts)
    ensures WellFormed(opts[1..]) && opts[0].tag != END
  {}

  lemma HeadOf(opt: seq<byte>, i: nat, opts: seq<Opt>)
    requires opts != [] && |opts[0].data| <= 255
    requires i + |EncodeAll(opts)| < |opt| && opt[i..i + |EncodeAll(opts)|] == EncodeAll(opts)
    ensures opt[i] == opts[0].tag && opt[i + 1] == |opts[0].data|
    ensures var next := i + 2 + |opts[0].data|;
            && |EncodeAll(opts)| == 2 + |opts[0].data| + |EncodeAll(opts[1..])|
            && opt[i + 2..next] == opts[0].data
            && opt[next..next + |EncodeAll(opts[1..])|] == EncodeAll(opts[1..])
  {
    hide EncodeOpt;
    EncodeHead(opts);
    hide EncodeAll;
    EncodedParts(opts[0], EncodeAll(opts[1..]));
    HeadBytes(opt, i, EncodeAll(opts), |opts[0].data|);
  }

  lemma EncodeHead(opts: seq<Opt>)
    requires opts != []
    ensures EncodeAll(opts) == EncodeOpt(opts[0]) + EncodeAll(opts[1..])
  {}

  lemma HeadBytes(opt: seq<byte>, i: nat, code: seq<byte>, len: nat)
    requires i + |code| <= |opt| && opt[i..i + |code|] == code && 2 + len <= |code|
    ensures opt[i] == code[0] && opt[i + 1] == code[1]
    ensures opt[i + 2..i + 2 + len] == code[2..2 + len] && opt[i + 2 + len..i + |code|] == code[2 + len..|code|]
  {
    Within(opt, i, code, 2, 2 + len);
    Within(opt, i, code, 2 + len, |code|);
    assert opt[i] == opt[i..i + |code|][0] && opt[i + 1] == opt[i..i + |code|][1];
  }

  lemma EncodedParts(o: Opt, tail: seq<byte>)
    requires |o.data| <= 255
    ensures var code := EncodeOpt(o) + tail;
            && |code| == 2 + |o.data| + |tail| && code[0] == o.tag && code[1] == |o.data|
            && code[2..2 + |o.data|] == o.data && code[2 + |o.data|..|code|] == tail
  {}

  /** The offset found is that of the first option with the tag: tag, length and data follow. */
  lemma {:induction false} FoundData(opt: seq<byte>, i: nat, opts: seq<Opt>, cmd: byte) returns (k: nat)
    requires WellFormed(opts) && OffsetOf(opts, cmd).Some?
    requires i + |EncodeAll(opts)| < |opt| && opt[i..i + |EncodeAll(opts)|] == EncodeAll(opts)
    ensures k < |opts| && opts[k].tag == cmd && forall j :: 0 <= j < k ==> opts[j].tag != cmd
    ensures var o := i + OffsetOf(opts, cmd).value;
            && o + 2 + |opts[k].data| <= i + |EncodeAll(opts)|
            && opt[o] == cmd && opt[o + 1] == |opts[k].data|
            && opt[o + 2..o + 2 + |opts[k].data|] == opts[k].data
    decreases |opts|
  {
    HeadOf(opt, i, opts);
    if opts[0].tag == cmd {
      k := 0;
    } else {
      var j := FoundData(opt, i + 2 + |opts[0].data|, opts[1..], cmd);
      k := j + 1;
      assert forall n :: 1 <= n < |opts| ==> opts[n] == opts[1..][n - 1];
    }
  }

  /** Absent means absent. */
  lemma {:induction false} NotFoundIff(opts: seq<Opt>, cmd: byte)
    ensures OffsetOf(opts, cmd).None? <==> forall k :: 0 <= k < |opts| ==> opts[k].tag != cmd
  {
    if opts != [] {
      NotFoundIff(opts[1..], cmd);
      assert forall k :: 1 <= k < |opts| ==> opts[k] == opts[1..][k - 1];
    }
  }

  // ----- The standard's reading, where a PAD is a single byte -----

  /** RFC 2132 sections 2 and 3.1: as the walk above, but PAD has neither length nor data. */
  function StandardFind(opt: seq<byte>, cmd: byte, i: nat): (r: Option<nat>)
    requires |opt| > SEARCH_LIMIT
    ensures r.Some? ==> r.value < SEARCH_LIMIT && opt[r.value] == cmd
    decreases SEARCH_LIMIT - i
  {
    if i >= SEARCH_LIMIT || opt[i] == END then None
    else if opt[i] == cmd then Some(i)
    else if opt[i] == PAD then StandardFind(opt, cmd, i + 1)
    else StandardFind(opt, cmd, i + 2 + opt[i + 1])
  }

  /** Offsets of the options, PADs left out, that the walk of `opt_find` reads from offset i on. */
  function OptionsRead(opt: seq<byte>, i: nat): seq<nat>
    requires |opt| > SEARCH_LIMIT
    decreases SEARCH_LIMIT - i
  {
    if i >= SEARCH_LIMIT || opt[i] == END then []
    else if opt[i] == PAD then OptionsRead(opt, i + 2 + opt[i + 1])
    else [i] + OptionsRead(opt, i + 2 + opt[i + 1])
  }

  /** The same as the standard reads them. */
  function StandardOptions(opt: seq<byte>, i: nat): seq<nat>
    requires |opt| > SEARCH_LIMIT
    decreases SEARCH_LIMIT - i
  {
    if i >= SEARCH_LIMIT || opt[i] == END then []
    else if opt[i] == PAD then StandardOptions(opt, i + 1)
    else [i] + StandardOptions(opt, i + 2 + opt[i + 1])
  }

  /** PADs stand in pairs wherever an option may begin. A last odd one may stand before END, if the
      walk, which takes END for a length of 255, meets nothing but PADs beyond. */
  predicate Aligned(opt: seq<byte>, i: nat)
    requires |opt| > SEARCH_LIMIT
    decreases SEARCH_LIMIT - i
  {
    if i >= SEARCH_LIMIT || opt[i] == END then true
    else if opt[i] != PAD then Aligned(opt, i + 2 + opt[i + 1])
    else if opt[i + 1] == PAD then Aligned(opt, i + 2)
    else i + 1 == SEARCH_LIMIT || (opt[i + 1] == END && OnlyPads(opt, i + 257))
  }

  /** From offset i the walk meets PADs until it stops. */
  predicate OnlyPads(opt: seq<byte>, i: nat)
    requires |opt| > SEARCH_LIMIT
    decreases SEARCH_LIMIT - i
  {
    i >= SEARCH_LIMIT || opt[i] == END || (opt[i] == PAD && OnlyPads(opt, i + 2 + opt[i + 1]))
  }

  /** The walk reads the options of the standard, at the same places and no others, exactly when the
      PADs are aligned. */
  lemma {:induction false} ReadsStandardOptionsIff(opt: seq<byte>, i: nat)
    requires |opt| > SEARCH_LIMIT
    ensures OptionsRead(opt, i) == StandardOptions(opt, i) <==> Aligned(opt, i)
    decreases SEARCH_LIMIT - i
  {
    if i >= SEARCH_LIMIT || opt[i] == END {
    } else if opt[i] != PAD {
      var next := i + 2 + opt[i + 1];
      ReadsStandardOptionsIff(opt, next);
      assert OptionsRead(opt, i) == [i] + OptionsRead(opt, next);
      assert StandardOptions(opt, i) == [i] + StandardOptions(opt, next);
      SameTails(i, OptionsRead(opt, next), StandardOptions(opt, next));
    } else if opt[i + 1] == PAD {
      ReadsStandardOptionsIff(opt, i + 2);
      assert StandardOptions(opt, i) == StandardOptions(opt, i + 1) == StandardOptions(opt, i + 2);
      assert OptionsRead(opt, i) == OptionsRead(opt, i + 2);
    } else if i + 1 < SEARCH_LIMIT {
      OptionsReadFrom(opt, i + 2 + opt[i + 1]);
    }
  }

  lemma SameTails(x: nat, s: seq<nat>, t: seq<nat>)
    ensures [x] + s == [x] + t <==> s == t
  {
    assert ([x] + s)[1..] == s && ([x] + t)[1..] == t;
  }

  lemma {:induction false} OptionsReadFrom(opt: seq<byte>, i: nat)
    requires |opt| > SEARCH_LIMIT
    ensures OptionsRead(opt, i) == [] <==> OnlyPads(opt, i)
    ensures OptionsRead(opt, i) != [] ==> OptionsRead(opt, i)[0] >= i
    decreases SEARCH_LIMIT - i
  {
    if i < SEARCH_LIMIT && opt[i] != END {
      OptionsReadFrom(opt, i + 2 + opt[i + 1]);
    }
  }

  /** The searches for a tag from an offset agree. */
  predicate Agree(opt: seq<byte>, cmd: byte, i: nat)
    requires |opt| > SEARCH_LIMIT
  {
    FindFrom(opt, cmd, i) == StandardFind(opt, cmd, i)
  }

  /** From offset i both walks come to offset j without having left each other. */
  ghost predicate BothReach(opt: seq<byte>, i: nat, j: nat)
    requires |opt| > SEARCH_LIMIT
    decreases SEARCH_LIMIT - i
  {
    i == j
    || (i < SEARCH_LIMIT && opt[i] != END
        && if opt[i] == PAD then opt[i + 1] == PAD && BothReach(opt, i + 2, j)
           else BothReach(opt, i + 2 + opt[i + 1], j))
  }

  /** With aligned PADs a search for any tag agrees with the standard. */
  lemma {:induction false} AlignedAgrees(opt: seq<byte>, cmd: byte, i: nat)
    requires |opt| > SEARCH_LIMIT && Aligned(opt, i) && cmd != PAD && cmd != END
    ensures Agree(opt, cmd, i)
    decreases SEARCH_LIMIT - i
  {
    if i >= SEARCH_LIMIT || opt[i] == END || opt[i] == cmd {
    } else if opt[i] != PAD {
      AlignedAgrees(opt, cmd, i + 2 + opt[i + 1]);
    } else if opt[i + 1] == PAD {
      AlignedAgrees(opt, cmd, i + 2);
      assert StandardFind(opt, cmd, i) == StandardFind(opt, cmd, i + 2);
    } else if i + 1 < SEARCH_LIMIT {
      OnlyPadsFindNothing(opt, cmd, i + 257);
    }
  }

  lemma {:induction false} OnlyPadsFindNothing(opt: seq<byte>, cmd: byte, i: nat)
    requires |opt| > SEARCH_LIMIT && OnlyPads(opt, i) && cmd != PAD
    ensures FindFrom(opt, cmd, i) == None
    decreases SEARCH_LIMIT - i
  {
    if i < SEARCH_LIMIT && opt[i] != END {
      OnlyPadsFindNothing(opt, cmd, i + 2 + opt[i + 1]);
    }
  }

  /** Without, some search that starts where the walks still agree does not. */
  lemma {:induction false} MisalignedDisagrees(opt: seq<byte>, i: nat) returns (j: nat, cmd: byte)
    requires |opt| > SEARCH_LIMIT && !Aligned(opt, i)
    ensures cmd != PAD && cmd != END && BothReach(opt, i, j) && !Agree(opt, cmd, j)
    decreases SEARCH_LIMIT - i
  {
    if opt[i] != PAD {
      j, cmd := MisalignedDisagrees(opt, i + 2 + opt[i + 1]);
    } else if opt[i + 1] == PAD {
      j, cmd := MisalignedDisagrees(opt, i + 2);
    } else {
      j := i;
      assert forall t: byte :: t != PAD ==> StandardFind(opt, t, i) == StandardFind(opt, t, i + 1);
      if opt[i + 1] == END {
        cmd := MeetsATag(opt, i + 257);
      } else {
        cmd := opt[i + 1];
        FindIsAtOrAfter(opt, cmd, i + 2 + cmd);
      }
    }
  }

  lemma {:induction false} MeetsATag(opt: seq<byte>, i: nat) returns (cmd: byte)
    requires |opt| > SEARCH_LIMIT && !OnlyPads(opt, i)
    ensures cmd != PAD && cmd != END && FindFrom(opt, cmd, i).Some?
    decreases SEARCH_LIMIT - i
  {
    if opt[i] == PAD {
      cmd := MeetsATag(opt, i + 2 + opt[i + 1]);
    } else {
      cmd := opt[i];
    }
  }

  lemma {:induction false} FindIsAtOrAfter(opt: seq<byte>, cmd: byte, i: nat)
    requires |opt| > SEARCH_LIMIT
    ensures FindFrom(opt, cmd, i).Some? ==> FindFrom(opt, cmd, i).value >= i
    decreases SEARCH_LIMIT - i
  {
    if i >= SEARCH_LIMIT || opt[i] == END || opt[i] == cmd {
    } else {
      FindIsAtOrAfter(opt, cmd, i + 2 + opt[i + 1]);
    }
  }

  lemma {:induction false} AlignedStays(opt: seq<byte>, i: nat, j: nat)
    requires |opt| > SEARCH_LIMIT && Aligned(opt, i) && BothReach(opt, i, j)
    ensures Aligned(opt, j)
    decreases SEARCH_LIMIT - i
  {
    if i != j {
      if opt[i] == PAD {
        AlignedStays(opt, i + 2, j);
      } else {
        AlignedStays(opt, i + 2 + opt[i + 1], j);
      }
    }
  }

  /** The search reads options as the standard does, for every tag and from every offset the walks
      reach together, exactly when the PADs are aligned. */
  lemma AgreesWithStandardIff(opt: seq<byte>, i: nat)
    requires |opt| > SEARCH_LIMIT
    ensures (forall j: nat, cmd: byte :: BothReach(opt, i, j) && cmd != PAD && cmd != END ==> Agree(opt, cmd, j))
            <==> Aligned(opt, i)
  {
    if Aligned(opt, i) {
      forall j: nat, cmd: byte | BothReach(opt, i, j) && cmd != PAD && cmd != END
        ensures Agree(opt, cmd, j)
      {
        AlignedStays(opt, i, j);
        AlignedAgrees(opt, cmd, j);
      }
    } else {
      var j, cmd := MisalignedDisagrees(opt, i);
    }
  }

  // ----- Written options as the standard reads them -----

  /** The data of the first option with a tag, by the standard's walk. */
  function ReadOption(opt: seq<byte>, tag: byte): Option<seq<byte>>
    requires |opt| > SEARCH_LIMIT
  {
    match StandardFind(opt, tag, 0)
    case None => None
    case Some(o) => if o + 2 + opt[o + 1] <= |opt| then Some(opt[o + 2..o + 2 + opt[o + 1]]) else None
  }

  predicate NoPads(opts: seq<Opt>) {
    forall k :: 0 <= k < |opts| ==> opts[k].tag != PAD
  }

  lemma {:induction false} WrittenIsAligned(opt: seq<byte>, i: nat, opts: seq<Opt>)
    requires WellFormed(opts) && NoPads(opts) && |opt| > SEARCH_LIMIT && Stand(opt, i, opts)
    ensures Aligned(opt, i)
    decreases |opts|
  {
    if opts == [] {
      assert EncodeAll(opts) == [];
    } else {
      TailWellFormed(opts);
      TailStands(opt, i, opts);
      hide Stand, WellFormed;
      WrittenIsAligned(opt, i + 2 + |opts[0].data|, opts[1..]);
    }
  }

  /** Any reader of the standard finds the data of every written tag, and no other tag. */
  lemma WrittenReadsBack(opt: seq<byte>, opts: seq<Opt>, tag: byte, k: nat)
    requires WellFormed(opts) && NoPads(opts) && |opt| > SEARCH_LIMIT && Stand(opt, 0, opts)
    requires tag != PAD && tag != END && k <= |opts| && (forall j :: 0 <= j < k ==> opts[j].tag != tag)
    requires k < |opts| ==> opts[k].tag == tag
    ensures ReadOption(opt, tag) == if k < |opts| then Some(opts[k].data) else None
    ensures k == |opts| - 1 ==>
              StandardFind(opt, tag, 0) == Some(|EncodeAll(opts)| - 2 - |opts[k].data|)
  {
    hide Aligned, StandardFind, FindFrom, OffsetOf, WellFormed, NoPads, Stand, ReadOption, EncodeAll;
    WrittenIsAligned(opt, 0, opts);
    AlignedAgrees(opt, tag, 0);
    FindWritten(opt, 0, opts, tag);
    NotFoundIff(opts, tag);
    if k < |opts| {
      StandsInside(opt, opts);
      var n := FoundData(opt, 0, opts, tag);
      assert n == k;
      ReadAt(opt, tag, OffsetOf(opts, tag).value, opts[k].data);
      if k == |opts| - 1 {
        LastOffset(opts, tag);
      }
    } else {
      ReadNothing(opt, tag);
    }
  }

  lemma StandsInside(opt: seq<byte>, opts: seq<Opt>)
    requires Stand(opt, 0, opts)
    ensures 0 + |EncodeAll(opts)| < |opt| && opt[0..0 + |EncodeAll(opts)|] == EncodeAll(opts)
  {}

  lemma ReadAt(opt: seq<byte>, tag: byte, o: nat, data: seq<byte>)
    requires |opt| > SEARCH_LIMIT && StandardFind(opt, tag, 0) == Some(o)
    requires o + 2 + |data| <= |opt| && opt[o + 1] == |data| && opt[o + 2..o + 2 + |data|] == data
    ensures ReadOption(opt, tag) == Some(data)
  {
    hide StandardFind;
  }

  lemma ReadNothing(opt: seq<byte>, tag: byte)
    requires |opt| > SEARCH_LIMIT && StandardFind(opt, tag, 0) == None
    ensures ReadOption(opt, tag) == None
  {
    hide StandardFind;
  }

  lemma {:induction false} LastOffset(opts: seq<Opt>, tag: byte)
    requires opts != [] && opts[|opts| - 1].tag == tag
    requires forall j :: 0 <= j < |opts| - 1 ==> opts[j].tag != tag
    ensures OffsetOf(opts, tag) == Some(|EncodeAll(opts)| - 2 - |opts[|opts| - 1].data|)
  {
    EncodeHead(opts);
    if |opts| == 1 {
      assert EncodeAll(opts[1..]) == [];
    } else {
      assert forall j :: 1 <= j < |opts| ==> opts[j] == opts[1..][j - 1];
      LastOffset(opts[1..], tag);
    }
  }
}
