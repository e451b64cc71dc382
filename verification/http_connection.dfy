/**
 The response sender of httpserver/httpd.cpp: `http_send` and its parts, driven by callbacks over a
 connection that may accept any part of what it is given.
 */
module HttpConnection {
  import opened Words
  import opened HttpTcp
  import opened SsiScanner

  const NUM_HDRS: nat := 6
  const IDX_CONTENT_LEN_KEEPALIVE: nat := 2
  const IDX_CONTENT_LEN_NR: nat := 3
  const MAX_CONTENT_DIGITS: nat := 9
  const MAX_RETRIES: nat := 4

  type Headers = h: seq<Option<string>> | |h| == NUM_HDRS && h[0].Some? && ShortHeaders(h)
    witness [Some("H"), None, None, None, None, None]

  predicate ShortHeaders(h: seq<Option<string>>) {
    forall i :: 0 <= i < |h| && h[i].Some? ==> 0 < |h[i].value| < 0x1_0000
  }

  /** Decimal digits, as `lwip_itoa` writes them. */
  function Decimal(n: nat): (s: string)
    ensures 1 <= |s| <= n + 1
  {
    var digit := ('0' as int + n % 10) as char;
    if n < 10 then [digit] else Decimal(n / 10) + [digit]
  }

  /** The header strings with the content length filled in, where the file asks for it. */
  function WithContentLength(h: Headers, addLength: bool, fileLen: nat): (r: Headers) {
    var digits := Decimal(fileLen);
    if h[IDX_CONTENT_LEN_KEEPALIVE].None? && addLength && |digits| <= MAX_CONTENT_DIGITS
    then h[IDX_CONTENT_LEN_NR := Some(digits + "\r\n")][IDX_CONTENT_LEN_KEEPALIVE := Some("Content-Length: ")]
    else h
  }

  /** Filling in the content length a second time changes nothing, and no string already present
      is touched. */
  lemma ContentLengthOnce(h: Headers, addLength: bool, fileLen: nat)
    ensures var w := WithContentLength(h, addLength, fileLen);
            && WithContentLength(w, addLength, fileLen) == w
            && forall i :: 0 <= i < NUM_HDRS && i != IDX_CONTENT_LEN_NR && h[i].Some? ==> w[i] == h[i]
  {}

  /** The header text from byte pos of string index on; absent strings contribute nothing. */
  function HeaderTail(h: Headers, index: nat, pos: nat): string
    requires index < NUM_HDRS && h[index].Some? ==> pos <= |h[index].value|
    decreases NUM_HDRS - index
  {
    if index >= NUM_HDRS then ""
    else (if h[index].Some? then h[index].value[pos..] else "") + HeaderTail(h, index + 1, 0)
  }

  /** The whole response: headers in order, then the page, expanded if it is an SSI page. */
  function Response(h: Headers, site: Site, data: string, addLength: bool, isSsi: bool, hasHeaders: bool): string {
    var page := if isSsi then Annotate(site, data) else data;
    if hasHeaders then HeaderTail(WithContentLength(h, addLength, |data|), 0, 0) + page else page
  }

  /** Bytes have moved from what is owed to what is sent, in order, none lost and none added. */
  predicate Moved(sent: string, owed: string, sent': string, owed': string) {
    sent <= sent' && sent' + owed' == sent + owed
  }

  /** Sending text[from..to] out of text[from..end] + rest. */
  lemma SlicesMove(sent: string, text: string, from: nat, to: nat, end: nat, rest: string)
    requires from <= to <= end <= |text|
    ensures Moved(sent, text[from..end] + rest, sent + text[from..to], text[to..end] + rest)
  {
    assert text[from..end] == text[from..to] + text[to..end];
  }

  /** The connection has not been asked for anything. */
  predicate Untouched(sent: string, room: int, refused: int, sent0: string, room0: int, refused0: int) {
    sent == sent0 && room == room0 && refused == refused0
  }

  lemma MovedUnder(sent: string, owed: string, sent': string, owed': string, rest: string)
    requires Moved(sent, owed, sent', owed')
    ensures Moved(sent, owed + rest, sent', owed' + rest)
  {
    assert sent' + (owed' + rest) == (sent' + owed') + rest == sent + (owed + rest);
  }

  lemma MovedTwice(s0: string, o0: string, s1: string, o1: string, s2: string, o2: string)
    requires Moved(s0, o0, s1, o1) && Moved(s1, o1, s2, o2)
    ensures Moved(s0, o0, s2, o2) && |s0| <= |s1| <= |s2|
  {}

  lemma MovedNothing(sent: string, owed: string)
    ensures Moved(sent, owed, sent, owed)
  {}

  lemma MovedOnce(sent: string, part: string, rest: string)
    ensures Moved(sent, part + rest, sent + part, rest)
  {}

  datatype Status =
    | Open       // callbacks still arrive
    | Finished   // closed at end of file
    | GaveUp     // closed by the poll timer
    | Lost       // closed or reset by the other side, or closed for a bad request
    | Superseded // a response without a file that the next request on the connection has started over

  /** What `http_recv` is called with while a response is being sent: the end of the stream or an
      error, or data, and what parsing it as a request would come to. */
  datatype Incoming = EndOfStream | Data(parsed: Parsed)

  datatype Parsed = InProgress | BadRequest | Request

  datatype TagState = TagNone | TagLeadIn | TagFound | TagLeadOut | TagSending

  datatype HeaderResult = NoData | Continue | Break | Freed

  class Connection {
    const data: string
    const hasFile: bool
    const persistent: bool
    const isSsi: bool
    const site: Site
    var status: Status
    var hdrs: Headers
    var hdrIndex: nat
    var hdrPos: nat
    var file: nat        // offset of the first unsent byte of the page
    var left: nat
    var retries: nat
    var tagState: TagState
    var parsed: nat      // offset of the first unscanned byte
    var parseLeft: nat
    var tagEnd: nat
    var tagIndex: nat
    var tagKind: TagKind
    var tagName: string  // the 9-byte name buffer
    var tagNameLen: nat
    var tagInsert: string
    var tagCount: nat    // calls for an insert so far

    // ----- The invariant and what is still owed to the client -----

    /** Whether a content length is announced: for a page that is not expanded, if its file asks for it. */
    function AddsLength(): bool {
      hasFile && persistent && !isSsi
    }

    ghost predicate Valid()
      reads this
    {
      && ValidSite(site)
      && (!hasFile ==> data == "" && !isSsi)
      && file + left == |data|
      && (isSsi ==> SsiValid())
      && HeadersValid()
    }

    ghost predicate HeadersValid()
      reads this
    {
      && hdrIndex <= NUM_HDRS
      && (hdrIndex < NUM_HDRS ==> hdrs[hdrIndex].Some? && hdrPos < |hdrs[hdrIndex].value| && file == 0)
      && (hdrIndex < NUM_HDRS && (hdrIndex > 0 || hdrPos > 0) ==> WithContentLength(hdrs, AddsLength(), |data|) == hdrs)
    }

    /** The file pointer never passes the scan pointer; while an insert is being sent the scan
        pointer stands at the end of its tag. */
    ghost predicate SsiValid()
      reads this
    {
      && file <= parsed && parsed + parseLeft == |data| && |tagName| == MAX_NAME_LEN + 1
      && match tagState
         case TagNone => true
         case TagLeadIn => 1 <= tagIndex <= |LeadIn(tagKind)|
         case TagFound => tagIndex <= MAX_NAME_LEN
         case TagLeadOut =>
           tagIndex < |LeadOut(tagKind)| && 1 <= tagNameLen <= MAX_NAME_LEN && tagName[tagNameLen] == '\0'
         case TagSending => tagEnd == parsed && tagIndex <= |tagInsert| <= MAX_INSERT_LEN
    }

    /** The scanner state that the fields represent. */
    ghost function Scanner(): (s: Scan)
      requires SsiValid()
      reads this
      ensures ValidScan(s)
    {
      match tagState
      case TagNone => Idle
      case TagLeadIn => InLeadIn(tagKind, tagIndex)
      case TagFound => InName(tagKind, tagName[..tagIndex])
      case TagLeadOut => InLeadOut(tagKind, tagName[..tagNameLen], tagIndex)
      case TagSending => Idle
    }

    /** What follows the bytes from the file pointer to the scan pointer. */
    ghost function OwedBeyond(): string
      requires SsiValid()
      reads this
    {
      if tagState == TagSending then tagInsert[tagIndex..] + Expand(site, Idle, data[parsed..], tagCount)
      else Expand(site, Scanner(), data[parsed..], tagCount)
    }

    ghost function OwedBody(): string
      requires file + left == |data| && (isSsi ==> SsiValid())
      reads this
    {
      if isSsi then data[file..parsed] + OwedBeyond() else data[file..]
    }

    /** All that is still to be sent. */
    ghost function Owed(): string
      requires Valid()
      reads this
    {
      if hdrIndex < NUM_HDRS
      then HeaderTail(WithContentLength(hdrs, AddsLength(), |data|), hdrIndex, hdrPos) + OwedBody()
      else OwedBody()
    }

    /** `http_init_file`: ready to send; without dynamic headers the index says they are all sent. */
    constructor (data: string, hasFile: bool, persistent: bool, isSsi: bool, site: Site, hdrs: Headers,
                 hasHeaders: bool)
      requires ValidSite(site) && (!hasFile ==> data == "" && !isSsi)
      requires hdrs[IDX_CONTENT_LEN_KEEPALIVE].None? && hdrs[IDX_CONTENT_LEN_NR].None?
      ensures Valid() && status == Open
      ensures Owed() == Response(hdrs, site, data, hasFile && persistent && !isSsi, isSsi, hasHeaders)
      ensures this.hasFile == hasFile && this.isSsi == isSsi && this.data == data
    {
      this.data, this.hasFile, this.persistent, this.isSsi, this.site := data, hasFile, persistent, isSsi, site;
      this.hdrs := hdrs;
      status := Open;
      hdrIndex, hdrPos := if hasHeaders then 0 else NUM_HDRS, 0;
      file, left, retries := 0, |data|, 0;
      tagState, parsed, parseLeft, tagEnd, tagIndex, tagKind := TagNone, 0, |data|, 0, 0, Html;
      tagName, tagNameLen, tagInsert, tagCount := "\0\0\0\0\0\0\0\0\0", 0, "", 0;
      new;
      StartOwed();
    }

    lemma StartOwed()
      requires file + left == |data| && file == 0
      requires isSsi ==> SsiValid() && parsed == 0 && tagState == TagNone && tagCount == 0
      ensures OwedBody() == if isSsi then Annotate(site, data) else data
    {
      ServedText(site, data);
      assert data[0..] == data && "" + Expand(site, Idle, data, 0) == Expand(site, Idle, data, 0);
    }

    // ----- Closing -----

    /** `http_eof` without keep-alive. */
    method Eof()
      requires Valid() && status == Open
      modifies this`status
      ensures Valid() && Owed() == old(Owed()) && status == Finished
    {
      status := Finished;
    }

    /** `http_check_eof`; `fs_bytes_left` is zero for a file that is in memory. */
    method CheckEof() returns (more: bool)
      requires Valid() && status == Open
      modifies this`status
      ensures !more && Valid() && Owed() == old(Owed()) && status == Finished
    {
      Eof();
      more := false;
    }

    // ----- Headers -----

    /** `get_http_content_length`, when the length header is still missing. */
    method GetContentLength()
      requires Valid() && hdrs[IDX_CONTENT_LEN_KEEPALIVE].None?
      modifies this`hdrs
      ensures hdrs == WithContentLength(old(hdrs), AddsLength(), |data|)
    {
      var addContentLen := false;
      if !isSsi {
        if hasFile && persistent {
          addContentLen := true;
        }
      }
      if addContentLen {
        var digits := Decimal(|data|);
        if |digits| <= MAX_CONTENT_DIGITS {
          hdrs := hdrs[IDX_CONTENT_LEN_NR := Some(digits + "\r\n")];
        } else {
          addContentLen := false;
        }
      }
      if addContentLen {
        hdrs := hdrs[IDX_CONTENT_LEN_KEEPALIVE := Some("Content-Length: ")];
      }
    }

    /** The part of a turn of the header loop after the write: move on past a finished string. */
    method AdvanceHeader(sent: nat)
      requires hdrIndex < NUM_HDRS && hdrs[hdrIndex].Some? && hdrPos + sent <= |hdrs[hdrIndex].value|
      modifies this`hdrIndex, this`hdrPos
      ensures hdrIndex <= NUM_HDRS && hdrIndex >= old(hdrIndex)
      ensures hdrIndex < NUM_HDRS ==> hdrs[hdrIndex].Some? && hdrPos < |hdrs[hdrIndex].value|
      ensures HeaderTail(hdrs, hdrIndex, hdrPos) == HeaderTail(hdrs, old(hdrIndex), old(hdrPos) + sent)
      ensures hdrIndex > 0 || hdrPos > 0 ==>
                old(hdrIndex) > 0 || old(hdrPos) > 0 || sent > 0 || hdrIndex > old(hdrIndex)
    {
      var hdrLen := |hdrs[hdrIndex].value|;
      hdrPos := hdrPos + sent;
      if hdrPos == hdrLen {
        ghost var tail := HeaderTail(hdrs, hdrIndex, hdrPos);
        hdrIndex := hdrIndex + 1;
        while hdrIndex < NUM_HDRS && hdrs[hdrIndex] == None
          invariant old(hdrIndex) < hdrIndex <= NUM_HDRS
          invariant HeaderTail(hdrs, hdrIndex, 0) == tail
        {
          hdrIndex := hdrIndex + 1;
        }
        hdrPos := 0;
      }
    }

    /** One turn of the header loop: as much of the current string as fits, then the next string.
        `partial` is whether the write took less than it was given. */
    method HeaderTurn(pcb: Pcb, len: u16) returns (sendLen: u16, partial: bool)
      requires hdrIndex < NUM_HDRS && hdrs[hdrIndex].Some? && hdrPos < |hdrs[hdrIndex].value| && len > 0
      modifies this`hdrIndex, this`hdrPos, pcb
      ensures hdrIndex <= NUM_HDRS && sendLen <= len
      ensures hdrIndex < NUM_HDRS ==> hdrs[hdrIndex].Some? && hdrPos < |hdrs[hdrIndex].value|
      ensures pcb.refused >= old(pcb.refused)
      ensures pcb.refused == old(pcb.refused) && old(pcb.CanSend()) ==> sendLen > 0 && |pcb.sent| > |old(pcb.sent)|
      ensures Moved(old(pcb.sent), HeaderTail(hdrs, old(hdrIndex), old(hdrPos)),
                    pcb.sent, HeaderTail(hdrs, hdrIndex, hdrPos))
    {
      hide Moved, HeaderTail;
      var hdr := hdrs[hdrIndex].value;
      sendLen := Min(len, |hdr| - hdrPos);
      var oldSendLen := sendLen;
      var err;
      ghost var sent, i, pos := pcb.sent, hdrIndex, hdrPos;
      err, sendLen := pcb.HttpWrite(hdr[hdrPos..hdrPos + sendLen]);
      partial := err == Ok && oldSendLen != sendLen;
      if err != Ok {
        sendLen := 0;
      }
      assert hdr[pos..pos + oldSendLen][..sendLen] == hdr[pos..pos + sendLen];
      HeaderMoves(hdrs, i, pos, sendLen, sent, pcb.sent);
      AdvanceHeader(sendLen);
    }

    /** What is owed, in terms of the header text and the page. */
    lemma OwedIs(body: string)
      requires Valid() && body == OwedBody() && WithContentLength(hdrs, AddsLength(), |data|) == hdrs
      ensures Owed() == HeaderTail(hdrs, hdrIndex, hdrPos) + body
    {
      if hdrIndex == NUM_HDRS {
        assert "" + body == body;
      }
    }

    /** The loop of `http_send_headers`; `partial` is whether some write took less than it was given. */
    method HeaderLoop(pcb: Pcb) returns (partial: bool)
      requires Valid() && hdrIndex < NUM_HDRS && WithContentLength(hdrs, AddsLength(), |data|) == hdrs
      modifies this`hdrIndex, this`hdrPos, pcb
      ensures Valid() && Moved(old(pcb.sent), old(Owed()), pcb.sent, Owed())
      ensures pcb.refused >= old(pcb.refused)
      ensures pcb.refused == old(pcb.refused) && old(pcb.CanSend()) ==> |pcb.sent| > |old(pcb.sent)|
    {
      hide Expand, LeadIn, LeadOut, WithContentLength, HeaderTail;
      partial := false;
      ghost var tail, body := HeaderTail(hdrs, hdrIndex, hdrPos), OwedBody();
      OwedIs(body);
      var len, sendLen: u16 := pcb.sndBuf, pcb.sndBuf;
      while len > 0 && hdrIndex < NUM_HDRS && sendLen > 0
        invariant Valid()
        invariant Moved(old(pcb.sent), tail, pcb.sent, HeaderTail(hdrs, hdrIndex, hdrPos))
        invariant pcb.refused >= old(pcb.refused)
        invariant pcb.refused == old(pcb.refused) && old(pcb.CanSend()) ==>
                    |pcb.sent| > |old(pcb.sent)|
                    || (pcb.sndBuf == old(pcb.sndBuf) == len == sendLen && hdrIndex < NUM_HDRS)
        decreases len, sendLen
      {
        var short;
        sendLen, short := HeaderTurn(pcb, len);
        partial := partial || short;
        len := len - sendLen;
      }
      OwedIs(body);
      MovedUnder(old(pcb.sent), tail, pcb.sent, HeaderTail(hdrs, hdrIndex, hdrPos), body);
    }

    /** The first statement of `http_send_headers`: it only spells out headers that were owed. */
    method SetUpContentLength()
      requires Valid() && hdrIndex < NUM_HDRS
      modifies this`hdrs
      ensures Valid() && WithContentLength(hdrs, AddsLength(), |data|) == hdrs
      ensures Owed() == old(Owed())
    {
      hide Expand, HeaderTail, LeadIn, LeadOut;
      ghost var h: Headers := hdrs;
      if hdrs[IDX_CONTENT_LEN_KEEPALIVE] == None {
        GetContentLength();
      }
      assert hdrs == WithContentLength(h, AddsLength(), |data|);
      ContentLengthOnce(h, AddsLength(), |data|);
    }

    /** `http_send_headers`. */
    method SendHeaders(pcb: Pcb) returns (result: HeaderResult)
      requires Valid() && status == Open && hdrIndex < NUM_HDRS
      modifies this`hdrs, this`hdrIndex, this`hdrPos, this`status, pcb
      ensures Valid()
      ensures Moved(old(pcb.sent), old(Owed()), pcb.sent, Owed())
      ensures pcb.refused >= old(pcb.refused)
      ensures pcb.refused == old(pcb.refused) && old(pcb.CanSend()) ==> |pcb.sent| > |old(pcb.sent)|
      ensures if result == Freed then status == Finished && Owed() == "" else status == Open
      ensures result == Continue || result == NoData ==> hdrIndex == NUM_HDRS
      ensures result == Break ==> hdrIndex < NUM_HDRS
    {
      hide Moved, Expand, HeaderTail, WithContentLength, LeadIn, LeadOut;
      SetUpContentLength();
      var partial := HeaderLoop(pcb);
      result := if partial then Continue else NoData;
      if hdrIndex >= NUM_HDRS && !hasFile {
        NothingOwed();
        var more := CheckEof();
        if more {
          result := Break;
        } else {
          return Freed;
        }
      }
      if hdrIndex < NUM_HDRS || !hasFile {
        return Break;
      }
    }

    // ----- The page -----

    /** `len = MIN(upTo - file, 0xffff); http_write(...)`, and the file pointer moved on success. */
    method SendFile(pcb: Pcb, upTo: nat) returns (err: Err, len: u16)
      requires file <= upTo <= |data| && file + left == |data|
      modifies this`file, this`left, pcb
      ensures old(file) <= file <= upTo && file == old(file) + len && file + left == |data|
      ensures pcb.sent == old(pcb.sent) + data[old(file)..file]
      ensures err != Ok ==> len == 0
      ensures pcb.refused >= old(pcb.refused) && (err != Ok ==> pcb.refused > old(pcb.refused))
      ensures pcb.refused == old(pcb.refused) && old(pcb.CanSend()) && old(file) < upTo ==> len > 0
    {
      len := Min(upTo - file, 0xFFFF);
      err, len := pcb.HttpWrite(data[file..file + len]);
      if err == Ok {
        file := file + len;
        left := left - len;
      }
    }

    /** `http_send_data_nonssi`. */
    method SendDataNonSsi(pcb: Pcb) returns (sent: bool)
      requires Valid() && !isSsi && hdrIndex == NUM_HDRS
      modifies this`file, this`left, pcb
      ensures Valid() && Moved(old(pcb.sent), old(OwedBody()), pcb.sent, OwedBody())
      ensures pcb.refused >= old(pcb.refused)
      ensures pcb.refused == old(pcb.refused) && old(pcb.CanSend()) && old(left) > 0 ==> |pcb.sent| > |old(pcb.sent)|
    {
      hide Moved, Expand, HeaderTail, WithContentLength;
      ghost var from, before := file, pcb.sent;
      var err, len := SendFile(pcb, |data|);
      SlicesMove(before, data, from, file, |data|, "");
      assert data[from..|data|] + "" == data[from..] && data[file..|data|] + "" == data[file..];
      sent := err == Ok;
    }

    /** `get_tag_insert`. */
    method GetTagInsert(ghost name: string)
      requires ValidSite(site) && |tagName| == MAX_NAME_LEN + 1 && |name| <= MAX_NAME_LEN
      requires CString(tagName) == CString(name)
      modifies this`tagInsert, this`tagCount
      ensures tagInsert == Insert(site, name, old(tagCount)) && |tagInsert| <= MAX_INSERT_LEN
      ensures tagCount == old(tagCount) + 1
    {
      var cname := CString(tagName);
      tagCount := tagCount + 1;
      if site.installed && |site.tags| > 0 {
        var tag := 0;
        while tag < |site.tags|
          invariant 0 <= tag <= |site.tags|
          invariant FindTag(site.tags, cname, tag) == FindTag(site.tags, cname, 0)
        {
          if site.tags[tag] == cname {
            tagInsert := site.handler(tag, tagCount - 1);
            return;
          }
          tag := tag + 1;
        }
      }
      var len := Min(MAX_NAME_LEN + 1, Min(|cname|, MAX_INSERT_LEN - (18 + 7)));
      assert cname[..len] == cname;
      tagInsert := UnknownText(cname[..len]);
    }

    /** TAG_NONE: look for the first character of a lead-in. */
    method StepNone()
      requires SsiValid() && tagState == TagNone && parseLeft > 0
      modifies this`tagState, this`tagKind, this`tagIndex, this`parsed, this`parseLeft
      ensures SsiValid() && parsed == old(parsed) + 1 && tagState != TagSending
      ensures ScanChar(old(Scanner()), data[old(parsed)]) == (Scanner(), None)
    {
      if data[parsed] == LeadIn(Html)[0] {
        tagKind, tagState, tagIndex := Html, TagLeadIn, 1;
      } else if data[parsed] == LeadIn(Script)[0] {
        tagKind, tagState, tagIndex := Script, TagLeadIn, 1;
      }
      parseLeft := parseLeft - 1;
      parsed := parsed + 1;
    }

    /** TAG_LEADIN. A complete lead-in consumes nothing. */
    method StepLeadIn()
      requires SsiValid() && tagState == TagLeadIn && parseLeft > 0
      modifies this`tagState, this`tagIndex, this`parsed, this`parseLeft
      ensures SsiValid() && tagState != TagSending
      ensures if old(tagIndex) == |LeadIn(tagKind)|
              then parsed == old(parsed) && tagState == TagFound && Scanner() == InName(tagKind, "")
              else parsed == old(parsed) + 1 && ScanChar(old(Scanner()), data[old(parsed)]) == (Scanner(), None)
    {
      if tagIndex == |LeadIn(tagKind)| {
        tagIndex := 0;
        tagState := TagFound;
      } else {
        if data[parsed] == LeadIn(tagKind)[tagIndex] {
          tagIndex := tagIndex + 1;
        } else {
          tagState := TagNone;
        }
        parseLeft := parseLeft - 1;
        parsed := parsed + 1;
      }
    }

    /** TAG_FOUND: read the name. */
    method StepFound()
      requires SsiValid() && tagState == TagFound && parseLeft > 0
      modifies this`tagState, this`tagIndex, this`tagName, this`tagNameLen, this`parsed, this`parseLeft
      ensures SsiValid() && parsed == old(parsed) + 1 && tagState != TagSending
      ensures ScanChar(old(Scanner()), data[old(parsed)]) == (Scanner(), None)
    {
      hide Expand, LeadIn, LeadOut;
      ghost var name := tagName[..tagIndex];
      var c := data[parsed];
      if tagIndex == 0 && IsSpace(c) {
        parseLeft := parseLeft - 1;
        parsed := parsed + 1;
        return;
      }
      if c == LeadOut(tagKind)[0] || IsSpace(c) {
        if tagIndex == 0 {
          tagState := TagNone;
        } else {
          tagState := TagLeadOut;
          tagNameLen := tagIndex;
          tagName := tagName[tagIndex := '\0'];
          assert tagName[..tagNameLen] == name;
          tagIndex := if c == LeadOut(tagKind)[0] then 1 else 0;
        }
      } else if tagIndex < MAX_NAME_LEN {
        tagName := tagName[tagIndex := c];
        tagIndex := tagIndex + 1;
        assert tagName[..tagIndex] == name + [c];
      } else {
        tagState := TagNone;
      }
      parseLeft := parseLeft - 1;
      parsed := parsed + 1;
    }

    /** TAG_LEADOUT up to the moment a tag is complete and its insert is fetched. */
    method StepLeadOut()
      requires SsiValid() && ValidSite(site) && tagState == TagLeadOut && parseLeft > 0
      modifies this`tagState, this`tagIndex, this`tagInsert, this`tagCount, this`tagEnd, this`parsed, this`parseLeft
      ensures SsiValid() && parsed == old(parsed) + 1
      ensures match ScanChar(old(Scanner()), data[old(parsed)]).1
              case None => tagState != TagSending && tagCount == old(tagCount)
                           && Scanner() == ScanChar(old(Scanner()), data[old(parsed)]).0
              case Some(name) => tagState == TagSending && tagIndex == 0 && tagCount == old(tagCount) + 1
                                 && tagInsert == Insert(site, name, old(tagCount))
    {
      hide Insert, CString, LeadIn, LeadOut, Expand, ValidSite;
      var c := data[parsed];
      ghost var name := tagName[..tagNameLen];
      if tagIndex == 0 && IsSpace(c) {
        parseLeft := parseLeft - 1;
        parsed := parsed + 1;
        return;
      }
      if c == LeadOut(tagKind)[tagIndex] {
        parseLeft := parseLeft - 1;
        parsed := parsed + 1;
        tagIndex := tagIndex + 1;
        if tagIndex == |LeadOut(tagKind)| {
          CStringCut(tagName, tagNameLen);
          GetTagInsert(name);
          tagIndex := 0;
          tagState := TagSending;
          tagEnd := parsed;
        }
      } else {
        parseLeft := parseLeft - 1;
        parsed := parsed + 1;
        tagState := TagNone;
      }
    }

    /** The scanning cases of the loop's switch: nothing is sent, nothing owed is lost. */
    method ScanTurn()
      requires SsiValid() && ValidSite(site) && tagState != TagSending && parseLeft > 0
      modifies this`tagState, this`tagKind, this`tagIndex, this`tagName, this`tagNameLen,
               this`tagInsert, this`tagCount, this`tagEnd, this`parsed, this`parseLeft
      ensures SsiValid() && data[file..parsed] + OwedBeyond() == old(data[file..parsed] + OwedBeyond())
      ensures parseLeft == old(parseLeft) - 1
              || (parseLeft == old(parseLeft) && old(tagState) == TagLeadIn && tagState == TagFound)
    {
      hide Expand, Insert, ScanChar, ScanName;
      ExpandStep(site, Scanner(), data, file, parsed, tagCount);
      ghost var at, k := parsed, tagCount;
      match tagState {
        case TagNone => StepNone();
        case TagLeadIn =>
          if tagIndex == |LeadIn(tagKind)| {
            LeadInEnds(site, tagKind, data[parsed..], tagCount);
          }
          StepLeadIn();
        case TagFound => StepFound();
        case TagLeadOut =>
          StepLeadOut();
          assert tagState == TagSending ==> tagInsert[0..] == tagInsert;
      }
    }

    /** TAG_SENDING with the page sent up to the tag: the insert, then back to scanning. */
    method SendInsert(pcb: Pcb, len0: u16) returns (err: Err, len: u16)
      requires SsiValid() && tagState == TagSending
      modifies this`tagIndex, this`tagState, pcb
      ensures SsiValid()
      ensures Moved(old(pcb.sent), old(OwedBeyond()), pcb.sent, OwedBeyond())
      ensures tagState == TagNone
              || (tagState == TagSending && tagIndex == old(tagIndex) + len && len <= |tagInsert| - old(tagIndex))
      ensures tagState == TagNone ==>
                err == Ok && len == len0
                && Untouched(pcb.sent, pcb.sndBuf, pcb.refused, old(pcb.sent), old(pcb.sndBuf), old(pcb.refused))
      ensures pcb.refused >= old(pcb.refused) && (err != Ok ==> pcb.refused > old(pcb.refused))
      ensures tagState == TagSending && pcb.refused == old(pcb.refused) && old(pcb.CanSend()) ==>
                |pcb.sent| > |old(pcb.sent)|
    {
      hide Moved, Expand, Insert, LeadIn, LeadOut, CString, ScanChar, HeadersValid;
      ghost var from, sent, rest := tagIndex, pcb.sent, Expand(site, Idle, data[parsed..], tagCount);
      if tagIndex < |tagInsert| {
        len := |tagInsert| - tagIndex;
        err, len := pcb.HttpWrite(tagInsert[tagIndex..tagIndex + len]);
        if err == Ok {
          tagIndex := tagIndex + len;
        }
        assert tagInsert[from..|tagInsert|] == tagInsert[from..];
        assert tagInsert[tagIndex..|tagInsert|] == tagInsert[tagIndex..];
        assert pcb.sent == sent + tagInsert[from..tagIndex];
        SlicesMove(sent, tagInsert, from, tagIndex, |tagInsert|, rest);
      } else {
        EmptySlice(tagInsert, tagIndex, rest);
        MovedNothing(sent, rest);
        err, len := Ok, len0;
        tagIndex := 0;
        tagState := TagNone;
      }
    }

    /** What the loop of `http_send_data_ssi` still has to get through, most significant first. */
    ghost function Phase(): nat
      reads this
    {
      if tagState == TagSending || tagState == TagLeadIn then 1 else 0
    }

    ghost function Unsent(): nat
      requires SsiValid()
      reads this
    {
      parsed - file + if tagState == TagSending then |tagInsert| - tagIndex else 0
    }

    /** One turn of the loop of `http_send_data_ssi`. */
    method SsiTurn(pcb: Pcb, len0: u16) returns (err: Err, len: u16)
      requires Valid() && isSsi && hdrIndex == NUM_HDRS && (tagState == TagSending || parseLeft > 0) && len0 > 0
      modifies this`file, this`left, this`tagState, this`tagKind, this`tagIndex, this`tagName, this`tagNameLen,
               this`tagInsert, this`tagCount, this`tagEnd, this`parsed, this`parseLeft, pcb
      ensures Valid() && Moved(old(pcb.sent), old(OwedBody()), pcb.sent, OwedBody())
      ensures pcb.refused >= old(pcb.refused) && (err != Ok ==> pcb.refused > old(pcb.refused))
      ensures pcb.refused == old(pcb.refused) && old(pcb.CanSend()) ==>
                |pcb.sent| > |old(pcb.sent)|
                || (len == len0
                    && Untouched(pcb.sent, pcb.sndBuf, pcb.refused, old(pcb.sent), old(pcb.sndBuf), old(pcb.refused)))
      ensures parseLeft <= old(parseLeft)
      ensures err == Ok && parseLeft == old(parseLeft) ==>
                Phase() < old(Phase())
                || (Phase() == old(Phase()) && (Unsent() < old(Unsent()) || (Unsent() == old(Unsent()) && len == 0)))
    {
      hide Moved, Expand, Insert, LeadIn, LeadOut, HeaderTail, WithContentLength, Scanner, OwedBeyond, ValidSite;
      err, len := Ok, len0;
      ghost var owed := OwedBody();
      if tagState != TagSending {
        ScanTurn();
        assert OwedBody() == owed;
        MovedNothing(pcb.sent, owed);
        if tagState == TagSending && tagEnd > file {
          err, len := SendPart(pcb);
        }
      } else if tagEnd > file {
        err, len := SendPart(pcb);
      } else {
        assert data[file..parsed] == "" && OwedBody() == OwedBeyond();
        err, len := SendInsert(pcb, len0);
        assert OwedBody() == OwedBeyond();
      }
    }

    /** `SendFile` up to the scan pointer, in an SSI page. */
    method SendPart(pcb: Pcb) returns (err: Err, len: u16)
      requires SsiValid() && file + left == |data|
      modifies this`file, this`left, pcb
      ensures SsiValid() && file + left == |data|
      ensures Moved(old(pcb.sent), old(data[file..parsed] + OwedBeyond()), pcb.sent, data[file..parsed] + OwedBeyond())
      ensures file == old(file) + len && (err != Ok ==> len == 0)
      ensures pcb.refused >= old(pcb.refused) && (err != Ok ==> pcb.refused > old(pcb.refused))
      ensures pcb.refused == old(pcb.refused) && old(pcb.CanSend()) && old(file) < parsed ==>
                |pcb.sent| > |old(pcb.sent)|
    {
      hide Expand, LeadIn, LeadOut;
      ghost var from, beyond, sent := file, OwedBeyond(), pcb.sent;
      err, len := SendFile(pcb, parsed);
      SlicesMove(sent, data, from, file, parsed, beyond);
    }

    /** `http_send_data_ssi`. */
    method SendDataSsi(pcb: Pcb) returns (sent: bool)
      requires Valid() && isSsi && hdrIndex == NUM_HDRS
      modifies this`file, this`left, this`tagState, this`tagKind, this`tagIndex, this`tagName, this`tagNameLen,
               this`tagInsert, this`tagCount, this`tagEnd, this`parsed, this`parseLeft, pcb
      ensures Valid() && Moved(old(pcb.sent), old(OwedBody()), pcb.sent, OwedBody())
      ensures pcb.refused >= old(pcb.refused)
      ensures pcb.refused == old(pcb.refused) && old(pcb.CanSend()) ==>
                |pcb.sent| > |old(pcb.sent)| || (left == 0 && tagState != TagSending)
    {
      hide Expand, LeadIn, LeadOut;
      var err := Ok;
      sent := false;
      var len: u16 := pcb.sndBuf;
      if parsed > file {
        err, len := SendPart(pcb);
        if err == Ok {
          sent := true;
        }
        if pcb.sndBuf == 0 {
          return;
        }
      }
      while (tagState == TagSending || parseLeft > 0) && err == Ok
        invariant Valid() && Moved(old(pcb.sent), old(OwedBody()), pcb.sent, OwedBody())
        invariant pcb.refused >= old(pcb.refused) && (err != Ok ==> pcb.refused > old(pcb.refused))
        invariant pcb.refused == old(pcb.refused) && old(pcb.CanSend()) ==>
                    |pcb.sent| > |old(pcb.sent)|
                    || (len == old(pcb.sndBuf)
                        && Untouched(pcb.sent, pcb.sndBuf, pcb.refused,
                                     old(pcb.sent), old(pcb.sndBuf), old(pcb.refused)))
        decreases if err == Ok then 1 else 0, parseLeft, Phase(), Unsent(), if len == 0 then 0 else 1
      {
        if len == 0 {
          return;
        }
        err, len := SsiTurn(pcb, len);
        if err == Ok {
          sent := true;
        }
      }
      if tagState != TagSending && parsed > file {
        err, len := SendPart(pcb);
        if err == Ok {
          sent := true;
        }
      }
    }

    // ----- Callbacks -----

    /** `http_send`. */
    method Send(pcb: Pcb) returns (result: bool)
      requires Valid() && status == Open
      modifies this, pcb
      ensures Valid()
      ensures Moved(old(pcb.sent), old(Owed()), pcb.sent, Owed())
      ensures status == Finished ==> Owed() == ""
      ensures pcb.refused >= old(pcb.refused)
      ensures pcb.refused == old(pcb.refused) && old(pcb.CanSend()) ==>
                status == Finished || |pcb.sent| > |old(pcb.sent)|
      ensures (status == Open || status == Finished) && retries == old(retries)
    {
      hide Moved, Expand, HeaderTail, WithContentLength, LeadIn, LeadOut;
      result := false;
      ghost var headers := hdrIndex < NUM_HDRS;
      if hdrIndex < NUM_HDRS {
        var r := SendHeaders(pcb);
        result := r != NoData;
        if r == Freed || (r != Continue && hdrIndex < NUM_HDRS) {
          return;
        }
      }
      ghost var sent, owed := pcb.sent, Owed();
      if !headers {
        MovedNothing(sent, owed);
      }
      result := SendPage(pcb, result);
      MovedTwice(old(pcb.sent), old(Owed()), sent, owed, pcb.sent, Owed());
    }

    /** `http_send` once the headers are out. */
    method SendPage(pcb: Pcb, result0: bool) returns (result: bool)
      requires Valid() && status == Open && hdrIndex == NUM_HDRS
      modifies this, pcb
      ensures Valid() && hdrIndex == NUM_HDRS
      ensures Moved(old(pcb.sent), old(Owed()), pcb.sent, Owed())
      ensures status == Finished ==> Owed() == ""
      ensures pcb.refused >= old(pcb.refused)
      ensures pcb.refused == old(pcb.refused) && old(pcb.CanSend()) ==>
                status == Finished || |pcb.sent| > |old(pcb.sent)|
      ensures (status == Open || status == Finished) && retries == old(retries)
    {
      hide Moved, Valid, Owed, OwedBody, SsiValid;
      result := result0;
      ghost var sent, owed := pcb.sent, Owed();
      MovedNothing(sent, owed);
      PageIsOwed();
      if isSsi && tagState == TagSending {
      } else if left == 0 {
        NothingOwed();
        var more := CheckEof();
        if !more {
          return false;
        }
      }
      if isSsi {
        result := SendDataSsi(pcb);
        PageIsOwed();
        if tagState == TagSending {
          return;
        }
      } else {
        result := SendDataNonSsi(pcb);
        PageIsOwed();
      }
      if left == 0 {
        NothingOwed();
        Eof();
        return false;
      }
    }

    lemma PageIsOwed()
      requires Valid() && hdrIndex == NUM_HDRS
      ensures file + left == |data| && (isSsi ==> SsiValid())
      ensures Owed() == OwedBody()
    {}

    lemma NothingOwed()
      requires Valid() && hdrIndex == NUM_HDRS && left == 0 && (isSsi ==> tagState != TagSending)
      ensures Owed() == ""
    {}

    /** `http_sent`. */
    method Sent(pcb: Pcb)
      requires Valid() && status == Open
      modifies this, pcb
      ensures Valid() && Moved(old(pcb.sent), old(Owed()), pcb.sent, Owed())
      ensures (status == Finished ==> Owed() == "") && (status == Open || status == Finished) && retries == 0
      ensures pcb.refused >= old(pcb.refused)
      ensures pcb.refused == old(pcb.refused) && old(pcb.CanSend()) ==>
                status == Finished || |pcb.sent| > |old(pcb.sent)|
    {
      hide Moved, Expand, HeaderTail, WithContentLength, LeadIn, LeadOut;
      retries := 0;
      assert Owed() == old(Owed());
      var r := Send(pcb);
    }

    /** `http_poll`: gives up after MAX_RETRIES polls without progress. */
    method Poll(pcb: Pcb)
      requires Valid() && status == Open
      modifies this, pcb
      ensures Valid() && Moved(old(pcb.sent), old(Owed()), pcb.sent, Owed())
      ensures status == Finished ==> Owed() == ""
      ensures retries == old(retries) + 1
      ensures status == GaveUp <==> old(retries) + 1 == MAX_RETRIES
      ensures status == GaveUp ==> pcb.sent == old(pcb.sent)
      ensures status != Lost && status != Superseded
    {
      hide Expand, HeaderTail, WithContentLength, LeadIn, LeadOut;
      retries := retries + 1;
      if retries == MAX_RETRIES {
        status := GaveUp;
        return;
      }
      if hasFile {
        var r := Send(pcb);
      }
    }

    /** `http_recv`, with no POST under way: a connection with a file drops what it is sent; one without
        takes it for the next request. */
    method Recv(incoming: Incoming)
      requires Valid() && status == Open
      modifies this`status
      ensures Valid() && Owed() == old(Owed())
      ensures status == match incoming
                        case EndOfStream => Lost
                        case Data(parsed) =>
                          if hasFile || parsed == InProgress then Open
                          else if parsed == BadRequest then Lost else Superseded
    {
      match incoming {
        case EndOfStream => status := Lost;
        case Data(parsed) =>
          if !hasFile {
            if parsed == Request {
              status := Superseded;
            } else if parsed == BadRequest {
              status := Lost;
            }
          }
      }
    }

    /** `http_err`. */
    method Err()
      requires Valid() && status == Open
      modifies this`status
      ensures Valid() && Owed() == old(Owed()) && status == Lost
    {
      status := Lost;
    }
  }

  lemma HeaderMoves(h: Headers, i: nat, pos: nat, n: nat, sent: string, sent': string)
    requires i < NUM_HDRS && h[i].Some? && pos + n <= |h[i].value| && sent' == sent + h[i].value[pos..pos + n]
    ensures Moved(sent, HeaderTail(h, i, pos), sent', HeaderTail(h, i, pos + n))
  {
    HeaderSplit(h, i, pos, n);
    MovedOnce(sent, h[i].value[pos..pos + n], HeaderTail(h, i, pos + n));
  }

  lemma EmptySlice(s: string, i: nat, rest: string)
    requires i == |s|
    ensures s[i..] + rest == rest
  {}

  lemma HeaderSplit(h: Headers, i: nat, pos: nat, n: nat)
    requires i < NUM_HDRS && h[i].Some? && pos + n <= |h[i].value|
    ensures HeaderTail(h, i, pos) == h[i].value[pos..pos + n] + HeaderTail(h, i, pos + n)
  {
    hide HeaderTail, ShortHeaders;
    var v, rest := h[i].value, HeaderTail(h, i + 1, 0);
    HeaderHead(h, i, pos);
    HeaderHead(h, i, pos + n);
    SliceSplit(v, pos, pos + n, rest);
  }

  lemma HeaderHead(h: Headers, i: nat, pos: nat)
    requires i < NUM_HDRS && h[i].Some? && pos <= |h[i].value|
    ensures HeaderTail(h, i, pos) == h[i].value[pos..] + HeaderTail(h, i + 1, 0)
  {}

  lemma SliceSplit(v: string, from: nat, to: nat, rest: string)
    requires from <= to <= |v|
    ensures v[from..] + rest == v[from..to] + (v[to..] + rest)
  {
    assert v[from..] == v[from..to] + v[to..];
  }

  lemma {:induction false} CStringCut(s: string, n: nat)
    requires n < |s| && s[n] == '\0'
    ensures CString(s) == CString(s[..n])
  {
    if n > 0 && s[0] != '\0' {
      CStringCut(s[1..], n - 1);
      assert s[..n][1..] == s[1..][..n - 1];
    }
  }

  // ----- Whole runs -----

  datatype Callback = SentCallback | PollCallback | RecvCallback(incoming: Incoming) | ErrCallback

  /** One callback, after the connection has changed as it likes. */
  method Handle(hs: Connection, pcb: Pcb, callback: Callback)
    requires hs.Valid() && hs.status == Open
    modifies hs, pcb
    ensures hs.Valid() && Moved(old(pcb.sent), old(hs.Owed()), pcb.sent, hs.Owed())
    ensures hs.status == Finished ==> hs.Owed() == ""
    ensures hs.status == Superseded ==> !hs.hasFile
  {
    hide Connection.Valid, Connection.Owed, Moved;
    MovedNothing(pcb.sent, hs.Owed());
    pcb.Environment();
    match callback {
      case SentCallback => hs.Sent(pcb);
      case PollCallback => hs.Poll(pcb);
      case RecvCallback(incoming) => hs.Recv(incoming);
      case ErrCallback => hs.Err();
    }
  }

  /** Any number of callbacks in any order over a connection that accepts what it likes, when it
      likes: the bytes accepted are always a prefix of the response, and at end of file all of it. */
  method Serve(hs: Connection, pcb: Pcb, callbacks: seq<Callback>)
    requires hs.Valid() && hs.status == Open
    modifies hs, pcb
    ensures hs.Valid()
    ensures old(pcb.sent) <= pcb.sent <= old(pcb.sent) + old(hs.Owed())
    ensures hs.status == Finished ==> pcb.sent == old(pcb.sent) + old(hs.Owed())
    ensures hs.status == Superseded ==> !hs.hasFile
  {
    hide Connection.Valid, Connection.Owed;
    var r := hs.Send(pcb);
    var i := 0;
    while i < |callbacks| && hs.status == Open
      invariant hs.Valid()
      invariant Moved(old(pcb.sent), old(hs.Owed()), pcb.sent, hs.Owed())
      invariant hs.status == Finished ==> hs.Owed() == ""
      invariant hs.status == Superseded ==> !hs.hasFile
    {
      Handle(hs, pcb, callbacks[i]);
      i := i + 1;
    }
  }

  predicate EmptyLineAt(text: string, i: nat) {
    i + 4 <= |text| && text[i..i + 4] == "\r\n\r\n"
  }

  /** The offset behind the first empty line of a text, looked for up to a zero byte; 0 without one. */
  function HeaderEnd(text: string, i: nat): (r: nat)
    ensures r == 0 || i + 4 <= r <= |text|
    decreases |text| - i
  {
    if i + 4 > |text| || text[i] == '\0' then 0
    else if EmptyLineAt(text, i) then i + 4
    else HeaderEnd(text, i + 1)
  }

  /** `http_init_file`: the part of a file that is sent. A file that contains its own header is sent to
      an HTTP/0.9 client without it. */
  function Page(file: string, is09: bool, hasHeaders: bool): string {
    if is09 && !hasHeaders then file[HeaderEnd(file, 0)..] else file
  }

  /** Such a client gets exactly what follows the header. */
  lemma {:induction false} OldClientGetsBody(header: string, body: string, i: nat)
    requires i <= |header| && '\0' !in header
    requires var file := header + "\r\n\r\n" + body;
             forall k :: 0 <= k < |header| ==> !EmptyLineAt(file, k)
    ensures var file := header + "\r\n\r\n" + body;
            HeaderEnd(file, i) == |header| + 4 && file[|header| + 4..] == body
    decreases |header| - i
  {
    var file := header + "\r\n\r\n" + body;
    if i < |header| {
      assert file[i] == header[i];
      OldClientGetsBody(header, body, i + 1);
    } else {
      assert file[i..i + 4] == "\r\n\r\n" && file[i] == '\r';
    }
  }

  /** A file with this header and body: header, empty line, body, and no earlier empty line. */
  ghost predicate HasOwnHeader(file: string, header: string, body: string) {
    && file == header + "\r\n\r\n" + body && '\0' !in header
    && forall k :: 0 <= k < |header| ==> !EmptyLineAt(file, k)
  }

  /** A file in which no empty line stands before a zero byte. */
  ghost predicate HasNoHeader(file: string) {
    forall k :: 0 <= k && EmptyLineAt(file, k) ==> '\0' in file[..k]
  }

  lemma PageOfOldClient(file: string, header: string, body: string)
    requires HasOwnHeader(file, header, body)
    ensures Page(file, true, false) == body
  {
    OldClientGetsBody(header, body, 0);
  }

  lemma {:induction false} NoHeaderEnd(file: string, i: nat)
    requires HasNoHeader(file) && i <= |file| && '\0' !in file[..i]
    ensures HeaderEnd(file, i) == 0
    decreases |file| - i
  {
    if i + 4 <= |file| && file[i] != '\0' {
      assert file[..i + 1] == file[..i] + [file[i]];
      NoHeaderEnd(file, i + 1);
    }
  }

  /** The decimal number that digits denote. */
  function DigitsValue(s: string): int {
    if s == "" then 0 else 10 * DigitsValue(s[..|s| - 1]) + (s[|s| - 1] as int - '0' as int)
  }

  ghost predicate IsDecimal(s: string, n: nat) {
    && s != "" && (forall i :: 0 <= i < |s| ==> '0' <= s[i] <= '9') && (|s| > 1 ==> s[0] != '0')
    && DigitsValue(s) == n
  }

  lemma {:induction false} DecimalDenotes(n: nat)
    ensures IsDecimal(Decimal(n), n) && (n > 0 ==> Decimal(n)[0] != '0')
  {
    var digit := ('0' as int + n % 10) as char;
    if n < 10 {
      assert [digit][..0] == "" && DigitsValue([digit]) == n;
    } else {
      DecimalDenotes(n / 10);
      assert Decimal(n)[..|Decimal(n)| - 1] == Decimal(n / 10);
    }
  }

  function TextOf(header: Option<string>): string {
    if header.Some? then header.value else ""
  }

  /** The six header strings in order, the third and fourth for a content length of up to nine digits. */
  function InOrder(h: Headers, digits: string): string {
    TextOf(h[0]) + TextOf(h[1])
    + (if 0 < |digits| <= 9 then "Content-Length: " + digits + "\r\n" else "")
    + TextOf(h[4]) + TextOf(h[5])
  }

  lemma ResponseInOrder(h: Headers, site: Site, data: string, addLength: bool, isSsi: bool)
    requires h[2].None? && h[3].None?
    ensures exists digits :: IsDecimal(digits, |data|)
                             && Response(h, site, data, addLength, isSsi, true)
                                == InOrder(h, if addLength then digits else "")
                                   + if isSsi then Annotate(site, data) else data
  {
    hide Annotate, IsDecimal, Decimal, WithContentLength, HeaderTail, TextOf;
    var digits := Decimal(|data|);
    DecimalDenotes(|data|);
    var w := WithContentLength(h, addLength, |data|);
    LengthText(h, addLength, |data|);
    AllHeaders(w);
    Regroup(TextOf(w[0]) + TextOf(w[1]), TextOf(w[2]), TextOf(w[3]), TextOf(w[4]), TextOf(w[5]));
  }

  lemma Regroup(a: string, b: string, c: string, d: string, e: string)
    ensures a + b + c + d + e == a + (b + c) + d + e
  {}

  lemma LengthText(h: Headers, addLength: bool, n: nat)
    requires h[2].None? && h[3].None?
    ensures var w, digits := WithContentLength(h, addLength, n), Decimal(n);
            && w[0] == h[0] && w[1] == h[1] && w[4] == h[4] && w[5] == h[5]
            && TextOf(w[2]) + TextOf(w[3])
               == if addLength && |digits| <= 9 then "Content-Length: " + digits + "\r\n" else ""
  {
    hide Decimal;
    var digits := Decimal(n);
    assert "Content-Length: " + (digits + "\r\n") == "Content-Length: " + digits + "\r\n";
  }

  lemma AllHeaders(h: Headers)
    ensures HeaderTail(h, 0, 0)
            == TextOf(h[0]) + TextOf(h[1]) + TextOf(h[2]) + TextOf(h[3]) + TextOf(h[4]) + TextOf(h[5])
  {
    hide HeaderTail, ShortHeaders;
    OneHeader(h, 0);
    OneHeader(h, 1);
    OneHeader(h, 2);
    OneHeader(h, 3);
    OneHeader(h, 4);
    OneHeader(h, 5);
  }

  lemma OneHeader(h: Headers, i: nat)
    requires i < NUM_HDRS
    ensures HeaderTail(h, i, 0) == TextOf(h[i]) + HeaderTail(h, i + 1, 0)
    ensures HeaderTail(h, NUM_HDRS, 0) == ""
  {}

  lemma BareResponse(h: Headers, site: Site, page: string, addLength: bool, isSsi: bool)
    ensures Response(h, site, page, addLength, isSsi, false) == if isSsi then Annotate(site, page) else page
  {}

  /** What `Page` leaves of a file in each case. */
  lemma PageAsSent(file: string)
    ensures forall hasHeaders :: Page(file, false, hasHeaders) == file
    ensures forall is09 :: Page(file, is09, true) == file
    ensures forall header, body :: HasOwnHeader(file, header, body) ==> Page(file, true, false) == body
    ensures HasNoHeader(file) ==> Page(file, true, false) == file
    ensures file == "" ==> forall is09, hasHeaders :: Page(file, is09, hasHeaders) == ""
  {
    hide HasOwnHeader, HasNoHeader;
    forall header, body | HasOwnHeader(file, header, body)
      ensures Page(file, true, false) == body
    {
      PageOfOldClient(file, header, body);
    }
    if HasNoHeader(file) {
      NoHeaderEnd(file, 0);
    }
  }

  /** What a client is promised for a file: with headers of its own, the file as it is, or, for HTTP/0.9,
      from behind them on; else the header strings in order and the page. */
  ghost predicate AsPromised(answer: string, file: string, announced: bool, isSsi: bool, site: Site,
                             hdrs: Headers, hasHeaders: bool, is09: bool)
  {
    var page := if isSsi then Annotate(site, file) else file;
    && (!hasHeaders && !is09 ==> answer == page)
    && (!hasHeaders && is09 ==> forall header, body :: HasOwnHeader(file, header, body) ==> answer == body)
    && (!hasHeaders && is09 && HasNoHeader(file) ==> answer == file)
    && (hasHeaders ==>
          exists digits :: IsDecimal(digits, |file|)
                           && answer == InOrder(hdrs, if announced then digits else "") + page)
  }

  lemma ResponseAsPromised(file: string, announced: bool, isSsi: bool, site: Site, hdrs: Headers,
                           hasHeaders: bool, is09: bool)
    requires isSsi && is09 ==> hasHeaders
    requires hdrs[IDX_CONTENT_LEN_KEEPALIVE].None? && hdrs[IDX_CONTENT_LEN_NR].None?
    ensures AsPromised(Response(hdrs, site, Page(file, is09, hasHeaders), announced, isSsi, hasHeaders),
                       file, announced, isSsi, site, hdrs, hasHeaders, is09)
  {
    hide Response, Page, HasOwnHeader, HasNoHeader, IsDecimal, InOrder, Annotate;
    PageAsSent(file);
    if hasHeaders {
      ResponseInOrder(hdrs, site, file, announced, isSsi);
    } else {
      BareResponse(hdrs, site, Page(file, is09, false), announced, isSsi);
    }
  }

  /** From the opening of the file: nothing but a prefix of the response is ever accepted, and at end
      of file exactly the response, which is what the client is promised. */
  method Respond(pcb: Pcb, file: string, hasFile: bool, persistent: bool, isSsi: bool, site: Site,
                 hdrs: Headers, hasHeaders: bool, is09: bool, callbacks: seq<Callback>) returns (hs: Connection)
    requires ValidSite(site) && (!hasFile ==> file == "" && !isSsi)
    requires isSsi && is09 ==> hasHeaders
    requires hdrs[IDX_CONTENT_LEN_KEEPALIVE].None? && hdrs[IDX_CONTENT_LEN_NR].None?
    modifies pcb
    ensures var announced := hasFile && persistent && !isSsi;
            var response := Response(hdrs, site, Page(file, is09, hasHeaders), announced, isSsi, hasHeaders);
            && old(pcb.sent) <= pcb.sent <= old(pcb.sent) + response
            && (hs.status == Finished ==> pcb.sent == old(pcb.sent) + response)
            && (hs.status == Superseded ==> !hasFile)
            && AsPromised(response, file, announced, isSsi, site, hdrs, hasHeaders, is09)
  {
    hide Response, Page, AsPromised;
    PageAsSent(file);
    ResponseAsPromised(file, hasFile && persistent && !isSsi, isSsi, site, hdrs, hasHeaders, is09);
    hs := new Connection(Page(file, is09, hasHeaders), hasFile, persistent, isSsi, site, hdrs, hasHeaders);
    Serve(hs, pcb, callbacks);
  }

  /** A connection that has some room at every callback and turns nothing down receives the whole
      response within as many callbacks as there are bytes. */
  method ServeAll(hs: Connection, pcb: Pcb, n: nat)
    requires hs.Valid() && hs.status == Open && pcb.MaxWriteLen() > 0
    modifies hs, pcb
    ensures hs.Valid()
    ensures pcb.refused == old(pcb.refused) && n > |old(hs.Owed())| ==>
              hs.status == Finished && pcb.sent == old(pcb.sent) + old(hs.Owed())
  {
    hide Expand, HeaderTail, WithContentLength, LeadIn, LeadOut;
    var i := 0;
    while i < n && hs.status == Open
      invariant hs.Valid() && i <= n && (hs.status == Open || hs.status == Finished) && pcb.refused >= old(pcb.refused)
      invariant Moved(old(pcb.sent), old(hs.Owed()), pcb.sent, hs.Owed())
      invariant hs.status == Finished ==> hs.Owed() == ""
      invariant pcb.refused == old(pcb.refused) && hs.status == Open ==> |pcb.sent| >= |old(pcb.sent)| + i
    {
      pcb.GrantRoom();
      hs.Sent(pcb);
      i := i + 1;
    }
    assert |pcb.sent| + |hs.Owed()| == |old(pcb.sent)| + |old(hs.Owed())|;
  }
}
