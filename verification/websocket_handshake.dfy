/** The opening handshake of src/websocket.cpp, against RFC 6455 section 4. */
module WebSocketHandshake {
  import opened Words
  import Base64
  import Sha1
  import Sha1Spec
  import Sha1Runs

  const GUID := "258EAFA5-E914-" + "47DA-95CA-" + "C5AB0DC85B11"
  const KEY_HEADER := "Sec-WebSocket-Key: "
  const RESPONSE_HEADER := "HTTP/1.1 101 Switching Protocols\r\n" + "Upgrade: websocket\r\n"
    + "Connection: Upgrade\r\n" + "Sec-WebSocket-Accept: "
  const SEND_BUFFER_SIZE: nat := 512
  /** Key bytes that fit the 128-byte concatenation buffer before GUID and terminator. */
  const KEY_ROOM: nat := 91

  /** The bytes of a C string literal. */
  function Ascii(s: string): (r: seq<byte>)
    ensures |r| == |s|
  {
    seq(|s|, i requires 0 <= i < |s| => s[i] as int % 0x100)
  }

  /** A buffer read as a C string. */
  function CString(buf: seq<byte>): (r: seq<byte>)
    ensures r <= buf && 0 !in r
  {
    if buf == [] || buf[0] == 0 then [] else [buf[0]] + CString(buf[1..])
  }

  /** `pat` occurs at offset i. */
  predicate Occurs(s: seq<byte>, pat: seq<byte>, i: nat) {
    i + |pat| <= |s| && s[i..i + |pat|] == pat
  }

  /** `strstr`/`strchr`: the first offset at or after `from` where `pat` occurs. */
  function Find(s: seq<byte>, pat: seq<byte>, from: nat): (r: Option<nat>)
    requires from <= |s|
    ensures r.Some? ==> from <= r.value && Occurs(s, pat, r.value)
    decreases |s| - from
  {
    if Occurs(s, pat, from) then Some(from)
    else if from == |s| then None
    else Find(s, pat, from + 1)
  }

  lemma {:induction false} FindsFirst(s: seq<byte>, pat: seq<byte>, from: nat, at: nat)
    requires from <= at && Occurs(s, pat, at)
    requires forall i :: from <= i < at ==> !Occurs(s, pat, i)
    ensures Find(s, pat, from) == Some(at)
    decreases at - from
  {
    if from < at {
      FindsFirst(s, pat, from + 1, at);
    }
  }

  lemma {:induction false} FindMisses(s: seq<byte>, pat: seq<byte>, from: nat)
    requires from <= |s| && Find(s, pat, from).None?
    ensures forall i :: from <= i ==> !Occurs(s, pat, i)
    decreases |s| - from
  {
    if from < |s| {
      FindMisses(s, pat, from + 1);
    }
  }

  /** `get_key`: the text between the key header and the next carriage return. */
  function GetKey(request: seq<byte>): (r: Option<seq<byte>>) {
    match Find(request, Ascii(KEY_HEADER), 0)
    case None => None
    case Some(p) =>
      var start := p + |KEY_HEADER|;
      match Find(request, [0x0D], start)
      case None => None
      case Some(end) => Some(request[start..end])
  }

  /** RFC 6455 section 4.2.2 item 5.4: the value that proves the key was read. */
  function AcceptValue(key: seq<byte>): (r: string)
    ensures |r| == 28
  {
    AcceptLength(key + Ascii(GUID));
    Base64.Encode(Sha1Spec.Hash(key + Ascii(GUID)))
  }

  lemma AcceptLength(text: seq<byte>)
    ensures |Base64.Encode(Sha1Spec.Hash(text))| == 28
  {
    hide Base64.Encode, Sha1Spec.Hash;
    Base64.EncodeLength(Sha1Spec.Hash(text));
  }

  /** The key bytes the server keeps. */
  function KeptKey(key: seq<byte>): (kept: seq<byte>)
    ensures kept <= key
  {
    if |key| <= KEY_ROOM then key else key[..KEY_ROOM]
  }

  /** `create_key_accept`: every buffer of the source has room for what is written to it. */
  method CreateKeyAccept(request: seq<byte>) returns (r: Option<string>)
    ensures GetKey(request).None? ==> r.None?
    ensures GetKey(request).Some? ==> r == Some(AcceptValue(KeptKey(GetKey(request).value)))
  {
    hide GetKey, Sha1Spec.Hash, Base64.Encode, Ascii;
    var concatKey := new byte[128];
    var hashBase64 := new char[64];
    var found := GetKey(request);
    if found.None? {
      return None;
    }
    var key, guid := found.value, Ascii(GUID);
    assert |guid| == 36;
    forall i | 0 <= i < 128 {
      concatKey[i] := 0;
    }
    var room := concatKey.Length - |guid| - 1;
    var copyLen := if |key| < room then |key| else room;
    forall i | 0 <= i < copyLen {
      concatKey[i] := key[i];
    }
    concatKey[copyLen] := 0;
    forall i | 0 <= i < |guid| {
      concatKey[copyLen + i] := guid[i];
    }
    var text := concatKey[..copyLen + |guid|];
    assert text == KeptKey(key) + guid;
    var hash := HashText(text);
    Base64.EncodeLength(hash);
    Base64.EncodeInto(hash, hashBase64);
    r := Some(hashBase64[..28]);
  }

  /** `sha1_init`, one `sha1_update`, `sha1_final`. */
  method HashText(text: seq<byte>) returns (hash: seq<byte>)
    requires |text| < Sha1Runs.CHUNK_LIMIT
    ensures hash == Sha1Spec.Hash(text)
  {
    hide Sha1Spec.Fold, Sha1Spec.DigestBytes, Sha1Spec.Hash, Sha1Spec.PadWith, Sha1.Absorbed;
    var ctx := new Sha1.Context();
    ctx.Update(text);
    assert ctx.msg == text && ctx.len == 8 * |text|;
    var out := ctx.Final();
    Sha1Runs.ExactPaddingHashes(text, 8 * |text|);
    hash := out[..];
  }

  /** The server proves the key it was sent exactly when the key fits the concatenation buffer. */
  lemma AcceptedTextIff(key: seq<byte>)
    ensures KeptKey(key) + Ascii(GUID) == key + Ascii(GUID) <==> |key| <= KEY_ROOM
  {
    if |key| > KEY_ROOM {
      assert |KeptKey(key) + Ascii(GUID)| != |key + Ascii(GUID)|;
    }
  }

  /** A request with a key header in it: what stands before, the key, and what follows its CR. */
  function KeyRequest(before: seq<byte>, key: seq<byte>, after: seq<byte>): seq<byte> {
    before + Ascii(KEY_HEADER) + key + [0x0D] + after
  }

  /** The header does not occur earlier, and the key has no CR. */
  ghost predicate PlainKey(before: seq<byte>, key: seq<byte>, after: seq<byte>) {
    && 0x0D !in key
    && forall i :: 0 <= i < |before| ==> !Occurs(KeyRequest(before, key, after), Ascii(KEY_HEADER), i)
  }

  /** A key header is read back whatever surrounds it. */
  lemma KeyIsFound(before: seq<byte>, key: seq<byte>, after: seq<byte>)
    requires PlainKey(before, key, after)
    ensures GetKey(KeyRequest(before, key, after)) == Some(key)
  {
    var pat := Ascii(KEY_HEADER);
    var text := KeyRequest(before, key, after);
    var start := |before| + |pat|;
    assert text[|before|..start] == pat;
    FindsFirst(text, pat, 0, |before|);
    KeyEnds(before + pat, key, after);
    assert text == before + pat + key + [0x0D] + after;
    assert text[start..start + |key|] == key;
  }

  lemma KeyEnds(head: seq<byte>, key: seq<byte>, after: seq<byte>)
    requires 0x0D !in key
    ensures Find(head + key + [0x0D] + after, [0x0D], |head|) == Some(|head| + |key|)
  {
    var text, end := head + key + [0x0D] + after, |head| + |key|;
    assert text[end..end + 1] == [0x0D];
    forall i | |head| <= i < end
      ensures !Occurs(text, [0x0D], i)
    {
      assert text[i..i + 1][0] == key[i - |head|];
    }
    FindsFirst(text, [0x0D], |head|, end);
  }

  /** The response text before `snprintf` bounds it. */
  function ResponseText(accept: string): seq<byte> {
    Ascii(RESPONSE_HEADER + accept + "\r\n\r\n")
  }

  /** `process_handshake` up to the socket call: what is sent, or nothing. */
  method BuildResponse(buf: seq<byte>) returns (r: Option<seq<byte>>)
    ensures r == HandshakeReply(CString(buf))
  {
    var request := CString(buf);
    if !(Ascii("GET /") <= request) {
      return None;
    }
    var accept := CreateKeyAccept(request);
    if accept.None? {
      return None;
    }
    var text := ResponseText(accept.value);
    var written := |text|;
    var responseLen := if written < SEND_BUFFER_SIZE then written else SEND_BUFFER_SIZE - 1;
    ResponseFits(accept.value);
    assert text[..responseLen] == text;
    r := Some(text[..responseLen]);
  }

  function HandshakeReply(request: seq<byte>): Option<seq<byte>> {
    if Ascii("GET /") <= request && GetKey(request).Some?
    then Some(ResponseText(AcceptValue(KeptKey(GetKey(request).value))))
    else None
  }

  /** A request is answered exactly when it starts as a GET and has a key header with a carriage return
      somewhere behind it. */
  lemma AnsweredIff(request: seq<byte>)
    ensures HandshakeReply(request).Some?
            <==> Ascii("GET /") <= request && exists p: nat, q: nat :: KeyBetween(request, p, q)
  {
    hide AcceptValue, ResponseText, Ascii, Occurs, Find;
    var pat := Ascii(KEY_HEADER);
    if GetKey(request).Some? {
      var p := Find(request, pat, 0).value;
      OccursInside(request, pat, p);
      var q := Find(request, [0x0D], p + |pat|).value;
      CarriageReturn(request, q);
      assert KeyBetween(request, p, q);
    }
    forall p: nat, q: nat | KeyBetween(request, p, q)
      ensures GetKey(request).Some?
    {
      KeyIsFoundBefore(request, p, q);
    }
  }

  /** A key header at p and a carriage return at q behind it. */
  ghost predicate KeyBetween(request: seq<byte>, p: nat, q: nat) {
    Occurs(request, Ascii(KEY_HEADER), p) && p + |KEY_HEADER| <= q < |request| && request[q] == 0x0D
  }

  lemma OccursInside(s: seq<byte>, pat: seq<byte>, i: nat)
    requires Occurs(s, pat, i)
    ensures i + |pat| <= |s|
  {}

  lemma CarriageReturn(s: seq<byte>, i: nat)
    ensures Occurs(s, [0x0D], i) <==> i < |s| && s[i] == 0x0D
  {
    if i < |s| {
      assert s[i..i + 1] == [s[i]];
    }
  }

  lemma KeyIsFoundBefore(request: seq<byte>, p: nat, q: nat)
    requires KeyBetween(request, p, q)
    ensures GetKey(request).Some?
  {
    hide Ascii, Occurs, Find;
    var pat := Ascii(KEY_HEADER);
    var first := FirstOccurrence(request, pat, 0, p);
    OccursInside(request, pat, first);
    CarriageReturn(request, q);
    var end := FirstOccurrence(request, [0x0D], first + |pat|, q);
  }

  /** What occurs is found, there or earlier. */
  lemma FirstOccurrence(s: seq<byte>, pat: seq<byte>, from: nat, at: nat) returns (first: nat)
    requires from <= at <= |s| && Occurs(s, pat, at)
    ensures Find(s, pat, from) == Some(first) && from <= first <= at && Occurs(s, pat, first)
  {
    if Find(s, pat, from).None? {
      FindMisses(s, pat, from);
      assert false;
    }
    first := Find(s, pat, from).value;
    if first > at {
      FindIsFirst(s, pat, from, at);
      assert false;
    }
  }

  lemma {:induction false} FindIsFirst(s: seq<byte>, pat: seq<byte>, from: nat, at: nat)
    requires from <= at <= |s| && Occurs(s, pat, at)
    ensures Find(s, pat, from).Some? ==> Find(s, pat, from).value <= at
    decreases at - from
  {
    if from < at {
      FindIsFirst(s, pat, from + 1, at);
    }
  }

  /** The response is 129 bytes, never truncated by the 512-byte send buffer: header, accept value,
      and an empty line. */
  lemma ResponseFits(accept: string)
    requires |accept| == 28
    ensures |ResponseText(accept)| == 129 < SEND_BUFFER_SIZE
    ensures ResponseText(accept)[..97] == Ascii(RESPONSE_HEADER) && ResponseText(accept)[97..125] == Ascii(accept)
    ensures ResponseText(accept)[125..] == [0x0D, 0x0A, 0x0D, 0x0A]
  {
    assert |RESPONSE_HEADER| == 97;
    var end := "\r\n\r\n";
    assert end[0] == '\r' && end[1] == '\n' && end[2] == '\r' && end[3] == '\n';
    assert Ascii(end) == [0x0D, 0x0A, 0x0D, 0x0A];
    var text := RESPONSE_HEADER + accept + end;
    assert ResponseText(accept)[125..] == Ascii(end);
  }

  /** End to end: a well-formed request is answered with the accept value of its own key. */
  lemma HandshakeAnswersKey(before: seq<byte>, key: seq<byte>, after: seq<byte>)
    requires Ascii("GET /") <= before && |key| <= KEY_ROOM && PlainKey(before, key, after)
    ensures HandshakeReply(KeyRequest(before, key, after)) == Some(ResponseText(AcceptValue(key)))
  {
    KeyIsFound(before, key, after);
    assert before <= KeyRequest(before, key, after);
  }
}
