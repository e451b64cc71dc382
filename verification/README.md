# Verified models of the RadProt_IOT firmware

RadProt_IOT is the firmware of a Pico W sensor gateway. This project models the parts of it that
carry protocol state or data formats of their own and proves what they promise. `dafny verify
dfyconfig.toml` checks everything.

| files | part of the firmware |
|---|---|
| `http_tcp.dfy`, `ssi_scanner.dfy`, `http_connection.dfy` | the HTTP response sender with server-side includes (`httpserver/httpd.cpp`) |
| `http_post.dfy` | reassembly of POST bodies (`httpserver/httpd.cpp`) |
| `dhcp_options.dfy`, `dhcp_lease.dfy`, `dhcp_server.dfy` | the DHCP server (`dhcpserver/dhcpserver.cpp`, RFC 2131 and 2132) |
| `sha1.dfy`, `sha1_bits.dfy`, `sha1_examples.dfy`, `base64.dfy` | SHA-1 and Base64 (`src/crypto.cpp`, RFC 3174 and RFC 4648) |
| `websocket_frame.dfy`, `websocket_handshake.dfy`, `websocket_session.dfy`, `websocket_example.dfy` | the WebSocket server (`src/websocket.cpp`, RFC 6455) |
| `ipv4_checksum.dfy` | the IPv4 header checksum (`lwip_patch/ip4.c`, RFC 791, 1071 and 1624) |
| `dns_names.dfy` | names in the DNS responder (`dns/dnsserver.cpp`, RFC 1035) |
| `words.dfy` | fixed-width arithmetic |

## How to read the model

Code that updates fields, buffers or cursors is a class or a method with loops; each is proved against a
function or a lemma that states the standard or the promise. Clocks, sockets, received bytes and the TCP
send buffer are inputs or havocked values, so each result holds for every behaviour of the outside
world. What such a function means is stated apart from it as well: by offsets and bits of the packet
formats, by an independent reader or decoder, or by the examples the standards give. Bytes are integers
below 256; SHA-1 words are 32-bit vectors; 16- and 32-bit wrap-around is written out where the code
relies on it. Texts of the HTTP server are strings.

## Main results

* **HTTP responses.** Whatever the send buffer accepts, refuses or takes in part, the bytes on the wire
  are always a prefix of the headers in order followed by the page, and exactly that at end of file. A
  file that contains its own header is sent as it is, or, to an HTTP/0.9 client, from behind the header
  on. For an SSI page the page text is the file with each recognised tag followed once by its insert,
  that of the first registered tag with its name. If nothing is refused and there is room at every
  callback, the response is complete after at most as many callbacks as it has bytes, plus one.
* **SSI tags.** The five-state scanner recognises exactly the tags of the documented shape that begin
  while it is idle. The documentation (httpserver/httpd.cpp:44-46 and 69-74) promises an insert for
  every tag; a tag one character behind an idle point has none exactly when that character is `<` or
  `/`. In terms of the page alone, a tag behind text without `<!` or `/*` has an insert exactly when an
  even number of `<` and `/` stands right before it. The model follows the code.
* **POST bodies.** Any split of a body into ordered pieces yields the body once. The finish handler runs
  at most once per POST; it runs, and the buffer is freed, exactly unless the connection ends in
  `http_err` while something is still awaited, because `http_err` frees the connection without telling
  the POST code. A piece that runs past the content length is stored over earlier bytes, which happens
  for no other piece.
* **DHCP leases.** After an ACK nobody else is offered or granted the address for 86,400,000 ms, through
  the 32-bit clock wrap and the 16-bit expiry, and no reply packet with it is sent to anyone else. When
  a lease is seen as expired is characterised exactly; an abandoned lease counts as live again 2^31 ms
  after its expiry. A client that requests only what it was last offered never holds two addresses; one
  that does not can.
* **DHCP options.** `opt_find` takes the byte after a PAD for a length. It reads the options that RFC
  2132 section 3.1 defines, for every tag, exactly when PADs come in pairs (a last odd one may stand
  before END). A REQUEST with a single PAD in front of the requested address is never answered. The
  message type is read from the third option byte, so an otherwise readable message that asks for the
  offered address is acknowledged exactly when that byte is REQUEST, as it is with the type in front.
* **DHCP replies.** A client that reads a reply as RFC 2132 does finds the message type, the subnet
  mask, this server as server, router and name server, the domain if there is one, and the lease time.
* **SHA-1.** Any sequence of updates hashes the concatenation as RFC 3174 defines it, exactly when no
  single update reaches 2^29 bytes; from there on the 32-bit bit count wraps. The definition yields the
  standard's digest of "abc", also from the streaming code.
* **Base64.** Encoding and the RFC 4648 decoder are inverse in both directions.
* **WebSocket.** A complete masked frame delivers its payload and opcode, a PING is answered with a PONG
  and a CLOSE with a CLOSE, nothing else is answered; the accept value is that of the key that was sent,
  if it has at most 91 bytes, and the one RFC 6455 gives for its sample key; over every run, one client
  is live, frames go out only between its 101 response and its close, and accepts and closes match. Runs
  may contain any bytes whatever, except that the payload of a final data frame from an upgraded client
  lies inside the receive buffer.
* **IPv4.** A generated header has every field at its offset and verifies for all field values and
  options, in either byte order; a forwarded one verifies exactly when its TTL was not zero.
* **DNS.** The primary address is answered exactly for names whose first label begins the host name and
  whose other labels begin the domain (unless suffixes are ignored), in any letter case, compressed or
  not. Whether the walk over a name ends at all is decided by following it for as many steps as the
  message has bytes; a pointer to itself keeps the source in the loop for ever.

## Model

| member | source | states |
|---|---|---|
| HttpTcp.Pcb.HttpWrite | httpserver/httpd.cpp:353-403 | terminates; enqueues a prefix no longer than the request, the room and 2 * MSS; nothing on an error; that whole amount when no write is turned down |
| HttpConnection.Connection.HeaderTurn | httpserver/httpd.cpp:810-855 | one turn of the header loop moves bytes from the owed header text to the wire without loss, repetition or reordering, and at least one byte if the write is accepted |
| HttpConnection.Connection.SendHeaders | httpserver/httpd.cpp:795-878 | conserves sent + owed; reports the page may follow only when every header byte is out; closes only when nothing is owed |
| HttpConnection.Connection.SetUpContentLength | httpserver/httpd.cpp:748-785 | filling in the content length late does not change what is owed |
| HttpConnection.ContentLengthOnce | httpserver/httpd.cpp:801-804 | repeating the set-up changes nothing and replaces no string already present, except the number itself |
| HttpConnection.Connection.GetTagInsert | httpserver/httpd.cpp:566-645 | the insert is the handler's text for the first registered tag of that name, else the unknown-tag text, and fits the buffer |
| HttpConnection.Connection.StepFound | httpserver/httpd.cpp:1114-1163 | the name state makes exactly the scanner's transition, inside the 9-byte name buffer |
| HttpConnection.Connection.StepLeadOut | httpserver/httpd.cpp:1166-1238 | the lead-out state makes the scanner's transition, and on a complete tag fetches its insert once and stands at the tag's end |
| HttpConnection.Connection.ScanTurn | httpserver/httpd.cpp:1050-1238 | scanning leaves the text that is still owed unchanged, including a new insert |
| HttpConnection.Connection.SendInsert | httpserver/httpd.cpp:1273-1316 | a partly sent insert resumes where it stopped and is sent once |
| HttpConnection.Connection.SendDataSsi | httpserver/httpd.cpp:1009-1348 | for every schedule of room and errors the SSI sender terminates, conserves sent + owed, and makes progress when nothing is refused |
| HttpConnection.Connection.SendDataNonSsi | httpserver/httpd.cpp:984-1001 | the plain sender conserves sent + owed and makes progress when nothing is refused |
| HttpConnection.Connection.Send | httpserver/httpd.cpp:1357-1428 | a callback conserves sent + owed, closes at end of file only with nothing owed, and otherwise sends something if nothing is refused |
| HttpConnection.Connection.Poll | httpserver/httpd.cpp:2319-2363 | as Send, and gives up at the fourth poll without progress, without sending |
| HttpConnection.Connection.Recv | httpserver/httpd.cpp:1795-1800 | data during a response is dropped when a file is open and parsed as the next request when none is |
| HttpConnection.Serve | httpserver/httpd.cpp:2279-2452 | over any sequence of sent, poll, receive and error callbacks the bytes sent are a prefix of what was owed, and all of it at end of file; only a response without a file can be started over by a further request |
| HttpConnection.Respond | httpserver/httpd.cpp:2156-2273 | from the opening of a file the bytes sent are a prefix of the response, and at end of file exactly it; and the response is what AsPromised says for each kind of file and client |
| HttpConnection.ResponseAsPromised | httpserver/httpd.cpp:2229-2257 | without dynamic headers a file is sent as it is, or to an HTTP/0.9 client from behind its own header on; else the header strings go out in order, with the length of the file in decimal, then the page |
| HttpConnection.PageOfOldClient | httpserver/httpd.cpp:2229-2239 | of a file with its own header an HTTP/0.9 client gets exactly the body |
| HttpConnection.DecimalDenotes | httpserver/httpd.cpp:764 | the announced length is the decimal number of the file's length, without leading zeros |
| HttpConnection.ServeAll | httpserver/httpd.cpp:1357-1428 | with room at each callback and no refusal the response completes within its length plus one callbacks |
| SsiScanner.ExpandStep | httpserver/httpd.cpp:1044-1240 | moving the scan pointer over one character keeps pending text + expansion of the rest |
| SsiScanner.IdleTagIsRecognised | httpserver/httpd.cpp:69-74 | a tag with any permitted white space and a name of 1 to 8 characters is recognised at its last character when it begins in the idle state |
| SsiScanner.RecognisedIff | httpserver/httpd.cpp:1050-1238 | a tag ends at a character if and only if the text ends with a documented tag that began while idle |
| SsiScanner.OneBeginning | httpserver/httpd.cpp:157-160 | a text ends with at most one documented tag: the beginning is determined |
| SsiScanner.TagRecognisedIff | httpserver/httpd.cpp:1050-1238 | a documented tag is recognised if and only if the scanner is idle where it begins |
| SsiScanner.StrayBracketHidesTagIff | httpserver/httpd.cpp:1081-1091 | the failing family of the documented promise: a tag one character behind an idle point has no insert if and only if that character is a bracket |
| SsiScanner.IdleAfterPlainTextIff | httpserver/httpd.cpp:1081-1113 | after text without `<!` and `/*` the scanner is idle if and only if the brackets at its end pair up |
| SsiScanner.TagAfterPlainTextIff | httpserver/httpd.cpp:1050-1238 | in terms of the page alone: when a tag behind such text, at the start or after a tag, has an insert |
| SsiScanner.ServedText | httpserver/httpd.h:329-357 | the expansion is the file with, after each recognised tag, that tag's insert once |
| SsiScanner.TagIsServed | httpserver/httpd.cpp:587-640 | behind a tag stands, once, what the handler returns for the first registered tag of its name, or the unknown-tag text |
| SsiScanner.TagIsDocumented | httpserver/httpd.cpp:69-74 | the two forms of a tag and the white space they permit |
| SsiScanner.PlainIsQuiet | httpserver/httpd.cpp:1081-1091 | no tag ends inside text without lead-ins |
| HttpPost.Post.ReceiveData | httpserver/httpd.cpp:2668-2685 | accepts a chunk exactly when it lies inside the buffer, and then changes only its own range |
| HttpPost.Post.RxPbuf | httpserver/httpd.cpp:1530-1568 | the new remaining length, buffer and finish call, for fitting and overrunning chunks |
| HttpPost.Post.Close | httpserver/httpd.cpp:412-428 | after closing, the finish handler has run exactly once |
| HttpPost.ReceivedOneMore | httpserver/httpd.cpp:1535-1539 | an ordered piece is never refused, extends the received prefix, and ends the POST exactly when it is the last |
| HttpPost.Reassemble | httpserver/httpd.cpp:2399-2411 | for every split of a body into ordered pieces the application sees exactly the body, once, however the connection ends afterwards |
| HttpPost.ReceiveAnything | httpserver/httpd.cpp:412-428 | for arbitrary pieces and either ending, at most one finish call with a buffer of the content length, and none, with the buffer leaked, if and only if the connection ends in an error while something is awaited |
| HttpPost.RemainingInOrder | httpserver/httpd.cpp:1535-1539 | what is awaited after ordered pieces is what has not arrived |
| HttpPost.LosePost | httpserver/httpd.cpp:2279-2288 | a run in which a reset in the middle of the body loses the POST |
| HttpPost.LandsWhereItBelongsIff | httpserver/httpd.cpp:2673-2679 | a chunk is stored at its place for all contents if and only if it does not run past the content length |
| DhcpOptions.OptFind | dhcpserver/dhcpserver.cpp:150-158 | the search terminates and performs the walk of FindFrom |
| DhcpOptions.WriteN | dhcpserver/dhcpserver.cpp:160-166 | appends one encoded option at the cursor |
| DhcpOptions.FindWritten | dhcpserver/dhcpserver.cpp:150-185 | in written options ended by END the search returns the offset of the first option with the tag, or nothing |
| DhcpOptions.FoundData | dhcpserver/dhcpserver.cpp:150-158 | at the offset found stand tag, length and data of the first option with the tag |
| DhcpOptions.NotFoundIff | dhcpserver/dhcpserver.cpp:150-158 | nothing is found if and only if no option has the tag |
| DhcpOptions.WrittenReadsBack | dhcpserver/dhcpserver.cpp:160-185 | the reader of RFC 2132 finds the data of every written tag and no other tag |
| DhcpOptions.AgreesWithStandardIff | dhcpserver/dhcpserver.cpp:150-158 | for every tag and every offset both walks reach, the search agrees with the reading of RFC 2132 if and only if PADs are aligned |
| DhcpOptions.ReadsStandardOptionsIff | dhcpserver/dhcpserver.cpp:150-158 | the walk reads exactly the options of the standard, in order and in place, if and only if PADs are aligned |
| DhcpLease.ExpiryExactIff | dhcpserver/dhcpserver.cpp:230-231 | a stored lease is seen as expired at a time if and only if that time lies in a 2^31 ms half period after its last live millisecond |
| DhcpLease.LiveForLeaseTime | dhcpserver/dhcpserver.cpp:230-231 | never seen as expired within 86,400,000 ms |
| DhcpLease.ExpiredAfterwards | dhcpserver/dhcpserver.cpp:230-231 | seen as expired from 65,536 ms after that up to 2^31 ms |
| DhcpLease.LiveAgainAfterWrap | dhcpserver/dhcpserver.cpp:230-231 | not seen as expired in the 2^31 ms that follow |
| DhcpLease.DiscoverSound | dhcpserver/dhcpserver.cpp:216-245 | DISCOVER wipes at most one slot, expired and not the client's; it fails if and only if all slots are live for others |
| DhcpLease.OfferIsGranted | dhcpserver/dhcpserver.cpp:216-279 | an offered address that is requested next is granted |
| DhcpLease.StepKeepsHolder | dhcpserver/dhcpserver.cpp:216-279 | one message within the lease time leaves the holder in place and offers or grants the slot to nobody else |
| DhcpLease.Exclusive | dhcpserver/dhcpserver.cpp:216-279 | the same over every run of messages within the lease time, renewals included |
| DhcpLease.AcksAreExclusiveForADay | dhcpserver/dhcpserver.cpp:216-279 | in every run, an address acknowledged to one client is acknowledged or offered to another only more than 86,400,000 ms later |
| DhcpLease.OneAddressPerClient | dhcpserver/dhcpserver.cpp:217-271 | in every run in which clients request what they were last offered, no client holds two addresses |
| DhcpLease.GrantKeepsSingleIff | dhcpserver/dhcpserver.cpp:257-271 | without that discipline a grant keeps addresses single if and only if the client holds no other |
| DhcpLease.UndisciplinedClientHoldsTwo | dhcpserver/dhcpserver.cpp:257-271 | a run in which a client ends up with two addresses |
| DhcpServer.Server.DiscoverLoop | dhcpserver/dhcpserver.cpp:217-241 | the loop computes the client's first slot, else the first usable one, and the wiped table |
| DhcpServer.Server.Process | dhcpserver/dhcpserver.cpp:187-301 | table and reply packet for every packet, however short or malformed, and what a client reads in the reply |
| DhcpServer.ReplyAnnounces | dhcpserver/dhcpserver.cpp:283-297 | in any buffer that starts with a reply, the standard's reader finds message type, mask, server, router, name server, domain and lease time, and END behind them; the fixed part is the client's message with opcode and address filled in |
| DhcpServer.DiscoverIsAnsweredIff | dhcpserver/dhcpserver.cpp:198-245 | a packet gets an OFFER if and only if it is long enough, its third option byte is DISCOVER, and some slot is the client's, free or expired |
| DhcpServer.RequestIsAckedIff | dhcpserver/dhcpserver.cpp:247-279 | a packet is acknowledged if and only if it is long enough, its third option byte is REQUEST, the address found is of this server, and the slot is the sender's or free; the slot is then the sender's |
| DhcpServer.Server.constructor | dhcpserver/dhcpserver.cpp:303-312 | all slots start free |
| DhcpServer.ServePackets | dhcpserver/dhcpserver.cpp:187-312 | the table after any packets is that of the run of their messages, and each reply is the answer in that run, so the run results apply to bytes |
| DhcpServer.RepliesAreExclusiveForADay | dhcpserver/dhcpserver.cpp:187-301 | after a reply packet that acknowledges an address to one client, no reply packet with that address answers another for more than a day |
| DhcpServer.OfferedAddressIsAckedIff | dhcpserver/dhcpserver.cpp:196-297 | in bytes: a message with aligned PADs that asks, as the standard reads it, for the address just offered to its sender is acknowledged if and only if the third byte of its options is the message type REQUEST |
| DhcpServer.OfferedAddressIsAcked | dhcpserver/dhcpserver.cpp:196-297 | in bytes: so is every message built from options with length bytes, the message type first, any others around the address |
| DhcpServer.OnePadLosesRequest | dhcpserver/dhcpserver.cpp:247-252 | a REQUEST the standard reads, with one PAD before the address, gets no answer from any table |
| Sha1.Transform | src/crypto.cpp:3-31 | the in-place rounds and schedule compute the compression function of RFC 3174 section 6.1 |
| Sha1.Context.Update | src/crypto.cpp:43-58 | extends the absorbed text by the data, keeps fewer than 64 bytes buffered, and adds a 32-bit bit count to the length |
| Sha1.Context.Final | src/crypto.cpp:60-78 | the digest of the text padded with the stored length, in both padding cases |
| Sha1.FinalTwoBlocks | src/crypto.cpp:61-70 | the padding that spills into a second block is the standard's |
| Sha1Runs.PadMeetsStandard | src/crypto.cpp:60-70 | message, one bit, fewest zeros, and a length field that denotes 8 times the length |
| Sha1Runs.PaddingExactIff | src/crypto.cpp:43-44 | the padding is the standard's if and only if every update is shorter than 2^29 bytes |
| Sha1Runs.HashChunks | src/crypto.cpp:33-78 | any split into such updates hashes the concatenation |
| Sha1Examples.AbcDigest | src/crypto.cpp:3-31 | the hash of "abc" is the digest of RFC 3174 section 7.3 |
| Sha1Examples.HashAbc | src/crypto.cpp:33-78 | the streaming code yields that digest from two updates |
| Sha1Bits.ChooseBits | src/crypto.cpp:18 | the choice takes each bit from the second or the third word as the first says |
| Sha1Bits.MajorityBits | src/crypto.cpp:20 | each bit is that of at least two of the three words |
| Sha1Bits.BlockWordDenotes | src/crypto.cpp:6-8 | a schedule word is the number its four bytes denote |
| Sha1Bits.WordBytesDenote | src/crypto.cpp:72-77 | the four bytes of a digest word denote it |
| Sha1Spec.BigEndianRoundTrip | src/crypto.cpp:68-69 | the bytes of the length field denote the length |
| Base64.TableIsStandard | inc/crypto.h:13-14 | the literal table is the alphabet of RFC 4648 |
| Base64.EncodeInto | src/crypto.cpp:80-100 | writes the encoding and one terminator, nothing beyond |
| Base64.EncodeLength | src/crypto.cpp:80-100 | four characters for every started group of three bytes |
| Base64.RoundTrip | src/crypto.cpp:80-100 | the RFC 4648 decoder returns the input |
| Base64.DecodeIsCanonical | src/crypto.cpp:80-100 | every text the decoder accepts is the encoding of what it decodes to |
| Base64.EncodeIsInjective | src/crypto.cpp:80-100 | distinct inputs have distinct encodings |
| WebSocketFrame.SizeFieldExactIff | src/websocket.cpp:103-123 | a written length reads back by RFC 6455 if and only if it fits 16 bits |
| WebSocketFrame.SizeFieldMinimal | src/websocket.cpp:103-123 | of all fields that denote a 16-bit length the one written is the shortest, and the only one that short |
| WebSocketFrame.BuildFrame | src/websocket.cpp:130-148 | the packet is the standard's unmasked final frame and fits the buffer |
| WebSocketFrame.ServerFrameReadsBack | src/websocket.cpp:46-95 | header, payload offset and opcode of a built frame read back; the length does if and only if it fits 16 bits |
| WebSocketFrame.Unmask | src/websocket.cpp:97-101 | unmasks its range in place and nothing else |
| WebSocketFrame.UnmaskMasked | src/websocket.cpp:97-101 | masking twice is the identity |
| WebSocketFrame.XorIsBitwise | src/websocket.cpp:99 | each bit of a masked byte is one if and only if the two bits differ |
| WebSocketFrame.FrameByOpcode | src/websocket.cpp:165-224 | what a frame does, by the bits of its first two bytes |
| WebSocketExamples.SampleFrameIsHello | src/websocket.cpp:165-224 | the masked sample frame of RFC 6455 section 5.7 delivers "Hello" |
| WebSocketFrame.ClientFrameDelivered | src/websocket.cpp:165-224 | every complete masked data frame of RFC 6455 delivers its opcode and payload |
| WebSocketHandshake.CreateKeyAccept | src/websocket.cpp:21-44 | the accept value of the kept key, every copy inside its buffer |
| WebSocketHandshake.AcceptedTextIff | src/websocket.cpp:31-35 | the hashed text is key and GUID if and only if the key has at most 91 bytes |
| WebSocketHandshake.KeyIsFound | src/websocket.cpp:8-19 | the key of a request is read back whatever surrounds it |
| WebSocketHandshake.AnsweredIff | src/websocket.cpp:226-235 | a request is answered if and only if it starts as a GET and has a key header with a carriage return behind it |
| WebSocketHandshake.ResponseFits | src/websocket.cpp:237-239 | the response is header, accept value and an empty line, 129 bytes, never truncated |
| WebSocketExamples.SampleKeyIsAccepted | src/websocket.cpp:21-44 | the sample key of RFC 6455 section 1.3 has the accept value given there |
| WebSocketHandshake.HandshakeAnswersKey | src/websocket.cpp:226-248 | a well-formed request is answered with Base64 of SHA-1 of its own key and the GUID |
| WebSocketSession.KeyIsAnsweredInTurn | src/websocket.cpp:326-350 | a request without zero bytes that fits the receive buffer is answered in its turn with the accept value of its own key, and the client is upgraded |
| WebSocketSession.UnansweredIsClosed | src/websocket.cpp:345-350 | a request without a key header and carriage return, or that is no GET, ends the connection |
| WebSocketSession.Server.HandleFrame | src/websocket.cpp:165-224 | by the bits of the frame: PING is answered with PONG, CLOSE with CLOSE and the end of the connection, a final data frame delivers its payload, anything else does nothing |
| WebSocketSession.ServedByOpcode | src/websocket.cpp:165-224 | the same for a turn of the loop |
| WebSocketSession.ServedWithoutData | src/websocket.cpp:297-362 | a client is accepted when nobody is connected; an error or the end of the stream ends the connection |
| WebSocketSession.QueueInOrder | src/websocket.cpp:378-388 | queued messages that fit go out one frame each, in order |
| WebSocketSession.Server.SendMessage | src/websocket.cpp:130-163 | sends one frame exactly when a client is established and the message fits |
| WebSocketSession.Server.OneTurn | src/websocket.cpp:296-389 | one turn of the loop: its events, deliveries and the new connection, and established implies a socket |
| WebSocketSession.ServedIsLegal | src/websocket.cpp:296-362 | no turn breaks the protocol, from any connection |
| WebSocketSession.RunIsLegal | src/websocket.cpp:296-389 | no run does, and the log ends in the server's own view of the connection |
| WebSocketSession.Run | src/websocket.cpp:250-390 | the loop produces that log |
| WebSocketSession.FramesOnlyWhileUpgraded | src/websocket.cpp:136-139 | every frame is preceded by the 101 response of its connection with no close between |
| WebSocketSession.AcceptsMatchCloses | src/websocket.cpp:331-361 | each socket is closed as often as it was accepted, the live one once less |
| Ipv4Checksum.FoldMeans | lwip_patch/ip4.c:983-984 | folding keeps the sum modulo 65,535 and is zero only for zero |
| Ipv4Checksum.TwoFoldsSuffice | lwip_patch/ip4.c:983-985 | two folds, the second unmasked, are a full fold for every 32-bit sum |
| Ipv4Checksum.HeaderVerifies | lwip_patch/ip4.c:944-987 | the accumulated sum is the header's, and its complement makes the header verify |
| Ipv4Checksum.OutputHeader | lwip_patch/ip4.c:894-988 | every field, the options and their padding at the offsets of RFC 791, a header that ip4_input accepts, the next identifier, and the error cases |
| Ipv4Checksum.SampleSum | lwip_patch/ip4.c:983-985 | the example of RFC 1071 section 3 |
| Ipv4Checksum.AcceptsInNetworkOrder | lwip_patch/ip4.c:535-537 | the input test gives the same answer as the sum in network byte order |
| Ipv4Checksum.Forward | lwip_patch/ip4.c:318-337 | the TTL one lower, the updated checksum, every other byte unchanged, and when it is dropped |
| Ipv4Checksum.ForwardedVerifiesIff | lwip_patch/ip4.c:318-337 | a header that verifies still does after the update if and only if its TTL was not zero |
| DnsNames.NextLabel | dns/dnsserver.cpp:52-76 | the next label of the walk, through any pointers, or the end |
| DnsNames.StopsIff | dns/dnsserver.cpp:52-76 | the walk stops at some time if and only if it stops within as many moves as the message has bytes |
| DnsNames.PointerToItselfNeverStops | dns/dnsserver.cpp:56-60 | the failing input: a pointer to its own place is followed for ever |
| DnsNames.WalksCompressedName | dns/dnsserver.cpp:52-76 | labels that end in a pointer are followed by the labels it points to |
| DnsNames.WalksEncodedName | dns/dnsserver.cpp:52-76 | an encoded name is walked label by label and then ends |
| DnsNames.ComponentsOfJoin | src/settings.cpp:41-57 | a dotted name is split into exactly its components |
| DnsNames.AddressFor | dns/dnsserver.cpp:78-117 | whenever the walk stops, answers the primary address if and only if the name is ours |
| DnsNames.OurNameIff | dns/dnsserver.cpp:78-117 | letter by letter: the first label begins the host name, and each further one is the part of the domain in its place, or suffixes are ignored |
| DnsNames.CaseDoesNotMatter | dns/dnsserver.cpp:96-102 | changing the case of any letters in a query never changes the answer |
| DnsNames.HostInDomainIsOurs | dns/dnsserver.cpp:78-117 | a query for the host in the domain, in any letter case, gets the primary address |
| DnsNames.BeginningOfHostIsOurs | dns/dnsserver.cpp:96 | so does any non-empty beginning of the host name alone |

## Left out

- HttpConnection.Connection.Send: files whose bytes are read in blocks, several-part inserts, stripped tags and keep-alive are other build options; a POST response without an open file is not modelled either.
- HttpConnection.Respond: which file and which header strings answer a request is decided by request parsing, which is not part of this model; header strings are non-empty and shorter than 65,536 bytes, as the literals are.
- HttpConnection.Serve: a further request during a response without a file ends the run here; what is sent from then on is the response to that request, to which Respond applies anew.
- HttpConnection.Page: an SSI page that contains its own header, requested with HTTP/0.9, is excluded; there the scan starts before the file pointer.
- HttpConnection.Connection.GetTagInsert: a handler returns at most the 192 bytes it is given room for, as its interface demands; its answer may depend on how often it was called.
- HttpPost.Post.RxPbuf: a chunk is one contiguous buffer; copying from a chain of buffers is not modelled.
- DhcpServer.Server.Process: the configured domain name has at most 255 bytes, the most one option can carry.
- DhcpLease.Exclusive: a client with the hardware address 00:00:00:00:00:00 is excluded, since that value marks a free slot.
- WebSocketSession.Server.HandleFrame: a final data frame whose payload runs past the receive buffer is excluded; the code reads and writes beyond the buffer there. A 64-bit length reads as zero and delivers an empty message, as in the code.
- WebSocketHandshake.BuildResponse: a receive buffer without any zero byte is read as a string that ends with the buffer; the search in the source reads on.
- WebSocketSession.Server.OneTurn: partial sends, socket options and the contents of status messages are not modelled; queued messages are inputs.
- WebSocketHandshake.KeyIsFound: a request in which the key header occurs earlier is answered with the text behind its first occurrence.
- Ipv4Checksum.Forward: routing, the ICMP answer to a dropped packet and the reset for checksum offload after the update are left out.
- DnsNames.AddressFor: a name over which the walk never stops has no answer; Stops is the exact condition. The byte behind the message, which a pointer in the last place reads, is taken as given.
- Ring buffer and sensor averaging: their properties are short inductions that add little to the results above.
- Sockets, lwIP, FreeRTOS, drivers, settings storage, MQTT and generated files: foreign code or hardware.
