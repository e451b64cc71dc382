/** Reassembly of a POST body in httpserver/httpd.cpp from the pieces TCP delivers. */
module HttpPost {
  import opened Words

  /** A piece of the stream in one contiguous buffer; lengths are 16-bit. */
  type Chunk = c: string | |c| < 0x1_0000 witness ""

  /** What one chunk does to the buffer of `httpd_post_receive_data`; `left` is counted after it. */
  function Stored(content: string, left: nat, p: Chunk): (r: string)
    requires left <= |content| < 0x8000_0000
    ensures |r| == |content|
  {
    var at := |content| - left - |p|;
    if at < 0 then content else content[..at] + p + content[at + |p|..]
  }

  /** `left` after a chunk, before any error. */
  function LeftAfter(left: nat, p: Chunk): nat {
    if left < |p| then 0 else left - |p|
  }

  /** Whether `httpd_post_receive_data` refuses the chunk. */
  predicate Refused(n: nat, left: nat, p: Chunk) {
    n < LeftAfter(left, p) + |p|
  }

  /** `left` once a chunk has been dealt with. */
  function LeftOnReceipt(n: nat, left: nat, p: Chunk): nat {
    if Refused(n, left, p) then 0 else LeftAfter(left, p)
  }

  /** How much of a POST of n bytes is still awaited after these chunks. */
  function Remaining(n: nat, chunks: seq<Chunk>): nat {
    if chunks == [] then n
    else
      var left := Remaining(n, chunks[..|chunks| - 1]);
      if left == 0 then 0 else LeftOnReceipt(n, left, chunks[|chunks| - 1])
  }

  /** How a connection ends: through `http_close_or_abort_conn`, or through `http_err`. */
  datatype Ending = Closed | Reset

  /** The POST part of `struct http_state`. `delivered` is what the finish handler was called with. */
  class Post {
    const content: array<char>
    const contentLen: nat
    var left: nat
    var released: bool   // whether `post_content` has been freed
    ghost var delivered: seq<string>

    ghost predicate Valid()
      reads this
    {
      && content.Length == contentLen < 0x8000_0000 && left <= contentLen
      && |delivered| <= 1 && (released <==> |delivered| == 1)
    }

    /** After the request has been handled: finished exactly when nothing is left to receive. */
    ghost predicate Receiving()
      reads this
    {
      Valid() && (left == 0 <==> |delivered| == 1)
    }

    /** `httpd_post_begin` and the lines after it in `http_post_request`. */
    constructor (contentLen: nat)
      requires contentLen < 0x8000_0000
      ensures Valid() && fresh(content) && delivered == [] && !released
      ensures this.contentLen == contentLen && left == contentLen
    {
      this.contentLen := contentLen;
      content := new char[contentLen];
      left := contentLen;
      released := false;
      delivered := [];
    }

    /** `httpd_post_receive_data`, with its 32-bit arithmetic. */
    method ReceiveData(p: Chunk) returns (ok: bool)
      requires Valid()
      modifies content
      ensures ok <==> left + |p| <= contentLen
      ensures content[..] == Stored(old(content[..]), left, p)
    {
      var offset := ToInt32(U32(U32(contentLen - left) - |p|));
      OffsetIsExact(contentLen - left, |p|);
      if offset < 0 || U32(offset + |p|) > contentLen {
        return false;
      }
      forall i | 0 <= i < |p| {
        content[offset + i] := p[i];
      }
      return true;
    }

    /** `httpd_post_finished`: hands over the buffer and frees it. */
    method Finished()
      requires !released
      modifies this`delivered, this`released
      ensures delivered == old(delivered) + [content[..]] && released
    {
      delivered := delivered + [content[..]];
      released := true;
    }

    /** `http_post_rxpbuf`. */
    method RxPbuf(p: Chunk)
      requires Valid() && delivered == []
      modifies this`left, this`delivered, this`released, content
      ensures Receiving()
      ensures left == LeftOnReceipt(contentLen, old(left), p)
      ensures content[..] == Stored(old(content[..]), LeftAfter(old(left), p), p)
      ensures delivered == if left == 0 then [content[..]] else []
    {
      if left < |p| {
        left := 0;
      } else {
        left := left - |p|;
      }
      var ok := ReceiveData(p);
      if !ok {
        left := 0;
      }
      if left == 0 {
        Finished();
      }
    }

    /** The part of `http_post_request` that passes on what came with the header. */
    method FirstChunk(p: Chunk)
      requires Valid() && delivered == [] && left == contentLen
      modifies this`left, this`delivered, this`released, content
      ensures Receiving()
      ensures if p == "" && contentLen > 0
              then left == old(left) && content[..] == old(content[..]) && delivered == []
              else content[..] == Stored(old(content[..]), LeftAfter(old(left), p), p)
                   && left == LeftOnReceipt(contentLen, old(left), p)
                   && delivered == if left == 0 then [content[..]] else []
    {
      if p != "" {
        RxPbuf(p);
      } else if left == 0 {
        RxPbuf("");
      }
    }

    /** `http_recv` while a POST is being received; once it is complete, data goes elsewhere. */
    method Recv(p: Chunk)
      requires Receiving()
      modifies this`left, this`delivered, this`released, content
      ensures Receiving() && old(delivered) <= delivered
      ensures old(left) > 0 ==>
                && left == LeftOnReceipt(contentLen, old(left), p)
                && content[..] == Stored(old(content[..]), LeftAfter(old(left), p), p)
                && delivered == if left == 0 then [content[..]] else []
      ensures old(left) == 0 ==> left == 0 && content[..] == old(content[..]) && delivered == old(delivered)
    {
      if left > 0 {
        RxPbuf(p);
      }
    }

    /** `http_close_or_abort_conn`: an unfinished POST is finished here. */
    method Close()
      requires Receiving()
      modifies this`delivered, this`released
      ensures |delivered| == 1 && released && old(delivered) <= delivered
      ensures old(left) > 0 ==> delivered == [content[..]]
    {
      if left != 0 {
        Finished();
      }
    }

    /** `http_err`: the connection is gone and its record is freed; the POST code is not told. */
    method Err()
      requires Receiving()
      ensures Receiving()
    {
    }
  }

  lemma OffsetIsExact(received: nat, k: nat)
    requires received < 0x8000_0000 && k < 0x1_0000
    ensures ToInt32(U32(U32(received) - k)) == received - k
    ensures received >= k ==> U32(received - k + k) == received
  {}

  /** Chunks that follow each other and stay within the content length fill the buffer from the front. */
  lemma StoredInOrder(content: string, body: string, done: nat, p: Chunk)
    requires |content| == |body| < 0x8000_0000 && done + |p| <= |body|
    requires content[..done] == body[..done] && p == body[done..done + |p|]
    ensures !Refused(|content|, |content| - done, p) && LeftAfter(|content| - done, p) == |content| - done - |p|
    ensures Stored(content, |content| - done - |p|, p)[..done + |p|] == body[..done + |p|]
  {
    assert body[..done + |p|] == body[..done] + p;
    assert Stored(content, |content| - done - |p|, p)[..done + |p|] == content[..done] + p;
  }

  ghost predicate AllNonEmpty(chunks: seq<Chunk>) {
    forall i :: 0 <= i < |chunks| ==> chunks[i] != ""
  }

  lemma {:induction false} FlattenSplit(chunks: seq<Chunk>, i: nat)
    requires i < |chunks|
    ensures |Flatten(chunks[..i])| + |chunks[i]| <= |Flatten(chunks)|
    ensures Flatten(chunks)[..|Flatten(chunks[..i])|] == Flatten(chunks[..i])
    ensures Flatten(chunks)[|Flatten(chunks[..i])|..|Flatten(chunks[..i])| + |chunks[i]|] == chunks[i]
    ensures AllNonEmpty(chunks) && i + 1 < |chunks| ==> |Flatten(chunks[..i])| + |chunks[i]| < |Flatten(chunks)|
  {
    var front := chunks[..|chunks| - 1];
    if i < |chunks| - 1 {
      FlattenSplit(front, i);
      assert front[..i] == chunks[..i];
    } else {
      assert front == chunks[..i];
    }
  }

  /** The first i pieces have been received, and nothing else. */
  ghost predicate ReceivedSoFar(content: string, left: nat, chunks: seq<Chunk>, i: nat)
    requires i <= |chunks|
  {
    var body, done := Flatten(chunks), |Flatten(chunks[..i])|;
    && |content| == |body| < 0x8000_0000 && left + done == |body|
    && content[..done] == Flatten(chunks[..i]) && Flatten(chunks[..i]) <= body
  }

  lemma ReceivedOneMore(content: string, left: nat, chunks: seq<Chunk>, i: nat)
    requires i < |chunks| && AllNonEmpty(chunks) && ReceivedSoFar(content, left, chunks, i)
    ensures !Refused(|content|, left, chunks[i]) && left > 0
    ensures var left' := LeftAfter(left, chunks[i]);
            && ReceivedSoFar(Stored(content, left', chunks[i]), left', chunks, i + 1)
            && (left' == 0 <==> i + 1 == |chunks|)
  {
    var body, done := Flatten(chunks), |Flatten(chunks[..i])|;
    FlattenSplit(chunks, i);
    assert chunks[..i + 1][..i] == chunks[..i];
    StoredInOrder(content, body, done, chunks[i]);
    if i + 1 == |chunks| {
      assert chunks[..i + 1] == chunks;
    }
  }

  /** For every split of a body into pieces that arrive in order, the application is called once,
      with exactly the body, when the last piece arrives; no ending calls it again. */
  method Reassemble(chunks: seq<Chunk>, ending: Ending) returns (post: Post)
    requires AllNonEmpty(chunks) && |Flatten(chunks)| < 0x8000_0000
    ensures post.delivered == [Flatten(chunks)]
  {
    post := new Post(|Flatten(chunks)|);
    if chunks == [] {
      post.FirstChunk("");
      assert post.content[..] == [];
    } else {
      assert chunks[..0] == [];
      ReceivedOneMore(post.content[..], post.left, chunks, 0);
      post.FirstChunk(chunks[0]);
      ReceiveRest(post, chunks);
    }
    match ending {
      case Closed => post.Close();
      case Reset => post.Err();
    }
  }

  method ReceiveRest(post: Post, chunks: seq<Chunk>)
    requires AllNonEmpty(chunks) && chunks != []
    requires post.Receiving() && ReceivedSoFar(post.content[..], post.left, chunks, 1)
    requires post.left == 0 <==> 1 == |chunks|
    requires post.delivered == if post.left == 0 then [post.content[..]] else []
    modifies post, post.content
    ensures post.Receiving() && post.left == 0 && post.delivered == [Flatten(chunks)]
  {
    for i := 1 to |chunks|
      invariant post.Receiving() && ReceivedSoFar(post.content[..], post.left, chunks, i)
      invariant post.left == 0 <==> i == |chunks|
      invariant post.delivered == if post.left == 0 then [post.content[..]] else []
    {
      ReceivedOneMore(post.content[..], post.left, chunks, i);
      post.Recv(chunks[i]);
    }
    assert chunks[..|chunks|] == chunks;
    assert post.content[..] == Flatten(chunks);
  }

  /** Whatever arrives, in whatever pieces, and however the connection ends, the finish handler runs at
      most once, and every copy stays inside the buffer. It runs, and the buffer is freed, exactly
      unless the connection ends in an error while something is still awaited. */
  method ReceiveAnything(contentLen: nat, first: Chunk, chunks: seq<Chunk>, ending: Ending) returns (post: Post)
    requires contentLen < 0x8000_0000
    ensures |post.delivered| <= 1 && (post.released <==> |post.delivered| == 1)
    ensures |post.delivered| == 1 ==> |post.delivered[0]| == contentLen
    ensures |post.delivered| == 0 <==> ending == Reset && Remaining(contentLen, [first] + chunks) > 0
  {
    hide Refused, LeftAfter;
    post := new Post(contentLen);
    post.FirstChunk(first);
    FirstRemaining(contentLen, first);
    assert [first] + chunks[..0] == [first];
    for i := 0 to |chunks|
      invariant post.Receiving() && fresh(post) && fresh(post.content) && post.contentLen == contentLen
      invariant |post.delivered| == 1 ==> |post.delivered[0]| == contentLen
      invariant post.left == Remaining(contentLen, [first] + chunks[..i])
    {
      assert ([first] + chunks[..i + 1])[..1 + i] == [first] + chunks[..i];
      post.Recv(chunks[i]);
    }
    assert chunks[..|chunks|] == chunks;
    match ending {
      case Closed => post.Close();
      case Reset => post.Err();
    }
  }

  lemma FirstRemaining(n: nat, first: Chunk)
    ensures Remaining(n, [first]) == if first == "" then n else LeftOnReceipt(n, n, first)
  {
    assert [first][..0] == [];
  }

  /** While the pieces stay within the content length, what is awaited is what has not arrived. */
  lemma {:induction false} RemainingInOrder(n: nat, chunks: seq<Chunk>)
    requires |Flatten(chunks)| <= n
    ensures Remaining(n, chunks) == n - |Flatten(chunks)|
  {
    if chunks != [] {
      RemainingInOrder(n, chunks[..|chunks| - 1]);
    }
  }

  /** So a reset before the last byte loses a POST: three bytes of ten, and the finish handler never
      runs, nor is the buffer freed. */
  method LosePost() returns (post: Post)
    ensures post.delivered == [] && !post.released
  {
    var first: Chunk := "abc";
    post := ReceiveAnything(10, first, [], Reset);
    assert [first] + [] == [first] && [first][..0] == [];
    assert |Flatten([first])| == 3;
    RemainingInOrder(10, [first]);
  }

  /** What the buffer should hold: the bytes so far, then as much of the chunk as still belongs to it. */
  function Expected(content: string, left: nat, p: Chunk): string
    requires left <= |content|
  {
    var done, k := |content| - left, Min(left, |p|);
    content[..done] + p[..k] + content[done + k..]
  }

  /** A chunk lands where it belongs, for all contents, exactly when it does not run past the content
      length; one that does is stored too early, over bytes that were already there, or not at all. */
  lemma LandsWhereItBelongsIff(n: nat, left: nat, k: nat)
    requires 1 <= left <= n < 0x8000_0000 && k < 0x1_0000
    ensures (forall content: string, p: Chunk :: |content| == n && |p| == k ==>
               Stored(content, LeftAfter(left, p), p) == Expected(content, left, p))
            <==> k <= left
  {
    hide Expected;
    if k <= left {
      forall content: string, p: Chunk | |content| == n && |p| == k
        ensures Stored(content, LeftAfter(left, p), p) == Expected(content, left, p)
      {
        FittingChunkLands(content, left, p);
      }
    } else {
      OverrunMisses(n, left, k);
    }
  }

  lemma FittingChunkLands(content: string, left: nat, p: Chunk)
    requires |p| <= left <= |content| < 0x8000_0000
    ensures Stored(content, LeftAfter(left, p), p) == Expected(content, left, p)
  {}

  lemma OverrunMisses(n: nat, left: nat, k: nat)
    requires 1 <= left < k < 0x1_0000 && left <= n < 0x8000_0000
    ensures exists content: string, p: Chunk ::
              |content| == n && |p| == k && Stored(content, LeftAfter(left, p), p) != Expected(content, left, p)
  {
    var content: string, p: Chunk := seq(n, i => 'a'), seq(k, i => 'b');
    var at := if k > n then n - left else n - k;
    assert Stored(content, LeftAfter(left, p), p)[at] != Expected(content, left, p)[at];
  }
}
