/**
 * What both downloaders see of HTTP and of the disk.  A reply is what one
 * `requests.get` yields: nothing at all (the request raised), or a status,
 * the `Content-Length` and `Content-Disposition` header values when sent,
 * the body chunks `iter_content` delivered, and whether the stream then
 * broke.  The disk is a map from path to contents.
 */
module Transfer {
  import opened Wrappers
  import opened Text

  type Byte = b: int | 0 <= b < 256

  type Bytes = seq<Byte>

  type FileSystem = map<string, Bytes>

  datatype Reply =
    | Unreachable
    | Response(status: int, contentLength: Option<string>, contentDisposition: Option<string>,
               chunks: seq<Bytes>, broken: bool)

  /** `raise_for_status` raises for a client (4xx) or server (5xx) error status, and only then. */
  predicate ErrorStatus(status: int) { 400 <= status < 600 }

  /** The reply to the next request: a request with no reply left is one that raised. */
  function NextReply(replies: seq<Reply>): Reply {
    if replies == [] then Unreachable else replies[0]
  }

  function RestReplies(replies: seq<Reply>): (r: seq<Reply>)
    ensures |r| == if replies == [] then 0 else |replies| - 1
  {
    if replies == [] then [] else replies[1..]
  }

  /** The body: every chunk, in order. */
  function Concat(chunks: seq<Bytes>): Bytes {
    if chunks == [] then [] else Concat(chunks[..|chunks| - 1]) + chunks[|chunks| - 1]
  }

  lemma {:induction false} ConcatAppend(a: seq<Bytes>, b: seq<Bytes>)
    ensures Concat(a + b) == Concat(a) + Concat(b)
    decreases |b|
  {
    if b == [] {
      assert a + b == a;
    } else {
      var init, last := b[..|b| - 1], b[|b| - 1];
      assert (a + b)[..|a + b| - 1] == a + init && (a + b)[|a + b| - 1] == last;
      calc {
        Concat(a + b);
        Concat(a + init) + last;
        { ConcatAppend(a, init); }
        (Concat(a) + Concat(init)) + last;
        Concat(a) + (Concat(init) + last);
        Concat(a) + Concat(b);
      }
    }
  }

  /** The write loop: each non-empty chunk is written after what the file already holds. */
  method WriteChunks(initial: Bytes, chunks: seq<Bytes>) returns (content: Bytes)
    ensures content == initial + Concat(chunks)
  {
    content := initial;
    var i := 0;
    while i < |chunks|
      invariant 0 <= i <= |chunks|
      invariant content == initial + Concat(chunks[..i])
    {
      if chunks[i] != [] {
        content := content + chunks[i];
      }
      assert chunks[..i + 1][..i] == chunks[..i];
      i := i + 1;
    }
    assert chunks[..i] == chunks;
  }

  /**
   * `int(response.headers.get('content-length', 0))`: 0 when the header is
   * absent, the integer it spells (surrounding whitespace allowed) when
   * present, and None where `int` raises.
   */
  function HeaderInt(v: Option<string>): Option<int> {
    match v
    case None => Some(0)
    case Some(s) => ParseInt(Strip(s))
  }
}
