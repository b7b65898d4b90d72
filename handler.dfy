/**
 * `StreamingHandler.do_GET` (camserver.py:72-141): an exact-match route table
 * from request path to response, the header lines each response sends, the
 * indicator events each request causes, and the bytes the handler itself
 * writes after the headers that `send_response` adds.
 */
module Handler {
  import opened Bytes
  import opened Wrappers
  import opened Multipart
  import opened Indicator

  /** The static page served at /index.html. */
  const Page: string :=
    "<html>\n<head>\n<title>Raspberry Pi - Chicken Cam!</title>\n</head>\n<body>\n"
    + "<center><h1>All the chickens in the house?</h1></center>\n"
    + "<center><img src=\"stream.mjpg\" ></center>\n</body>\n</html>\n"

  /** `PAGE.encode("utf-8")`. */
  function PageBytes(): Bytes
  {
    Utf8(Page)
  }

  datatype Route = Redirect | IndexPage | Snapshot | Stream | NotFound

  /** The one path each real route answers to. */
  function PathOf(r: Route): string
    requires r != NotFound
  {
    match r
    case Redirect => "/"
    case IndexPage => "/index.html"
    case Snapshot => "/frame.jpg"
    case Stream => "/stream.mjpg"
  }

  /** The if/elif chain on `self.path`: string equality, no prefix, query or trailing-slash matching. */
  function RouteOf(path: string): (r: Route)
    ensures r == NotFound <==> path !in {"/", "/index.html", "/frame.jpg", "/stream.mjpg"}
    ensures r != NotFound ==> PathOf(r) == path
  {
    if path == "/" then Redirect
    else if path == "/index.html" then IndexPage
    else if path == "/frame.jpg" then Snapshot
    else if path == "/stream.mjpg" then Stream
    else NotFound
  }

  /** Every real route is reached from its own path and from no other. */
  lemma RouteOfPathOf(r: Route, path: string)
    requires r != NotFound
    ensures RouteOf(PathOf(r)) == r
    ensures RouteOf(path) == r <==> path == PathOf(r)
  {
  }

  /** The status code passed to `send_response`, or to `send_error` for an unknown path. */
  function StatusOf(r: Route): nat
  {
    match r
    case Redirect => 301
    case NotFound => 404
    case _ => 200
  }

  type Header = (string, string)

  /** The `send_header` calls of each route, in order. */
  function ResponseHeaders(r: Route): seq<Header>
  {
    match r
    case Redirect => [("Location", "/index.html")]
    case IndexPage => [("Content-Type", "text/html"), ("Content-Length", DecimalString(|PageBytes()|))]
    case Snapshot => [("Content-Type", "image/jpeg")]
    case Stream => [("Age", "0"), ("Cache-Control", "no-cache, private"), ("Pragma", "no-cache"),
                    ("Content-Type", "multipart/x-mixed-replace; boundary=FRAME")]
    case NotFound => []
  }

  /** The header lines followed by `end_headers()`. */
  function HeaderBlock(hs: seq<Header>): Bytes
  {
    if hs == [] then EndHeaders else HeaderLine(hs[0].0, hs[0].1) + HeaderBlock(hs[1..])
  }

  /**
   * What the handler writes after the headers. `capture` stands for what
   * the camera capture put into the snapshot's buffer. The stream loop ends
   * only when a write to the client raises: `received` stands for the frames
   * whose parts were written in full before that, and `partial` for the
   * bytes of the next part that got through before the raise.
   */
  function Body(r: Route, capture: Bytes, received: seq<Bytes>, partial: Bytes): Bytes
  {
    match r
    case IndexPage => PageBytes()
    case Snapshot => capture
    case Stream => EncodeStream(received) + partial
    case _ => []
  }

  /**
   * The index page announces as its Content-Length exactly the number of
   * UTF-8 bytes in its body, whatever the snapshot and stream parameters,
   * which that route does not use.
   */
  lemma IndexContentLength(capture: Bytes, received: seq<Bytes>, partial: Bytes)
    ensures ResponseHeaders(IndexPage)[1].0 == "Content-Length"
    ensures DecimalValue(Latin1(ResponseHeaders(IndexPage)[1].1)) == |Body(IndexPage, capture, received, partial)|
  {
    DecimalRoundTrip(|PageBytes()|);
  }

  /** The redirect is a single Location header and no body, whatever the unused snapshot and stream parameters. */
  lemma RedirectResponse(capture: Bytes, received: seq<Bytes>, partial: Bytes)
    ensures ResponseHeaders(Redirect) == [("Location", "/index.html")]
    ensures Body(Redirect, capture, received, partial) == []
  {
  }

  /** The snapshot and the stream responses send no Content-Length header. */
  lemma NoContentLengthOnCaptures()
    ensures forall i :: 0 <= i < |ResponseHeaders(Snapshot)| ==> ResponseHeaders(Snapshot)[i].0 != "Content-Length"
    ensures forall i :: 0 <= i < |ResponseHeaders(Stream)| ==> ResponseHeaders(Stream)[i].0 != "Content-Length"
  {
  }

  /**
   * The whole parts of the stream body split back into exactly the frames
   * received in full, in order, and what is left is the cut-off part. When
   * the cut falls on a part boundary the body is a whole number of parts.
   */
  lemma StreamBodyDecodes(capture: Bytes, received: seq<Bytes>, next: Bytes, cut: nat)
    requires cut < |Part(next)|
    ensures DecodeParts(Body(Stream, capture, received, Part(next)[..cut])) == (received, Part(next)[..cut])
    ensures cut == 0 ==> DecodeStream(Body(Stream, capture, received, Part(next)[..cut])) == Some(received)
  {
    DecodePartsOfCut(received, next, cut);
    if cut == 0 {
      assert EncodeStream(received) + Part(next)[..cut] == EncodeStream(received);
      DecodeEncode(received);
    }
  }

  /**
   * One GET request: the status code given to `send_response` (or
   * `send_error`), everything the handler writes after the headers that
   * `send_response` adds, and the indicator events in the order the request
   * causes them. For a stream, the write that raised is the one of the part
   * for `next`, of which the first `cut` bytes got through.
   */
  method DoGet(g: Globals, path: string, capture: Bytes, received: seq<Bytes>, next: Bytes, cut: nat)
    returns (status: nat, out: Bytes)
    requires cut < |Part(next)|
    modifies g
    ensures status == StatusOf(RouteOf(path))
    ensures out == HeaderBlock(ResponseHeaders(RouteOf(path))) + Body(RouteOf(path), capture, received, Part(next)[..cut])
    ensures RouteOf(path) in {Redirect, IndexPage, NotFound} ==> g.Current() == old(g.Current())
    ensures RouteOf(path) == Snapshot ==>
      g.Current() == Next(Next(old(g.Current()), SnapshotBegin), SnapshotEnd)
      && g.isStreaming == old(g.isStreaming) && g.ledOn == old(g.isStreaming)
    ensures RouteOf(path) == Stream ==>
      g.Current() == Next(Next(old(g.Current()), StreamStart), StreamEnd)
      && !g.isStreaming && !g.ledOn
  {
    var route := RouteOf(path);
    status := StatusOf(route);
    var head := HeaderBlock(ResponseHeaders(route));
    match route
    case Redirect =>
      out := head;
    case IndexPage =>
      out := head + PageBytes();
    case Snapshot =>
      g.SnapshotBegin();
      out := head + capture;
      g.SnapshotEnd();
    case Stream =>
      g.StreamStart();
      var parts := WriteParts(received);
      // A write of the next part raises after only its first cut bytes.
      out := head + (parts + Part(next)[..cut]);
      g.StreamEnd();
    case NotFound =>
      // send_error writes its own response; the extra end_headers() then adds a blank line.
      out := head;
  }
}
