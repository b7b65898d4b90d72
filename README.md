# camserver: a verified model of the MJPEG camera server core

`camserver.py` is a small HTTP server for a Raspberry Pi camera. The camera
records MJPEG into a `StreamingOutput` object, which splits the chunks it is
handed into whole JPEG frames at the start-of-image marker SOI (bytes `FF D8`,
ITU-T T.81 Annex B.1.1.3). A `BaseHTTPRequestHandler` serves:

- a redirect from `/`;
- an HTML page at `/index.html`;
- one snapshot at `/frame.jpg`;
- an endless `multipart/x-mixed-replace` stream of frames at `/stream.mjpg`.

A GPIO LED shows whether the camera is in use.

This project models that core in Dafny and proves its behaviour:

- `bytes.dfy`, module `Bytes`: byte strings with `b"".join`, Latin-1 and UTF-8
  encoding, and Python's `str()` of a length. `str()` comes with the decimal
  parser that inverts it, and the parser is proved correct in both directions.
  The module `Wrappers` holds `Option`, standing for `None`.
- `buffer.dfy`, module `Buffer`: the part of `io.BytesIO` the splitter uses,
  as a class with a byte sequence and a position. `write` overwrites from the
  position and extends or pads past the end. `truncate()` cuts at the
  position, `seek` moves the position and `getvalue()` returns everything.
- `framesplitter.dfy`, module `FrameSplitter`: `StreamingOutput` as a class
  whose `Write` does what `write` does, step by step, on a `BytesIO` object.
  - Its reference behaviour is two functions of the history of written
    chunks: `Published` (the frame) and `Pending` (the bytes accumulated since
    the last marker chunk).
  - A class invariant ties the object to them.
  - Lemmas state what the history implies about published frames.
- `multipart.dfy`, module `Multipart`: the byte layout of one stream part and
  the `send_header`/`end_headers` lines it is built from. A strict decoder
  splits a stream of parts back into frames, using the boundary and the
  Content-Length. The round trip is proved both ways.
- `indicator.dfy`, module `Indicator`: the global `is_streaming` flag and the
  LED, as a class whose methods are the four state changes `do_GET` makes.
  Beside it are a pure transition function over events and lemmas about event
  traces.
- `handler.dfy`, module `Handler`: the exact-match route table of `do_GET`,
  the headers each route sends, and `DoGet`, which produces the status, the
  bytes written after the headers that `send_response` adds itself, and the
  indicator updates of one request.

### Where the model follows the code rather than the intent

- **LED after a stream ends.** The LED indicator keeps no count of clients.
  The end of any stream clears `is_streaming` and turns the LED off, even
  while other streams are still being served. A snapshot that finishes turns
  the LED off while another snapshot is still capturing.
  `StreamEndIgnoresOtherStreams` and `SnapshotEndIgnoresOtherSnapshots`
  exhibit both cases.
- **Bytes before the first marker.** Bytes written before the first SOI chunk
  are not discarded. The first SOI chunk publishes them as the first frame,
  which is the empty frame when nothing came before (`FirstFrame`).
- **The 404 response.** For an unknown path, `send_error(404)` writes its own
  complete response. The `end_headers()` after it then writes one more blank
  line, which the model includes.

## Model

| member | source | states |
|---|---|---|
| Bytes.Latin1 | camserver.py:78 | a header string becomes one byte per character, each of the character's own value |
| Bytes.Utf8 | camserver.py:81 | `PAGE.encode("utf-8")` has at least one byte per character and exactly one for ASCII text |
| Bytes.DecimalString | camserver.py:84 | `str(len(...))` is one or more decimal digits with no leading zero unless the value is 0 |
| Bytes.DecimalRoundTrip | camserver.py:127 | the Content-Length digits of any length are canonical and parse back to that length |
| Bytes.DecimalCanonical | camserver.py:127 | every canonical digit string is exactly `str()` of the number it spells, so the parser accepts nothing else |
| Multipart.HeaderLine | camserver.py:78 | `send_header(name, value)` as the bytes of "name: value\r\n"; no contract of its own, `PartLayout` and `HeaderBlock` build on it |
| Buffer.Overwrite | camserver.py:68 | after a write at a position, the bytes in the written range are the chunk's. Bytes before it are kept. A gap before it is NUL-padded. Bytes past it are kept; an empty write changes nothing |
| Buffer.OverwritePrefix | camserver.py:68 | writing at a position inside the buffer yields the old bytes before the position followed by the chunk |
| Buffer.BytesIO.constructor | camserver.py:56 | a new buffer is empty at position 0 |
| Buffer.BytesIO.Write | camserver.py:68 | `write` overwrites from the position, advances it by the chunk length and returns that length |
| Buffer.BytesIO.Truncate | camserver.py:63 | `truncate()` cuts the buffer at the position, never lengthens it, and keeps the position |
| Buffer.BytesIO.Seek | camserver.py:67 | `seek(0)` moves the position and leaves the bytes alone |
| Buffer.BytesIO.GetValue | camserver.py:65 | `getvalue()` returns the whole buffer whatever the position |
| FrameSplitter.StartsWithSoi | camserver.py:60 | `buf.startswith(b"\xff\xd8")`: at least two bytes, FF then D8; no contract of its own, `WriteData`, `WriteSoi` and `SoiInsideChunk` are stated with it |
| FrameSplitter.LastSoi | camserver.py:60 | finds the last chunk that starts with FF D8; none is found exactly when no chunk starts with it |
| FrameSplitter.WriteData | camserver.py:59-68 | a chunk not starting with FF D8 leaves the published frame alone and extends the pending bytes by exactly that chunk |
| FrameSplitter.WriteSoi | camserver.py:60-68 | a chunk starting with FF D8 publishes exactly the pending bytes and becomes the only pending bytes |
| FrameSplitter.SoiInsideChunk | camserver.py:60 | FF D8 past offset 0 is ordinary data: the frame is unchanged and the chunk is appended to the pending bytes |
| FrameSplitter.NothingBeforeSoi | camserver.py:55-60 | the frame is None exactly as long as no chunk has started with FF D8 |
| FrameSplitter.FirstFrame | camserver.py:55-68 | the first marker chunk publishes everything written before it, which is empty if it is the first chunk |
| FrameSplitter.FrameBetweenMarkers | camserver.py:60-68 | the published frame is exactly the chunks from the previous marker chunk up to the latest one, joined |
| FrameSplitter.LaterFramesStartWithSoi | camserver.py:60-68 | once two marker chunks have been written, the published frame begins with FF D8 |
| FrameSplitter.StreamingOutput.constructor | camserver.py:54-56 | a new splitter has no frame and a fresh, empty buffer positioned at 0 (`io.BytesIO()`), and its history is empty |
| FrameSplitter.StreamingOutput.Write | camserver.py:59-68 | `write(buf)` returns `len(buf)` and keeps the invariant (frame = Published, bytes before the position = Pending). On a marker chunk, the frame becomes the old pending bytes, with no stale tail, and the pending bytes become the chunk. Otherwise the frame is kept and the chunk is appended. The new buffer contents are stated exactly |
| FrameSplitter.StaleTailScenario | camserver.py:63-67 | after a long frame and a shorter one, the buffer still holds the long frame's tail past the position, yet the next marker publishes only the shorter frame |
| Multipart.Part | camserver.py:125-130 | the five segments of one part; no contract of its own, `PartLayout`, `ParsePartOfPart`, `CutPartDoesNotParse` and `DecodeEncode` are about it |
| Multipart.EncodeStream | camserver.py:121-130 | the parts of the frames, one after the other; no contract of its own, `EncodeStreamAppend`, `DecodeEncode`, `DecodePartsOfCut` and `WriteParts` are about it |
| Multipart.PartLayout | camserver.py:125-130 | a part is the boundary line, the Content-Type line, "Content-Length: ", the decimal frame length, two line breaks, the frame and a line break |
| Multipart.ParseLengthSound | camserver.py:127 | an accepted length field is the decimal bytes of the value read, followed by the rest |
| Multipart.ParseLengthComplete | camserver.py:127 | the decimal bytes of any length, followed by a non-digit, are read back as that length |
| Multipart.ParseBodySound | camserver.py:128-130 | an accepted body is a blank line, exactly `len` frame bytes and a line break, then the rest |
| Multipart.ParseBodyComplete | camserver.py:128-130 | a blank line, a frame and a line break are read back as that frame |
| Multipart.ParseFramedSound | camserver.py:125-130 | whatever the part reader accepts is one well-formed part followed by the remainder it returns |
| Multipart.ParseFramedComplete | camserver.py:125-130 | a well-formed part followed by anything is read back as its frame and that remainder |
| Multipart.ParsePart | camserver.py:125-130 | an accepted part is exactly the encoding of the returned frame, followed by the returned remainder |
| Multipart.ParsePartOfPart | camserver.py:125-130 | the encoding of a frame followed by anything parses back to that frame and remainder |
| Multipart.DecodeStream | camserver.py:121-130 | an accepted stream is exactly the concatenated parts of the frames returned |
| Multipart.DecodeEncode | camserver.py:121-130 | the concatenated parts of F1..Fn split back into exactly F1..Fn, in order |
| Multipart.EncodeStreamAppend | camserver.py:121-130 | each loop iteration appends exactly one part to the bytes already written |
| Multipart.WriteParts | camserver.py:121-130 | the stream loop writes the concatenated parts of the frames sent, and they decode back to those frames |
| Multipart.CutPartDoesNotParse | camserver.py:125-130 | no proper prefix of a part parses as a part, because the Content-Length fixes where the part ends |
| Multipart.DecodeParts | camserver.py:121-130 | the greedy split of a stream into whole parts returns frames whose parts, followed by the leftover bytes, make up the input exactly |
| Multipart.DecodePartsOfStuck | camserver.py:121-130 | whole parts followed by bytes where no part starts split into exactly those frames and those bytes |
| Multipart.DecodePartsOfCut | camserver.py:121-131 | whole parts for F1..Fn followed by a cut-off part split into exactly F1..Fn and the cut-off bytes |
| Indicator.Next | camserver.py:90-138 | stream start sets flag and LED, stream end clears both, snapshot begin turns the LED on, snapshot end turns it off unless the flag is set; no contract of its own, the `Globals` methods are proved to follow it and `LedInvariant`, `StreamEndForcesLedOff` and `SnapshotLeavesLedIffStreaming` are about it |
| Indicator.SnapshotLeavesLedIffStreaming | camserver.py:90-104 | a whole snapshot leaves `is_streaming` alone, and leaves the LED on iff `is_streaming` |
| Indicator.StreamingMeansLedOn | camserver.py:90-138 | from start-up, under any event sequence at all, a set `is_streaming` means the LED is on |
| Indicator.LedInvariant | camserver.py:90-138 | from start-up, under any event sequence in which every snapshot end follows its begin (as every run of `do_GET` produces), a set `is_streaming` means the LED is on. An LED that is on without it means a snapshot is still open |
| Indicator.StreamEndForcesLedOff | camserver.py:135-138 | after any history, a stream end restores the initial flag and LED state, even when more streams were started than ended |
| Indicator.StreamEndIgnoresOtherStreams | camserver.py:108-138 | two streams started and one ended: one is still open, yet the LED is off |
| Indicator.SnapshotEndIgnoresOtherSnapshots | camserver.py:90-104 | two overlapping snapshots: when the first finishes, the LED is off although the second is still open |
| Indicator.Globals.constructor | camserver.py:48-50 | at import the flag is false and the LED is off |
| Indicator.Globals.StreamStart | camserver.py:108-110 | stream start sets the flag and turns the LED on |
| Indicator.Globals.StreamEnd | camserver.py:135-138 | stream end clears the flag and turns the LED off, unconditionally |
| Indicator.Globals.SnapshotBegin | camserver.py:90 | a snapshot turns the LED on and leaves the flag alone |
| Indicator.Globals.SnapshotEnd | camserver.py:102-104 | after the image, the LED stays on only if it was on and the flag is set |
| Handler.RouteOf | camserver.py:76-141 | exact path equality: the four known paths map to their routes, and every other path is not found |
| Handler.RouteOfPathOf | camserver.py:76-106 | each route is reached from its own path and from no other |
| Handler.PageBytes | camserver.py:81 | `PAGE.encode("utf-8")`; no contract of its own, `IndexContentLength` is about it |
| Handler.StatusOf | camserver.py:77-140 | 301 for the redirect, 404 for an unknown path, 200 otherwise; no contract of its own, `DoGet` returns it |
| Handler.ResponseHeaders | camserver.py:78-119 | the `send_header` calls of each route, in order; no contract of its own, `IndexContentLength`, `RedirectResponse` and `NoContentLengthOnCaptures` are about it |
| Handler.HeaderBlock | camserver.py:78-119 | the header lines followed by the blank line of `end_headers()`; no contract of its own, `DoGet` writes it |
| Handler.Body | camserver.py:86-130 | the page, the captured image, or the stream's whole parts followed by the cut-off part; no contract of its own, `IndexContentLength` and `StreamBodyDecodes` are about it |
| Handler.IndexContentLength | camserver.py:80-86 | the index page's Content-Length header spells exactly the UTF-8 byte length of the body sent |
| Handler.RedirectResponse | camserver.py:76-79 | `/` sends only `Location: /index.html` and no body |
| Handler.NoContentLengthOnCaptures | camserver.py:87-118 | neither the snapshot nor the stream response sends a Content-Length header |
| Handler.StreamBodyDecodes | camserver.py:119-131 | the loop ends only when a write raises, possibly partway through a part, and the whole parts of the stream body split back into exactly the frames received in full. The cut-off part is left over, and a cut on a part boundary leaves exactly the received frames |
| Handler.DoGet | camserver.py:72-141 | one GET: the status is 301, 200 or 404 by route, and the output is the route's header lines, a blank line and the route's body; a stream's body ends with the bytes of the part whose write raised that got through. Redirect, page and 404 leave the flag and LED alone. A snapshot runs begin then end, leaving the LED on iff streaming. A stream runs start then end and leaves both off |

## Left out

- Bytes.Latin1: the strict codec's error for a character above U+00FF is not modelled. Only the character's low byte is kept. Every header the server sends is ASCII.
- Handler.DoGet: the status line and the Server and Date headers that `send_response` adds are left out, because they come from `http.server` and the clock. The model starts its output after them.
- Handler.DoGet: for an unknown path, the page that `send_error(404)` writes itself is left out. Only the trailing blank line of the `end_headers()` after it is modelled.
- Handler.DoGet: the snapshot body is a parameter. It stands for what `camera.capture` put into the buffer, which is a foreign device call.
- Handler.DoGet: the stream's frames are parameters. They stand for the frames the client received in full before a write raised, plus the frame whose part was being written and how many of its bytes got through. The `Condition.wait()` that picks each frame is left out.
- Handler.DoGet: the `Age` header is sent with the integer 0, and `send_header` formats it with `str()`. The model writes the string "0" directly.
- Handler.DoGet: only requests that complete normally are modelled. A raise that happens during the snapshot's capture or write (camserver.py:96-100) skips `if not is_streaming: led.off()` (camserver.py:102-104), and the LED stays on. In the indicator model this is a `SnapshotBegin` with no matching `SnapshotEnd`, which `Indicator.LedInvariant` counts as a still-open snapshot.
- Handler.DoGet: a raise while the stream headers are sent or flushed (camserver.py:112-119) comes before the `try` at camserver.py:120. The `finally` (camserver.py:135-138) then never runs, and `is_streaming` and the LED both stay on. In the indicator model this is a `StreamStart` with no matching `StreamEnd`. Neither raise path is modelled.
- Indicator.LedInvariant: holds only when each event runs atomically. Under the real threads, a snapshot can read `is_streaming` as false at camserver.py:102. A stream can then start at camserver.py:108-110. The snapshot then turns the LED off at camserver.py:104 while the flag is set, which breaks the invariant's first clause. The same holds for `Indicator.StreamingMeansLedOn`.
- FrameSplitter.StreamingOutput.Write: the `Condition` and its `notify_all()` are left out (camserver.py:57, 64-66). They only wake readers, and their point is concurrency, including the missed wake-ups of the stream loop's wait.
- Buffer.BytesIO.Seek: only an absolute, non-negative offset is modelled. Relative `whence` values and a negative offset are not, and the splitter uses neither.
- The thread-per-client server (`ThreadingMixIn`, camserver.py:144-146) is left out, and with it any interleaving finer than the indicator events.
- Camera start-up, rotation, recording and `wait_recording` (camserver.py:96-98, 149-166) are left out: they are foreign device calls.
- Logging is left out, along with the exception message and the `KeyboardInterrupt` handling. None of them affect the bytes sent or the indicator state.
- The configuration constants and the resolution string (camserver.py:20-32) are fixed values, not logic.
- camserver2.py is not part of this model. Its capture function is camera and image-library calls. Its router has a single route, and its part layout is the one modelled here.
- scratch.py is not part of this model. It only toggles the LED with sleeps.
- The HTTP/0.9 case, in which `http.server` writes no headers, is not modelled. Every response is assumed to come from a request of HTTP/1.0 or later.
