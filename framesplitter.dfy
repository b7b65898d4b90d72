/**
 * The JPEG frame splitter `StreamingOutput` (camserver.py:53-68). The camera
 * hands it encoded chunks; a chunk that opens with the JPEG start-of-image
 * marker SOI (bytes FF D8, ITU-T T.81 Annex B.1.1.3) ends the frame being
 * accumulated and publishes it as `frame`.
 *
 * The reference behaviour is stated over the history of written chunks:
 * `Published(w)` and `Pending(w)`. The class keeps that history as a ghost
 * field and its invariant ties `frame` and the buffer bytes before the
 * position to those two functions.
 */
module FrameSplitter {
  import opened Wrappers
  import opened Bytes
  import opened Buffer

  type Chunk = Bytes

  /** `buf.startswith(b"\xff\xd8")`: only the first two bytes are looked at. */
  predicate StartsWithSoi(c: Chunk)
  {
    |c| >= 2 && c[0] == 0xFF && c[1] == 0xD8
  }

  /** The index of the last chunk of w that starts with SOI, if any. */
  function LastSoi(w: seq<Chunk>): (r: Option<nat>)
    ensures r.Some? ==> r.value < |w| && StartsWithSoi(w[r.value])
    ensures r.Some? ==> forall i :: r.value < i < |w| ==> !StartsWithSoi(w[i])
    ensures r.None? <==> forall i :: 0 <= i < |w| ==> !StartsWithSoi(w[i])
  {
    if w == [] then None
    else if StartsWithSoi(w[|w| - 1]) then Some(|w| - 1)
    else LastSoi(w[..|w| - 1])
  }

  /** The bytes written since the last SOI chunk, or since construction if there was none. */
  function Pending(w: seq<Chunk>): Bytes
  {
    match LastSoi(w)
    case None => Join(w)
    case Some(k) => Join(w[k..])
  }

  /**
   * The frame published after the chunks w were written: none before the
   * first SOI chunk; afterwards the bytes that were pending when the last
   * SOI chunk arrived.
   */
  function Published(w: seq<Chunk>): Option<Bytes>
  {
    match LastSoi(w)
    case None => None
    case Some(k) => Some(Pending(w[..k]))
  }

  lemma LastSoiIs(w: seq<Chunk>, k: nat)
    requires k < |w| && StartsWithSoi(w[k])
    requires forall i :: k < i < |w| ==> !StartsWithSoi(w[i])
    ensures LastSoi(w) == Some(k)
  {
  }

  /** A chunk without SOI at offset 0 publishes nothing and extends the pending bytes by itself. */
  lemma WriteData(w: seq<Chunk>, c: Chunk)
    requires !StartsWithSoi(c)
    ensures Published(w + [c]) == Published(w)
    ensures Pending(w + [c]) == Pending(w) + c
  {
    var w' := w + [c];
    assert w'[..|w'| - 1] == w;
    match LastSoi(w)
    case None =>
      assert Join(w') == Join(w) + c;
    case Some(k) =>
      assert w'[..k] == w[..k];
      assert w'[k..] == w[k..] + [c];
      JoinAppend(w[k..], [c]);
      assert Join([c]) == Join([]) + c;
  }

  /** A chunk that starts with SOI publishes the pending bytes and becomes the only pending chunk. */
  lemma WriteSoi(w: seq<Chunk>, c: Chunk)
    requires StartsWithSoi(c)
    ensures Published(w + [c]) == Some(Pending(w))
    ensures Pending(w + [c]) == c
  {
    var w' := w + [c];
    assert w'[..|w|] == w;
    assert w'[|w|..] == [c];
    assert Join([c]) == Join([]) + c;
  }

  /** A marker anywhere but at offset 0 is ordinary data: the chunk publishes nothing. */
  lemma SoiInsideChunk(w: seq<Chunk>, c: Chunk, i: nat)
    requires 0 < i && i + 1 < |c| && c[i] == 0xFF && c[i + 1] == 0xD8
    requires !StartsWithSoi(c)
    ensures Published(w + [c]) == Published(w)
    ensures Pending(w + [c]) == Pending(w) + c
  {
    WriteData(w, c);
  }

  /** Nothing is published until some chunk starts with SOI. */
  lemma NothingBeforeSoi(w: seq<Chunk>)
    ensures Published(w) == None <==> forall i :: 0 <= i < |w| ==> !StartsWithSoi(w[i])
  {
  }

  /**
   * The first SOI chunk publishes everything written before it, which is the
   * empty frame when it is the very first chunk: pre-marker bytes are kept.
   */
  lemma {:induction false} FirstFrame(w: seq<Chunk>, k: nat)
    requires k < |w| && StartsWithSoi(w[k])
    requires forall i :: 0 <= i < |w| && i != k ==> !StartsWithSoi(w[i])
    ensures Published(w) == Some(Join(w[..k]))
  {
    LastSoiIs(w, k);
    assert LastSoi(w[..k]) == None;
  }

  /**
   * Between two SOI chunks j < k with none in between and none after, the
   * published frame is exactly the chunks j..k-1 joined: no byte written
   * before chunk j and none of an older, longer frame is part of it.
   */
  lemma {:induction false} FrameBetweenMarkers(w: seq<Chunk>, j: nat, k: nat)
    requires j < k < |w| && StartsWithSoi(w[j]) && StartsWithSoi(w[k])
    requires forall i :: j < i < |w| && i != k ==> !StartsWithSoi(w[i])
    ensures Published(w) == Some(Join(w[j..k]))
  {
    LastSoiIs(w, k);
    LastSoiIs(w[..k], j);
    assert w[..k][j..] == w[j..k];
  }

  /** Once two SOI chunks have been written, the published frame itself starts with SOI. */
  lemma {:induction false} LaterFramesStartWithSoi(w: seq<Chunk>, i: nat, k: nat)
    requires i < k < |w| && StartsWithSoi(w[i]) && StartsWithSoi(w[k])
    ensures Published(w).Some? && StartsWithSoi(Published(w).value)
  {
    var last := LastSoi(w).value;
    assert last >= k;
    assert StartsWithSoi(w[..last][i]);
    var j := LastSoi(w[..last]).value;
    var between := w[..last][j..];
    JoinFront(between);
    assert between[0] == w[j];
  }

  class StreamingOutput {
    var frame: Option<Bytes>
    var buffer: BytesIO
    /** Every chunk passed to Write so far, oldest first. */
    ghost var written: seq<Chunk>

    ghost predicate Valid()
      reads this, buffer
    {
      && buffer.pos <= |buffer.data|
      && buffer.data[..buffer.pos] == Pending(written)
      && frame == Published(written)
    }

    /** The bytes before the buffer position: the frame being accumulated. */
    function PendingBytes(): (r: Bytes)
      reads this, buffer
      requires buffer.pos <= |buffer.data|
      ensures |r| == buffer.pos
    {
      buffer.data[..buffer.pos]
    }

    /** `frame = None` and an empty buffer. */
    constructor ()
      ensures Valid() && fresh(buffer)
      ensures written == [] && frame == None && PendingBytes() == []
      ensures buffer.data == [] && buffer.pos == 0
    {
      frame := None;
      buffer := new BytesIO();
      written := [];
    }

    /**
     * `write(buf)`. On an SOI chunk the buffer is first truncated at the
     * position, so that `getvalue()` yields only the pending bytes and not a
     * stale tail from an earlier, longer frame; only then is the position
     * reset to 0 for the new chunk.
     */
    method Write(buf: Chunk) returns (n: nat)
      requires Valid()
      modifies this, buffer
      ensures Valid() && buffer == old(buffer)
      ensures written == old(written) + [buf]
      ensures n == |buf|
      ensures !StartsWithSoi(buf) ==>
        frame == old(frame) && PendingBytes() == old(PendingBytes()) + buf
      ensures StartsWithSoi(buf) ==>
        frame == Some(old(PendingBytes())) && PendingBytes() == buf
      ensures buffer.data == if StartsWithSoi(buf) then Overwrite(old(PendingBytes()), 0, buf)
                             else Overwrite(old(buffer.data), old(buffer.pos), buf)
    {
      ghost var before := PendingBytes();
      if |buf| >= 2 && buf[0] == 0xFF && buf[1] == 0xD8 {
        var _ := buffer.Truncate();
        var value := buffer.GetValue();
        assert value == before;
        frame := Some(value);
        var _ := buffer.Seek(0);
        WriteSoi(written, buf);
      } else {
        WriteData(written, buf);
      }
      ghost var data0, pos0 := buffer.data, buffer.pos;
      OverwritePrefix(data0, pos0, buf);
      n := buffer.Write(buf);
      written := written + [buf];
      assert buffer.data[..buffer.pos] == data0[..pos0] + buf;
    }
  }

  /**
   * A longer frame followed by a shorter one: when the third SOI chunk
   * arrives, the buffer still holds the tail of the first frame past the
   * position (`raw`), and the published frame is only the second frame,
   * because truncation comes before `getvalue()`.
   */
  method StaleTailScenario() returns (raw: Bytes, published: Option<Bytes>)
    ensures raw == [0xFF, 0xD8, 9, 2, 3]
    ensures published == Some([0xFF, 0xD8, 9])
  {
    var out := new StreamingOutput();
    var _ := out.Write([0xFF, 0xD8, 1, 2, 3]);
    var _ := out.Write([0xFF, 0xD8, 9]);
    raw := out.buffer.data;
    var _ := out.Write([0xFF, 0xD8]);
    published := out.frame;
  }
}
