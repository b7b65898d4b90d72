/**
 * The part of Python's `io.BytesIO` that the frame splitter uses: a growable
 * byte buffer with a stream position, where `write` overwrites from the
 * position on (extending the buffer when it runs past the end), `truncate()`
 * cuts the buffer at the position, `seek` moves the position and `getvalue`
 * returns the whole buffer whatever the position.
 */
module Buffer {
  import opened Bytes

  /**
   * The buffer contents after `write(b)` at position pos. A non-empty write
   * past the end first pads with NUL bytes up to pos; an empty write leaves
   * the buffer as it was.
   */
  function Overwrite(data: Bytes, pos: nat, b: Bytes): (r: Bytes)
    ensures b == [] ==> r == data
    ensures b != [] ==> |r| == if pos + |b| > |data| then pos + |b| else |data|
    ensures b != [] ==> forall i :: 0 <= i < |r| ==>
      r[i] == if pos <= i < pos + |b| then b[i - pos] else if i < |data| then data[i] else 0
  {
    if b == [] then data
    else
      var padded := if pos <= |data| then data else data + seq(pos - |data|, _ => 0);
      padded[..pos] + b + (if pos + |b| < |padded| then padded[pos + |b|..] else [])
  }

  /** Writing at a position inside the buffer leaves the bytes before it and lays b right after them. */
  lemma OverwritePrefix(data: Bytes, pos: nat, b: Bytes)
    requires pos <= |data|
    ensures pos + |b| <= |Overwrite(data, pos, b)|
    ensures Overwrite(data, pos, b)[..pos + |b|] == data[..pos] + b
  {
    var r := Overwrite(data, pos, b);
    assert forall i :: 0 <= i < pos + |b| ==> r[i] == (data[..pos] + b)[i];
  }

  class BytesIO {
    var data: Bytes
    var pos: nat

    /** `io.BytesIO()`: empty, positioned at 0. */
    constructor ()
      ensures data == [] && pos == 0
    {
      data, pos := [], 0;
    }

    /** `write(b)`: returns the number of bytes written and advances the position past them. */
    method Write(b: Bytes) returns (n: nat)
      modifies this
      ensures data == Overwrite(old(data), old(pos), b)
      ensures pos == old(pos) + |b|
      ensures n == |b|
    {
      data := Overwrite(data, pos, b);
      pos := pos + |b|;
      n := |b|;
    }

    /** `truncate()`: cuts the buffer at the position (never lengthens it); the position stays. */
    method Truncate() returns (size: nat)
      modifies this
      ensures data == if old(pos) < |old(data)| then old(data)[..old(pos)] else old(data)
      ensures pos == old(pos) && size == pos
    {
      if pos < |data| {
        data := data[..pos];
      }
      size := pos;
    }

    /** `seek(offset)` from the start; a negative offset is not expressible here. */
    method Seek(offset: nat) returns (newPos: nat)
      modifies this
      ensures pos == offset && newPos == offset
      ensures data == old(data)
    {
      pos := offset;
      newPos := offset;
    }

    /** `getvalue()`: every byte of the buffer, independent of the position. */
    method GetValue() returns (v: Bytes)
      ensures v == data
    {
      v := data;
    }
  }
}
