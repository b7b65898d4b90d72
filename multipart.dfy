/**
 * The byte layout of one part of the `multipart/x-mixed-replace` stream
 * (camserver.py:125-130), with the header helpers of `http.server` it goes
 * through, and a strict decoder that splits a stream of parts back into its
 * frames by the boundary and the Content-Length.
 */
module Multipart {
  import opened Wrappers
  import opened Bytes

  const Crlf: Bytes := [13, 10]

  /** `send_header(name, value)`: the line "name: value\r\n", Latin-1 encoded. */
  function HeaderLine(name: string, value: string): Bytes
  {
    Latin1(name) + Latin1(": ") + Latin1(value) + Crlf
  }

  /** `end_headers()`: the blank line that closes a header block. */
  const EndHeaders: Bytes := Crlf

  /** The boundary line written before every part. */
  const Boundary: Bytes := Latin1("--FRAME\r\n")

  /** Everything in a part that comes before the Content-Length digits. */
  const PartPrefix: Bytes := Boundary + HeaderLine("Content-Type", "image/jpeg") + Latin1("Content-Length: ")

  /** One part: boundary, the two part headers, a blank line, the frame, and a line break. */
  function Part(frame: Bytes): Bytes
  {
    Boundary
      + HeaderLine("Content-Type", "image/jpeg")
      + HeaderLine("Content-Length", DecimalString(|frame|))
      + EndHeaders
      + frame
      + Crlf
  }

  /** The parts for the frames fs, one after the other. */
  function EncodeStream(fs: seq<Bytes>): Bytes
  {
    if fs == [] then [] else Part(fs[0]) + EncodeStream(fs[1..])
  }

  /** A part laid out after the given fixed leading bytes: decimal length, blank line, frame, line break. */
  function Framed(prefix: Bytes, frame: Bytes): Bytes
  {
    prefix + DecimalBytes(|frame|) + Crlf + Crlf + frame + Crlf
  }

  /** The part is the fixed prefix, the decimal length of the frame, two line breaks, the frame and one more. */
  lemma PartLayout(frame: Bytes)
    ensures Part(frame) == Framed(PartPrefix, frame)
  {
    Latin1Append("Content-Length", ": ");
  }

  /** The length of the longest prefix of s made of ASCII digits. */
  function DigitRun(s: Bytes): (n: nat)
    ensures n <= |s|
    ensures forall i :: 0 <= i < n ==> IsDigit(s[i])
    ensures n < |s| ==> !IsDigit(s[n])
  {
    if s == [] || !IsDigit(s[0]) then 0 else 1 + DigitRun(s[1..])
  }

  lemma {:induction false} DigitRunOfDigits(d: Bytes, tail: Bytes)
    requires forall i :: 0 <= i < |d| ==> IsDigit(d[i])
    requires tail != [] && !IsDigit(tail[0])
    ensures DigitRun(d + tail) == |d|
  {
    if d != [] {
      assert (d + tail)[1..] == d[1..] + tail;
      DigitRunOfDigits(d[1..], tail);
    } else {
      assert d + tail == tail;
    }
  }

  lemma FramedAssembly(prefix: Bytes, digits: Bytes, frame: Bytes, rest: Bytes)
    requires digits == DecimalBytes(|frame|)
    ensures prefix + (digits + (Crlf + Crlf + frame + Crlf + rest)) == Framed(prefix, frame) + rest
  {
  }

  /** Reads a canonical decimal number from the front of t: its value and the bytes after its digits. */
  function ParseLength(t: Bytes): Option<(nat, Bytes)>
  {
    var d := DigitRun(t);
    if IsCanonicalDecimal(t[..d]) then Some((DecimalValue(t[..d]), t[d..])) else None
  }

  lemma ParseLengthSound(t: Bytes)
    requires ParseLength(t).Some?
    ensures t == DecimalBytes(ParseLength(t).value.0) + ParseLength(t).value.1
  {
    var d := DigitRun(t);
    DecimalCanonical(t[..d]);
    assert t == t[..d] + t[d..];
  }

  lemma ParseLengthComplete(n: nat, tail: Bytes)
    requires tail != [] && !IsDigit(tail[0])
    ensures ParseLength(DecimalBytes(n) + tail) == Some((n, tail))
  {
    var d := DecimalBytes(n);
    DecimalRoundTrip(n);
    DigitRunOfDigits(d, tail);
    assert (d + tail)[..|d|] == d && (d + tail)[|d|..] == tail;
  }

  /** What follows the length: a blank line, len bytes of frame and a line break; returns the frame and the rest. */
  function ParseBody(len: nat, u: Bytes): Option<(Bytes, Bytes)>
  {
    if |u| < len + 6 || u[..4] != Crlf + Crlf || u[len + 4..len + 6] != Crlf then None
    else Some((u[4..len + 4], u[len + 6..]))
  }

  lemma ParseBodySound(len: nat, u: Bytes)
    requires ParseBody(len, u).Some?
    ensures |ParseBody(len, u).value.0| == len
    ensures u == Crlf + Crlf + ParseBody(len, u).value.0 + Crlf + ParseBody(len, u).value.1
  {
    assert u == u[..4] + u[4..len + 4] + u[len + 4..len + 6] + u[len + 6..];
  }

  lemma ParseBodyComplete(frame: Bytes, rest: Bytes)
    ensures ParseBody(|frame|, Crlf + Crlf + frame + Crlf + rest) == Some((frame, rest))
  {
    var u := Crlf + Crlf + frame + Crlf + rest;
    assert u[..4] == Crlf + Crlf;
    assert u[4..|frame| + 4] == frame;
    assert u[|frame| + 4..|frame| + 6] == Crlf;
    assert u[|frame| + 6..] == rest;
  }

  /**
   * Reads one part laid out after the given leading bytes from the front of
   * s, and returns its frame and the bytes after it. The length must be
   * canonical decimal, so that exactly what Framed produces is accepted.
   */
  function ParseFramed(prefix: Bytes, s: Bytes): Option<(Bytes, Bytes)>
  {
    if |s| < |prefix| || s[..|prefix|] != prefix then None
    else
      match ParseLength(s[|prefix|..])
      case None => None
      case Some((len, u)) => ParseBody(len, u)
  }

  /** Whatever ParseFramed accepts is one framed part followed by the remainder it returns. */
  lemma ParseFramedSound(prefix: Bytes, s: Bytes)
    requires ParseFramed(prefix, s).Some?
    ensures s == Framed(prefix, ParseFramed(prefix, s).value.0) + ParseFramed(prefix, s).value.1
  {
    var t := s[|prefix|..];
    ParseLengthSound(t);
    var (len, u) := ParseLength(t).value;
    ParseBodySound(len, u);
    var (frame, rest) := ParseBody(len, u).value;
    assert s == prefix + t;
    FramedAssembly(prefix, DecimalBytes(len), frame, rest);
  }

  /** A framed part followed by anything parses back to its own frame and that remainder. */
  lemma ParseFramedComplete(prefix: Bytes, frame: Bytes, rest: Bytes)
    ensures ParseFramed(prefix, Framed(prefix, frame) + rest) == Some((frame, rest))
  {
    var tail := Crlf + Crlf + frame + Crlf + rest;
    var s := Framed(prefix, frame) + rest;
    assert s == prefix + (DecimalBytes(|frame|) + tail);
    assert s[..|prefix|] == prefix && s[|prefix|..] == DecimalBytes(|frame|) + tail;
    ParseLengthComplete(|frame|, tail);
    ParseBodyComplete(frame, rest);
  }

  /** Reads one part from the front of s: its frame and the bytes after it. */
  function ParsePart(s: Bytes): (r: Option<(Bytes, Bytes)>)
    ensures r.Some? ==> s == Part(r.value.0) + r.value.1
  {
    var r := ParseFramed(PartPrefix, s);
    if r.Some? then
      ParseFramedSound(PartPrefix, s);
      PartLayout(r.value.0);
      r
    else r
  }

  /** A part followed by anything parses back to its own frame and that remainder. */
  lemma ParsePartOfPart(frame: Bytes, rest: Bytes)
    ensures ParsePart(Part(frame) + rest) == Some((frame, rest))
  {
    PartLayout(frame);
    ParseFramedComplete(PartPrefix, frame, rest);
  }

  /** Splits a byte stream into the frames of its parts; None unless it is a whole number of well-formed parts. */
  function DecodeStream(s: Bytes): (r: Option<seq<Bytes>>)
    ensures r.Some? ==> EncodeStream(r.value) == s
    decreases |s|
  {
    if s == [] then Some([])
    else
      match ParsePart(s)
      case None => None
      case Some((frame, rest)) =>
        assert |Part(frame)| >= |Boundary| > 0;
        match DecodeStream(rest)
        case None => None
        case Some(fs) =>
          assert ([frame] + fs)[1..] == fs;
          Some([frame] + fs)
  }

  /** Decoding the concatenated parts of F1..Fn gives back exactly F1..Fn, in order. */
  lemma {:induction false} DecodeEncode(fs: seq<Bytes>)
    ensures DecodeStream(EncodeStream(fs)) == Some(fs)
  {
    if fs != [] {
      var s := EncodeStream(fs);
      ParsePartOfPart(fs[0], EncodeStream(fs[1..]));
      assert |Part(fs[0])| >= |Boundary| > 0;
      DecodeEncode(fs[1..]);
      assert [fs[0]] + fs[1..] == fs;
    }
  }

  /** A proper prefix of a part never parses as a part: the length field fixes where a part ends. */
  lemma CutPartDoesNotParse(next: Bytes, cut: nat)
    requires cut < |Part(next)|
    ensures ParsePart(Part(next)[..cut]).None?
  {
    var p := Part(next);
    var t, tail := p[..cut], p[cut..];
    assert p == t + tail && |tail| > 0;
    ParsePartOfPart(next, []);
    assert p + [] == p;
    assert ParsePart(p) == Some((next, []));
    if ParsePart(t).Some? {
      var (f, rest) := ParsePart(t).value;
      var q := Part(f);
      ConcatAssoc(q, rest, tail);
      assert |rest + tail| > 0;
      ParsePartOfPart(f, rest + tail);
    }
  }

  /**
   * Splits off the whole parts at the front of s, for as long as they parse:
   * their frames, and the bytes from the first place no part starts.
   */
  function DecodeParts(s: Bytes): (r: (seq<Bytes>, Bytes))
    ensures EncodeStream(r.0) + r.1 == s
    decreases |s|
  {
    if s == [] then ([], [])
    else
      match ParsePart(s)
      case None => ([], s)
      case Some((frame, rest)) =>
        assert |Part(frame)| >= |Boundary| > 0;
        var (fs, tail) := DecodeParts(rest);
        assert ([frame] + fs)[1..] == fs;
        ([frame] + fs, tail)
  }

  /** One step of the greedy split: a whole part at the front is split off as its frame. */
  lemma DecodePartsOfPart(frame: Bytes, rest: Bytes)
    ensures DecodeParts(Part(frame) + rest) == ([frame] + DecodeParts(rest).0, DecodeParts(rest).1)
  {
    ParsePartOfPart(frame, rest);
    assert |Part(frame)| >= |Boundary| > 0;
  }

  lemma EncodeStreamFront(fs: seq<Bytes>, t: Bytes)
    requires fs != []
    ensures EncodeStream(fs) + t == Part(fs[0]) + (EncodeStream(fs[1..]) + t)
  {
    var head, tail := Part(fs[0]), EncodeStream(fs[1..]);
    assert EncodeStream(fs) == head + tail;
    ConcatAssoc(head, tail, t);
  }

  lemma ConcatAssoc(a: Bytes, b: Bytes, c: Bytes)
    ensures (a + b) + c == a + (b + c)
  {
  }

  /** Whole parts followed by bytes where no part starts: exactly those frames and those bytes. */
  lemma {:induction false} DecodePartsOfStuck(fs: seq<Bytes>, t: Bytes)
    requires t == [] || ParsePart(t).None?
    ensures DecodeParts(EncodeStream(fs) + t) == (fs, t)
  {
    if fs == [] {
      assert EncodeStream(fs) + t == t;
    } else {
      var rest := EncodeStream(fs[1..]) + t;
      EncodeStreamFront(fs, t);
      DecodePartsOfPart(fs[0], rest);
      DecodePartsOfStuck(fs[1..], t);
      assert [fs[0]] + fs[1..] == fs;
    }
  }

  /**
   * When the connection fails partway through a part, the whole parts before
   * it give back exactly the frames sent in full, and the cut-off part is
   * left over.
   */
  lemma DecodePartsOfCut(fs: seq<Bytes>, next: Bytes, cut: nat)
    requires cut < |Part(next)|
    ensures DecodeParts(EncodeStream(fs) + Part(next)[..cut]) == (fs, Part(next)[..cut])
  {
    CutPartDoesNotParse(next, cut);
    DecodePartsOfStuck(fs, Part(next)[..cut]);
  }

  /** Writing one more part appends its bytes to the stream written so far. */
  lemma {:induction false} EncodeStreamAppend(fs: seq<Bytes>, frame: Bytes)
    ensures EncodeStream(fs + [frame]) == EncodeStream(fs) + Part(frame)
  {
    if fs == [] {
      assert [frame][1..] == [];
    } else {
      var head, tail := Part(fs[0]), EncodeStream(fs[1..]);
      assert (fs + [frame])[1..] == fs[1..] + [frame];
      EncodeStreamAppend(fs[1..], frame);
      assert EncodeStream(fs + [frame]) == head + (tail + Part(frame));
      assert head + (tail + Part(frame)) == (head + tail) + Part(frame);
    }
  }

  /**
   * The part writes of the stream loop, for the frames the client received
   * before the connection failed: boundary, part headers, frame and line
   * break for each frame in turn.
   */
  method WriteParts(frames: seq<Bytes>) returns (out: Bytes)
    ensures out == EncodeStream(frames)
    ensures DecodeStream(out) == Some(frames)
  {
    out := [];
    var i := 0;
    while i < |frames|
      invariant 0 <= i <= |frames|
      invariant out == EncodeStream(frames[..i])
    {
      var frame := frames[i];
      var part := Boundary
        + HeaderLine("Content-Type", "image/jpeg")
        + HeaderLine("Content-Length", DecimalString(|frame|))
        + EndHeaders
        + frame
        + Crlf;
      out := out + part;
      EncodeStreamAppend(frames[..i], frame);
      assert frames[..i + 1] == frames[..i] + [frame];
      i := i + 1;
    }
    assert frames[..i] == frames;
    DecodeEncode(frames);
  }
}
