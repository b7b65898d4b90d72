/**
 * The LED indicator logic of `do_GET` (camserver.py:90, 102-104, 108-110,
 * 135-138): the module-level flag `is_streaming` and the LED, driven by
 * stream start, stream end, and a snapshot request. A snapshot turns the
 * LED on when it starts and, once the image is written, turns it off again
 * unless a stream is flagged; so it is two events here, and other requests'
 * events may come between them.
 *
 * There is no count of open streams: the end of any stream clears the flag
 * and turns the LED off.
 */
module Indicator {

  datatype State = State(isStreaming: bool, ledOn: bool)

  datatype Event = StreamStart | StreamEnd | SnapshotBegin | SnapshotEnd

  /** `is_streaming = False` and `led.off()` at import. */
  const Initial: State := State(false, false)

  function Next(s: State, e: Event): State
  {
    match e
    case StreamStart => State(true, true)
    case StreamEnd => State(false, false)
    case SnapshotBegin => State(s.isStreaming, true)
    case SnapshotEnd => if s.isStreaming then s else State(false, false)
  }

  /** The state after the events es, applied one at a time from s. */
  function Run(s: State, es: seq<Event>): State
  {
    if es == [] then s else Next(Run(s, es[..|es| - 1]), es[|es| - 1])
  }

  /** Snapshots begun minus snapshots finished. */
  function OpenSnapshots(es: seq<Event>): int
  {
    if es == [] then 0
    else
      var change := match es[|es| - 1] case SnapshotBegin => 1 case SnapshotEnd => -1 case _ => 0;
      OpenSnapshots(es[..|es| - 1]) + change
  }

  /** Streams begun minus streams ended. */
  function OpenStreams(es: seq<Event>): int
  {
    if es == [] then 0
    else
      var change := match es[|es| - 1] case StreamStart => 1 case StreamEnd => -1 case _ => 0;
      OpenStreams(es[..|es| - 1]) + change
  }

  /** Every snapshot that finishes has begun before. */
  ghost predicate SnapshotsNested(es: seq<Event>)
  {
    forall i :: 0 <= i <= |es| ==> OpenSnapshots(es[..i]) >= 0
  }

  /** A whole snapshot leaves the flag alone and the LED on exactly if a stream is flagged. */
  lemma SnapshotLeavesLedIffStreaming(s: State)
    ensures Next(Next(s, SnapshotBegin), SnapshotEnd).isStreaming == s.isStreaming
    ensures Next(Next(s, SnapshotBegin), SnapshotEnd).ledOn == s.isStreaming
  {
  }

  /** From the initial state, under any events at all, a flagged stream means the LED is on. */
  lemma {:induction false} StreamingMeansLedOn(es: seq<Event>)
    ensures Run(Initial, es).isStreaming ==> Run(Initial, es).ledOn
  {
    if es != [] {
      StreamingMeansLedOn(es[..|es| - 1]);
    }
  }

  /**
   * From the initial state, under any events in which no snapshot ends before
   * it began (as every run of `do_GET` has it): a flagged stream means the
   * LED is on, and an LED that is on without a flagged stream means some
   * snapshot is still open.
   */
  lemma {:induction false} LedInvariant(es: seq<Event>)
    requires SnapshotsNested(es)
    ensures Run(Initial, es).isStreaming ==> Run(Initial, es).ledOn
    ensures Run(Initial, es).ledOn && !Run(Initial, es).isStreaming ==> OpenSnapshots(es) > 0
  {
    if es != [] {
      var es' := es[..|es| - 1];
      assert SnapshotsNested(es') by {
        forall i | 0 <= i <= |es'| ensures OpenSnapshots(es'[..i]) >= 0 {
          assert es'[..i] == es[..i];
        }
      }
      assert es[..|es'|] == es';
      LedInvariant(es');
    }
  }

  /**
   * Whatever came before, a stream end returns flag and LED to their initial
   * state, even when more streams were started than ended.
   */
  lemma StreamEndForcesLedOff(s: State, es: seq<Event>)
    ensures Run(s, es + [StreamEnd]) == Initial
    ensures OpenStreams(es + [StreamEnd]) == OpenStreams(es) - 1
  {
    assert (es + [StreamEnd])[..|es|] == es;
  }

  /**
   * The flag is not a count: with two streams started and one ended, a
   * stream is still open, yet the LED is off.
   */
  lemma StreamEndIgnoresOtherStreams()
    ensures OpenStreams([StreamStart, StreamStart, StreamEnd]) == 1
    ensures !Run(Initial, [StreamStart, StreamStart, StreamEnd]).ledOn
  {
    var one, two, es := [StreamStart], [StreamStart, StreamStart], [StreamStart, StreamStart, StreamEnd];
    assert one[..0] == [] && two[..1] == one && es[..2] == two;
    assert OpenStreams(one) == 1 && Run(Initial, one).isStreaming;
    assert OpenStreams(two) == 2;
  }

  /**
   * Two overlapping snapshots: the first to finish turns the LED off while
   * the second is still capturing.
   */
  lemma SnapshotEndIgnoresOtherSnapshots()
    ensures OpenSnapshots([SnapshotBegin, SnapshotBegin, SnapshotEnd]) == 1
    ensures !Run(Initial, [SnapshotBegin, SnapshotBegin, SnapshotEnd]).ledOn
  {
    var one, two, es := [SnapshotBegin], [SnapshotBegin, SnapshotBegin], [SnapshotBegin, SnapshotBegin, SnapshotEnd];
    assert one[..0] == [] && two[..1] == one && es[..2] == two;
    assert OpenSnapshots(one) == 1 && !Run(Initial, one).isStreaming;
    assert OpenSnapshots(two) == 2 && !Run(Initial, two).isStreaming;
  }

  /** The module-level globals `is_streaming` and the LED. */
  class Globals {
    var isStreaming: bool
    var ledOn: bool

    function Current(): State
      reads this
    {
      State(isStreaming, ledOn)
    }

    constructor ()
      ensures Current() == Initial
    {
      isStreaming, ledOn := false, false;
    }

    /** `is_streaming = True; led.on()`. */
    method StreamStart()
      modifies this
      ensures Current() == Next(old(Current()), Event.StreamStart)
      ensures isStreaming && ledOn
    {
      isStreaming := true;
      ledOn := true;
    }

    /** The `finally` of the stream loop: `is_streaming = False; led.off()`, whatever else is open. */
    method StreamEnd()
      modifies this
      ensures Current() == Next(old(Current()), Event.StreamEnd)
      ensures !isStreaming && !ledOn
    {
      isStreaming := false;
      ledOn := false;
    }

    /** `led.on()` at the start of a snapshot. */
    method SnapshotBegin()
      modifies this
      ensures Current() == Next(old(Current()), Event.SnapshotBegin)
      ensures isStreaming == old(isStreaming) && ledOn
    {
      ledOn := true;
    }

    /** `if not is_streaming: led.off()` after the snapshot is written. */
    method SnapshotEnd()
      modifies this
      ensures Current() == Next(old(Current()), Event.SnapshotEnd)
      ensures isStreaming == old(isStreaming)
      ensures ledOn == (old(ledOn) && old(isStreaming))
    {
      if !isStreaming {
        ledOn := false;
      }
    }
  }
}
