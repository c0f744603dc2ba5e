/** Parsing does not depend on where in the stream it starts: after a gap, the outputs receive what a
    parser of the rest alone would give them. */
module ParserShift {
  import opened Markers
  import opened Sequences
  import opened ParserModel
  import opened ParserProofs

  function ShiftMode(mode: Mode, n: nat): Mode {
    match mode
    case Idle => Idle
    case Video(start) => Video(start + n)
    case Audio(start) => Audio(start + n)
  }

  function ShiftEvent(e: Event, n: nat): Event {
    match e
    case Sav(at) => Sav(at + n)
    case AudioHeader(at) => AudioHeader(at + n)
    case BadEav(at) => BadEav(at + n)
    case Partial(start, end) => Partial(start + n, end + n)
    case Frame(start, end) => Frame(start + n, end + n)
    case Packet(start, end) => Packet(start + n, end + n)
    case Gap(at) => Gap(at + n)
  }

  function ShiftLog(log: seq<Event>, n: nat): seq<Event> {
    seq(|log|, i requires 0 <= i < |log| => ShiftEvent(log[i], n))
  }

  /** `q` is where `p` is, `n` bytes later and with `before` recognised earlier. */
  ghost predicate Shifted(p: Parser, q: Parser, n: nat, before: seq<Event>) {
    q.pos == p.pos + n && q.mode == ShiftMode(p.mode, n) && q.log == before + ShiftLog(p.log, n)
  }

  lemma SameHeaders(x: seq<Byte>, h: seq<Byte>, at: nat)
    ensures PrefixAt(x + h, |x| + at) == PrefixAt(h, at)
    ensures RulesOut(x + h, |x| + at) == RulesOut(h, at)
    ensures at + 4 <= |h| ==> LengthAt(x + h, |x| + at) == LengthAt(h, at)
    ensures at + 4 <= |h| ==> SavHeaderValid(x + h, |x| + at) == SavHeaderValid(h, at)
    ensures at + 5 <= |h| ==> EavHeaderValid(x + h, |x| + at) == EavHeaderValid(h, at)
    ensures at < |h| ==> (x + h)[|x| + at] == h[at]
  {
  }

  /** One more event on both sides. */
  lemma LogShifts(log: seq<Event>, n: nat, before: seq<Event>, e: Event)
    ensures before + ShiftLog(log, n) + [ShiftEvent(e, n)] == before + ShiftLog(log + [e], n)
  {
    assert ShiftLog(log, n) + [ShiftEvent(e, n)] == ShiftLog(log + [e], n);
  }

  lemma EavShifts(x: seq<Byte>, h: seq<Byte>, p: Parser, q: Parser, before: seq<Event>)
    requires Shifted(p, q, |x|, before) && !p.mode.Audio? && p.pos + 4 <= |h| && h[p.pos + 3] == EAV_TYPE
    ensures MarkerStep(h, p).Some? == MarkerStep(x + h, q).Some?
    ensures MarkerStep(h, p).Some? ==> Shifted(MarkerStep(h, p).value, MarkerStep(x + h, q).value, |x|, before)
  {
    SameHeaders(x, h, p.pos + 3);
    SameHeaders(x, h, p.pos + 4);
    hide SavHeaderValid, EavHeaderValid, LengthAt, ShiftLog;
    LogShifts(p.log, |x|, before, BadEav(p.pos));
    if p.mode.Video? {
      LogShifts(p.log, |x|, before, Frame(p.mode.start, p.pos));
      LogShifts(p.log, |x|, before, Partial(p.mode.start, p.pos));
    }
  }

  lemma AudioShifts(x: seq<Byte>, h: seq<Byte>, p: Parser, q: Parser, before: seq<Event>)
    requires Shifted(p, q, |x|, before) && !p.mode.Audio? && p.pos + 4 <= |h| && h[p.pos + 3] == AUDIO_TYPE
    ensures MarkerStep(h, p).Some? == MarkerStep(x + h, q).Some?
    ensures MarkerStep(h, p).Some? ==> Shifted(MarkerStep(h, p).value, MarkerStep(x + h, q).value, |x|, before)
  {
    SameHeaders(x, h, p.pos + 3);
    SameHeaders(x, h, p.pos + 4);
    hide SavHeaderValid, EavHeaderValid, LengthAt, ShiftLog;
    LogShifts(p.log, |x|, before, AudioHeader(p.pos));
  }

  lemma MarkerShifts(x: seq<Byte>, h: seq<Byte>, p: Parser, q: Parser, before: seq<Event>)
    requires Shifted(p, q, |x|, before) && !p.mode.Audio? && p.pos + 4 <= |h|
    ensures MarkerStep(h, p).Some? == MarkerStep(x + h, q).Some?
    ensures MarkerStep(h, p).Some? ==> Shifted(MarkerStep(h, p).value, MarkerStep(x + h, q).value, |x|, before)
  {
    SameHeaders(x, h, p.pos + 3);
    if h[p.pos + 3] == SAV_TYPE {
    } else if h[p.pos + 3] == EAV_TYPE {
      EavShifts(x, h, p, q, before);
    } else if h[p.pos + 3] == AUDIO_TYPE {
      AudioShifts(x, h, p, q, before);
    }
  }

  lemma StepShifts(x: seq<Byte>, h: seq<Byte>, p: Parser, q: Parser, before: seq<Event>)
    requires Shifted(p, q, |x|, before)
    ensures ParseStep(h, p).Some? == ParseStep(x + h, q).Some?
    ensures ParseStep(h, p).Some? ==> Shifted(ParseStep(h, p).value, ParseStep(x + h, q).value, |x|, before)
  {
    SameHeaders(x, h, p.pos);
    hide RulesOut, MarkerStep, ShiftLog;
    if p.mode.Audio? {
      LogShifts(p.log, |x|, before, Packet(p.mode.start, p.pos));
    } else if p.pos + 4 <= |h| {
      MarkerShifts(x, h, p, q, before);
    }
  }

  lemma {:induction false} ParseShifts(x: seq<Byte>, h: seq<Byte>, p: Parser, q: Parser, before: seq<Event>)
    requires Shifted(p, q, |x|, before)
    ensures Shifted(Parse(h, p), Parse(x + h, q), |x|, before)
    decreases if p.pos <= |h| then |h| - p.pos + 1 else 0, if p.mode.Audio? then 1 else 0
  {
    StepShifts(x, h, p, q, before);
    hide Shifted;
    if ParseStep(h, p).Some? {
      ParseShifts(x, h, ParseStep(h, p).value, ParseStep(x + h, q).value, before);
    }
  }

  lemma SliceShifts(x: seq<Byte>, h: seq<Byte>, start: nat, end: nat)
    ensures Slice(x + h, start + |x|, end + |x|) == Slice(h, start, end)
  {
  }

  lemma OutputShifts(x: seq<Byte>, h: seq<Byte>, e: Event)
    ensures OutputOf(x + h, ShiftEvent(e, |x|)) == OutputOf(h, e)
  {
    hide Slice;
    match e
    case Frame(s, t) => SliceShifts(x, h, s, Min(t, s + VIDEO_FRAME_BYTES));
    case Packet(s, t) => SliceShifts(x, h, s, t);
    case _ =>
  }

  lemma {:induction false} OutputsShift(x: seq<Byte>, h: seq<Byte>, log: seq<Event>)
    ensures Outputs(x + h, ShiftLog(log, |x|)) == Outputs(h, log)
    decreases |log|
  {
    hide OutputOf;
    if log != [] {
      var front, last := log[..|log| - 1], log[|log| - 1];
      OutputsShift(x, h, front);
      OutputShifts(x, h, last);
      assert ShiftLog(log, |x|)[..|log| - 1] == ShiftLog(front, |x|);
    }
  }

  // ---------------------------------------------------------------- what a stretch of feeds shows

  /** The builder after its first, flagged call would have nothing in it. */
  const Restarted: Builder := Reset(Fresh())

  /** What the outputs should receive for a stream that starts after a gap. */
  function Shown(stream: seq<Byte>): seq<Output> {
    Outputs(stream, Parse(stream, Restarted.p).log)
  }

  /** What the outputs received between two states. */
  function ReceivedSince(m: Builder, m': Builder): seq<Output> {
    if |m.p.log| <= |m'.p.log| then Outputs(m'.h, m'.p.log[|m.p.log|..]) else []
  }

  /** Main result: after a gap, from any state, a stream fed in clean pieces gives the outputs exactly
      what parsing it alone gives, wherever in the input it lies. */
  lemma GapStartsAfresh(m: Builder, chunks: seq<seq<Byte>>)
    requires CleanCuts(Reset(m), chunks)
    ensures var m' := FeedAll(Reset(m), chunks);
      && m'.h == m.h + Concat(chunks) && m.p.log <= m'.p.log
      && ReceivedSince(m, m') == Shown(Concat(chunks))
  {
    hide Parse, Outputs, ShiftLog;
    var stream := Concat(chunks);
    ResetValid(m);
    SplitIndependence(Reset(m), chunks);
    RestartedShifts(m);
    ParseShifts(m.h, stream, Restarted.p, Reset(m).p, m.p.log);
    var log := Parse(stream, Restarted.p).log;
    OutputsShift(m.h, stream, log);
    assert (m.p.log + ShiftLog(log, |m.h|))[|m.p.log|..] == ShiftLog(log, |m.h|);
  }

  lemma RestartedShifts(m: Builder)
    ensures Shifted(Restarted.p, Reset(m).p, |m.h|, m.p.log)
  {
    assert ShiftLog([Gap(0)], |m.h|) == [Gap(|m.h|)];
  }
}
