/** What every frame and packet handed out is made of, over any run of feeds and gaps. */
module ParserSound {
  import opened Markers
  import opened ParserModel
  import opened ParserProofs

  // ---------------------------------------------------------------- packets

  predicate AudioHeaderAt(h: seq<Byte>, at: nat) {
    && at + AUDIO_BYTES <= |h| && PrefixAt(h, at) && h[at + 3] == AUDIO_TYPE
    && LengthAt(h, at + 4) <= AUDIO_MAX_PACKET_BYTES
  }

  /** [start, end) is the payload that the header just before `start` declares. */
  predicate Payload(h: seq<Byte>, start: nat, end: nat) {
    start >= AUDIO_BYTES && AudioHeaderAt(h, start - AUDIO_BYTES) && end == start + LengthAt(h, start - 4)
  }

  /** Every packet handed out is exactly the declared payload of the header recognised just before
      it; so is the payload still arriving. */
  ghost predicate PacketsExact(h: seq<Byte>, p: Parser) {
    && (forall i | 0 <= i < |p.log| && p.log[i].Packet? ::
          && p.log[i].end <= |h|
          && Payload(h, p.log[i].start, p.log[i].end)
          && i > 0 && p.log[i - 1] == AudioHeader(p.log[i].start - AUDIO_BYTES))
    && (p.mode.Audio? ==>
          && Payload(h, p.mode.start, p.pos)
          && |p.log| > 0 && p.log[|p.log| - 1] == AudioHeader(p.mode.start - AUDIO_BYTES))
  }

  // ---------------------------------------------------------------- frames

  /** [start, end) lies between a valid SAV and a valid EAV. */
  predicate Span(h: seq<Byte>, start: nat, end: nat) {
    SAV_BYTES <= start <= end && SavAt(h, start - SAV_BYTES) && EavAt(h, end)
  }

  /** Every frame handed out is the span after the valid SAV recognised just before it, up to a valid
      EAV, and has a frame's size. Nothing was recognised in between: no gap, no audio packet, no
      other SAV. */
  ghost predicate FramesExact(h: seq<Byte>, p: Parser) {
    && (forall i | 0 <= i < |p.log| && p.log[i].Frame? ::
          && Span(h, p.log[i].start, p.log[i].end)
          && FrameSized(p.log[i].end - p.log[i].start)
          && i > 0 && p.log[i - 1] == Sav(p.log[i].start - SAV_BYTES))
    && (p.mode.Video? ==>
          && p.mode.start >= SAV_BYTES && SavAt(h, p.mode.start - SAV_BYTES)
          && |p.log| > 0 && p.log[|p.log| - 1] == Sav(p.mode.start - SAV_BYTES))
  }

  /** What a step of the scan that recognises something adds to the log, and why. */
  predicate Justified(h: seq<Byte>, p: Parser, e: Event, p': Parser) {
    match e
    case Sav(at) => SavAt(h, at) && p'.mode == Video(at + SAV_BYTES)
    case AudioHeader(at) =>
      && p'.mode == Audio(at + AUDIO_BYTES)
      && Payload(h, at + AUDIO_BYTES, p'.pos)
    case Frame(start, end) =>
      p.mode == Video(start) && end == p.pos && EavAt(h, end) && FrameSized(end - start) && p'.mode == Idle
    case Packet(start, end) => p.mode == Audio(start) && end == p.pos <= |h| && p'.mode == Idle
    case _ => p'.mode == Idle
  }

  lemma StepJustified(h: seq<Byte>, p: Parser)
    requires CodeStep(h, p).Some?
    ensures var p' := CodeStep(h, p).value;
      || (p'.log == p.log && p'.mode == p.mode && !p.mode.Audio?)
      || (p'.log != [] && p'.log == p.log + [p'.log[|p'.log| - 1]]
          && Justified(h, p, p'.log[|p'.log| - 1], p'))
  {
    var p' := CodeStep(h, p).value;
    if p'.log != p.log {
      assert p'.log[|p.log|..] == [p'.log[|p'.log| - 1]];
    }
  }

  lemma StepKeepsPackets(h: seq<Byte>, p: Parser)
    requires PacketsExact(h, p) && CodeStep(h, p).Some?
    ensures PacketsExact(h, CodeStep(h, p).value)
  {
    StepJustified(h, p);
    hide CodeStep, Payload;
  }

  lemma StepKeepsFrames(h: seq<Byte>, p: Parser)
    requires ParserInv(h, p) && FramesExact(h, p) && CodeStep(h, p).Some?
    ensures FramesExact(h, CodeStep(h, p).value)
  {
    StepJustified(h, p);
    hide CodeStep, SavAt, EavAt, Payload;
  }

  lemma {:induction false} RunKeeps(h: seq<Byte>, p: Parser)
    requires ParserInv(h, p) && PacketsExact(h, p)
    ensures PacketsExact(h, RunCode(h, p))
    ensures FramesExact(h, p) ==> FramesExact(h, RunCode(h, p))
    decreases if p.pos <= |h| then |h| - p.pos + 1 else 0, if p.mode.Audio? then 1 else 0
  {
    if CodeStep(h, p).Some? {
      StepInv(h, p);
      StepKeepsPackets(h, p);
      if FramesExact(h, p) {
        StepKeepsFrames(h, p);
      }
      RunKeeps(h, CodeStep(h, p).value);
    }
  }

  lemma MoreInput(h: seq<Byte>, x: seq<Byte>, p: Parser)
    ensures PacketsExact(h, p) ==> PacketsExact(h + x, p)
    ensures FramesExact(h, p) ==> FramesExact(h + x, p)
  {
    var h' := h + x;
    forall a: nat | SavAt(h, a) ensures SavAt(h', a) {}
    forall a: nat | EavAt(h, a) ensures EavAt(h', a) {}
    forall a: nat, e: nat | Payload(h, a, e) ensures Payload(h', a, e) {}
  }

  // ---------------------------------------------------------------- runs of feeds and gaps

  datatype Feeding = Feeding(chunk: seq<Byte>, gapped: bool)

  function Run(m: Builder, feeds: seq<Feeding>): Builder
    decreases |feeds|
  {
    if feeds == [] then m else Run(Feed(m, feeds[0].chunk, feeds[0].gapped), feeds[1..])
  }

  /** Each feed of the run ends in a clean cut. */
  predicate CleanRun(m: Builder, feeds: seq<Feeding>)
    decreases |feeds|
  {
    feeds == []
    || (var m0 := if feeds[0].gapped then Reset(m) else m;
        && (feeds[0].chunk == [] || CleanCut(m0, feeds[0].chunk))
        && CleanRun(Feed(m, feeds[0].chunk, feeds[0].gapped), feeds[1..]))
  }

  lemma FinishKeeps(h: seq<Byte>, work: nat, p: Parser)
    requires ParserInv(h, p) && PacketsExact(h, p) && work <= |h|
    ensures PacketsExact(h, Finish(h, work, p))
    ensures FramesExact(h, p)
            && (p.mode.Audio? || p.pos + 4 <= |h| || TailCarry(h[work..]) <= |h| - p.pos)
            ==> FramesExact(h, Finish(h, work, p))
  {
    hide Payload, SavAt, EavAt, TailCarry;
  }

  lemma FeedStepKeeps(m: Builder, chunk: seq<Byte>)
    requires Valid(m) && PacketsExact(m.h, m.p)
    ensures var m' := FeedStep(m, chunk);
      && Valid(m') && PacketsExact(m'.h, m'.p)
      && (FramesExact(m.h, m.p) && (chunk == [] || CleanCut(m, chunk)) ==> FramesExact(m'.h, m'.p))
  {
    FeedStepValid(m, chunk);
    if chunk != [] {
      var h := m.h + chunk;
      assert ParserInv(h, m.p);
      MoreInput(m.h, chunk, m.p);
      RunInv(h, m.p);
      RunKeeps(h, m.p);
      FinishKeeps(h, WorkStart(m), RunCode(h, m.p));
      hide RunCode, Finish, PacketsExact, FramesExact;
    }
  }

  lemma FeedKeeps(m: Builder, f: Feeding)
    requires Valid(m) && PacketsExact(m.h, m.p)
    ensures var m' := Feed(m, f.chunk, f.gapped);
      && Valid(m') && PacketsExact(m'.h, m'.p)
      && (FramesExact(m.h, m.p) && CleanRun(m, [f]) ==> FramesExact(m'.h, m'.p))
  {
    hide CleanCut, Payload, SavAt, EavAt;
    if f.gapped {
      ResetValid(m);
      FeedStepKeeps(Reset(m), f.chunk);
    } else {
      FeedStepKeeps(m, f.chunk);
    }
  }

  /** Main result: after any run from a fresh builder, however cut and however often gapped, every
      packet is exactly a declared payload; and if all cuts are clean, every frame is exactly the span
      between a valid SAV and the EAV that ends it. */
  lemma {:induction false} EmissionSound(m: Builder, feeds: seq<Feeding>)
    requires Valid(m) && PacketsExact(m.h, m.p)
    ensures var m' := Run(m, feeds);
      && Valid(m') && PacketsExact(m'.h, m'.p)
      && (FramesExact(m.h, m.p) && CleanRun(m, feeds) ==> FramesExact(m'.h, m'.p))
    decreases |feeds|
  {
    if feeds != [] {
      FeedKeeps(m, feeds[0]);
      assert CleanRun(m, feeds) ==> CleanRun(m, [feeds[0]]) by {
        assert [feeds[0]][1..] == [];
      }
      EmissionSound(Feed(m, feeds[0].chunk, feeds[0].gapped), feeds[1..]);
    }
  }

  /** So from a new builder on. */
  lemma EmissionSoundFromFresh(feeds: seq<Feeding>)
    ensures var m := Run(Fresh(), feeds);
      PacketsExact(m.h, m.p) && (CleanRun(Fresh(), feeds) ==> FramesExact(m.h, m.p))
  {
    FreshValid();
    assert PacketsExact(Fresh().h, Fresh().p) && FramesExact(Fresh().h, Fresh().p);
    EmissionSound(Fresh(), feeds);
  }

  // ---------------------------------------------------------------- gaps

  function Begins(e: Event): nat {
    match e
    case Sav(at) => at
    case AudioHeader(at) => at
    case BadEav(at) => at
    case Gap(at) => at
    case Partial(start, _) => start
    case Frame(start, _) => start
    case Packet(start, _) => start
  }

  /** Nothing from before `floor` is used by event number `k` or any later one, past or future. */
  ghost predicate Above(p: Parser, floor: nat, k: nat) {
    && floor <= p.pos
    && (p.mode.Video? ==> floor <= p.mode.start)
    && (p.mode.Audio? ==> floor <= p.mode.start)
    && k <= |p.log|
    && forall i | k <= i < |p.log| :: floor <= Begins(p.log[i])
  }

  lemma {:induction false} RunStaysAbove(h: seq<Byte>, p: Parser, floor: nat, k: nat)
    requires Above(p, floor, k)
    ensures Above(RunCode(h, p), floor, k)
    decreases if p.pos <= |h| then |h| - p.pos + 1 else 0, if p.mode.Audio? then 1 else 0
  {
    if CodeStep(h, p).Some? {
      RunStaysAbove(h, CodeStep(h, p).value, floor, k);
    }
  }

  /** A feed, clean or not, gapped or not, never reaches back below the floor. */
  lemma FeedStaysAbove(m: Builder, chunk: seq<Byte>, gapped: bool, floor: nat, k: nat)
    requires floor <= |m.h| && Above(m.p, floor, k)
    ensures Above(Feed(m, chunk, gapped).p, floor, k)
  {
    var m0 := if gapped then Reset(m) else m;
    if chunk != [] {
      RunStaysAbove(m0.h + chunk, m0.p, floor, k);
    }
  }

  /** After a gap everything recognised lies in the bytes fed from the gap on. */
  lemma GapIsolates(m: Builder, chunk: seq<Byte>)
    ensures Above(Feed(m, chunk, true).p, |m.h|, |m.p.log|)
  {
    FeedStaysAbove(Reset(m), chunk, false, |m.h|, |m.p.log|);
  }
}
