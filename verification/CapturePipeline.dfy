/** The pipeline itself: both parsers, the audio gate, silence and the no-signal card. Outputs are the
    lists of calls made to them; either may be absent. */
module CapturePipelineClass {
  import opened Markers
  import opened Sequences
  import opened PipelineModel
  import opened SinkCalls
  import opened AudioGateModel
  import opened BufferReordererClass
  import opened FrameBuilderClass
  import Reorder
  import P = ParserModel
  import Silence

  datatype VideoCall = ShowNoSignal(reason: InputState) | CapturedFrame(pixels: seq<Byte>) | CardFrame(reason: InputState)

  /** What the video output gets for the builder's callbacks. */
  function Frames(emissions: seq<Emission>): seq<VideoCall> {
    if emissions == [] then []
    else
      var last := emissions[|emissions| - 1];
      Frames(emissions[..|emissions| - 1]) + if last.VideoOut? then [CapturedFrame(last.pixels)] else []
  }

  /** The packets that reached the gate, and where its ramp stands after them. */
  datatype Gain = Gain(packets: seq<seq<Byte>>, ramp: nat)

  function GateAll(emissions: seq<Emission>, ramp: nat, target: nat): Gain {
    if emissions == [] then Gain([], ramp)
    else
      var g, last := GateAll(emissions[..|emissions| - 1], ramp, target), emissions[|emissions| - 1];
      if last.VideoOut? then g
      else Gain(g.packets + [Processed(last.pcm, g.ramp, target)],
                RampAfter(g.ramp, target, |last.pcm| / FRAME_BYTES))
  }

  /** The last call to the video output that is not a keep-alive card is the announcement of `reason`. */
  ghost predicate Announced(video: seq<VideoCall>, reason: InputState) {
    exists i :: 0 <= i < |video| && video[i] == ShowNoSignal(reason)
                && forall j | i < j < |video| :: video[j].CardFrame?
  }

  /** The next card is due; the clock's epoch stands for "none sent yet". */
  predicate CardDue(last: int, now: int, interval: int) {
    last == 0 || now - last >= interval
  }

  /** When cards go out over a run of ticks, the previous one having gone out at `last`. */
  function Cards(last: int, ticks: seq<int>, interval: int): seq<int>
    decreases |ticks|
  {
    if ticks == [] then []
    else if CardDue(last, ticks[0], interval) then [ticks[0]] + Cards(ticks[0], ticks[1..], interval)
    else Cards(last, ticks[1..], interval)
  }

  ghost predicate InOrder(from: int, ticks: seq<int>)
    decreases |ticks|
  {
    ticks != [] ==> from <= ticks[0] && InOrder(ticks[0], ticks[1..])
  }

  ghost predicate Spaced(last: int, cards: seq<int>, interval: int)
    decreases |cards|
  {
    cards != [] ==> cards[0] - last >= interval && Spaced(cards[0], cards[1..], interval)
  }

  lemma {:induction false} LaterCardsSpaced(last: int, from: int, ticks: seq<int>, interval: int)
    requires 0 < last <= from && InOrder(from, ticks)
    ensures Spaced(last, Cards(last, ticks, interval), interval)
    decreases |ticks|
  {
    if ticks != [] {
      var due := CardDue(last, ticks[0], interval);
      LaterCardsSpaced(if due then ticks[0] else last, ticks[0], ticks[1..], interval);
      if due {
        assert Cards(last, ticks, interval)[1..] == Cards(ticks[0], ticks[1..], interval);
      }
    }
  }

  /** A card sent at the epoch is sent again at once. */
  lemma CardAtEpoch(interval: nat)
    requires interval > 0
    ensures InOrder(0, [0]) && !Spaced(0, Cards(0, [0], interval), interval)
  {
    assert Cards(0, [0], interval) == [0] + Cards(0, [0][1..], interval);
  }

  /** After a card sent at `last`, every run of ticks keeps the interval between cards if and only if
      `last` was not the clock's epoch, which the code takes for "none sent yet". */
  lemma CardsSpacedIff(last: nat, interval: nat)
    requires interval > 0
    ensures (forall ticks :: InOrder(last, ticks) ==> Spaced(last, Cards(last, ticks, interval), interval))
            <==> last != 0
  {
    if last == 0 {
      CardAtEpoch(interval);
    } else {
      forall ticks | InOrder(last, ticks) ensures Spaced(last, Cards(last, ticks, interval), interval) {
        LaterCardsSpaced(last, last, ticks, interval);
      }
    }
  }

  function LastCard(last: int, cards: seq<int>): int { if cards == [] then last else cards[|cards| - 1] }

  /** Cards keep coming: after every run of ticks the last one is less than an interval old. */
  lemma {:induction false} CardsKeepComing(last: int, from: int, ticks: seq<int>, interval: nat)
    requires interval > 0 && last <= from && InOrder(from, ticks) && ticks != []
    ensures ticks[|ticks| - 1] - LastCard(last, Cards(last, ticks, interval)) < interval
    decreases |ticks|
  {
    var due := CardDue(last, ticks[0], interval);
    var last' := if due then ticks[0] else last;
    var later := Cards(last', ticks[1..], interval);
    assert Cards(last, ticks, interval) == (if due then [ticks[0]] else []) + later;
    if |ticks| > 1 {
      CardsKeepComing(last', ticks[0], ticks[1..], interval);
    } else {
      assert ticks[1..] == [];
    }
  }

  /** With none sent yet, the first tick sends one. */
  lemma FirstCardAtOnce(ticks: seq<int>, interval: nat)
    requires ticks != []
    ensures Cards(0, ticks, interval) != [] && Cards(0, ticks, interval)[0] == ticks[0]
  {
  }

  // ---------------------------------------------------------------- what the outputs are handed

  /** Every frame reaches the video output as it is, in order, and packets do not. */
  lemma {:induction false} FramesOfBoth(a: seq<Emission>, b: seq<Emission>)
    ensures Frames(a + b) == Frames(a) + Frames(b)
    decreases |b|
  {
    if b == [] {
      assert a + b == a;
    } else {
      var n := |b| - 1;
      assert (a + b)[..|a + b| - 1] == a + b[..n];
      FramesOfBoth(a, b[..n]);
    }
  }

  lemma FramesOfOne(e: Emission)
    ensures Frames([e]) == if e.VideoOut? then [CapturedFrame(e.pixels)] else []
  {
    assert [e][..0] == [];
  }

  function Packets(emissions: seq<Emission>): seq<seq<Byte>> {
    if emissions == [] then []
    else
      var last := emissions[|emissions| - 1];
      Packets(emissions[..|emissions| - 1]) + if last.AudioOut? then [last.pcm] else []
  }

  /** What the audio output was handed, and where the ramp stands, is the gating of this sound. */
  ghost predicate GatesSound(g: Gain, sound: seq<Byte>, ramp: nat, open: bool) {
    && |sound| % FRAME_BYTES == 0
    && Concat(g.packets) == Processed(sound, ramp, Target(open))
    && g.ramp == RampAfter(ramp, Target(open), |sound| / FRAME_BYTES)
  }

  lemma OnePacketMore(g: Gain, sound: seq<Byte>, ramp: nat, open: bool, pcm: seq<Byte>)
    requires GatesSound(g, sound, ramp, open) && |pcm| % FRAME_BYTES == 0
    ensures var t := Target(open);
      GatesSound(Gain(g.packets + [Processed(pcm, g.ramp, t)], RampAfter(g.ramp, t, |pcm| / FRAME_BYTES)),
                 sound + pcm, ramp, open)
  {
    PacketisationIndependent(sound, pcm, ramp, open);
    hide Processed, RampAfter;
    JoinLast(g.packets, Processed(pcm, g.ramp, Target(open)));
  }

  /** What the audio output hears of packets of whole frames is their sound, gated in one go. */
  lemma {:induction false} GatedInOneGo(emissions: seq<Emission>, ramp: nat, open: bool)
    requires forall i | 0 <= i < |emissions| && emissions[i].AudioOut? :: |emissions[i].pcm| % FRAME_BYTES == 0
    ensures |GateAll(emissions, ramp, Target(open)).packets| == |Packets(emissions)|
    ensures GatesSound(GateAll(emissions, ramp, Target(open)), Concat(Packets(emissions)), ramp, open)
    decreases |emissions|
  {
    if emissions == [] {
    } else {
      hide Processed, RampAfter, GatesSound;
      var n := |emissions| - 1;
      var front, last := emissions[..n], emissions[n];
      GatedInOneGo(front, ramp, open);
      if last.AudioOut? {
        JoinLast(Packets(front), last.pcm);
        OnePacketMore(GateAll(front, ramp, Target(open)), Concat(Packets(front)), ramp, open, last.pcm);
      } else {
        assert Packets(emissions) == Packets(front);
      }
    }
  }

  lemma JoinLast(parts: seq<seq<Byte>>, x: seq<Byte>)
    ensures Concat(parts + [x]) == Concat(parts) + x
  {
    ConcatLast(parts + [x]);
    assert (parts + [x])[..|parts|] == parts;
  }

  class CapturePipeline {
    const reorderer: BufferReorderer
    const builder: FrameBuilder
    const gate: AudioGate
    const hasVideo: bool
    const hasAudio: bool
    const keepAliveFrames: bool
    const keepAliveInterval: int

    var inputState: InputState
    var resyncPending: bool
    var videoBlanked: bool
    var blankedFor: InputState
    var lastKeepAlive: int        // 0 is the clock's epoch
    var sendingSilence: bool
    var silenceSentUpTo: int
    var videoFramesEmitted: nat
    var keepAliveFramesEmitted: nat

    var video: seq<VideoCall>
    var audio: seq<seq<Byte>>

    ghost function Model(): Pipe
      reads this, reorderer, builder
    {
      Pipe(inputState, resyncPending, reorderer.Model(), builder.Model())
    }

    ghost predicate PartsValid()
      reads this, reorderer, builder, builder.buffer0, builder.buffer1, gate
    {
      reorderer.Valid() && builder.Valid() && gate.Valid()
    }

    /** Without a signal the video output has been told why, and has shown nothing but cards since. */
    ghost predicate BlankingOk()
      reads this`inputState, this`videoBlanked, this`blankedFor, this`video, this`sendingSilence
    {
      && (inputState != Signal ==> videoBlanked && blankedFor == inputState)
      && (videoBlanked && hasVideo ==> Announced(video, blankedFor))
      && (sendingSilence <==> inputState != Signal)
    }

    ghost predicate Valid()
      reads this, reorderer, builder, builder.buffer0, builder.buffer1, gate
    {
      PartsValid() && PipeInv(Model()) && BlankingOk()
    }

    constructor (hasVideo: bool, hasAudio: bool, keepAliveFrames: bool, keepAliveInterval: int)
      ensures Valid() && Model() == FreshPipe() && video == [] && audio == []
    {
      reorderer := new BufferReorderer();
      builder := new FrameBuilder();
      gate := new AudioGate();
      this.hasVideo, this.hasAudio := hasVideo, hasAudio;
      this.keepAliveFrames, this.keepAliveInterval := keepAliveFrames, keepAliveInterval;
      inputState, resyncPending, videoBlanked, blankedFor := Signal, false, false, Signal;
      lastKeepAlive, sendingSilence, silenceSentUpTo := 0, false, 0;
      videoFramesEmitted, keepAliveFramesEmitted, video, audio := 0, 0, [], [];
      new;
      FreshPipeInv();
    }

    // ------------------------------------------------------------ callbacks of the builder

    method OnVideoFrame(pixels: seq<Byte>)
      modifies this`videoBlanked, this`videoFramesEmitted, this`video
      ensures var shown := inputState == Signal;
        && videoBlanked == (old(videoBlanked) && !shown)
        && videoFramesEmitted == old(videoFramesEmitted) + (if shown then 1 else 0)
        && video == old(video) + if shown && hasVideo then [CapturedFrame(pixels)] else []
    {
      if inputState != Signal {
        return;
      }
      videoBlanked := false;
      videoFramesEmitted := videoFramesEmitted + 1;
      if hasVideo {
        video := video + [CapturedFrame(pixels)];
      }
    }

    method OnAudioPacket(pcm: seq<Byte>)
      requires gate.Valid()
      modifies this`audio, gate`rampPosition
      ensures gate.Valid()
      ensures if hasAudio then
                && audio == old(audio) + [Processed(pcm, old(gate.rampPosition), Target(gate.open))]
                && gate.rampPosition == RampAfter(old(gate.rampPosition), Target(gate.open), |pcm| / FRAME_BYTES)
              else audio == old(audio) && gate.rampPosition == old(gate.rampPosition)
    {
      hide Processed, RampAfter;
      if !hasAudio {
        return;
      }
      var scratch := new Byte[|pcm|](i requires 0 <= i < |pcm| => pcm[i]);
      assert scratch[..] == pcm;
      gate.Process(scratch);
      audio := audio + [scratch[..]];
    }

    /** The outputs have received what these callbacks of the builder bring them, from that state on. */
    ghost predicate Handed(was: Outputs, came: seq<Emission>)
      reads this`video, this`audio, this`videoFramesEmitted, this`videoBlanked, gate
    {
      var g := GateAll(came, was.ramp, Target(gate.open));
      && video == was.video + (if hasVideo then Frames(came) else [])
      && videoFramesEmitted == was.frames + |Frames(came)|
      && videoBlanked == (was.blanked && Frames(came) == [])
      && audio == was.audio + (if hasAudio then g.packets else [])
      && gate.rampPosition == (if hasAudio then g.ramp else was.ramp)
    }

    ghost function OutputsNow(): Outputs
      reads this`video, this`audio, this`videoFramesEmitted, this`videoBlanked, gate
    {
      Outputs(video, audio, videoFramesEmitted, videoBlanked, gate.rampPosition)
    }

    /** Run the callback for one emission. */
    method HandOut(e: Emission, ghost was: Outputs, ghost before: seq<Emission>)
      requires gate.Valid() && inputState == Signal && Handed(was, before)
      modifies this`videoBlanked, this`videoFramesEmitted, this`video, this`audio, gate`rampPosition
      ensures gate.Valid() && Handed(was, before + [e])
    {
      hide Processed, RampAfter;
      assert (before + [e])[..|before|] == before;
      match e
      case VideoOut(pixels) => OnVideoFrame(pixels);
      case AudioOut(pcm) => OnAudioPacket(pcm);
    }

    /** Hand one reordered call to the builder and its callbacks to the outputs. */
    method FeedCall(call: Call, ghost was: Outputs, ghost start: nat)
      requires builder.Valid() && gate.Valid() && inputState == Signal
      requires start <= |builder.emitted| && Handed(was, builder.emitted[start..])
      modifies this`videoBlanked, this`videoFramesEmitted, this`video, this`audio, gate`rampPosition,
               builder, builder.buffer0, builder.buffer1
      ensures builder.Valid() && gate.Valid()
      ensures builder.Model() == P.Feed(old(builder.Model()), call.data, call.gapped)
      ensures start <= |builder.emitted| && Handed(was, builder.emitted[start..])
    {
      hide GateAll, Frames, P.Feed, Handed;
      var done := |builder.emitted|;
      builder.Feed(call.data, call.gapped);
      assert builder.emitted[start..done] == old(builder.emitted[start..]);
      HandOutFrom(done, was, start);
    }

    /** Run the callbacks for the emissions from `from` on. */
    method HandOutFrom(from: nat, ghost was: Outputs, ghost start: nat)
      requires gate.Valid() && inputState == Signal
      requires start <= from <= |builder.emitted| && Handed(was, builder.emitted[start..from])
      modifies this`videoBlanked, this`videoFramesEmitted, this`video, this`audio, gate`rampPosition
      ensures gate.Valid() && Handed(was, builder.emitted[start..])
    {
      hide GateAll, Frames, Handed;
      for done := from to |builder.emitted|
        invariant gate.Valid() && Handed(was, builder.emitted[start..done])
      {
        HandOut(builder.emitted[done], was, builder.emitted[start..done]);
        assert builder.emitted[start..done] + [builder.emitted[done]] == builder.emitted[start..done + 1];
      }
      assert builder.emitted[start..|builder.emitted|] == builder.emitted[start..];
    }

    /** One raw USB chunk. */
    method Feed(chunk: seq<Byte>, gapped: bool)
      requires Valid()
      modifies this`resyncPending, this`videoBlanked, this`videoFramesEmitted, this`video, this`audio, gate`rampPosition,
               reorderer, builder, builder.buffer0, builder.buffer1
      ensures Valid() && Model() == FeedPipe(old(Model()), chunk, gapped)
      ensures old(|builder.emitted|) <= |builder.emitted|
      ensures Handed(old(OutputsNow()), builder.emitted[old(|builder.emitted|)..])
    {
      hide PipeInv, FeedPipe, Handed, FeedCalls, Announced, Reorder.Feed, NewCalls, Reorder.Valid;
      ghost var p, was, start := Model(), OutputsNow(), |builder.emitted|;
      FeedPipeInv(p, chunk, gapped);
      FeedPipeCases(p, chunk, gapped);
      NothingHanded(was);
      assert builder.emitted[start..] == [];
      StillBlank(was, builder.emitted[start..]);
      if inputState != Signal {
        resyncPending := true;
        return;
      }
      var gap := gapped;
      if resyncPending {
        gap := true;
        resyncPending := false;
      }
      FeedParsers(chunk, gap, was, start);
      StillBlank(was, builder.emitted[start..]);
    }

    lemma NothingHanded(was: Outputs)
      requires was == OutputsNow()
      ensures Handed(was, [])
    {
      assert Frames([]) == [] && GateAll([], was.ramp, Target(gate.open)) == Gain([], was.ramp);
    }

    /** A blanked video output stays as it was until a captured frame arrives. */
    lemma StillBlank(was: Outputs, came: seq<Emission>)
      requires Handed(was, came)
      ensures videoBlanked ==> was.blanked && video == was.video
    {
    }

    /** Restore the buffer order, then parse what comes out. */
    method FeedParsers(chunk: seq<Byte>, gap: bool, ghost was: Outputs, ghost start: nat)
      requires PartsValid() && inputState == Signal
      requires start <= |builder.emitted| && Handed(was, builder.emitted[start..])
      modifies this`videoBlanked, this`videoFramesEmitted, this`video, this`audio, gate`rampPosition,
               reorderer, builder, builder.buffer0, builder.buffer1
      ensures PartsValid()
      ensures reorderer.Model() == Reorder.Feed(old(reorderer.Model()), chunk, gap)
      ensures builder.Model() == FeedCalls(old(builder.Model()), NewCalls(old(reorderer.Model()), reorderer.Model()))
      ensures start <= |builder.emitted| && Handed(was, builder.emitted[start..])
    {
      hide Handed, NewCalls, Reorder.Feed, FeedCalls, Reorder.Valid, P.Feed;
      var made := |reorderer.calls|;
      reorderer.Feed(chunk, gap);
      ParseCalls(reorderer.calls[made..], was, start);
    }

    /** Hand reordered calls to the builder, in order. */
    method ParseCalls(calls: seq<Call>, ghost was: Outputs, ghost start: nat)
      requires builder.Valid() && gate.Valid() && inputState == Signal
      requires start <= |builder.emitted| && Handed(was, builder.emitted[start..])
      modifies this`videoBlanked, this`videoFramesEmitted, this`video, this`audio, gate`rampPosition,
               builder, builder.buffer0, builder.buffer1
      ensures builder.Valid() && gate.Valid()
      ensures builder.Model() == FeedCalls(old(builder.Model()), calls)
      ensures start <= |builder.emitted| && Handed(was, builder.emitted[start..])
    {
      hide Handed, FeedCalls, P.Feed;
      ghost var b := builder.Model();
      FeedNoCalls(b);
      assert calls[..0] == [];
      for made := 0 to |calls|
        invariant builder.Valid() && gate.Valid()
        invariant builder.Model() == FeedCalls(b, calls[..made])
        invariant start <= |builder.emitted| && Handed(was, builder.emitted[start..])
      {
        FeedOneMore(b, calls, made);
        FeedCall(calls[made], was, start);
      }
      assert calls[..|calls|] == calls;
    }

    // ------------------------------------------------------------ input state and time

    method SetInputState(state: InputState, now: int)
      requires Valid()
      modifies this`inputState, this`sendingSilence, this`silenceSentUpTo, this`video, this`videoBlanked,
               this`blankedFor, this`lastKeepAlive, gate`open, gate`present, gate`presentSince
      ensures Valid() && Model() == Apply(old(Model()), Input(state))
      ensures gate.State() == Update(old(gate.State()), state == Signal, now)
      ensures silenceSentUpTo == if state != Signal && old(inputState) == Signal then now else old(silenceSentUpTo)
      ensures video == old(video) +
              if hasVideo && state != Signal && !(old(videoBlanked) && old(blankedFor) == state) then [ShowNoSignal(state)]
              else []
      ensures if state == Signal then videoBlanked == old(videoBlanked) && lastKeepAlive == old(lastKeepAlive)
              else lastKeepAlive == if old(videoBlanked) && old(blankedFor) == state then old(lastKeepAlive) else 0
    {
      hide PipeInv, Announced, Reorder.Valid, Update;
      hide BufferReorderer.Valid, BufferReorderer.Model, FrameBuilder.Valid, FrameBuilder.Model;
      StateKeepsInv(Model(), state);
      inputState := state;
      var present := state == Signal;
      gate.UpdateSignal(present, now);
      if present {
        sendingSilence := false;
      } else if !sendingSilence {
        sendingSilence := true;
        silenceSentUpTo := now;
      }
      if !present {
        Blank(state);
      }
    }

    /** Tell the video output once per reason, and again after captured frames. */
    method Blank(state: InputState)
      requires videoBlanked && hasVideo ==> Announced(video, blankedFor)
      modifies this`video, this`videoBlanked, this`blankedFor, this`lastKeepAlive
      ensures videoBlanked && blankedFor == state && (hasVideo ==> Announced(video, state))
      ensures video == old(video) +
              if hasVideo && !(old(videoBlanked) && old(blankedFor) == state) then [ShowNoSignal(state)] else []
      ensures lastKeepAlive == if old(videoBlanked) && old(blankedFor) == state then old(lastKeepAlive) else 0
    {
      if !videoBlanked || blankedFor != state {
        if hasVideo {
          NowAnnounced(video, state);
          video := video + [ShowNoSignal(state)];
        }
        videoBlanked := true;
        blankedFor := state;
        lastKeepAlive := 0;  // the next tick may send a card
      }
    }

    method SendSilence(now: int)
      modifies this`silenceSentUpTo, this`audio
      ensures if hasAudio && sendingSilence then
                var s := Silence.SendSilence(old(silenceSentUpTo), now);
                && silenceSentUpTo == s.upTo
                && audio == old(audio) + if s.bytes == 0 then [] else [seq(s.bytes, _ => 0)]
              else audio == old(audio) && silenceSentUpTo == old(silenceSentUpTo)
    {
      if !hasAudio || !sendingSilence {
        return;
      }
      var owed := now - silenceSentUpTo;
      if owed < Silence.SILENCE_CHUNK {
        return;
      }
      if owed > Silence.SILENCE_MAX {
        // After a stall, catch up by SILENCE_MAX only.
        silenceSentUpTo := now - Silence.SILENCE_MAX;
        owed := Silence.SILENCE_MAX;
      }
      var bytes := owed / Silence.MICROSECOND * Silence.AUDIO_BYTES_PER_SECOND / 1_000_000;
      bytes := bytes - bytes % 4;
      if bytes == 0 {
        return;
      }
      silenceSentUpTo := silenceSentUpTo + bytes * 1_000_000 / Silence.AUDIO_BYTES_PER_SECOND * Silence.MICROSECOND;
      audio := audio + [seq(bytes, _ => 0)];
    }

    /** Without a signal: the silence owed by now, and a card when one is due. */
    method Tick(now: int)
      requires Valid()
      modifies this`silenceSentUpTo, this`audio, this`video, this`lastKeepAlive, this`keepAliveFramesEmitted
      ensures Valid() && Model() == old(Model())
      ensures var s := Silence.SendSilence(old(silenceSentUpTo), now);
        && audio == old(audio) + (if hasAudio && inputState != Signal && s.bytes > 0 then [seq(s.bytes, _ => 0)] else [])
        && silenceSentUpTo == if hasAudio && inputState != Signal then s.upTo else old(silenceSentUpTo)
      ensures var due := keepAliveFrames && hasVideo && inputState != Signal
                && CardDue(old(lastKeepAlive), now, keepAliveInterval);
        && video == old(video) + (if due then [CardFrame(inputState)] else [])
        && lastKeepAlive == (if due then now else old(lastKeepAlive))
        && keepAliveFramesEmitted == old(keepAliveFramesEmitted) + if due then 1 else 0
    {
      hide PipeInv, Announced, Silence.SendSilence;
      if inputState != Signal {
        SendSilence(now);
      }
      KeepAlive(now);
    }

    method KeepAlive(now: int)
      modifies this`video, this`lastKeepAlive, this`keepAliveFramesEmitted
      ensures forall reason :: old(Announced(video, reason)) ==> Announced(video, reason)
      ensures var due := keepAliveFrames && hasVideo && inputState != Signal
                && CardDue(old(lastKeepAlive), now, keepAliveInterval);
        && video == old(video) + (if due then [CardFrame(inputState)] else [])
        && lastKeepAlive == (if due then now else old(lastKeepAlive))
        && keepAliveFramesEmitted == old(keepAliveFramesEmitted) + if due then 1 else 0
    {
      if !keepAliveFrames || !hasVideo || inputState == Signal {
        return;
      }
      if lastKeepAlive != 0 && now - lastKeepAlive < keepAliveInterval {
        return;
      }
      lastKeepAlive := now;
      keepAliveFramesEmitted := keepAliveFramesEmitted + 1;
      forall reason | Announced(video, reason) ensures Announced(video + [CardFrame(inputState)], reason) {
        StillAnnounced(video, reason, inputState);
      }
      video := video + [CardFrame(inputState)];
    }
  }

  lemma NowAnnounced(video: seq<VideoCall>, reason: InputState)
    ensures Announced(video + [ShowNoSignal(reason)], reason)
  {
    assert (video + [ShowNoSignal(reason)])[|video|] == ShowNoSignal(reason);
  }

  lemma StillAnnounced(video: seq<VideoCall>, reason: InputState, card: InputState)
    ensures Announced(video, reason) ==> Announced(video + [CardFrame(card)], reason)
  {
    if i :| 0 <= i < |video| && video[i] == ShowNoSignal(reason) && forall j | i < j < |video| :: video[j].CardFrame? {
      assert (video + [CardFrame(card)])[i] == ShowNoSignal(reason);
    }
  }

  lemma StateKeepsInv(p: Pipe, state: InputState)
    requires PipeInv(p)
    ensures Reorder.Valid(p.reorderer) && PipeInv(p.(input := state))
  {
  }

  datatype Outputs = Outputs(video: seq<VideoCall>, audio: seq<seq<Byte>>, frames: nat, blanked: bool, ramp: nat)

  lemma FeedPipeCases(p: Pipe, chunk: seq<Byte>, gapped: bool)
    requires PipeInv(p)
    ensures Reorder.Valid(p.reorderer)
    ensures FeedPipe(p, chunk, gapped) ==
            if p.input != Signal then p.(resync := true)
            else
              var r := Reorder.Feed(p.reorderer, chunk, gapped || p.resync);
              Pipe(p.input, false, r, FeedCalls(p.builder, NewCalls(p.reorderer, r)))
  {
  }

  lemma FeedOneMore(b: P.Builder, calls: seq<Call>, made: nat)
    requires made < |calls|
    ensures FeedCalls(b, calls[..made + 1]) == P.Feed(FeedCalls(b, calls[..made]), calls[made].data, calls[made].gapped)
  {
    hide P.Feed;
    assert calls[..made + 1][..made] == calls[..made];
  }
}
