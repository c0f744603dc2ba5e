/** The class itself: parsing in place over a work buffer, with two video buffers handed out in turn,
    proved to follow ParserModel.Feed. */
module FrameBuilderClass {
  import opened Markers
  import opened Sequences
  import opened ParserModel
  import opened ParserProofs

  const VIDEO_BUFFER_CAPACITY: nat := VIDEO_FRAME_BYTES + 0x80000
  const MAX_CARRY: nat := 16

  datatype State = IdleState | VideoData | AudioData

  /** What a callback received. A video callback always gets a whole frame buffer's worth. */
  datatype Emission = VideoOut(pixels: seq<Byte>) | AudioOut(pcm: seq<Byte>)

  ghost predicate Shows(e: Emission, o: Output) {
    match o
    case Picture(pixels) => e.VideoOut? && |e.pixels| == VIDEO_FRAME_BYTES && pixels <= e.pixels
    case Sound(pcm) => e == AudioOut(pcm)
  }

  /** The callbacks received the model's outputs, in order. */
  ghost predicate Delivered(h: seq<Byte>, log: seq<Event>, emitted: seq<Emission>) {
    && |emitted| == |Outputs(h, log)|
    && forall i | 0 <= i < |emitted| :: Shows(emitted[i], Outputs(h, log)[i])
  }

  /** Every slice the log refers to is there. */
  ghost predicate Inside(h: seq<Byte>, log: seq<Event>) {
    forall i | 0 <= i < |log| ::
      match log[i]
      case Frame(s, e) => s <= e <= |h|
      case Packet(s, e) => s <= e <= |h|
      case _ => true
  }

  lemma {:induction false} OutputsGrow(h: seq<Byte>, x: seq<Byte>, log: seq<Event>)
    requires Inside(h, log)
    ensures Inside(h + x, log) && Outputs(h + x, log) == Outputs(h, log)
  {
    if log != [] {
      var last := log[|log| - 1];
      OutputsGrow(h, x, log[..|log| - 1]);
      match last
      case Frame(s, e) => assert (h + x)[s..Min(e, s + VIDEO_FRAME_BYTES)] == h[s..Min(e, s + VIDEO_FRAME_BYTES)];
      case Packet(s, e) => assert (h + x)[s..e] == h[s..e];
      case _ =>
    }
  }

  lemma DeliverNothing(h: seq<Byte>, log: seq<Event>, emitted: seq<Emission>, e: Event)
    requires Delivered(h, log, emitted) && Inside(h, log) && !e.Frame? && !e.Packet?
    ensures Delivered(h, log + [e], emitted) && Inside(h, log + [e])
  {
    assert (log + [e])[..|log|] == log;
  }

  lemma DeliverOne(h: seq<Byte>, log: seq<Event>, emitted: seq<Emission>, e: Event, out: Emission)
    requires Delivered(h, log, emitted) && Inside(h, log)
    requires e.Frame? || e.Packet?
    requires e.start <= e.end <= |h| && Shows(out, OutputOf(h, e)[0])
    ensures Delivered(h, log + [e], emitted + [out]) && Inside(h, log + [e])
  {
    assert (log + [e])[..|log|] == log;
    assert Outputs(h, log + [e]) == Outputs(h, log) + [OutputOf(h, e)[0]];
  }

  /** The first `offset` bytes of the buffer are the span from `start` on, as far as they fit. */
  ghost predicate SpanHeld(buffer: seq<Byte>, offset: nat, h: seq<Byte>, start: nat, upTo: nat) {
    && start <= upTo <= |h|
    && |buffer| == VIDEO_BUFFER_CAPACITY && offset == Min(upTo - start, VIDEO_BUFFER_CAPACITY)
    && buffer[..offset] == h[start..start + offset]
  }

  /** The payload's first `offset` bytes have arrived. */
  ghost predicate PayloadHeld(frame: seq<Byte>, offset: nat, remaining: nat, h: seq<Byte>, start: nat, end: nat) {
    && offset <= |frame| && start + offset + remaining == end && start + offset <= |h|
    && frame[..offset] == h[start..start + offset]
  }

  /** Unflushed video starts at the front of the work buffer or where the span itself starts. */
  predicate PendingOk(pendingStart: nat, base: nat, pos: nat, spanStart: nat) {
    pendingStart <= pos && (pendingStart == 0 || base + pendingStart == spanStart)
  }

  class FrameBuilder {
    var state: State
    var armed: bool

    const buffer0: array<Byte>
    const buffer1: array<Byte>
    var videoBufferIndex: nat
    var videoOffset: nat
    var videoPendingStart: nat

    var audioFrame: seq<Byte>
    var audioRemaining: nat
    var audioOffset: nat

    var savB0: Byte
    var carry: seq<Byte>
    var work: seq<Byte>

    var desyncCount: nat
    var videoFramesEmitted: nat
    var audioFramesEmitted: nat

    var emitted: seq<Emission>  // the callbacks, as what they received so far

    ghost var input: seq<Byte>
    ghost var p: Parser
    ghost var overflows: nat               // flushes that did not fit; the only split-dependent count
    ghost var handedOut: Option<seq<Byte>> // the buffer last given to the video callback, as it was then

    function Current(): array<Byte>
      reads this`videoBufferIndex
    {
      if videoBufferIndex == 0 then buffer0 else buffer1
    }

    function Other(): array<Byte>
      reads this`videoBufferIndex
    {
      if videoBufferIndex == 0 then buffer1 else buffer0
    }

    ghost function Model(): Builder
      reads this`input, this`p
    {
      Builder(input, p)
    }

    /** The two buffers are separate, and the one handed out last has not been written since. */
    ghost predicate BuffersOk()
      reads this`videoBufferIndex, this`handedOut, buffer0, buffer1
    {
      && buffer0 != buffer1
      && buffer0.Length == buffer1.Length == VIDEO_BUFFER_CAPACITY
      && videoBufferIndex <= 1
      && (handedOut.Some? ==> Other()[..] == handedOut.value)
    }

    ghost predicate CountsOk()
      reads this`savB0, this`p, this`desyncCount, this`overflows, this`input, this`emitted,
            this`videoFramesEmitted, this`audioFramesEmitted
    {
      && savB0 == p.b0
      && desyncCount == p.desync + overflows
      && Delivered(input, p.log, emitted) && Inside(input, p.log)
      && videoFramesEmitted + audioFramesEmitted == |emitted|
    }

    /** The fields hold the model's state, with the work buffer starting at `base` of the input. */
    ghost predicate Holds(base: nat)
      reads this, buffer0, buffer1
    {
      && BuffersOk() && CountsOk()
      && base <= |input|
      && match p.mode
         case Idle => state == IdleState
         case Video(start) =>
           state == VideoData && SpanHeld(Current()[..], videoOffset, input, start, base + videoPendingStart)
         case Audio(start) =>
           state == AudioData && PayloadHeld(audioFrame, audioOffset, audioRemaining, input, start, p.pos)
    }

    /** Between feeds: the carried bytes are the input's tail, and all video before them is flushed. */
    ghost predicate AtRest()
      reads this, buffer0, buffer1
    {
      && carry == input[WorkStart(Model())..]
      && BuffersOk() && CountsOk()
      && match p.mode
         case Idle => state == IdleState
         case Video(start) =>
           state == VideoData && SpanHeld(Current()[..], videoOffset, input, start, WorkStart(Model()))
         case Audio(start) =>
           && state == AudioData
           && PayloadHeld(audioFrame, audioOffset, audioRemaining, input, start, p.pos)
           && start + audioOffset == |input|
    }

    ghost predicate Valid()
      reads this, buffer0, buffer1
    {
      ParserProofs.Valid(Model()) && AtRest()
    }

    constructor ()
      ensures Valid() && Model() == Fresh() && emitted == [] && handedOut == None
      ensures fresh(buffer0) && fresh(buffer1)
    {
      state, armed := IdleState, false;
      buffer0 := new Byte[VIDEO_BUFFER_CAPACITY];
      buffer1 := new Byte[VIDEO_BUFFER_CAPACITY];
      videoBufferIndex, videoOffset, videoPendingStart := 0, 0, 0;
      audioFrame, audioRemaining, audioOffset := [], 0, 0;
      savB0, carry, work := 0, [], [];
      desyncCount, videoFramesEmitted, audioFramesEmitted, emitted := 0, 0, 0, [];
      input, p, overflows, handedOut := [], Parser(0, Idle, 0, 0, []), 0, None;
    }

    method ResetForGap()
      requires Valid()
      modifies this`state, this`armed, this`videoOffset, this`videoPendingStart,
               this`audioRemaining, this`audioOffset, this`carry, this`p
      ensures Valid() && p == ParserModel.Reset(old(Model())).p
    {
      hide Delivered, Inside, ParserProofs.Valid, SpanHeld, PayloadHeld;
      DeliverNothing(input, p.log, emitted, Gap(|input|));
      ParserProofs.ResetValid(Model());
      p := ParserModel.Reset(Model()).p;
      ClearFields();
    }

    method ClearFields()
      modifies this`state, this`armed, this`videoOffset, this`videoPendingStart,
               this`audioRemaining, this`audioOffset, this`carry
      ensures state == IdleState && !armed && carry == []
      ensures videoOffset == videoPendingStart == audioRemaining == audioOffset == 0
    {
      state := IdleState;
      armed := false;
      videoOffset := 0;
      videoPendingStart := 0;
      audioRemaining := 0;
      audioOffset := 0;
      carry := [];
    }

    /** Copy work[start..end) behind what the current buffer holds of the span. */
    method FlushVideo(start: nat, end: nat, ghost base: nat, ghost spanStart: nat)
      requires BuffersOk() && end <= |work| && base <= |input| && work == input[base..]
      requires SpanHeld(Current()[..], videoOffset, input, spanStart, base + start)
      modifies Current(), this`videoOffset, this`desyncCount, this`overflows
      ensures BuffersOk()
      ensures SpanHeld(Current()[..], videoOffset, input, spanStart, base + if end <= start then start else end)
      ensures var lost := if end - start > VIDEO_BUFFER_CAPACITY - old(videoOffset) then 1 else 0;
        overflows == old(overflows) + lost && desyncCount == old(desyncCount) + lost
      ensures forall i | videoOffset <= i < Current().Length :: Current()[i] == old(Current()[i])
    {
      if end <= start {
        return;
      }
      var buffer := Current();
      var bytes := end - start;
      var room := VIDEO_BUFFER_CAPACITY - videoOffset;
      if bytes > room {
        desyncCount := desyncCount + 1;
        overflows := overflows + 1;
        bytes := room;
      }
      ghost var before := buffer[..];
      forall i | 0 <= i < bytes {
        buffer[videoOffset + i] := work[start + i];
      }
      FlushHolds(before, buffer[..], videoOffset, bytes, input, spanStart, base, start, end, work);
      videoOffset := videoOffset + bytes;
    }

    /** Hand the buffer out and switch to the other one, if the span has a frame's size. */
    method CheckFrameCompletion(ghost spanStart: nat, ghost end: nat)
      requires BuffersOk() && SpanHeld(Current()[..], videoOffset, input, spanStart, end) && armed
      modifies this`videoFramesEmitted, this`emitted, this`videoOffset, this`videoBufferIndex, this`handedOut
      ensures BuffersOk()
      ensures if FrameSized(end - spanStart) then
                && emitted == old(emitted) + [VideoOut(old(Current()[..VIDEO_FRAME_BYTES]))]
                && handedOut == Some(old(Current()[..])) && Current() == old(Other())
                && videoFramesEmitted == old(videoFramesEmitted) + 1
              else
                unchanged(`emitted) && unchanged(`videoFramesEmitted)
    {
      if !armed {
        return;
      }
      if videoOffset < VIDEO_FRAME_BYTES - FRAME_SIZE_TOLERANCE
         || videoOffset > VIDEO_FRAME_BYTES + FRAME_SIZE_TOLERANCE {
        return;
      }
      videoFramesEmitted := videoFramesEmitted + 1;
      handedOut := Some(Current()[..]);
      emitted := emitted + [VideoOut(Current()[..VIDEO_FRAME_BYTES])];
      videoOffset := 0;
      videoBufferIndex := 1 - videoBufferIndex;
    }

    /** The scan position `pos` of the work buffer is the model's position. */
    ghost predicate Scanning(base: nat, pos: nat)
      reads this, buffer0, buffer1
    {
      && Holds(base) && work == input[base..] && !p.mode.Audio? && p.pos == base + pos && pos <= |work|
      && (p.mode.Video? ==> PendingOk(videoPendingStart, base, pos, p.mode.start))
    }

    method ProcessSav(pos: nat, ghost base: nat) returns (next: Option<nat>)
      requires Scanning(base, pos) && pos + 4 <= |work| && PrefixAt(input, p.pos) && input[p.pos + 3] == SAV_TYPE
      modifies this`savB0, this`state, this`videoPendingStart, this`videoOffset, this`p
      ensures next.None? ==> MarkerStep(input, old(p)) == None && p == old(p) && Scanning(base, pos)
      ensures next.Some? ==> MarkerStep(input, old(p)) == Some(p) && Scanning(base, next.value)
    {
      hide Delivered, Inside, MarkerStep, SavHeaderValid, EavHeaderValid, LengthAt;
      SavMarker(input, p);
      if |work| - pos < SAV_BYTES {
        return None;
      }
      WorkHeader(input, work, base, pos);
      if !SavHeaderValid(work, pos + 4) {
        p := p.(pos := p.pos + 1);
        return Some(pos + 1);
      }
      DeliverNothing(input, p.log, emitted, Sav(p.pos));
      savB0 := work[pos + 4];
      state := VideoData;
      videoPendingStart := pos + 8;
      videoOffset := 0;
      p := MarkerStep(input, p).value;
      next := Some(videoPendingStart);
    }

    /** Count what a valid EAV shows: a soft mismatch, and the frame if the span has its size. */
    method CompleteSpan(c0: Byte, ghost end: nat)
      requires BuffersOk() && CountsOk() && p.mode.Video?
      requires SpanHeld(Current()[..], videoOffset, input, p.mode.start, end) && p.pos == end
      modifies this`armed, this`desyncCount, this`videoFramesEmitted, this`emitted, this`videoOffset,
               this`videoBufferIndex, this`handedOut
      ensures BuffersOk()
      ensures desyncCount == old(desyncCount) + if c0 != savB0 then 1 else 0
      ensures Delivered(input, p.log + [EavEvent(p)], emitted) && Inside(input, p.log + [EavEvent(p)])
      ensures videoFramesEmitted + audioFramesEmitted == |emitted|
      ensures old(emitted) <= emitted
    {
      hide Delivered, Inside, Outputs;
      ghost var start := p.mode.start;
      ghost var buffer, offset := Current()[..], videoOffset;
      armed := true;
      if c0 != savB0 {
        desyncCount := desyncCount + 1;
      }
      CheckFrameCompletion(start, end);
      if FrameSized(end - start) {
        ShowsSpan(buffer, offset, input, start, end);
        assert buffer[..VIDEO_FRAME_BYTES] == old(Current()[..VIDEO_FRAME_BYTES]);
        DeliverOne(input, p.log, old(emitted), Frame(start, end), VideoOut(buffer[..VIDEO_FRAME_BYTES]));
      } else {
        DeliverNothing(input, p.log, emitted, Partial(start, end));
      }
    }

    method ProcessEav(pos: nat, ghost base: nat) returns (next: Option<nat>)
      requires Scanning(base, pos) && pos + 4 <= |work| && PrefixAt(input, p.pos) && input[p.pos + 3] == EAV_TYPE
      requires state == VideoData
      modifies this`armed, this`state, this`p, this`videoFramesEmitted, this`emitted, this`videoBufferIndex,
               this`handedOut, Current(), this`videoOffset, this`desyncCount, this`overflows
      ensures next.None? ==> MarkerStep(input, old(p)) == None && p == old(p) && Scanning(base, pos)
      ensures next.Some? ==> MarkerStep(input, old(p)) == Some(p) && Scanning(base, next.value)
      ensures old(emitted) <= emitted
    {
      hide Delivered, Inside, MarkerStep, SavHeaderValid, EavHeaderValid, LengthAt, SpanHeld, PayloadHeld, PrefixAt, BuffersOk;
      EavMarker(input, p);
      if |work| - pos < EAV_BYTES {
        return None;
      }
      WorkHeader(input, work, base, pos);
      FlushVideo(videoPendingStart, pos, base, p.mode.start);
      if !EavHeaderValid(work, pos + 4) {
        DeliverNothing(input, p.log, emitted, BadEav(p.pos));
        desyncCount := desyncCount + 1;
      } else {
        CompleteSpan(work[pos + 4], base + pos);
      }
      state := IdleState;
      p := MarkerStep(input, p).value;
      next := Some(pos + EAV_BYTES);
    }

    method ProcessAudio(pos: nat, ghost base: nat) returns (next: Option<nat>)
      requires Scanning(base, pos) && pos + 4 <= |work| && PrefixAt(input, p.pos) && input[p.pos + 3] == AUDIO_TYPE
      modifies this`state, this`audioRemaining, this`audioOffset, this`p,
               Current(), this`videoOffset, this`desyncCount, this`overflows
      ensures next.None? ==> MarkerStep(input, old(p)) == None && p == old(p) && Scanning(base, pos)
      ensures next.Some? ==> MarkerStep(input, old(p)) == Some(p) && Resumes(base, next.value)
    {
      hide Delivered, Inside, MarkerStep, SavHeaderValid, EavHeaderValid, LengthAt, SpanHeld, PrefixAt, BuffersOk;
      AudioMarker(input, p);
      if |work| - pos < AUDIO_BYTES {
        return None;
      }
      WorkHeader(input, work, base, pos);
      var payloadLength := LengthAt(work, pos + 4);
      if payloadLength > AUDIO_MAX_PACKET_BYTES {
        p := p.(pos := p.pos + 1);
        return Some(pos + 1);
      }
      DeliverNothing(input, p.log, emitted, AudioHeader(p.pos));
      if state == VideoData {
        FlushVideo(videoPendingStart, pos, base, p.mode.start);
      }
      audioRemaining := payloadLength;
      audioOffset := 0;
      state := AudioData;
      p := MarkerStep(input, p).value;
      next := Some(pos + AUDIO_BYTES);
    }

    /** Either scanning at `pos`, or inside a payload of which everything before `pos` has arrived. */
    ghost predicate Resumes(base: nat, pos: nat)
      reads this, buffer0, buffer1
    {
      && Holds(base) && work == input[base..] && pos <= |work|
      && base + pos == (if p.mode.Audio? then p.mode.start + audioOffset else p.pos)
      && (p.mode.Video? ==> PendingOk(videoPendingStart, base, pos, p.mode.start))
    }

    /** Process the marker at work[pos]; None when its header runs past the end. */
    method ProcessMarker(pos: nat, ghost base: nat) returns (next: Option<nat>)
      requires Scanning(base, pos) && pos + 4 <= |work| && PrefixAt(input, p.pos)
      modifies this`armed, this`state, this`p, this`videoFramesEmitted, this`emitted, this`videoBufferIndex,
               this`handedOut, Current(), this`videoOffset, this`desyncCount, this`overflows,
               this`savB0, this`videoPendingStart, this`audioRemaining, this`audioOffset
      ensures next.None? ==> MarkerStep(input, old(p)) == None && p == old(p) && Scanning(base, pos)
      ensures next.Some? ==> MarkerStep(input, old(p)) == Some(p) && Resumes(base, next.value) && pos < next.value
      ensures old(emitted) <= emitted
    {
      hide SpanHeld, PayloadHeld, Delivered, Inside, SavHeaderValid, EavHeaderValid, LengthAt;
      assert work[pos + 3] == input[p.pos + 3];
      if work[pos + 3] == SAV_TYPE {
        next := ProcessSav(pos, base);
      } else if work[pos + 3] == EAV_TYPE && state == VideoData {
        next := ProcessEav(pos, base);
      } else if work[pos + 3] == AUDIO_TYPE {
        next := ProcessAudio(pos, base);
      } else {
        p := p.(pos := p.pos + 1);
        next := Some(pos + 1);
      }
    }

    /** Take payload bytes at work[pos..]; hand the packet out once it is complete. */
    method ConsumeAudio(pos: nat, ghost base: nat) returns (next: nat)
      requires Resumes(base, pos)
      modifies this`audioFrame, this`audioOffset, this`audioRemaining, this`state, this`audioFramesEmitted,
               this`emitted, this`p
      ensures Resumes(base, next) && pos <= next
      ensures if old(p).mode.Audio? && AudioStep(input, old(p)).Some? then AudioStep(input, old(p)) == Some(p)
              else p == old(p) && (p.mode.Audio? ==> next == |work|)
      ensures old(emitted) <= emitted
    {
      hide Delivered, Inside, PayloadHeld, SpanHeld, Overwrite, Shows, OutputOf;
      next := pos;
      if state != AudioData {
        return;
      }
      PayloadSizes(audioFrame, audioOffset, audioRemaining, input, p.mode.start, p.pos);
      var available := |work| - pos;
      var take := if available < audioRemaining then available else audioRemaining;
      if take > 0 {
        PayloadGrows(audioFrame, audioOffset, audioRemaining, input, p.mode.start, p.pos, work, base, pos, take);
        audioFrame := Overwrite(audioFrame, audioOffset, work[pos..pos + take]);
        audioOffset := audioOffset + take;
        audioRemaining := audioRemaining - take;
        next := pos + take;
      }
      if audioRemaining == 0 {
        EmitPacket();
      }
    }

    method EmitPacket()
      requires CountsOk() && p.mode.Audio? && PayloadHeld(audioFrame, audioOffset, 0, input, p.mode.start, p.pos)
      modifies this`state, this`audioFramesEmitted, this`emitted, this`p
      ensures CountsOk() && state == IdleState && AudioStep(input, old(p)) == Some(p)
      ensures emitted == old(emitted) + [AudioOut(audioFrame[..audioOffset])]
      ensures audioFramesEmitted == old(audioFramesEmitted) + 1
    {
      hide Delivered, Inside, Shows, OutputOf, PayloadHeld;
      PayloadShown(audioFrame, audioOffset, input, p.mode.start, p.pos);
      DeliverOne(input, p.log, emitted, Packet(p.mode.start, p.pos), AudioOut(audioFrame[..audioOffset]));
      state := IdleState;
      audioFramesEmitted := audioFramesEmitted + 1;
      emitted := emitted + [AudioOut(audioFrame[..audioOffset])];
      p := AudioStep(input, p).value;
    }

    // ------------------------------------------------------------ one feed

    /** Assemble the work buffer: carried bytes, then the chunk. */
    method Assemble(chunk: seq<Byte>)
      requires Valid() && chunk != []
      modifies this`work, this`input, this`videoPendingStart
      ensures input == old(input) + chunk && Resumes(WorkStart(old(Model())), 0)
    {
      hide Delivered, Inside, PayloadHeld, SpanHeld;
      OutputsStay(input, chunk, p.log, emitted);
      HeldStays(Current()[..], videoOffset, audioFrame, audioOffset, audioRemaining, input, chunk, p, WorkStart(Model()));
      work := carry + chunk;
      input := input + chunk;
      if state == VideoData {
        videoPendingStart := 0;
      }
    }

    /** One turn of the scan loop; None when a marker waits for its header. */
    method ScanOnce(pos: nat, ghost base: nat) returns (next: Option<nat>)
      requires Scanning(base, pos) && pos + 4 <= |work|
      modifies this`armed, this`state, this`p, this`videoFramesEmitted, this`emitted, this`videoBufferIndex,
               this`handedOut, Current(), this`videoOffset, this`desyncCount, this`overflows,
               this`savB0, this`videoPendingStart, this`audioRemaining, this`audioOffset,
               this`audioFrame, this`audioFramesEmitted
      ensures next.None? ==> CodeStep(input, p) == None && p == old(p) && Scanning(base, pos)
      ensures next.Some? ==>
        && pos < next.value && Resumes(base, next.value)
        && RunCode(input, old(p)) == RunCode(input, p)
        && (p.mode.Audio? ==> CodeStep(input, p) == None && next.value == |work|)
      ensures old(emitted) <= emitted
    {
      hide SpanHeld, PayloadHeld, Delivered, Inside, CodeStep, MarkerStep, RunCode;
      assert work[pos] == input[p.pos] && work[pos + 1] == input[p.pos + 1] && work[pos + 2] == input[p.pos + 2];
      ScanCases(input, p);
      if !(work[pos] == 0 && work[pos + 1] == 0xFF && work[pos + 2] == 0xFF) {
        p := p.(pos := p.pos + 1);
        return Some(pos + 1);
      }
      next := ProcessMarker(pos, base);
      if next.Some? {
        ScanCases(input, p);
        var after := ConsumeAudio(next.value, base);
        ScanCases(input, p);
        next := Some(after);
      }
    }

    method ScanLoop(ghost base: nat) returns (pos: nat, headerPending: bool)
      requires Resumes(base, 0) && ParserInv(input, p)
      modifies this`armed, this`state, this`p, this`videoFramesEmitted, this`emitted, this`videoBufferIndex,
               this`handedOut, buffer0, buffer1, this`videoOffset, this`desyncCount, this`overflows,
               this`savB0, this`videoPendingStart, this`audioRemaining, this`audioOffset,
               this`audioFrame, this`audioFramesEmitted
      ensures p == RunCode(input, old(p)) && Resumes(base, pos) && CodeStep(input, p) == None
      ensures headerPending <==> !p.mode.Audio? && pos + 4 <= |work|
      ensures p.mode.Audio? ==> pos == |work|
      ensures old(emitted) <= emitted
    {
      hide CodeStep, MarkerStep, RunCode, SpanHeld, PayloadHeld, Delivered, Inside;
      headerPending := false;
      ScanCases(input, p);
      pos := ConsumeAudio(0, base);
      ScanCases(input, p);
      while state != AudioData && pos + 4 <= |work|
        invariant Resumes(base, pos) && RunCode(input, p) == RunCode(input, old(p))
        invariant old(emitted) <= emitted
        invariant p.mode.Audio? ==> CodeStep(input, p) == None && pos == |work|
        decreases |work| - pos
      {
        var next := ScanOnce(pos, base);
        if next.None? {
          headerPending := true;
          break;
        }
        pos := next.value;
      }
      ScanCases(input, p);
    }

    /** A marker waits for its header: video before it is final, and it is carried whole. */
    method CarryHeader(pos: nat, ghost base: nat)
      requires Scanning(base, pos) && pos + 4 <= |work| && CodeStep(input, p) == None
      modifies this`carry, Current(), this`videoOffset, this`desyncCount, this`overflows
      ensures AtRest() && p == Finish(input, base, p)
    {
      hide Delivered, Inside, SpanHeld, CodeStep, TailCarry;
      PendingIsShort(input, p);
      if state == VideoData {
        FlushVideo(videoPendingStart, pos, base, p.mode.start);
      }
      var tail := |work| - pos;
      carry := work[pos..pos + Min(tail, MAX_CARRY)];
      assert carry == input[p.pos..];
    }

    /** No marker is complete: carry the last bytes of the work buffer if they could start one. */
    method CarryTail(pos: nat, ghost base: nat)
      requires Scanning(base, pos) && pos + 4 > |work|
      modifies this`carry, this`p, Current(), this`videoOffset, this`desyncCount, this`overflows
      ensures AtRest() && p == Finish(input, base, old(p))
    {
      hide Delivered, Inside, SpanHeld;
      var n := |work|;
      carry := [];
      if n >= 1 && work[n - 1] == 0 {
        carry := work[n - 1..];
      } else if n >= 2 && work[n - 2] == 0 && work[n - 1] == 0xFF {
        carry := work[n - 2..];
      } else if n >= 3 && work[n - 3] == 0 && work[n - 2] == 0xFF && work[n - 1] == 0xFF {
        carry := work[n - 3..];
      }
      assert |carry| == TailCarry(work);
      hide TailCarry;
      assert carry == input[|input| - |carry|..];
      FlushTail(pos, base);
    }

    method FlushTail(pos: nat, ghost base: nat)
      requires Scanning(base, pos) && pos + 4 > |work|
      requires |carry| == TailCarry(work) && carry == input[|input| - |carry|..]
      modifies this`p, Current(), this`videoOffset, this`desyncCount, this`overflows
      ensures AtRest() && p == Finish(input, base, old(p))
    {
      hide Delivered, Inside, SpanHeld, TailCarry;
      assert Finish(input, base, p) == p.(pos := |input| - |carry|,
        mode := if p.mode.Video? && |input| - |carry| < p.mode.start then Video(|input| - |carry|) else p.mode);
      hide Finish;
      if state == VideoData {
        var end := |work| - |carry|;
        SpanNotYet(Current()[..], videoOffset, input, p.mode.start, base + videoPendingStart, base + end);
        FlushVideo(videoPendingStart, end, base, p.mode.start);
        if end < videoPendingStart {
          SpanNotYet(Current()[..], videoOffset, input, p.mode.start, base + videoPendingStart, base + end);
        }
      }
      p := Finish(input, base, p);
    }

    /** Decide what of the work buffer the next feed has to see again. */
    method EndFeed(pos: nat, headerPending: bool, ghost base: nat)
      requires Resumes(base, pos) && CodeStep(input, p) == None
      requires headerPending <==> !p.mode.Audio? && pos + 4 <= |work|
      requires p.mode.Audio? ==> pos == |work|
      modifies this`carry, this`p, Current(), this`videoOffset, this`desyncCount, this`overflows
      ensures AtRest() && p == Finish(input, base, old(p))
    {
      hide Delivered, Inside, SpanHeld, PayloadHeld, CodeStep, TailCarry;
      if headerPending {
        CarryHeader(pos, base);
      } else if state != AudioData {
        CarryTail(pos, base);
      } else {
        ScanCases(input, p);
        carry := [];
      }
    }

    /** One USB chunk. */
    method Feed(chunk: seq<Byte>, gapped: bool)
      requires Valid()
      modifies this, buffer0, buffer1
      ensures Valid() && Model() == ParserModel.Feed(old(Model()), chunk, gapped)
      ensures old(emitted) <= emitted
    {
      hide ParserProofs.Valid, AtRest, RunCode, Finish;
      if gapped {
        ResetForGap();
      }
      if |chunk| != 0 {
        FeedChunk(chunk);
      }
    }

    method FeedChunk(chunk: seq<Byte>)
      requires Valid() && chunk != []
      modifies this, buffer0, buffer1
      ensures Valid() && Model() == FeedStep(old(Model()), chunk)
      ensures old(emitted) <= emitted
    {
      hide AtRest, Resumes, RunCode, Finish, CodeStep;
      ghost var m := Model();
      ghost var base := WorkStart(m);
      FeedStepValid(m, chunk);
      Assemble(chunk);
      assert ParserInv(input, p);
      RunInv(input, p);
      var pos, headerPending := ScanLoop(base);
      EndFeed(pos, headerPending, base);
    }
  }

  /** A marker that waits for its header has at most eight bytes in view. */
  lemma PendingIsShort(h: seq<Byte>, p: Parser)
    requires !p.mode.Audio? && p.pos + 4 <= |h| && CodeStep(h, p) == None
    ensures |h| - p.pos <= 8
  {
  }

  /** Nothing of a span that starts here has been flushed, so it may as well start earlier. */
  lemma SpanNotYet(buffer: seq<Byte>, offset: nat, h: seq<Byte>, start: nat, upTo: nat, earlier: nat)
    requires SpanHeld(buffer, offset, h, start, upTo)
    ensures start <= upTo <= |h|
    ensures start == upTo && earlier <= |h| ==> SpanHeld(buffer, offset, h, earlier, earlier)
  {
  }

  /** The scan loop, case by case. */
  lemma ScanCases(h: seq<Byte>, p: Parser)
    ensures p.mode.Audio? ==> CodeStep(h, p) == AudioStep(h, p)
    ensures !p.mode.Audio? && p.pos + 4 > |h| ==> CodeStep(h, p) == None
    ensures !p.mode.Audio? && p.pos + 4 <= |h| ==>
      CodeStep(h, p) == if PrefixAt(h, p.pos) then MarkerStep(h, p) else Some(p.(pos := p.pos + 1))
    ensures RunCode(h, p) == if CodeStep(h, p).Some? then RunCode(h, CodeStep(h, p).value) else p
  {
  }

  /** memcpy into the packet buffer, which grows when needed and never shrinks. */
  function Overwrite(frame: seq<Byte>, offset: nat, data: seq<Byte>): (r: seq<Byte>)
    requires offset <= |frame|
    ensures offset + |data| <= |r| && r[..offset] == frame[..offset]
    ensures r[offset..offset + |data|] == data
  {
    frame[..offset] + data + if offset + |data| < |frame| then frame[offset + |data|..] else []
  }

  lemma PayloadGrows(frame: seq<Byte>, offset: nat, remaining: nat, h: seq<Byte>, start: nat, end: nat,
                     work: seq<Byte>, base: nat, pos: nat, take: nat)
    requires PayloadHeld(frame, offset, remaining, h, start, end)
    requires base <= |h| && work == h[base..] && pos + take <= |work| && take <= remaining
    requires base + pos == start + offset
    ensures offset <= |frame|
    ensures PayloadHeld(Overwrite(frame, offset, work[pos..pos + take]), offset + take, remaining - take, h, start, end)
  {
    var r := Overwrite(frame, offset, work[pos..pos + take]);
    assert r[..offset + take] == r[..offset] + r[offset..offset + take];
    assert h[start..start + offset + take] == h[start..start + offset] + h[base + pos..base + pos + take];
  }

  lemma OutputsStay(h: seq<Byte>, x: seq<Byte>, log: seq<Event>, emitted: seq<Emission>)
    requires Delivered(h, log, emitted) && Inside(h, log)
    ensures Delivered(h + x, log, emitted) && Inside(h + x, log)
  {
    OutputsGrow(h, x, log);
  }

  lemma HeldStays(buffer: seq<Byte>, videoOffset: nat, frame: seq<Byte>, audioOffset: nat, remaining: nat,
                  h: seq<Byte>, x: seq<Byte>, p: Parser, upTo: nat)
    requires match p.mode
      case Idle => true
      case Video(start) => SpanHeld(buffer, videoOffset, h, start, upTo)
      case Audio(start) => PayloadHeld(frame, audioOffset, remaining, h, start, p.pos)
    ensures match p.mode
      case Idle => true
      case Video(start) => SpanHeld(buffer, videoOffset, h + x, start, upTo)
      case Audio(start) => PayloadHeld(frame, audioOffset, remaining, h + x, start, p.pos)
  {
    match p.mode
    case Idle =>
    case Video(start) =>
      assert (h + x)[start..start + videoOffset] == h[start..start + videoOffset];
    case Audio(start) =>
      assert (h + x)[start..start + audioOffset] == h[start..start + audioOffset];
  }

  lemma PayloadSizes(frame: seq<Byte>, offset: nat, remaining: nat, h: seq<Byte>, start: nat, end: nat)
    requires PayloadHeld(frame, offset, remaining, h, start, end)
    ensures offset <= |frame| && start + offset + remaining == end && start + offset <= |h|
  {
  }

  lemma PayloadShown(frame: seq<Byte>, offset: nat, h: seq<Byte>, start: nat, end: nat)
    requires PayloadHeld(frame, offset, 0, h, start, end)
    ensures start <= end <= |h| && offset <= |frame|
    ensures Shows(AudioOut(frame[..offset]), OutputOf(h, Packet(start, end))[0])
  {
  }

  /** A shown frame is the span and nothing else if and only if the span has the whole frame's bytes; a
      shorter one, which the tolerance lets through, is followed by what its buffer held before. */
  lemma FrameIsSpanIff(e: Emission, h: seq<Byte>, start: nat, end: nat)
    requires start <= end <= |h| && Shows(e, OutputOf(h, Frame(start, end))[0])
    ensures |e.pixels| == VIDEO_FRAME_BYTES
    ensures (end - start >= VIDEO_FRAME_BYTES <==> e.pixels == OutputOf(h, Frame(start, end))[0].pixels)
  {
    var n := Min(end - start, VIDEO_FRAME_BYTES);
    var pixels := OutputOf(h, Frame(start, end))[0].pixels;
    assert pixels == h[start..start + n] && pixels <= e.pixels;
    if n == VIDEO_FRAME_BYTES {
      assert e.pixels[..n] == e.pixels;
    }
  }

  /** What is shown of a span held in a buffer: the span, then the buffer's earlier contents. */
  lemma TailIsStale(before: seq<Byte>, after: seq<Byte>, offset: nat, h: seq<Byte>, start: nat, end: nat)
    requires SpanHeld(after, offset, h, start, end) && FrameSized(end - start) && |before| == |after|
    requires forall i | offset <= i < |after| :: after[i] == before[i]
    ensures var n := Min(end - start, VIDEO_FRAME_BYTES);
      after[..VIDEO_FRAME_BYTES] == h[start..start + n] + before[n..VIDEO_FRAME_BYTES]
  {
    var n := Min(end - start, VIDEO_FRAME_BYTES);
    assert after[..n] == after[..offset][..n] == h[start..start + offset][..n] == h[start..start + n];
    assert n < VIDEO_FRAME_BYTES ==> offset == n;
    assert after[n..VIDEO_FRAME_BYTES] == before[n..VIDEO_FRAME_BYTES];
    assert after[..VIDEO_FRAME_BYTES] == after[..n] + after[n..VIDEO_FRAME_BYTES];
  }

  /** A frame-sized span is held completely, and the frame shown starts with it. */
  lemma ShowsSpan(buffer: seq<Byte>, offset: nat, h: seq<Byte>, start: nat, end: nat)
    requires SpanHeld(buffer, offset, h, start, end) && FrameSized(end - start)
    ensures Shows(VideoOut(buffer[..VIDEO_FRAME_BYTES]), OutputOf(h, Frame(start, end))[0])
  {
    var n := Min(end - start, VIDEO_FRAME_BYTES);
    assert buffer[..offset][..n] == h[start..start + offset][..n];
  }

  lemma SavMarker(h: seq<Byte>, p: Parser)
    requires !p.mode.Audio? && p.pos + 4 <= |h| && h[p.pos + 3] == SAV_TYPE
    ensures MarkerStep(h, p) ==
            if |h| - p.pos < SAV_BYTES then None
            else if !SavHeaderValid(h, p.pos + 4) then Some(p.(pos := p.pos + 1))
            else Some(Parser(p.pos + SAV_BYTES, Video(p.pos + SAV_BYTES), h[p.pos + 4], p.desync, p.log + [Sav(p.pos)]))
  {
  }

  lemma EavMarker(h: seq<Byte>, p: Parser)
    requires p.mode.Video? && p.pos + 4 <= |h| && h[p.pos + 3] == EAV_TYPE
    ensures MarkerStep(h, p) ==
            if |h| - p.pos < EAV_BYTES then None
            else if !EavHeaderValid(h, p.pos + 4) then
              Some(Parser(p.pos + EAV_BYTES, Idle, p.b0, p.desync + 1, p.log + [BadEav(p.pos)]))
            else Some(Parser(p.pos + EAV_BYTES, Idle, p.b0, p.desync + if h[p.pos + 4] != p.b0 then 1 else 0,
                             p.log + [EavEvent(p)]))
  {
  }

  /** What a valid EAV at the position ends. */
  function EavEvent(p: Parser): Event
    requires p.mode.Video?
  {
    if FrameSized(p.pos - p.mode.start) then Frame(p.mode.start, p.pos) else Partial(p.mode.start, p.pos)
  }

  lemma AudioMarker(h: seq<Byte>, p: Parser)
    requires !p.mode.Audio? && p.pos + 4 <= |h| && h[p.pos + 3] == AUDIO_TYPE
    ensures MarkerStep(h, p) ==
            if |h| - p.pos < AUDIO_BYTES then None
            else if LengthAt(h, p.pos + 4) > AUDIO_MAX_PACKET_BYTES then Some(p.(pos := p.pos + 1))
            else Some(Parser(p.pos + AUDIO_BYTES + LengthAt(h, p.pos + 4), Audio(p.pos + AUDIO_BYTES), p.b0, p.desync,
                             p.log + [AudioHeader(p.pos)]))
  {
  }

  /** A header in the work buffer is the input's. */
  lemma WorkHeader(h: seq<Byte>, work: seq<Byte>, base: nat, pos: nat)
    requires base <= |h| && work == h[base..] && pos + SAV_BYTES <= |work|
    ensures SavHeaderValid(work, pos + 4) == SavHeaderValid(h, base + pos + 4)
    ensures pos + EAV_BYTES <= |work| ==> EavHeaderValid(work, pos + 4) == EavHeaderValid(h, base + pos + 4)
    ensures LengthAt(work, pos + 4) == LengthAt(h, base + pos + 4)
    ensures work[pos + 4] == h[base + pos + 4]
  {
  }

  lemma FlushHolds(before: seq<Byte>, after: seq<Byte>, offset: nat, bytes: nat,
                   h: seq<Byte>, spanStart: nat, base: nat, start: nat, end: nat, work: seq<Byte>)
    requires SpanHeld(before, offset, h, spanStart, base + start)
    requires base <= |h| && work == h[base..] && start < end <= |work|
    requires bytes == Min(end - start, VIDEO_BUFFER_CAPACITY - offset) && |after| == |before|
    requires forall i | 0 <= i < |before| ::
      after[i] == if offset <= i < offset + bytes then work[start + i - offset] else before[i]
    ensures SpanHeld(after, offset + bytes, h, spanStart, base + end)
  {
    forall i | 0 <= i < offset + bytes ensures after[i] == h[spanStart + i] {
      if i < offset {
        assert before[..offset][i] == h[spanStart..spanStart + offset][i];
      } else {
        assert work[start + i - offset] == h[base + start + i - offset];
      }
    }
  }
}
