/** What FrameBuilder computes, as functions of the bytes fed to it.

    `h` is every byte fed since construction and all positions index it, so a video span or an audio
    payload is a slice of `h` however it was cut into chunks. */
module ParserModel {
  import opened Markers
  import opened Sequences

  const VIDEO_FRAME_BYTES: nat := 1920 * 1080 * 2
  const FRAME_SIZE_TOLERANCE: nat := 0x4000
  const AUDIO_MAX_PACKET_BYTES: nat := 256 * 1024

  /** Between markers; inside a video span that starts at `start`; or inside an audio payload that
      starts at `start` (and ends at the parser's position). */
  datatype Mode = Idle | Video(start: nat) | Audio(start: nat)

  /** Everything the parser recognises, by position. Only frames and packets reach the outputs. */
  datatype Event =
    | Sav(at: nat)
    | AudioHeader(at: nat)
    | BadEav(at: nat)
    | Partial(start: nat, end: nat)
    | Frame(start: nat, end: nat)
    | Packet(start: nat, end: nat)
    | Gap(at: nat)

  datatype Parser = Parser(pos: nat, mode: Mode, b0: Byte, desync: nat, log: seq<Event>)

  /** A span this long is shown as a frame. */
  predicate FrameSized(n: int) {
    VIDEO_FRAME_BYTES - FRAME_SIZE_TOLERANCE <= n <= VIDEO_FRAME_BYTES + FRAME_SIZE_TOLERANCE
  }

  /** The big-endian payload length at `p`. */
  function LengthAt(h: seq<Byte>, p: nat): nat
    requires p + 4 <= |h|
  {
    h[p] as int * 0x1000000 + h[p + 1] as int * 0x10000 + h[p + 2] as int * 0x100 + h[p + 3] as int
  }

  /** What the marker at the position does; `None` while part of its header is still to come. */
  function MarkerStep(h: seq<Byte>, p: Parser): Option<Parser>
    requires !p.mode.Audio? && p.pos + 4 <= |h|
  {
    var at, room, t := p.pos, |h| - p.pos, h[p.pos + 3];
    if t == SAV_TYPE then
      if room < SAV_BYTES then None
      else if !SavHeaderValid(h, at + 4) then Some(p.(pos := at + 1))
      else Some(Parser(at + SAV_BYTES, Video(at + SAV_BYTES), h[at + 4], p.desync, p.log + [Sav(at)]))
    else if t == EAV_TYPE then
      if !p.mode.Video? then Some(p.(pos := at + 1))
      else if room < EAV_BYTES then None
      else if !EavHeaderValid(h, at + 4) then
        Some(Parser(at + EAV_BYTES, Idle, p.b0, p.desync + 1, p.log + [BadEav(at)]))
      else
        var span := if FrameSized(at - p.mode.start) then Frame(p.mode.start, at) else Partial(p.mode.start, at);
        Some(Parser(at + EAV_BYTES, Idle, p.b0, p.desync + if h[at + 4] != p.b0 then 1 else 0, p.log + [span]))
    else if t == AUDIO_TYPE then
      if room < AUDIO_BYTES then None
      else if LengthAt(h, at + 4) > AUDIO_MAX_PACKET_BYTES then Some(p.(pos := at + 1))
      else Some(Parser(at + AUDIO_BYTES + LengthAt(h, at + 4), Audio(at + AUDIO_BYTES), p.b0, p.desync,
                       p.log + [AudioHeader(at)]))
    else Some(p.(pos := at + 1))
  }

  /** An audio payload is opaque and ends exactly at its declared length. */
  function AudioStep(h: seq<Byte>, p: Parser): Option<Parser>
    requires p.mode.Audio?
  {
    if p.pos <= |h| then Some(p.(mode := Idle, log := p.log + [Packet(p.mode.start, p.pos)])) else None
  }

  // ---------------------------------------------------------------- the parser as the code scans

  /** One turn of the scan loop, which looks at a position only with four bytes in view. */
  function CodeStep(h: seq<Byte>, p: Parser): Option<Parser> {
    if p.mode.Audio? then AudioStep(h, p)
    else if p.pos + 4 > |h| then None
    else if !PrefixAt(h, p.pos) then Some(p.(pos := p.pos + 1))
    else MarkerStep(h, p)
  }

  function RunCode(h: seq<Byte>, p: Parser): Parser
    decreases if p.pos <= |h| then |h| - p.pos + 1 else 0, if p.mode.Audio? then 1 else 0
  {
    match CodeStep(h, p)
    case None => p
    case Some(p') => RunCode(h, p')
  }

  // ---------------------------------------------------------------- the reference parser

  /** No marker starts at `p`, whatever comes next. */
  predicate RulesOut(h: seq<Byte>, p: nat) {
    p < |h| && (h[p] != 0 || (p + 1 < |h| && h[p + 1] != 0xFF) || (p + 2 < |h| && h[p + 2] != 0xFF))
  }

  /** Passes a position as soon as the bytes in view rule it out; otherwise waits for the rest. */
  function ParseStep(h: seq<Byte>, p: Parser): Option<Parser> {
    if p.mode.Audio? then AudioStep(h, p)
    else if RulesOut(h, p.pos) then Some(p.(pos := p.pos + 1))
    else if p.pos + 4 > |h| then None
    else MarkerStep(h, p)
  }

  function Parse(h: seq<Byte>, p: Parser): Parser
    decreases if p.pos <= |h| then |h| - p.pos + 1 else 0, if p.mode.Audio? then 1 else 0
  {
    match ParseStep(h, p)
    case None => p
    case Some(p') => Parse(h, p')
  }

  // ---------------------------------------------------------------- one feed

  datatype Builder = Builder(h: seq<Byte>, p: Parser)

  function Fresh(): Builder {
    Builder([], Parser(0, Idle, 0, 0, []))
  }

  /** Bytes were lost: nothing before the end of the input is looked at again. */
  function Reset(m: Builder): Builder {
    m.(p := Parser(|m.h|, Idle, m.p.b0, m.p.desync, m.p.log + [Gap(|m.h|)]))
  }

  /** How many bytes at the end of a work buffer could start a marker. */
  function TailCarry(buf: seq<Byte>): (c: nat)
    ensures c <= |buf| && c <= 3
  {
    var n := |buf|;
    if n >= 1 && buf[n - 1] == 0 then 1
    else if n >= 2 && buf[n - 2] == 0 && buf[n - 1] == 0xFF then 2
    else if n >= 3 && buf[n - 3] == 0 && buf[n - 2] == 0xFF && buf[n - 1] == 0xFF then 3
    else 0
  }

  /** Where the work buffer of the next feed starts: at the carried bytes. */
  function WorkStart(m: Builder): nat {
    if m.p.pos <= |m.h| then m.p.pos else |m.h|
  }

  /** The end of a feed: a marker waiting for its header, or else the last bytes of the work buffer if
      they could start one, are carried over. The scan position is not consulted. */
  function Finish(h: seq<Byte>, work: nat, p: Parser): Parser
    requires work <= |h|
  {
    if p.mode.Audio? || p.pos + 4 <= |h| then p
    else
      var end := |h| - TailCarry(h[work..]);
      p.(pos := end, mode := if p.mode.Video? && end < p.mode.start then Video(end) else p.mode)
  }

  /** Continue the parse with one more chunk, as the code does. */
  function FeedStep(m: Builder, chunk: seq<Byte>): Builder {
    if chunk == [] then m
    else
      var h := m.h + chunk;
      Builder(h, Finish(h, WorkStart(m), RunCode(h, m.p)))
  }

  function Feed(m: Builder, chunk: seq<Byte>, gapped: bool): Builder {
    FeedStep(if gapped then Reset(m) else m, chunk)
  }

  /** The bytes carried out of this feed lie at or after its final scan position. */
  predicate CleanCut(m: Builder, chunk: seq<Byte>) {
    var h := m.h + chunk;
    var p := RunCode(h, m.p);
    p.mode.Audio? || p.pos + 4 <= |h| || TailCarry(h[WorkStart(m)..]) <= |h| - p.pos
  }

  // ---------------------------------------------------------------- what the outputs receive

  datatype Output = Picture(pixels: seq<Byte>) | Sound(pcm: seq<Byte>)

  function Slice(h: seq<Byte>, start: nat, end: nat): seq<Byte> {
    if start <= end <= |h| then h[start..end] else []
  }

  /** A frame shows the span, as far as it goes; a packet is the payload. */
  function OutputOf(h: seq<Byte>, e: Event): seq<Output> {
    match e
    case Frame(start, end) => [Picture(Slice(h, start, Min(end, start + VIDEO_FRAME_BYTES)))]
    case Packet(start, end) => [Sound(Slice(h, start, end))]
    case _ => []
  }

  function Outputs(h: seq<Byte>, log: seq<Event>): seq<Output> {
    if log == [] then [] else Outputs(h, log[..|log| - 1]) + OutputOf(h, log[|log| - 1])
  }
}
