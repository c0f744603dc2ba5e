/** The stream the device sends, and that parsing it gives back what went in. */
module RoundTrip {
  import opened Markers
  import opened Sequences
  import opened ParserModel
  import opened ParserProofs
  import opened ParserSound

  /** A checksummed video span or a length-declared audio packet, after some padding. */
  datatype Piece =
    | VideoPiece(padding: seq<Byte>, sav: seq<Byte>, pixels: seq<Byte>, eav: seq<Byte>)
    | AudioPiece(padding: seq<Byte>, pcm: seq<Byte>)

  /** If something at `i` looks like a marker, the parser passes it: its type is unknown, its header is
      invalid, its length is implausible, or it ends a frame where there is none. */
  predicate Ignored(s: seq<Byte>, i: nat, inFrame: bool) {
    PrefixAt(s, i) ==>
      && i + 4 <= |s|
      && (s[i + 3] == SAV_TYPE ==> i + SAV_BYTES <= |s| && !SavHeaderValid(s, i + 4))
      && (s[i + 3] == EAV_TYPE ==> !inFrame)
      && (s[i + 3] == AUDIO_TYPE ==> i + AUDIO_BYTES <= |s| && LengthAt(s, i + 4) > AUDIO_MAX_PACKET_BYTES)
  }

  ghost predicate Passed(s: seq<Byte>, inFrame: bool) {
    forall i: nat | i < |s| :: Ignored(s, i, inFrame)
  }

  /** Nothing inside that a parser recognises, in a frame or between frames; audio payloads may hold anything. */
  ghost predicate Plain(s: seq<Byte>) { Passed(s, true) }

  /** Nothing inside that an idle parser recognises: a stray EAV is passed. */
  ghost predicate Quiet(s: seq<Byte>) { Passed(s, false) }

  ghost predicate WellFormed(piece: Piece) {
    && Quiet(piece.padding)
    && match piece
       case VideoPiece(_, sav, pixels, eav) =>
         |sav| == 4 && SavHeaderValid(sav, 0) && Plain(pixels) && |eav| == 5 && EavHeaderValid(eav, 0)
       case AudioPiece(_, pcm) => |pcm| <= AUDIO_MAX_PACKET_BYTES
  }

  /** The four bytes of an unsigned 32-bit number, most significant first. */
  function BigEndian(n: nat): (s: seq<Byte>)
    ensures |s| == 4 && (n < 0x1_0000_0000 ==> LengthAt(s, 0) == n)
  {
    var low, rest := n % 0x100, n / 0x100;
    var low', rest' := rest % 0x100, rest / 0x100;
    var low'', rest'' := rest' % 0x100, rest' / 0x100;
    [rest'' % 0x100, low'', low', low]
  }

  function Header(t: Byte): seq<Byte> { [0, 0xFF, 0xFF, t] }

  function Encode(piece: Piece): seq<Byte>
  {
    match piece
    case VideoPiece(padding, sav, pixels, eav) =>
      padding + (Header(SAV_TYPE) + sav) + pixels + (Header(EAV_TYPE) + eav)
    case AudioPiece(padding, pcm) =>
      padding + (Header(AUDIO_TYPE) + BigEndian(|pcm|)) + pcm
  }

  function EncodeAll(pieces: seq<Piece>): seq<Byte>
  {
    if pieces == [] then [] else Encode(pieces[0]) + EncodeAll(pieces[1..])
  }

  /** What the outputs should receive for a piece. */
  function Shown(piece: Piece): seq<Output> {
    match piece
    case VideoPiece(_, _, pixels, _) =>
      if FrameSized(|pixels|) then [Picture(pixels[..Min(|pixels|, VIDEO_FRAME_BYTES)])] else []
    case AudioPiece(_, pcm) => [Sound(pcm)]
  }

  function ShownAll(pieces: seq<Piece>): seq<Output> {
    if pieces == [] then [] else Shown(pieces[0]) + ShownAll(pieces[1..])
  }

  /** `part` lies at `at` in `h`. */
  ghost predicate LiesAt(h: seq<Byte>, at: nat, part: seq<Byte>) {
    at + |part| <= |h| && h[at..at + |part|] == part
  }

  lemma LiesApart(h: seq<Byte>, at: nat, a: seq<Byte>, b: seq<Byte>)
    requires LiesAt(h, at, a + b)
    ensures LiesAt(h, at, a) && LiesAt(h, at + |a|, b)
  {
    var ab := h[at..at + |a + b|];
    assert ab[..|a|] == a && ab[|a|..] == b;
    assert h[at..at + |a|] == ab[..|a|];
    assert h[at + |a|..at + |a| + |b|] == ab[|a|..];
  }

  /** Bytes in which the parser recognises nothing, followed by a marker, are passed. */
  lemma {:induction false} ParsePassed(h: seq<Byte>, p: Parser, s: seq<Byte>, t: Byte)
    requires !p.mode.Audio? && LiesAt(h, p.pos, s + Header(t)) && Passed(s, p.mode.Video?)
    ensures Parse(h, p) == Parse(h, p.(pos := p.pos + |s|))
    decreases |s|
  {
    if s != [] {
      PassedStep(h, p, s, t);
      hide LiesAt, Passed, Header, ParseStep;
      ParsePassed(h, p.(pos := p.pos + 1), s[1..], t);
    }
  }

  lemma PassedStep(h: seq<Byte>, p: Parser, s: seq<Byte>, t: Byte)
    requires s != [] && !p.mode.Audio? && LiesAt(h, p.pos, s + Header(t)) && Passed(s, p.mode.Video?)
    ensures LiesAt(h, p.pos + 1, s[1..] + Header(t)) && Passed(s[1..], p.mode.Video?)
    ensures ParseStep(h, p) == Some(p.(pos := p.pos + 1))
  {
    var at, all, rest := p.pos, s + Header(t), s[1..];
    var here := h[at..at + |all|];
    assert rest + Header(t) == all[1..] && h[at + 1..at + |all|] == here[1..];
    assert forall i | 0 <= i < |all| :: h[at + i] == all[i];
    IgnoredThere(s, rest, 1, p.mode.Video?);
    assert Ignored(s, 0, p.mode.Video?);
    hide Passed, LiesAt;
    SeenThere(h, at, s, t);
  }

  lemma SeenThere(h: seq<Byte>, at: nat, s: seq<Byte>, t: Byte)
    requires s != [] && at + |s| + 4 <= |h|
    requires forall i | 0 <= i < |s| + 4 :: h[at + i] == (s + Header(t))[i]
    ensures !RulesOut(h, at) ==> PrefixAt(h, at) && PrefixAt(s, 0)
    ensures |s| >= 4 ==> h[at + 3] == s[3]
    ensures |s| >= 8 ==>
      SavHeaderValid(h, at + 4) == SavHeaderValid(s, 4) && LengthAt(h, at + 4) == LengthAt(s, 4)
  {
    var all := s + Header(t);
    assert h[at + 0] == all[0] && h[at + 1] == all[1] && h[at + 2] == all[2] && h[at + 3] == all[3];
    if |s| >= 8 {
      assert h[at + 4] == all[4] && h[at + 5] == all[5] && h[at + 6] == all[6] && h[at + 7] == all[7];
    }
  }

  /** What is ignored inside a part is ignored inside the whole, and the other way round for its end. */
  lemma IgnoredThere(s: seq<Byte>, rest: seq<Byte>, off: nat, inFrame: bool)
    requires off <= |s| && rest == s[off..] && Passed(s, inFrame)
    ensures Passed(rest, inFrame)
  {
    forall i: nat | i < |rest| ensures Ignored(rest, i, inFrame) {
      assert Ignored(s, off + i, inFrame);
    }
  }

  /** What precedes a frame's SAV on the device is quiet: the end of the frame before it, its EAV, and
      filler. */
  lemma FrameEndIsQuiet(pixels: seq<Byte>, eav: seq<Byte>, filler: seq<Byte>)
    requires Plain(pixels) && Plain(eav + filler)
    ensures Quiet(pixels + Header(EAV_TYPE) + (eav + filler))
  {
    var s, n := pixels + Header(EAV_TYPE) + (eav + filler), |pixels|;
    assert s[n] == 0 && s[n + 1] == 0xFF && s[n + 2] == 0xFF && s[n + 3] == EAV_TYPE;
    assert pixels == s[0..n] && eav + filler == s[n + 4..n + 4 + |eav + filler|];
    forall i: nat | i < |s| ensures Ignored(s, i, false) {
      if i + 3 <= n {
        assert Ignored(pixels, i, true);
      } else if i >= n + 4 && i + 3 <= |s| {
        assert Ignored(eav + filler, i - n - 4, true);
      }
    }
  }

  /** A marker and its header seen in place. */
  lemma HeaderSeen(h: seq<Byte>, at: nat, t: Byte, header: seq<Byte>)
    requires LiesAt(h, at, Header(t) + header)
    ensures at + 4 + |header| <= |h| && PrefixAt(h, at) && h[at + 3] == t && !RulesOut(h, at)
    ensures forall i | at + 4 <= i < at + 4 + |header| :: h[i] == header[i - at - 4]
  {
    var all := Header(t) + header;
    var here := h[at..at + |all|];
    assert here == all;
    assert here[0] == h[at] && here[1] == h[at + 1] && here[2] == h[at + 2] && here[3] == h[at + 3];
    assert forall i | at + 4 <= i < at + 4 + |header| :: h[i] == here[i - at];
  }

  lemma ParseSav(h: seq<Byte>, p: Parser, sav: seq<Byte>)
    requires !p.mode.Audio? && |sav| == 4 && SavHeaderValid(sav, 0) && LiesAt(h, p.pos, Header(SAV_TYPE) + sav)
    ensures Parse(h, p)
         == Parse(h, Parser(p.pos + SAV_BYTES, Video(p.pos + SAV_BYTES), sav[0], p.desync, p.log + [Sav(p.pos)]))
  {
    HeaderSeen(h, p.pos, SAV_TYPE, sav);
    assert SavHeaderValid(h, p.pos + 4);
  }

  lemma ParseEav(h: seq<Byte>, p: Parser, eav: seq<Byte>)
    requires p.mode.Video? && |eav| == 5 && EavHeaderValid(eav, 0) && LiesAt(h, p.pos, Header(EAV_TYPE) + eav)
    ensures var start := p.mode.start;
      Parse(h, p) == Parse(h, Parser(p.pos + EAV_BYTES, Idle, p.b0, p.desync + if eav[0] != p.b0 then 1 else 0,
        p.log + [if FrameSized(p.pos - start) then Frame(start, p.pos) else Partial(start, p.pos)]))
  {
    HeaderSeen(h, p.pos, EAV_TYPE, eav);
    assert EavHeaderValid(h, p.pos + 4);
  }

  lemma ParseAudio(h: seq<Byte>, p: Parser, pcm: seq<Byte>)
    requires !p.mode.Audio? && |pcm| <= AUDIO_MAX_PACKET_BYTES
    requires LiesAt(h, p.pos, (Header(AUDIO_TYPE) + BigEndian(|pcm|)) + pcm)
    ensures var start := p.pos + AUDIO_BYTES;
      Parse(h, p) == Parse(h, p.(pos := start + |pcm|, mode := Idle,
                                 log := p.log + [AudioHeader(p.pos), Packet(start, start + |pcm|)]))
  {
    var length := BigEndian(|pcm|);
    LiesApart(h, p.pos, Header(AUDIO_TYPE) + length, pcm);
    HeaderSeen(h, p.pos, AUDIO_TYPE, length);
    assert LengthAt(h, p.pos + 4) == LengthAt(length, 0);
    var p1 := ParseStep(h, p).value;
    var p2 := ParseStep(h, p1).value;
    assert p2.log == p.log + [AudioHeader(p.pos), Packet(p.pos + AUDIO_BYTES, p1.pos)];
    assert Parse(h, p1) == Parse(h, p2);
  }

  lemma OutputsAfter(h: seq<Byte>, log: seq<Event>, first: Event, second: Event)
    ensures Outputs(h, log + [first, second]) == Outputs(h, log) + OutputOf(h, first) + OutputOf(h, second)
  {
    var more := log + [first, second];
    assert more[..|more| - 1] == log + [first];
    assert (log + [first])[..|log|] == log;
  }

  /** A piece may follow what the parser is at: whatever it is at, if it is no payload and the padding is
      passed there. */
  ghost predicate FitsAt(p: Parser, piece: Piece) {
    !p.mode.Audio? && WellFormed(piece) && (p.mode.Video? ==> Plain(piece.padding))
  }

  /** One piece takes the parser past itself and shows what it should, and nothing else: a span that was
      open before it is dropped, whether a SAV restarts it or a packet cuts it. */
  lemma ParsePiece(h: seq<Byte>, p: Parser, piece: Piece) returns (p': Parser)
    requires FitsAt(p, piece) && LiesAt(h, p.pos, Encode(piece))
    ensures p'.mode.Idle? && p'.pos == p.pos + |Encode(piece)| && Parse(h, p) == Parse(h, p')
    ensures Outputs(h, p'.log) == Outputs(h, p.log) + Shown(piece)
  {
    match piece
    case VideoPiece(padding, sav, pixels, eav) => p' := ParseVideoPiece(h, p, padding, sav, pixels, eav);
    case AudioPiece(padding, pcm) => p' := ParseAudioPiece(h, p, padding, pcm);
  }

  lemma ParseAudioPiece(h: seq<Byte>, p: Parser, padding: seq<Byte>, pcm: seq<Byte>) returns (p': Parser)
    requires FitsAt(p, AudioPiece(padding, pcm))
    requires LiesAt(h, p.pos, Encode(AudioPiece(padding, pcm)))
    ensures p'.mode.Idle? && p'.pos == p.pos + |Encode(AudioPiece(padding, pcm))| && Parse(h, p) == Parse(h, p')
    ensures Outputs(h, p'.log) == Outputs(h, p.log) + [Sound(pcm)]
  {
    hide Parse, Outputs, PrefixAt, LiesAt, Encode, BigEndian;
    var at := p.pos + |padding|;
    var start := at + AUDIO_BYTES;
    AudioLayout(h, p.pos, padding, pcm);
    ParsePassed(h, p, padding, AUDIO_TYPE);
    ParseAudio(h, p.(pos := at), pcm);
    p' := p.(pos := start + |pcm|, mode := Idle, log := p.log + [AudioHeader(at), Packet(start, start + |pcm|)]);
    OutputsAfter(h, p.log, AudioHeader(at), Packet(start, start + |pcm|));
    PayloadLies(h, start, pcm);
  }

  lemma PayloadLies(h: seq<Byte>, start: nat, part: seq<Byte>)
    requires LiesAt(h, start, part)
    ensures Slice(h, start, start + |part|) == part
  {
  }

  lemma AudioLayout(h: seq<Byte>, p: nat, padding: seq<Byte>, pcm: seq<Byte>)
    requires LiesAt(h, p, Encode(AudioPiece(padding, pcm)))
    ensures var at := p + |padding|;
      && LiesAt(h, p, padding + Header(AUDIO_TYPE))
      && LiesAt(h, at, (Header(AUDIO_TYPE) + BigEndian(|pcm|)) + pcm)
      && LiesAt(h, at + AUDIO_BYTES, pcm)
    ensures |Encode(AudioPiece(padding, pcm))| == |padding| + AUDIO_BYTES + |pcm|
  {
    hide LiesAt, LengthAt;
    var header := Header(AUDIO_TYPE) + BigEndian(|pcm|);
    assert Encode(AudioPiece(padding, pcm)) == padding + (header + pcm);
    assert padding + (header + pcm) == (padding + Header(AUDIO_TYPE)) + (BigEndian(|pcm|) + pcm);
    LiesApart(h, p, padding, header + pcm);
    LiesApart(h, p, padding + Header(AUDIO_TYPE), BigEndian(|pcm|) + pcm);
    LiesApart(h, p + |padding|, header, pcm);
  }

  lemma ParseVideoPiece(h: seq<Byte>, p: Parser, padding: seq<Byte>, sav: seq<Byte>, pixels: seq<Byte>, eav: seq<Byte>)
      returns (p': Parser)
    requires FitsAt(p, VideoPiece(padding, sav, pixels, eav))
    requires LiesAt(h, p.pos, Encode(VideoPiece(padding, sav, pixels, eav)))
    ensures p'.mode.Idle? && p'.pos == p.pos + |Encode(VideoPiece(padding, sav, pixels, eav))|
    ensures Parse(h, p) == Parse(h, p')
    ensures Outputs(h, p'.log) == Outputs(h, p.log) + Shown(VideoPiece(padding, sav, pixels, eav))
    ensures p'.desync == p.desync + if eav[0] != sav[0] then 1 else 0
  {
    hide Parse, Outputs, LiesAt, Encode, SavHeaderValid, EavHeaderValid;
    var at := p.pos + |padding|;
    var start, end := at + SAV_BYTES, at + SAV_BYTES + |pixels|;
    VideoLayout(h, p.pos, padding, sav, pixels, eav);
    ParsePassed(h, p, padding, SAV_TYPE);
    ParseSav(h, p.(pos := at), sav);
    var p1 := Parser(start, Video(start), sav[0], p.desync, p.log + [Sav(at)]);
    ParsePassed(h, p1, pixels, EAV_TYPE);
    ParseEav(h, p1.(pos := end), eav);
    var span := if FrameSized(|pixels|) then Frame(start, end) else Partial(start, end);
    p' := Parser(end + EAV_BYTES, Idle, sav[0], p.desync + if eav[0] != sav[0] then 1 else 0,
                 p.log + [Sav(at), span]);
    assert p1.log + [span] == p'.log;
    OutputsAfter(h, p.log, Sav(at), span);
    SliceLies(h, start, pixels);
  }

  lemma ParseBadEav(h: seq<Byte>, p: Parser, eav: seq<Byte>)
    requires p.mode.Video? && |eav| == 5 && !EavHeaderValid(eav, 0) && LiesAt(h, p.pos, Header(EAV_TYPE) + eav)
    ensures Parse(h, p) == Parse(h, Parser(p.pos + EAV_BYTES, Idle, p.b0, p.desync + 1, p.log + [BadEav(p.pos)]))
  {
    HeaderSeen(h, p.pos, EAV_TYPE, eav);
    assert EavHeaderValid(h, p.pos + 4) == EavHeaderValid(eav, 0);
  }

  /** A frame whose EAV is damaged is not shown, nor is anything until the next SAV; it is counted. */
  lemma SpoiledFrame(h: seq<Byte>, p: Parser, padding: seq<Byte>, sav: seq<Byte>, pixels: seq<Byte>, eav: seq<Byte>)
      returns (p': Parser)
    requires !p.mode.Audio? && Passed(padding, p.mode.Video?) && Plain(pixels)
    requires |sav| == 4 && SavHeaderValid(sav, 0) && |eav| == 5 && !EavHeaderValid(eav, 0)
    requires LiesAt(h, p.pos, Encode(VideoPiece(padding, sav, pixels, eav)))
    ensures p'.mode.Idle? && p'.pos == p.pos + |Encode(VideoPiece(padding, sav, pixels, eav))|
    ensures Parse(h, p) == Parse(h, p') && Outputs(h, p'.log) == Outputs(h, p.log) && p'.desync == p.desync + 1
  {
    hide Parse, Outputs, LiesAt, Encode, SavHeaderValid, EavHeaderValid;
    var at := p.pos + |padding|;
    var start, end := at + SAV_BYTES, at + SAV_BYTES + |pixels|;
    VideoLayout(h, p.pos, padding, sav, pixels, eav);
    ParsePassed(h, p, padding, SAV_TYPE);
    ParseSav(h, p.(pos := at), sav);
    var p1 := Parser(start, Video(start), sav[0], p.desync, p.log + [Sav(at)]);
    ParsePassed(h, p1, pixels, EAV_TYPE);
    ParseBadEav(h, p1.(pos := end), eav);
    p' := Parser(end + EAV_BYTES, Idle, sav[0], p.desync + 1, p.log + [Sav(at), BadEav(end)]);
    assert p1.log + [BadEav(end)] == p'.log;
    OutputsAfter(h, p.log, Sav(at), BadEav(end));
  }

  lemma SliceLies(h: seq<Byte>, start: nat, part: seq<Byte>)
    requires LiesAt(h, start, part)
    ensures Slice(h, start, Min(start + |part|, start + VIDEO_FRAME_BYTES)) == part[..Min(|part|, VIDEO_FRAME_BYTES)]
  {
    var n := Min(|part|, VIDEO_FRAME_BYTES);
    assert h[start..start + n] == h[start..start + |part|][..n];
  }

  lemma VideoLayout(h: seq<Byte>, p: nat, padding: seq<Byte>, sav: seq<Byte>, pixels: seq<Byte>, eav: seq<Byte>)
    requires |sav| == 4 && |eav| == 5 && LiesAt(h, p, Encode(VideoPiece(padding, sav, pixels, eav)))
    ensures var at := p + |padding|;
      && LiesAt(h, p, padding + Header(SAV_TYPE))
      && LiesAt(h, at, Header(SAV_TYPE) + sav)
      && LiesAt(h, at + SAV_BYTES, pixels)
      && LiesAt(h, at + SAV_BYTES, pixels + Header(EAV_TYPE))
      && LiesAt(h, at + SAV_BYTES + |pixels|, Header(EAV_TYPE) + eav)
    ensures |Encode(VideoPiece(padding, sav, pixels, eav))| == |padding| + SAV_BYTES + |pixels| + EAV_BYTES
  {
    hide LiesAt;
    var opening, closing := Header(SAV_TYPE) + sav, Header(EAV_TYPE) + eav;
    var start := p + |padding| + SAV_BYTES;
    VideoCode(padding, sav, pixels, eav);
    hide Encode;
    LiesApart(h, p, padding, opening + (pixels + closing));
    LiesApart(h, p, padding + Header(SAV_TYPE), sav + (pixels + closing));
    LiesApart(h, p + |padding|, opening, pixels + closing);
    LiesApart(h, start, pixels, closing);
    assert pixels + closing == (pixels + Header(EAV_TYPE)) + eav;
    LiesApart(h, start, pixels + Header(EAV_TYPE), eav);
  }

  lemma VideoCode(padding: seq<Byte>, sav: seq<Byte>, pixels: seq<Byte>, eav: seq<Byte>)
    ensures var code := Encode(VideoPiece(padding, sav, pixels, eav));
      var rest := pixels + (Header(EAV_TYPE) + eav);
      && code == padding + ((Header(SAV_TYPE) + sav) + rest)
      && code == (padding + Header(SAV_TYPE)) + (sav + rest)
  {
    var opening, closing := Header(SAV_TYPE) + sav, Header(EAV_TYPE) + eav;
    assert padding + opening + pixels + closing == padding + (opening + (pixels + closing));
    hide Header;
    assert padding + (opening + (pixels + closing)) == (padding + Header(SAV_TYPE)) + (sav + (pixels + closing));
  }

  /** Main result: parsing an encoded stream gives back its frames and packets, in order. */
  lemma {:induction false} ParseInvertsEncode(h: seq<Byte>, p: Parser, pieces: seq<Piece>) returns (p': Parser)
    requires p.mode.Idle? && (forall k | 0 <= k < |pieces| :: WellFormed(pieces[k]))
    requires LiesAt(h, p.pos, EncodeAll(pieces))
    ensures p'.mode.Idle? && p'.pos == p.pos + |EncodeAll(pieces)| && Parse(h, p) == Parse(h, p')
    ensures Outputs(h, p'.log) == Outputs(h, p.log) + ShownAll(pieces)
    decreases |pieces|
  {
    hide Parse, WellFormed, Shown, Encode, LiesAt, Outputs;
    if pieces == [] {
      p' := p;
    } else {
      var rest := pieces[1..];
      assert forall k | 0 <= k < |rest| :: rest[k] == pieces[k + 1];
      LiesApart(h, p.pos, Encode(pieces[0]), EncodeAll(rest));
      var p1 := ParsePiece(h, p, pieces[0]);
      p' := ParseInvertsEncode(h, p1, rest);
      assert Outputs(h, p.log) + Shown(pieces[0]) + ShownAll(rest) == Outputs(h, p.log) + ShownAll(pieces);
    }
  }

  // ---------------------------------------------------------------- sizes and lengths

  /** The number whose digits, base 256, are these bytes. */
  function Value(s: seq<Byte>): nat {
    if s == [] then 0 else Value(s[..|s| - 1]) * 0x100 + s[|s| - 1] as int
  }

  /** A packet's length is its four bytes read as a number, most significant byte first. */
  lemma LengthIsValue(h: seq<Byte>, p: nat)
    requires p + 4 <= |h|
    ensures LengthAt(h, p) == Value(h[p..p + 4])
  {
    var s := h[p..p + 4];
    assert s[..3][..2] == s[..2] && s[..2][..1] == s[..1] && s[..1][..0] == [];
    assert Value(s[..1]) == s[0] as int;
    assert Value(s[..2]) == s[0] as int * 0x100 + s[1] as int;
    assert Value(s[..3]) == (s[0] as int * 0x100 + s[1] as int) * 0x100 + s[2] as int;
  }

  /** A frame's span is that of 1080 lines of 1920 two-byte pixels, give or take one buffer. */
  lemma FrameSizes(n: int)
    ensures FrameSized(n) <==> -16384 <= n - 1920 * 1080 * 2 <= 16384
    ensures FrameSized(4_130_816) && FrameSized(4_163_584) && !FrameSized(4_130_815) && !FrameSized(4_163_585)
  {
  }

  // ---------------------------------------------------------------- after a gap

  /** The first SAV and EAV after a gap are shown if their span has a frame's size, whether or not their
      counters agree; a mismatch is only counted. */
  lemma FirstSpanAfterGap(m: Builder, padding: seq<Byte>, sav: seq<Byte>, pixels: seq<Byte>, eav: seq<Byte>)
    requires WellFormed(VideoPiece(padding, sav, pixels, eav))
    ensures var piece := VideoPiece(padding, sav, pixels, eav);
      var m' := ParserModel.Feed(m, Encode(piece), true);
      && Outputs(m'.h, m'.p.log) == Outputs(m'.h, m.p.log) + Shown(piece)
      && m'.p.desync == m.p.desync + if eav[0] != sav[0] then 1 else 0
  {
    hide WellFormed, Shown, Outputs, Encode, FeedStep;
    var piece, m0 := VideoPiece(padding, sav, pixels, eav), Reset(m);
    var h := m.h + Encode(piece);
    ResetValid(m);
    assert h[|m.h|..] == Encode(piece);
    WellFormedSizes(padding, sav, pixels, eav);
    var p' := ParseVideoPiece(h, m0.p, padding, sav, pixels, eav);
    assert Parse(h, p') == p';
    FeedLog(m0, Encode(piece));
    GapShowsNothing(h, m);
    FedBytes(m0, Encode(piece));
  }

  lemma WellFormedSizes(padding: seq<Byte>, sav: seq<Byte>, pixels: seq<Byte>, eav: seq<Byte>)
    requires WellFormed(VideoPiece(padding, sav, pixels, eav))
    ensures |sav| == 4 && |eav| == 5 && Encode(VideoPiece(padding, sav, pixels, eav)) != []
  {
  }

  lemma GapShowsNothing(h: seq<Byte>, m: Builder)
    ensures Outputs(h, Reset(m).p.log) == Outputs(h, m.p.log)
  {
    assert Reset(m).p.log[..|m.p.log|] == m.p.log;
  }

  lemma FedBytes(m: Builder, chunk: seq<Byte>)
    ensures FeedStep(m, chunk).h == m.h + chunk
  {
  }

  /** A span of the least size that is shown. */
  function ShortFrame(): Piece {
    VideoPiece([], [1, 0, 0x3F, 0], seq(VIDEO_FRAME_BYTES - FRAME_SIZE_TOLERANCE, _ => 1), [1, 0, 0, 0, 0xC2])
  }

  /** It is shown as a frame of which the stream has only these bytes. */
  lemma ShortFrameIsShown(m: Builder)
    ensures var piece := ShortFrame();
      var m' := ParserModel.Feed(m, Encode(piece), true);
      && WellFormed(piece) && |piece.pixels| < VIDEO_FRAME_BYTES
      && Outputs(m'.h, m'.p.log) == Outputs(m'.h, m.p.log) + [Picture(piece.pixels)]
  {
    var piece := ShortFrame();
    FirstSpanAfterGap(m, piece.padding, piece.sav, piece.pixels, piece.eav);
    hide Encode, Outputs, FeedStep;
    assert piece.pixels[..|piece.pixels|] == piece.pixels;
  }

  /** A frame whose EAV carries another counter than its SAV. */
  function MismatchedFrame(): Piece {
    VideoPiece([], [1, 0, 0x3F, 0], seq(VIDEO_FRAME_BYTES, _ => 1), [2, 0, 0, 0, 0xC3])
  }

  /** It is shown, the very first after a gap. */
  lemma MismatchedFrameIsShown(m: Builder)
    ensures var piece := MismatchedFrame();
      var m' := ParserModel.Feed(m, Encode(piece), true);
      && WellFormed(piece) && piece.sav[0] != piece.eav[0]
      && Outputs(m'.h, m'.p.log) == Outputs(m'.h, m.p.log) + [Picture(piece.pixels)]
      && m'.p.desync == m.p.desync + 1
  {
    var piece := MismatchedFrame();
    FirstSpanAfterGap(m, piece.padding, piece.sav, piece.pixels, piece.eav);
    hide Encode, Outputs, FeedStep;
    assert piece.pixels[..VIDEO_FRAME_BYTES] == piece.pixels;
  }

  /** Feeding an encoded stream to an idle builder, in any number of clean pieces, makes the outputs
      receive exactly its frames and packets. */
  lemma FeedingInvertsEncode(m: Builder, pieces: seq<Piece>, chunks: seq<seq<Byte>>)
    requires Valid(m) && m.p.mode.Idle? && m.p.pos == |m.h|
    requires forall k | 0 <= k < |pieces| :: WellFormed(pieces[k])
    requires Concat(chunks) == EncodeAll(pieces) && CleanCuts(m, chunks)
    ensures var m' := FeedAll(m, chunks);
      Outputs(m'.h, m'.p.log) == Outputs(m'.h, m.p.log) + ShownAll(pieces)
  {
    var h := m.h + EncodeAll(pieces);
    assert h[|m.h|..] == EncodeAll(pieces);
    var p' := ParseInvertsEncode(h, m.p, pieces);
    assert Parse(h, p') == p';
    SplitIndependence(m, chunks);
  }
}
