/** One device stream, to show that what the end-to-end results ask for is what the device sends: the end of
    a frame, and then a whole frame, with every pair of buffers exchanged. */
module WholeFrameExample {
  import opened Markers
  import opened Sequences
  import opened ReorderModel
  import opened ScanProofs
  import opened Restore
  import opened DeviceOrder
  import opened PipelineModel
  import opened ParserShift
  import opened EndToEnd
  import P = ParserModel
  import PP = ParserProofs
  import RT = RoundTrip

  const PreviousEav: seq<Byte> := [0, 0xFF, 0xFF, EAV_TYPE, 1, 1, 1, 1, 0xC5]
  const FrameSav: seq<Byte> := [0, 0xFF, 0xFF, SAV_TYPE, 2, 1, 0x3F, 2]
  const FrameEav: seq<Byte> := [0, 0xFF, 0xFF, EAV_TYPE, 2, 1, 1, 1, 0xC6]

  const SAV_PLACE: nat := DMA_BUFFER_BYTES
  const EAV_PLACE: nat := SAV_PLACE + SAV_BYTES + P.VIDEO_FRAME_BYTES
  const LENGTH: nat := 130 * PAIR_BYTES

  function TrueByte(i: nat): Byte {
    if i < EAV_BYTES then PreviousEav[i]
    else if SAV_PLACE <= i < SAV_PLACE + SAV_BYTES then FrameSav[i - SAV_PLACE]
    else if EAV_PLACE <= i < EAV_PLACE + EAV_BYTES then FrameEav[i - EAV_PLACE]
    else 1
  }

  function TrueStream(): seq<Byte> { seq(LENGTH, i requires 0 <= i => TrueByte(i)) }

  /** As it arrives. */
  function Arriving(): seq<Byte> { seq(LENGTH, i requires 0 <= i => TrueByte(Partner(i))) }

  lemma ZerosAt(i: nat)
    requires TrueByte(i) == 0
    ensures i == 0 || i == SAV_PLACE || i == EAV_PLACE
  {
  }

  lemma PairsExchanged()
    ensures Exchanged(Arriving(), TrueStream())
  {
    forall i: nat | i / PAIR_BYTES * PAIR_BYTES + PAIR_BYTES <= LENGTH
      ensures i < LENGTH && Partner(i) < LENGTH && Arriving()[i] == TrueStream()[Partner(i)]
    {
      PairPlace(i / PAIR_BYTES, i % PAIR_BYTES);
      assert i == i / PAIR_BYTES * PAIR_BYTES + i % PAIR_BYTES;
    }
  }

  lemma NoMarkerElsewhere(p: nat)
    requires p != 0 && p != SAV_PLACE && p != EAV_PLACE
    ensures !SavAt(TrueStream(), p) && !EavAt(TrueStream(), p)
  {
    if p < LENGTH && TrueStream()[p] == 0 {
      ZerosAt(p);
    }
    hide SavHeaderValid, EavHeaderValid;
  }

  /** A marker laid out in nine bytes, or eight. */
  lemma EavLaidOut(t: seq<Byte>, p: nat, bytes: seq<Byte>)
    requires p + EAV_BYTES <= |t| && t[p..p + EAV_BYTES] == bytes && bytes[..4] == [0, 0xFF, 0xFF, EAV_TYPE]
    requires EavHeaderValid(bytes, 4)
    ensures EavAt(t, p) && !SavAt(t, p)
  {
    assert bytes[0] == t[p] && bytes[1] == t[p + 1] && bytes[2] == t[p + 2] && bytes[3] == t[p + 3];
    assert bytes[4] == t[p + 4] && bytes[5] == t[p + 5] && bytes[6] == t[p + 6] && bytes[7] == t[p + 7] && bytes[8] == t[p + 8];
    assert bytes[..4][0] == bytes[0] && bytes[..4][1] == bytes[1] && bytes[..4][2] == bytes[2] && bytes[..4][3] == bytes[3];
  }

  lemma SavLaidOut(t: seq<Byte>, p: nat, bytes: seq<Byte>)
    requires p + SAV_BYTES <= |t| && t[p..p + SAV_BYTES] == bytes && bytes[..4] == [0, 0xFF, 0xFF, SAV_TYPE]
    requires SavHeaderValid(bytes, 4)
    ensures SavAt(t, p) && !EavAt(t, p)
  {
    assert bytes[0] == t[p] && bytes[1] == t[p + 1] && bytes[2] == t[p + 2] && bytes[3] == t[p + 3];
    assert bytes[4] == t[p + 4] && bytes[5] == t[p + 5] && bytes[6] == t[p + 6] && bytes[7] == t[p + 7];
    assert bytes[..4][0] == bytes[0] && bytes[..4][1] == bytes[1] && bytes[..4][2] == bytes[2] && bytes[..4][3] == bytes[3];
  }

  lemma MarkersOfTruth(p: nat)
    ensures SavAt(TrueStream(), p) <==> p == SAV_PLACE
    ensures EavAt(TrueStream(), p) <==> p == 0 || p == EAV_PLACE
  {
    ArrivingLength();
    hide TrueStream, SavAt, EavAt;
    if p == 0 {
      EavLaidOut(TrueStream(), 0, PreviousEav);
    } else if p == SAV_PLACE {
      SavLaidOut(TrueStream(), SAV_PLACE, FrameSav);
    } else if p == EAV_PLACE {
      EavLaidOut(TrueStream(), EAV_PLACE, FrameEav);
    } else {
      NoMarkerElsewhere(p);
    }
  }

  lemma TruthIsOnBuffers()
    ensures FramesOnBuffers(TrueStream())
  {
    hide SavAt, EavAt;
    var t := TrueStream();
    forall p: nat ensures (SavAt(t, p) <==> p == SAV_PLACE) && (EavAt(t, p) <==> p == 0 || p == EAV_PLACE) {
      MarkersOfTruth(p);
    }
    assert t[4] == 1 && t[SAV_PLACE + 4] == 2;
    assert FollowsFrame(t, SAV_PLACE, 0);
  }

  lemma ArrivingPlaces(p: nat)
    requires p < LENGTH && Arriving()[p] == 0
    ensures Partner(p) == 0 || Partner(p) == SAV_PLACE || Partner(p) == EAV_PLACE
    ensures InBuffer(Arriving(), p) && (Partner(p) == SAV_PLACE <==> p == 0)
  {
    ZerosAt(Partner(p));
    var k, r := p / PAIR_BYTES, p % PAIR_BYTES;
    assert p == k * PAIR_BYTES + r;
    PairPlace(k, r);
    var o := if r < DMA_BUFFER_BYTES then r + DMA_BUFFER_BYTES else r - DMA_BUFFER_BYTES;
    PairPlace(k, o);
    assert Partner(p) == k * PAIR_BYTES + o;
    assert EAV_PLACE == 127 * PAIR_BYTES + 2056;
    if Partner(p) == EAV_PLACE {
      PairPlace(127, 2056);
    } else if Partner(p) == SAV_PLACE {
      PairPlace(0, SAV_PLACE);
    } else {
      PairPlace(0, 0);
    }
  }

  lemma ArrivesAsDeviceStream()
    ensures DeviceStream(Arriving(), 0, [], TrueStream()) && FirstSav(Arriving(), 0)
  {
    var w := Arriving();
    assert (w + [])[0..] == w && w + [] == w;
    PairsExchanged();
    TruthIsOnBuffers();
    forall p: nat | MarkerAt(w, p) ensures InBuffer(w, p) {
      ArrivingPlaces(p);
    }
    assert Partner(0) == SAV_PLACE;
    MarkersExchange(w, TrueStream(), 0);
    MarkersOfTruth(SAV_PLACE);
    hide SavAt, Exchanged, FramesOnBuffers;
  }

  /** The frame, behind the end of the one before it. */
  function Frame(): RT.Piece {
    RT.VideoPiece(TrueStream()[..SAV_PLACE], FrameSav[4..], seq(P.VIDEO_FRAME_BYTES, _ => 1), FrameEav[4..])
  }

  lemma FrameIsWellFormed()
    ensures RT.WellFormed(Frame())
  {
    var padding := Frame().padding;
    assert padding[3] == EAV_TYPE;
    forall i: nat | i < |padding| && PrefixAt(padding, i)
      ensures i + 4 <= |padding| && padding[i + 3] != SAV_TYPE && padding[i + 3] != AUDIO_TYPE
    {
      ZerosAt(i);
    }
  }

  lemma FrameLiesThere()
    ensures RT.LiesAt(TrueStream(), 0, RT.EncodeAll([Frame()]))
    ensures |RT.EncodeAll([Frame()])| == EAV_PLACE + EAV_BYTES
  {
    var t, f := TrueStream(), Frame();
    ArrivingLength();
    var head, tail := t[..SAV_PLACE], t[SAV_PLACE + SAV_BYTES..EAV_PLACE];
    assert f == RT.VideoPiece(head, FrameSav[4..], tail, FrameEav[4..]);
    assert RT.Header(SAV_TYPE) + f.sav == FrameSav && RT.Header(EAV_TYPE) + f.eav == FrameEav;
    hide TrueStream, Frame, RT.Header;
  }

  /** A new pipeline, given this stream in one chunk, shows the frame first. */
  lemma FrameIsShown()
    ensures var p := FreshPipe();
      && PipeInv(p)
      && [P.Picture(Frame().pixels)] <= ReceivedSince(p.builder, AfterGap(p, false, [Arriving()]).builder)
  {
    hide DeviceStream, FirstSav, Arriving, TrueStream, PipeInv, AfterGap, ReceivedSince, RT.EncodeAll, RT.LiesAt,
      RT.WellFormed, Frame, CutsCleanly, RT.ShownAll, Concat, FreshPipe;
    var p, w := FreshPipe(), Arriving();
    FreshPipeInv();
    NewFollowsGap();
    ConcatOne(w);
    ArrivesAsDeviceStream();
    FrameIsWellFormed();
    FrameLiesThere();
    OneCut(p, w);
    ArrivingLength();
    DeviceStreamShowsPieces(p, false, [w], 0, [], TrueStream(), 0, [Frame()]);
    FrameShown();
  }

  lemma NewFollowsGap()
    ensures FollowsGap(FreshPipe(), false)
  {
  }

  lemma ConcatOne(w: seq<Byte>)
    ensures Concat([w]) == w
  {
    assert Concat([w]) == w + Concat([w][1..]);
  }

  lemma ArrivingLength()
    ensures |Arriving()| == |TrueStream()| == LENGTH
  {
  }

  lemma OneCut(p: Pipe, w: seq<Byte>)
    requires PipeInv(p)
    ensures CutsCleanly(p, [w], |Items(p)|)
  {
    AtGapInv(p);
    assert [w][1..] == [];
    assert |Pieces(AtGap(p), [w], |Items(p)|)| == 1 by {
      FeedPipeInv(AtGap(p), w, false);
      hide FeedPipe, PipeInv;
    }
    hide Pieces, PipeInv;
  }

  lemma FrameShown()
    ensures RT.ShownAll([Frame()]) == [P.Picture(Frame().pixels)]
  {
    assert [Frame()][1..] == [];
    assert Frame().pixels[..P.VIDEO_FRAME_BYTES] == Frame().pixels;
  }
}
