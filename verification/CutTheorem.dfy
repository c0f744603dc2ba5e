/** Exactly which cuts of the stream can be noticed by whoever receives frames and packets. */
module CutTheorem {
  import opened Markers
  import opened Sequences
  import opened ParserModel
  import opened ParserProofs

  /** What the outputs have received so far. */
  function Received(m: Builder): seq<Output> { Outputs(m.h, m.p.log) }

  /** Positions where no marker starts are passed without a trace. */
  lemma {:induction false} RunQuiet(h: seq<Byte>, p: Parser)
    requires !p.mode.Audio?
    requires forall r: nat | p.pos <= r && r + 4 <= |h| :: !PrefixAt(h, r)
    ensures RunCode(h, p).log == p.log
    decreases if p.pos <= |h| then |h| - p.pos + 1 else 0
  {
    if p.pos + 4 <= |h| {
      assert !PrefixAt(h, p.pos);
      RunQuiet(h, p.(pos := p.pos + 1));
    }
  }

  /** Completes a carried prefix of `c` bytes to an empty audio packet. */
  function Completion(c: nat): (x: seq<Byte>)
    requires 1 <= c <= 3
    ensures |x| == 8 - c
  {
    [0xFF, 0xFF, AUDIO_TYPE, 0, 0, 0, 0][c - 1..]
  }

  lemma CompletedMarker(h: seq<Byte>, work: nat, q: nat)
    requires work <= |h| && TailCarry(h[work..]) == |h| - q > 0
    ensures var x := Completion(|h| - q);
      (h + x)[q..] == [0, 0xFF, 0xFF, AUDIO_TYPE, 0, 0, 0, 0]
  {
    var c := |h| - q;
    assert h[q..] == h[work..][q - work..];
    hide TailCarry;
    assert (h + Completion(c))[q..] == h[q..] + Completion(c);
  }

  /** With the prefix re-scanned, the completion is an audio packet. */
  lemma HearsPacket(h: seq<Byte>, p: Parser)
    requires !p.mode.Audio? && p.pos + 8 == |h|
    requires h[p.pos..] == [0, 0xFF, 0xFF, AUDIO_TYPE, 0, 0, 0, 0]
    ensures RunCode(h, p).log == p.log + [AudioHeader(p.pos), Packet(|h|, |h|)]
  {
    assert forall i | 0 <= i < 8 :: h[p.pos + i] == h[p.pos..][i];
    var p1 := CodeStep(h, p).value;
    assert p1 == Parser(p.pos + 8, Audio(p.pos + 8), p.b0, p.desync, p.log + [AudioHeader(p.pos)]);
    var p2 := CodeStep(h, p1).value;
    assert CodeStep(h, p2).None?;
    assert RunCode(h, p2) == p2 == RunCode(h, p1) == RunCode(h, p);
  }

  /** With the prefix already passed, the completion is nothing. */
  lemma HearsNothing(h: seq<Byte>, p: Parser, q: nat)
    requires !p.mode.Audio? && q < p.pos && q + 8 == |h|
    requires h[q..] == [0, 0xFF, 0xFF, AUDIO_TYPE, 0, 0, 0, 0]
    ensures RunCode(h, p).log == p.log
  {
    assert forall i | 0 <= i < 8 :: h[q + i] == h[q..][i];
    forall r: nat | p.pos <= r && r + 4 <= |h| ensures !PrefixAt(h, r) {
      assert h[r + 1] != 0xFF || h[r] != 0;
    }
    RunQuiet(h, p);
  }

  lemma {:induction false} OutputsOfMore(h: seq<Byte>, log: seq<Event>, at: nat, s: nat, e: nat)
    ensures |Outputs(h, log + [AudioHeader(at), Packet(s, e)])| == |Outputs(h, log)| + 1
  {
    var more := log + [AudioHeader(at), Packet(s, e)];
    assert more[..|more| - 1] == log + [AudioHeader(at)];
    assert (log + [AudioHeader(at)])[..|log|] == log;
  }

  /** After an unclean cut the position is back inside what the scan had passed. */
  lemma UncleanState(m: Builder, a: seq<Byte>) returns (p: Parser, q: nat)
    requires Valid(m) && a != [] && !CleanCut(m, a)
    ensures var h := m.h + a;
      && p == RunCode(h, m.p) && !p.mode.Audio? && q < p.pos && q < |h|
      && TailCarry(h[WorkStart(m)..]) == |h| - q
      && FeedStep(m, a).p.pos == q && FeedStep(m, a).p.log == p.log && !FeedStep(m, a).p.mode.Audio?
  {
    var h := m.h + a;
    assert ParserInv(h, m.p);
    RunInv(h, m.p);
    p := RunCode(h, m.p);
    q := |h| - TailCarry(h[WorkStart(m)..]);
    hide RunCode, TailCarry;
  }

  /** After an unclean cut, some continuation gives the outputs a packet that parsing the same bytes
      in one piece does not. */
  lemma UncleanCutShows(m: Builder, a: seq<Byte>) returns (x: seq<Byte>)
    requires Valid(m) && a != [] && !CleanCut(m, a)
    ensures x != []
    ensures |Received(FeedStep(FeedStep(m, a), x))| == |Received(FeedStep(m, a + x))| + 1
  {
    hide RunCode, TailCarry, Completion, Finish, CleanCut, Valid;
    var h, m' := m.h + a, FeedStep(m, a);
    var p, q := UncleanState(m, a);
    x := Completion(|h| - q);
    CompletedMarker(h, WorkStart(m), q);
    var h' := h + x;
    assert m.h + (a + x) == h' == m'.h + x;
    HearsPacket(h', m'.p);
    RunCodeResumes(h, x, m.p);
    HearsNothing(h', p, q);
    FinishKeepsLog(h', WorkStart(m'), RunCode(h', m'.p));
    FinishKeepsLog(h', WorkStart(m), RunCode(h', m.p));
    OutputsOfMore(h', p.log, q, |h'|, |h'|);
  }

  lemma FinishKeepsLog(h: seq<Byte>, work: nat, p: Parser)
    requires work <= |h|
    ensures Finish(h, work, p).log == p.log
  {
  }

  lemma CleanCutHides(m: Builder, a: seq<Byte>, x: seq<Byte>)
    requires Valid(m) && a != [] && CleanCut(m, a)
    ensures Received(FeedStep(FeedStep(m, a), x)) == Received(FeedStep(m, a + x))
  {
    var cut := [a, x];
    assert cut[1..] == [x] && [x][1..] == [];
    assert Concat([x]) == x + Concat([]) == x;
    assert Concat(cut) == a + x;
    assert FeedAll(m, cut) == FeedAll(FeedStep(m, a), [x]) == FeedStep(FeedStep(m, a), x);
    SplitIndependence(m, cut);
  }

  /** Main result: a cut cannot be noticed by any continuation if and only if it is clean. */
  lemma CutIsUnnoticeableIffClean(m: Builder, a: seq<Byte>)
    requires Valid(m) && a != []
    ensures CleanCut(m, a) <==>
      (forall x :: Received(FeedStep(FeedStep(m, a), x)) == Received(FeedStep(m, a + x)))
  {
    if CleanCut(m, a) {
      forall x ensures Received(FeedStep(FeedStep(m, a), x)) == Received(FeedStep(m, a + x)) {
        CleanCutHides(m, a, x);
      }
    } else {
      var x := UncleanCutShows(m, a);
    }
  }

  // ---------------------------------------------------------------- unclean cuts exist

  /** A SAV whose checksum byte is 00, delivered exactly up to its end. */
  const SavEndingInZero: seq<Byte> := [0, 0xFF, 0xFF, SAV_TYPE, 0x01, 0x02, 0x3D, 0x00]

  /** The header's last byte is carried and becomes the first byte of video. */
  lemma SavEndingInZeroIsUnclean()
    ensures !CleanCut(Fresh(), SavEndingInZero)
    ensures FeedStep(Fresh(), SavEndingInZero).p.mode == Video(7)
    ensures Parse(SavEndingInZero, Fresh().p).mode == Video(8)
  {
    var h, p := SavEndingInZero, Fresh().p;
    assert [] + h == h;
    assert h[0..] == h;
    var p1 := CodeStep(h, p).value;
    assert p1 == Parser(8, Video(8), 1, 0, [Sav(0)]);
    assert RunCode(h, p1) == p1;
    assert ParseStep(h, p) == Some(p1);
    assert Parse(h, p1) == p1;
  }
}
