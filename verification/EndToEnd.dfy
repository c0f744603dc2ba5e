/** The whole data path, from any state: after a gap, the outputs receive what parsing the true stream
    alone gives, whether its buffer pairs arrive exchanged or not, and however it is cut into chunks. */
module EndToEnd {
  import opened Markers
  import opened Sequences
  import opened ReorderModel
  import opened EmitProofs
  import opened Reorder
  import opened Restore
  import opened SinkCalls
  import opened PipelineModel
  import opened ParserShift
  import P = ParserModel
  import PP = ParserProofs
  import RT = RoundTrip
  import D = DeviceOrder
  import H = Hysteresis

  /** Feed a stream without gaps. */
  function Stream(p: Pipe, chunks: seq<seq<Byte>>): Pipe
    requires PipeInv(p)
    decreases |chunks|
  {
    if chunks == [] then p
    else
      FeedPipeInv(p, chunks[0], false);
      Stream(FeedPipe(p, chunks[0], false), chunks[1..])
  }

  /** The reordered bytes, from number `mark` on, that each chunk lets out. */
  function Pieces(p: Pipe, chunks: seq<seq<Byte>>, mark: nat): seq<seq<Byte>>
    requires PipeInv(p)
    decreases |chunks|
  {
    if chunks == [] then []
    else
      FeedPipeInv(p, chunks[0], false);
      var p' := FeedPipe(p, chunks[0], false);
      [Bytes(p'.reorderer.h, ItemsFrom(p', Max(mark, |Items(p)|)))] + Pieces(p', chunks[1..], mark)
  }

  /** The builder when it gets byte number `mark` of the output, if that begins a call. */
  function RestartAt(p: Pipe, chunks: seq<seq<Byte>>, mark: nat): P.Builder
    requires PipeInv(p)
    decreases |chunks|
  {
    if chunks == [] then p.builder
    else
      FeedPipeInv(p, chunks[0], false);
      var p' := FeedPipe(p, chunks[0], false);
      if |Items(p')| <= mark then RestartAt(p', chunks[1..], mark)
      else if |Items(p)| < mark then FeedCalls(p.builder, Render(p'.reorderer.h, SplitAtGaps(Items(p')[|Items(p)|..mark])))
      else p.builder
  }

  function Max(a: nat, b: nat): nat { if a < b then b else a }

  /** Flagged at its start only. */
  ghost predicate OneGap(items: seq<Item>) {
    forall i | 0 <= i < |items| :: items[i].gap <==> i == 0
  }

  function ItemsFrom(p: Pipe, mark: nat): seq<Item> {
    if mark <= |Items(p)| then Items(p)[mark..] else []
  }

  lemma StreamReorders(p: Pipe, chunks: seq<seq<Byte>>)
    requires PipeInv(p) && p.input == Signal && !p.resync
    ensures PipeInv(Stream(p, chunks))
    ensures Stream(p, chunks).reorderer == Reorder.FeedAll(p.reorderer, chunks)
    ensures Items(p) <= Items(Stream(p, chunks))
    decreases |chunks|
  {
    hide Reorder.Valid, Reorder.FeedStep;
    if chunks != [] {
      FeedPipeInv(p, chunks[0], false);
      ReordererFeed(p.reorderer, chunks[0], false);
      StreamReorders(FeedPipe(p, chunks[0], false), chunks[1..]);
    }
  }

  /** Unflagged bytes reach the builder in one call. */
  lemma OneCall(h: seq<Byte>, items: seq<Item>)
    requires forall i | 1 <= i < |items| :: !items[i].gap
    ensures Render(h, SplitAtGaps(items)) == if items == [] then [] else [Call(Bytes(h, items), items[0].gap)]
  {
    hide Bytes, SplitAtGaps;
    SplitNothing();
    if items != [] {
      SplitAppend([], items);
      assert [] + items == items;
    }
  }

  lemma FeedOneCall(b: P.Builder, c: Call)
    ensures FeedCalls(b, [c]) == P.Feed(b, c.data, c.gapped)
  {
    assert [c][..0] == [];
    assert FeedCalls(b, []) == b;
  }

  lemma StepNothing(b: P.Builder)
    ensures P.FeedStep(b, []) == b
  {
  }

  lemma NoBytes(h: seq<Byte>)
    ensures Bytes(h, []) == []
  {
  }

  lemma StreamOn(p: Pipe, chunk: seq<Byte>)
    requires PipeInv(p) && p.input == Signal && !p.resync
    ensures var p' := FeedPipe(p, chunk, false);
      && PipeInv(p') && p'.input == Signal && !p'.resync && Items(p) <= Items(p')
      && p'.reorderer.h == p.reorderer.h + chunk
      && p'.builder == FeedCalls(p.builder, Render(p'.reorderer.h, SplitAtGaps(Items(p')[|Items(p)|..])))
  {
    FeedPipeInv(p, chunk, false);
    ReordererFeed(p.reorderer, chunk, false);
  }

  /** A chunk lets out unflagged bytes only. */
  lemma StepOnward(p: Pipe, chunk: seq<Byte>, mark: nat)
    requires PipeInv(p) && p.input == Signal && !p.resync && mark < |Items(p)|
    requires OneGap(ItemsFrom(FeedPipe(p, chunk, false), mark))
    ensures var p' := FeedPipe(p, chunk, false);
      p'.builder == P.FeedStep(p.builder, Bytes(p'.reorderer.h, ItemsFrom(p', |Items(p)|)))
  {
    hide Reorder.Valid, FeedPipe, Bytes, SplitAtGaps, FeedCalls, P.FeedStep, PP.Valid, Render;
    var p' := FeedPipe(p, chunk, false);
    StreamOn(p, chunk);
    var added := ItemsFrom(p', |Items(p)|);
    assert forall i | 0 <= i < |added| :: added[i] == ItemsFrom(p', mark)[|Items(p)| - mark + i];
    OneCall(p'.reorderer.h, added);
    if added == [] {
      FeedNoCalls(p.builder);
      StepNothing(p.builder);
      NoBytes(p'.reorderer.h);
    } else {
      FeedOneCall(p.builder, Call(Bytes(p'.reorderer.h, added), false));
    }
  }

  /** A chunk lets out byte `mark`, the last one that is flagged. */
  lemma StepAcross(p: Pipe, chunk: seq<Byte>, mark: nat)
    requires PipeInv(p) && p.input == Signal && !p.resync
    requires |Items(p)| <= mark < |Items(FeedPipe(p, chunk, false))|
    requires OneGap(ItemsFrom(FeedPipe(p, chunk, false), mark))
    ensures var p' := FeedPipe(p, chunk, false);
      p'.builder == P.FeedStep(P.Reset(RestartAt(p, [chunk], mark)), Bytes(p'.reorderer.h, ItemsFrom(p', mark)))
  {
    hide Reorder.Valid, FeedPipe, Bytes, SplitAtGaps, FeedCalls, P.FeedStep, PP.Valid, Render, P.Reset;
    var p' := FeedPipe(p, chunk, false);
    StreamOn(p, chunk);
    var h, before, added := p'.reorderer.h, Items(p')[|Items(p)|..mark], ItemsFrom(p', mark);
    assert Items(p')[|Items(p)|..] == before + added;
    SplitAppend(before, added);
    var call := Call(Bytes(h, added), true);
    RenderMore(h, SplitAtGaps(before), added);
    FeedLastCall(p.builder, Render(h, SplitAtGaps(before)), call);
    if before == [] {
      SplitNothing();
      RenderNothing(h);
      FeedNoCalls(p.builder);
    }
    assert [chunk][1..] == [];
  }

  lemma RenderMore(h: seq<Byte>, parts: seq<seq<Item>>, part: seq<Item>)
    requires part != []
    ensures Render(h, parts + [part]) == Render(h, parts) + [Call(Bytes(h, part), part[0].gap)]
  {
    hide Bytes;
  }

  lemma RenderNothing(h: seq<Byte>)
    ensures Render(h, []) == []
  {
  }

  lemma FeedLastCall(b: P.Builder, calls: seq<Call>, last: Call)
    ensures FeedCalls(b, calls + [last]) == P.Feed(FeedCalls(b, calls), last.data, last.gapped)
  {
    assert (calls + [last])[..|calls|] == calls;
    hide P.Feed;
  }

  /** Behind the last flag, every chunk continues the parse. */
  lemma {:induction false} StreamOnward(p: Pipe, chunks: seq<seq<Byte>>, mark: nat)
    requires PipeInv(p) && p.input == Signal && !p.resync && mark < |Items(p)|
    requires OneGap(ItemsFrom(Stream(p, chunks), mark))
    ensures Stream(p, chunks).builder == PP.FeedAll(p.builder, Pieces(p, chunks, mark))
    decreases |chunks|
  {
    hide Reorder.Valid, Bytes, P.FeedStep, PP.Valid, FeedPipe;
    if chunks != [] {
      var p' := FeedPipe(p, chunks[0], false);
      StreamOn(p, chunks[0]);
      StreamReorders(p', chunks[1..]);
      assert OneGap(ItemsFrom(p', mark));
      StepOnward(p, chunks[0], mark);
      StreamOnward(p', chunks[1..], mark);
    }
  }

  /** The parse of what lies behind the last flag starts afresh there. */
  lemma {:induction false} StreamRestarts(p: Pipe, chunks: seq<seq<Byte>>, mark: nat)
    requires PipeInv(p) && p.input == Signal && !p.resync && |Items(p)| <= mark
    requires OneGap(ItemsFrom(Stream(p, chunks), mark))
    ensures var q := Stream(p, chunks);
      && (|Items(q)| <= mark ==> q.builder == RestartAt(p, chunks, mark))
      && (|Items(q)| > mark ==>
            q.builder == PP.FeedAll(P.Reset(RestartAt(p, chunks, mark)), Pieces(p, chunks, mark)))
    decreases |chunks|
  {
    hide Reorder.Valid, Bytes, P.FeedStep, PP.Valid, FeedPipe, P.Reset;
    if chunks != [] {
      var p' := FeedPipe(p, chunks[0], false);
      StreamOn(p, chunks[0]);
      StreamReorders(p', chunks[1..]);
      if |Items(p')| <= mark {
        StreamRestarts(p', chunks[1..], mark);
        NoBytes(p'.reorderer.h);
        assert ItemsFrom(p', Max(mark, |Items(p)|)) == [];
        StepNothing(P.Reset(RestartAt(p, chunks, mark)));
      } else {
        assert OneGap(ItemsFrom(p', mark));
        StepAcross(p, chunks[0], mark);
        StreamOnward(p', chunks[1..], mark);
      }
    }
  }

  /** If the flag is still to come, the builder is what it was. */
  lemma {:induction false} RestartsAtOnce(p: Pipe, chunks: seq<seq<Byte>>)
    requires PipeInv(p) && p.input == Signal && !p.resync
    ensures RestartAt(p, chunks, |Items(p)|) == p.builder
    decreases |chunks|
  {
    hide Reorder.Valid, FeedPipe, PP.Valid, FeedCalls;
    if chunks != [] {
      var p' := FeedPipe(p, chunks[0], false);
      StreamOn(p, chunks[0]);
      if |Items(p')| <= |Items(p)| {
        assert Items(p')[|Items(p)|..] == [] && Items(p') == Items(p);
        SplitNothing();
        RenderNothing(p'.reorderer.h);
        FeedNoCalls(p.builder);
        RestartsAtOnce(p', chunks[1..]);
      }
    }
  }

  lemma {:induction false} PiecesJoin(p: Pipe, chunks: seq<seq<Byte>>, mark: nat)
    requires PipeInv(p) && p.input == Signal && !p.resync
    ensures PipeInv(Stream(p, chunks)) && Items(p) <= Items(Stream(p, chunks))
    ensures p.reorderer.h <= Stream(p, chunks).reorderer.h
    ensures Concat(Pieces(p, chunks, mark))
         == Bytes(Stream(p, chunks).reorderer.h, ItemsFrom(Stream(p, chunks), Max(mark, |Items(p)|)))
    decreases |chunks|
  {
    hide Reorder.Valid, Reorder.Feed, PP.Valid, Bytes, FeedCalls;
    if chunks != [] {
      var p' := FeedPipe(p, chunks[0], false);
      StreamOn(p, chunks[0]);
      PiecesJoin(p', chunks[1..], mark);
      hide FeedPipe, PipeInv, Concat;
      ItemsJoin(p, p', Stream(p, chunks), mark);
    } else {
      assert ItemsFrom(p, Max(mark, |Items(p)|)) == [];
      NoBytes(p.reorderer.h);
    }
  }

  lemma ItemsJoin(p: Pipe, p': Pipe, q: Pipe, mark: nat)
    requires PipeInv(p') && p'.reorderer.h <= q.reorderer.h && Items(p) <= Items(p') <= Items(q)
    ensures Bytes(q.reorderer.h, ItemsFrom(q, Max(mark, |Items(p)|)))
         == Bytes(p'.reorderer.h, ItemsFrom(p', Max(mark, |Items(p)|)))
            + Bytes(q.reorderer.h, ItemsFrom(q, Max(mark, |Items(p')|)))
  {
    hide PipeInv, Bytes;
    var first, rest := ItemsFrom(p', Max(mark, |Items(p)|)), ItemsFrom(q, Max(mark, |Items(p')|));
    assert first + rest == ItemsFrom(q, Max(mark, |Items(p)|));
    BytesJoin(q.reorderer.h, first, rest);
    StillThere(p', q, first);
  }

  lemma StillThere(p: Pipe, q: Pipe, items: seq<Item>)
    requires PipeInv(p) && p.reorderer.h <= q.reorderer.h
    requires forall i | 0 <= i < |items| :: items[i] in Items(p)
    ensures Bytes(q.reorderer.h, items) == Bytes(p.reorderer.h, items)
  {
    hide Reorder.Valid, PP.Valid;
    OutputsInRange(p.reorderer);
    forall i | 0 <= i < |items| ensures items[i].src < |p.reorderer.h| {
      var j :| 0 <= j < |Items(p)| && Items(p)[j] == items[i];
    }
    var x := q.reorderer.h[|p.reorderer.h|..];
    assert q.reorderer.h == p.reorderer.h + x;
  }

  // ---------------------------------------------------------------- streams after a gap

  /** The pipeline as a gap leaves it; a new one is in such a state already. */
  function AtGap(p: Pipe): Pipe { p.(reorderer := Reorder.Reset(p.reorderer), resync := false) }

  /** A chunk offered now follows a gap. */
  predicate FollowsGap(p: Pipe, gapped: bool) {
    p.input == Signal && (gapped || p.resync || p == FreshPipe())
  }

  lemma AtGapFeeds(p: Pipe, gapped: bool, chunk: seq<Byte>)
    requires PipeInv(p) && FollowsGap(p, gapped)
    ensures PipeInv(AtGap(p)) && FeedPipe(p, chunk, gapped) == FeedPipe(AtGap(p), chunk, false)
  {
    ResetValid(p.reorderer);
    if gapped || p.resync {
      GappedFeed(p, chunk, gapped);
    }
  }

  /** A stream of which the first chunk follows a gap. */
  function AfterGap(p: Pipe, gapped: bool, chunks: seq<seq<Byte>>): Pipe
    requires PipeInv(p) && chunks != []
  {
    FeedPipeInv(p, chunks[0], gapped);
    Stream(FeedPipe(p, chunks[0], gapped), chunks[1..])
  }

  lemma AtGapInv(p: Pipe)
    requires PipeInv(p)
    ensures PipeInv(AtGap(p)) && Items(AtGap(p)) == Items(p)
  {
    ResetValid(p.reorderer);
  }

  /** The builder when the output's byte number `mark` reaches it. */
  function Restarting(p: Pipe, chunks: seq<seq<Byte>>, mark: nat): P.Builder
    requires PipeInv(p)
  {
    AtGapInv(p);
    RestartAt(AtGap(p), chunks, mark)
  }

  /** The cuts of the reordered stream, from byte number `mark` on, are clean. */
  predicate CutsCleanly(p: Pipe, chunks: seq<seq<Byte>>, mark: nat)
    requires PipeInv(p)
  {
    AtGapInv(p);
    PP.CleanCuts(P.Reset(Restarting(p, chunks, mark)), Pieces(AtGap(p), chunks, mark))
  }

  lemma AfterGapStreams(p: Pipe, gapped: bool, chunks: seq<seq<Byte>>)
    requires PipeInv(p) && FollowsGap(p, gapped) && chunks != []
    ensures PipeInv(AtGap(p)) && AfterGap(p, gapped, chunks) == Stream(AtGap(p), chunks)
  {
    AtGapFeeds(p, gapped, chunks[0]);
    FeedPipeInv(AtGap(p), chunks[0], false);
  }

  /** The input after the gap, reordered from scratch. */
  function Reordered(p: Pipe, stream: seq<Byte>): Reorderer {
    var m := Reorder.Reset(p.reorderer);
    Whole(m.h + stream, m.base, m.start, m.before)
  }

  /** What is reordered after a gap depends on the stream only, not on its chunks. */
  lemma AfterGapReorders(p: Pipe, gapped: bool, chunks: seq<seq<Byte>>)
    requires PipeInv(p) && FollowsGap(p, gapped) && chunks != []
    ensures var q := AfterGap(p, gapped, chunks);
      && PipeInv(q) && q.reorderer == Reordered(p, Concat(chunks))
      && |Items(p)| == |q.reorderer.before| <= |Items(q)|
  {
    hide Reorder.Valid, Whole, FeedPipe, PP.Valid, Stream;
    var m := Reorder.Reset(p.reorderer);
    AfterGapStreams(p, gapped, chunks);
    StreamReorders(AtGap(p), chunks);
    ResetValid(p.reorderer);
    Reorder.SplitIndependence(m, chunks);
    FeedIsWhole(m, Concat(chunks));
  }

  /** What is reordered after a gap, from its last flag on, is parsed alone: the outputs receive from then
      on what parsing just that stretch gives. */
  lemma PipelineParses(p: Pipe, gapped: bool, chunks: seq<seq<Byte>>, mark: nat)
    requires PipeInv(p) && FollowsGap(p, gapped) && chunks != [] && CutsCleanly(p, chunks, mark)
    requires |Items(p)| <= mark <= |Items(AfterGap(p, gapped, chunks))|
    requires OneGap(ItemsFrom(AfterGap(p, gapped, chunks), mark))
    ensures var b, q := Restarting(p, chunks, mark), AfterGap(p, gapped, chunks);
      var stretch := Bytes(q.reorderer.h, ItemsFrom(q, mark));
      && q.builder.h == b.h + stretch && b.p.log <= q.builder.p.log
      && ReceivedSince(b, q.builder) == Shown(stretch)
  {
    hide Reorder.Valid, FeedPipe, Bytes, PP.Valid, P.FeedStep, Stream, Pieces, Shown, ReceivedSince, OneGap, RestartAt;
    var q, p0 := AfterGap(p, gapped, chunks), AtGap(p);
    AtGapInv(p);
    AfterGapStreams(p, gapped, chunks);
    StreamRestarts(p0, chunks, mark);
    PiecesJoin(p0, chunks, mark);
    if |Items(q)| == mark {
      NoBytes(q.reorderer.h);
      assert ItemsFrom(q, mark) == [];
      NothingReceived(q.builder);
    } else {
      GapStartsAfresh(Restarting(p, chunks, mark), Pieces(p0, chunks, mark));
    }
  }

  lemma NothingReceived(b: P.Builder)
    ensures Shown([]) == [] == ReceivedSince(b, b) && b.h + [] == b.h
  {
    assert P.Parse([], Restarted.p) == Restarted.p;
    assert Restarted.p.log == [P.Gap(0)] && [P.Gap(0)][..0] == [];
  }

  // ---------------------------------------------------------------- results

  /** From builder state `b` on, the outputs have received what parsing `truth` from `a` on gives, up to
      some place; and less than the hold-back and a pair lies beyond that place. */
  ghost predicate ShowsFrom(b: P.Builder, q: Pipe, truth: seq<Byte>, a: nat) {
    var n := |q.builder.h| - |b.h|;
    && 0 <= n && a + n <= |truth| < a + n + RETAINED
    && q.builder.h == b.h + truth[a..a + n]
    && b.p.log <= q.builder.p.log
    && ReceivedSince(b, q.builder) == Shown(truth[a..a + n])
  }

  lemma ShowsSince(p: Pipe, gapped: bool, chunks: seq<seq<Byte>>, mark: nat, truth: seq<Byte>, a: nat)
    requires PipeInv(p) && FollowsGap(p, gapped) && chunks != [] && CutsCleanly(p, chunks, mark)
    requires var m := Reordered(p, Concat(chunks));
      && |m.before| <= mark <= |m.emitter.items| && OneGap(m.emitter.items[mark..])
      && a + |m.emitter.items| - mark <= |truth| < a + |m.emitter.items| - mark + RETAINED
      && Bytes(m.h, m.emitter.items[mark..]) == truth[a..a + |m.emitter.items| - mark]
    ensures ShowsFrom(Restarting(p, chunks, mark), AfterGap(p, gapped, chunks), truth, a)
  {
    hide Reorder.Valid, Bytes, PP.Valid, AfterGap, Shown, ReceivedSince, CutsCleanly, Reordered, Restarting;
    var q := AfterGap(p, gapped, chunks);
    AfterGapReorders(p, gapped, chunks);
    BytesLength(q.reorderer.h, Items(q)[mark..]);
    PipelineParses(p, gapped, chunks, mark);
  }

  /** With the flag the first thing after the gap, the builder restarts from where the gap left it. */
  lemma ShowsSinceGap(p: Pipe, gapped: bool, chunks: seq<seq<Byte>>, truth: seq<Byte>, a: nat)
    requires PipeInv(p) && FollowsGap(p, gapped) && chunks != [] && CutsCleanly(p, chunks, |Items(p)|)
    requires var m := Reordered(p, Concat(chunks));
      && |m.before| <= |m.emitter.items| && OneGap(Since(m))
      && a + |Since(m)| <= |truth| < a + |Since(m)| + RETAINED
      && Bytes(m.h, Since(m)) == truth[a..a + |Since(m)|]
    ensures ShowsFrom(p.builder, AfterGap(p, gapped, chunks), truth, a)
  {
    hide Reorder.Valid, Bytes, PP.Valid, AfterGap, CutsCleanly, ShowsFrom, RestartAt;
    AtGapInv(p);
    RestartsAtOnce(AtGap(p), chunks);
    ShowsSince(p, gapped, chunks, |Items(p)|, truth, a);
  }

  /** The reorderer's state after the gap, as the results of Restore need it. */
  lemma ReorderedState(p: Pipe, stream: seq<Byte>)
    requires PipeInv(p)
    ensures var m := Reordered(p, stream);
      Valid(m) && m.base == |p.reorderer.h| <= |m.h| && m.h == p.reorderer.h + stream && m.h[m.base..] == stream
  {
    ResetValid(p.reorderer);
    FeedIsWhole(Reorder.Reset(p.reorderer), stream);
    hide WholeScan, EmitTo, Continuous;
    assert (p.reorderer.h + stream)[|p.reorderer.h|..] == stream;
  }

  /** The verdicts on the stream after the gap. */
  function VerdictsOn(p: Pipe, stream: seq<Byte>): seq<Observation> {
    Reordered(p, stream).scanner.verdicts
  }

  /** A first verdict of this order, at that place of the stream, and nothing but strays against it. */
  ghost predicate SettlesOn(p: Pipe, stream: seq<Byte>, order: Order, place: nat) {
    var v := VerdictsOn(p, stream);
    v != [] && v[0].order == order && v[0].sav == |p.reorderer.h| + place && H.OnlyStrays(v)
  }

  /** Main result: let the stream after a gap be, from some place on, `t` with its pairs exchanged, cut into
      any chunks; the gap tells nothing about where the pair grid lies. If the first SAV is found swapped on
      the grid, with nothing but strays against it, and the reordered stream is cut cleanly, the outputs
      receive what parsing the true stream gives. */
  lemma SwappedStreamShowsTruth(
      p: Pipe, gapped: bool, chunks: seq<seq<Byte>>, from: nat, t: seq<Byte>, a: nat)
    requires PipeInv(p) && FollowsGap(p, gapped) && chunks != [] && CutsCleanly(p, chunks, |Items(p)|)
    requires from <= |Concat(chunks)| && Exchanged(Concat(chunks)[from..], t)
    requires SettlesOn(p, Concat(chunks), Swapped, from + a) && a % PAIR_BYTES == 0
    ensures ShowsFrom(p.builder, AfterGap(p, gapped, chunks), t, a)
  {
    hide Reorder.Valid, Bytes, PP.Valid, AfterGap, CutsCleanly, Exchanged, Reordered, ShowsFrom;
    var m, stream := Reordered(p, Concat(chunks)), Concat(chunks);
    ReorderedState(p, stream);
    assert m.h[m.base + from..] == stream[from..];
    SwappedIsRestored(m, m.base + from, t);
    ShowsSinceGap(p, gapped, chunks, t, a);
  }

  /** And the ordinary stream shows itself. */
  lemma NormalStreamShowsItself(p: Pipe, gapped: bool, chunks: seq<seq<Byte>>, a: nat)
    requires PipeInv(p) && FollowsGap(p, gapped) && chunks != [] && CutsCleanly(p, chunks, |Items(p)|)
    requires SettlesOn(p, Concat(chunks), Normal, a)
    ensures ShowsFrom(p.builder, AfterGap(p, gapped, chunks), Concat(chunks), a)
  {
    hide Reorder.Valid, Bytes, PP.Valid, AfterGap, CutsCleanly, Reordered, ShowsFrom;
    var m, stream := Reordered(p, Concat(chunks)), Concat(chunks);
    ReorderedState(p, stream);
    NormalIsPassedOn(m);
    var b, n := m.scanner.verdicts[0].sav, |Since(m)|;
    assert m.h[b..b + n] == stream[a..a + n];
    ShowsSinceGap(p, gapped, chunks, stream, a);
  }

  /** Verdict `n` puts its order in force for good, early enough to have taken effect, and says how the
      stream from input offset `from` on is related to `t`. */
  ghost predicate SettlesLater(m: Reorderer, n: nat, from: nat, t: seq<Byte>) {
    && SettlesAt(m.scanner.verdicts, m.start, n) && m.scanner.verdicts[n].sav + RETAINED <= |m.h|
    && TrueFrom(m.h, from, t, m.scanner.verdicts[n])
  }

  /** The place of the last flag. */
  function LastFlag(m: Reorderer): nat { if m.emitter.items == [] then 0 else LastStart(m.emitter.items) }

  /** Main result on a change of order: whatever the stream began with, from the verdict on that puts an
      order in force for good the outputs receive what parsing the true stream gives. */
  lemma SwitchedStreamShowsTruth(
      p: Pipe, gapped: bool, chunks: seq<seq<Byte>>, n: nat, from: nat, t: seq<Byte>)
    requires PipeInv(p) && FollowsGap(p, gapped) && chunks != []
    requires SettlesLater(Reordered(p, Concat(chunks)), n, from, t)
    requires CutsCleanly(p, chunks, LastFlag(Reordered(p, Concat(chunks))))
    ensures var m := Reordered(p, Concat(chunks));
      && from <= m.scanner.verdicts[n].sav
      && ShowsFrom(Restarting(p, chunks, LastFlag(m)), AfterGap(p, gapped, chunks), t, m.scanner.verdicts[n].sav - from)
  {
    hide Reorder.Valid, Bytes, PP.Valid, AfterGap, CutsCleanly, Reordered, ShowsFrom, SettlesAt, Restarting;
    var m := Reordered(p, Concat(chunks));
    ReorderedState(p, Concat(chunks));
    assert n < |m.scanner.verdicts| && from <= m.scanner.verdicts[n].sav by { KnownVerdict(m, n); }
    var mark := SwitchedIsRestored(m, n, from, t);
    FlaggedLast(m.emitter.items, mark);
    hide TrueFrom;
    ShowsSince(p, gapped, chunks, mark, t, m.scanner.verdicts[n].sav - from);
  }

  lemma KnownVerdict(m: Reorderer, n: nat)
    requires SettlesAt(m.scanner.verdicts, m.start, n)
    ensures n < |m.scanner.verdicts|
  {
  }

  lemma FlaggedLast(items: seq<Item>, mark: nat)
    requires mark < |items| && OneGap(items[mark..])
    ensures LastStart(items) == mark
  {
    assert items[mark..][0].gap;
    assert forall i | mark < i < |items| :: items[i] == items[mark..][i - mark];
  }

  /** Encoded pieces that the true stream carries from there on, and that the hold-back has let through,
      are the first things the outputs receive, byte for byte and in order. */
  lemma TruthShowsPieces(b: P.Builder, q: Pipe, truth: seq<Byte>, a: nat, pieces: seq<RT.Piece>)
    requires ShowsFrom(b, q, truth, a) && (forall k | 0 <= k < |pieces| :: RT.WellFormed(pieces[k]))
    requires RT.LiesAt(truth, a, RT.EncodeAll(pieces)) && a + |RT.EncodeAll(pieces)| + RETAINED <= |truth| + 1
    ensures RT.ShownAll(pieces) <= ReceivedSince(b, q.builder)
  {
    hide P.Parse, P.Outputs, RT.EncodeAll, RT.ShownAll, RT.WellFormed, ReceivedSince;
    var code := RT.EncodeAll(pieces);
    var n := |q.builder.h| - |b.h|;
    var shown := truth[a..a + n];
    assert shown[0..|code|] == truth[a..a + |code|];
    var p' := RT.ParseInvertsEncode(shown, Restarted.p, pieces);
    ParseExtends(shown, p');
    OutputsExtend(shown, p'.log, P.Parse(shown, p').log);
    NothingBefore(shown);
    assert P.Parse(shown, p') == P.Parse(shown, Restarted.p);
  }

  lemma SwappedStreamShowsPieces(
      p: Pipe, gapped: bool, chunks: seq<seq<Byte>>, from: nat, t: seq<Byte>, a: nat, pieces: seq<RT.Piece>)
    requires PipeInv(p) && FollowsGap(p, gapped) && chunks != [] && CutsCleanly(p, chunks, |Items(p)|)
    requires from <= |Concat(chunks)| && Exchanged(Concat(chunks)[from..], t)
    requires SettlesOn(p, Concat(chunks), Swapped, from + a) && a % PAIR_BYTES == 0
    requires forall k | 0 <= k < |pieces| :: RT.WellFormed(pieces[k])
    requires RT.LiesAt(t, a, RT.EncodeAll(pieces)) && a + |RT.EncodeAll(pieces)| + RETAINED <= |t| + 1
    ensures RT.ShownAll(pieces) <= ReceivedSince(p.builder, AfterGap(p, gapped, chunks).builder)
  {
    hide ShowsFrom, RT.EncodeAll, RT.LiesAt, RT.WellFormed, RT.ShownAll, ReceivedSince, Exchanged, SettlesOn,
      CutsCleanly, AfterGap, PipeInv;
    SwappedStreamShowsTruth(p, gapped, chunks, from, t, a);
    TruthShowsPieces(p.builder, AfterGap(p, gapped, chunks), t, a, pieces);
  }

  /** The device's own layout is enough, wherever the gap and the end cut it: if each SAV of the true stream
      starts the second buffer of a pair, right after the frame before it, the exchanged stream shows the
      truth from the pair of its first SAV on. */
  lemma DeviceStreamShowsTruth(
      p: Pipe, gapped: bool, chunks: seq<seq<Byte>>, from: nat, more: seq<Byte>, t: seq<Byte>, s: nat)
    requires PipeInv(p) && FollowsGap(p, gapped) && chunks != [] && CutsCleanly(p, chunks, |Items(p)|)
    requires D.DeviceStream(Concat(chunks), from, more, t)
    requires D.FirstSav(Concat(chunks), s) && s + HOLD_BACK < |Concat(chunks)|
    ensures from <= s && (s - from) % PAIR_BYTES == 0 && from <= |Concat(chunks)| <= from + |t|
    ensures ShowsFrom(p.builder, AfterGap(p, gapped, chunks), t[..|Concat(chunks)| - from], s - from)
  {
    hide Reorder.Valid, Bytes, PP.Valid, AfterGap, CutsCleanly, Reordered, ShowsFrom, Exchanged, D.DeviceStream,
      D.FirstSav, H.OnlyStrays;
    var m, stream := Reordered(p, Concat(chunks)), Concat(chunks);
    ReorderedState(p, stream);
    D.DeviceSettles(m, from, more, t, s);
    assert m.h[m.base + from..] == stream[from..];
    SwappedStreamShowsTruth(p, gapped, chunks, from, t[..|stream| - from], s - from);
  }

  /** So the frames and packets that the true stream carries from the pair of its first SAV on reach the
      outputs first; that pair begins with the end of the frame before. */
  lemma DeviceStreamShowsPieces(
      p: Pipe, gapped: bool, chunks: seq<seq<Byte>>, from: nat, more: seq<Byte>, t: seq<Byte>, s: nat,
      pieces: seq<RT.Piece>)
    requires PipeInv(p) && FollowsGap(p, gapped) && chunks != [] && CutsCleanly(p, chunks, |Items(p)|)
    requires D.DeviceStream(Concat(chunks), from, more, t)
    requires from <= s && D.FirstSav(Concat(chunks), s)
    requires forall k | 0 <= k < |pieces| :: RT.WellFormed(pieces[k])
    requires RT.LiesAt(t, s - from, RT.EncodeAll(pieces))
    requires s + |RT.EncodeAll(pieces)| + RETAINED <= |Concat(chunks)| + 1
    ensures RT.ShownAll(pieces) <= ReceivedSince(p.builder, AfterGap(p, gapped, chunks).builder)
  {
    hide ShowsFrom, RT.EncodeAll, RT.WellFormed, RT.ShownAll, ReceivedSince, D.DeviceStream, D.FirstSav, CutsCleanly,
      AfterGap, PipeInv;
    var n, code := |Concat(chunks)| - from, RT.EncodeAll(pieces);
    DeviceStreamShowsTruth(p, gapped, chunks, from, more, t, s);
    assert t[..n][s - from..s - from + |code|] == t[s - from..s - from + |code|];
    TruthShowsPieces(p.builder, AfterGap(p, gapped, chunks), t[..n], s - from, pieces);
  }

  lemma NothingBefore(h: seq<Byte>)
    ensures P.Outputs(h, Restarted.p.log) == []
  {
    assert Restarted.p.log == [P.Gap(0)] && [P.Gap(0)][..0] == [];
  }

  lemma {:induction false} ParseExtends(h: seq<Byte>, p: P.Parser)
    ensures p.log <= P.Parse(h, p).log
    decreases if p.pos <= |h| then |h| - p.pos + 1 else 0, if p.mode.Audio? then 1 else 0
  {
    if P.ParseStep(h, p).Some? {
      ParseExtends(h, P.ParseStep(h, p).value);
    }
  }

  lemma {:induction false} OutputsExtend(h: seq<Byte>, log: seq<P.Event>, more: seq<P.Event>)
    requires log <= more
    ensures P.Outputs(h, log) <= P.Outputs(h, more)
    decreases |more|
  {
    if log != more {
      OutputsExtend(h, log, more[..|more| - 1]);
    }
  }
}
