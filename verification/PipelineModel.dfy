/** The two parsers in series, as CapturePipeline runs them: what reaches the outputs after bytes were
    lost, and what reaches them from a stream whose buffer pairs arrive exchanged. */
module PipelineModel {
  import opened Markers
  import opened Sequences
  import opened ReorderModel
  import opened EmitProofs
  import opened Reorder
  import opened Restore
  import opened SinkCalls
  import P = ParserModel
  import PP = ParserProofs
  import PS = ParserSound

  datatype InputState = Signal | NoSignal | NoCable | Protected | NoDevice

  datatype Pipe = Pipe(input: InputState, resync: bool, reorderer: Reorderer, builder: P.Builder)

  function FeedCalls(b: P.Builder, calls: seq<Call>): P.Builder {
    if calls == [] then b
    else
      var last := calls[|calls| - 1];
      P.Feed(FeedCalls(b, calls[..|calls| - 1]), last.data, last.gapped)
  }

  /** One raw chunk: ignored without a signal, and then the next one counts as following a gap. */
  function FeedPipe(p: Pipe, chunk: seq<Byte>, gapped: bool): Pipe
    requires Reorder.Valid(p.reorderer)
  {
    if p.input != Signal then p.(resync := true)
    else
      var r := Reorder.Feed(p.reorderer, chunk, gapped || p.resync);
      Pipe(p.input, false, r, FeedCalls(p.builder, NewCalls(p.reorderer, r)))
  }

  function FreshPipe(): Pipe { Pipe(Signal, false, Reorder.Fresh(), P.Fresh()) }

  /** Everything put out so far, with where each byte came from. */
  function Items(p: Pipe): seq<Item> { p.reorderer.emitter.items }

  /** The builder has been fed exactly the reordered bytes. */
  ghost predicate PipeInv(p: Pipe) {
    && Reorder.Valid(p.reorderer) && PP.Valid(p.builder)
    && p.builder.h == Bytes(p.reorderer.h, Items(p))
  }

  lemma FreshPipeInv()
    ensures PipeInv(FreshPipe())
  {
    Reorder.FreshValid();
    PP.FreshValid();
  }

  // ---------------------------------------------------------------- one feed

  lemma BuilderFeed(b: P.Builder, data: seq<Byte>, gapped: bool)
    requires PP.Valid(b)
    ensures PP.Valid(P.Feed(b, data, gapped)) && P.Feed(b, data, gapped).h == b.h + data
  {
    if gapped {
      PP.ResetValid(b);
    }
    PP.FeedStepValid(if gapped then P.Reset(b) else b, data);
    assert b.h + [] == b.h;
  }

  function Data(calls: seq<Call>): seq<seq<Byte>> { seq(|calls|, k requires 0 <= k < |calls| => calls[k].data) }

  lemma {:induction false} FeedCallsValid(b: P.Builder, calls: seq<Call>)
    requires PP.Valid(b)
    ensures PP.Valid(FeedCalls(b, calls)) && FeedCalls(b, calls).h == b.h + Concat(Data(calls))
    decreases |calls|
  {
    if calls != [] {
      var n := |calls| - 1;
      FeedCallsValid(b, calls[..n]);
      BuilderFeed(FeedCalls(b, calls[..n]), calls[n].data, calls[n].gapped);
      ConcatLast(Data(calls));
      assert Data(calls)[..n] == Data(calls[..n]);
    }
  }

  lemma {:induction false} RenderedBytes(h: seq<Byte>, parts: seq<seq<Item>>)
    ensures Concat(Data(Render(h, parts))) == Bytes(h, Concat(parts))
    decreases |parts|
  {
    if parts != [] {
      var n := |parts| - 1;
      RenderedBytes(h, parts[..n]);
      ConcatLast(parts);
      ConcatLast(Data(Render(h, parts)));
      BytesJoin(h, Concat(parts[..n]), parts[n]);
      assert Data(Render(h, parts))[..n] == Data(Render(h, parts[..n]));
    }
  }

  /** A feed adds to the output, and a pending gap goes on the first byte it adds. */
  lemma StepFlags(m: Reorderer, chunk: seq<Byte>)
    requires Reorder.Valid(m)
    ensures var m' := FeedStep(m, chunk);
      && m.emitter.items <= m'.emitter.items
      && (m.emitter.gap ==>
            if |m'.emitter.items| == |m.emitter.items| then m'.emitter.gap
            else m'.emitter.items[|m.emitter.items|].gap)
  {
    hide Reorder.Valid, ScanOn, EmitTo;
    QueueReady(m, chunk);
    EmitFlags(ScanOn(m, chunk).verdicts, EmitLimit(m.h + chunk), m.emitter);
  }

  lemma OutputsInRange(m: Reorderer)
    requires Reorder.Valid(m)
    ensures m.before <= m.emitter.items
    ensures forall i | |m.before| <= i < |m.emitter.items| :: m.base <= m.emitter.items[i].src
    ensures forall i | 0 <= i < |m.emitter.items| :: m.emitter.items[i].src < |m.h|
  {
    hide Reorder.Valid;
    Outputs(m);
    hide Continuous, Ready;
  }

  lemma StepSources(m: Reorderer, chunk: seq<Byte>)
    requires Reorder.Valid(m)
    ensures var m' := FeedStep(m, chunk);
      && Reorder.Valid(m') && m'.h == m.h + chunk && m'.base == m.base
      && (forall i | |m.emitter.items| <= i < |m'.emitter.items| :: m'.base <= m'.emitter.items[i].src)
      && Bytes(m'.h, m.emitter.items) == Bytes(m.h, m.emitter.items)
  {
    hide Reorder.Valid, ScanOn, EmitTo;
    FeedIsWhole(m, chunk);
    hide Whole;
    OutputsInRange(m);
    OutputsInRange(FeedStep(m, chunk));
  }

  /** What one feed of the reorderer does to its output. */
  lemma ReordererFeed(m: Reorderer, chunk: seq<Byte>, gapped: bool)
    requires Reorder.Valid(m)
    ensures var m' := Reorder.Feed(m, chunk, gapped);
      && Reorder.Valid(m')
      && m'.h == m.h + chunk && m'.base == (if gapped then |m.h| else m.base)
      && m.emitter.items <= m'.emitter.items
      && (forall i | |m.emitter.items| <= i < |m'.emitter.items| :: m'.base <= m'.emitter.items[i].src)
      && Bytes(m'.h, m.emitter.items) == Bytes(m.h, m.emitter.items)
      && (gapped || m.emitter.gap ==>
            if |m'.emitter.items| == |m.emitter.items| then m'.emitter.gap
            else m'.emitter.items[|m.emitter.items|].gap)
  {
    ResetValid(m);
    var m0 := if gapped then Reorder.Reset(m) else m;
    StepFlags(m0, chunk);
    StepSources(m0, chunk);
    hide Reorder.Valid, FeedStep;
  }

  lemma {:induction false} EmitFlags(verdicts: seq<Observation>, limit: nat, e: Emitter)
    requires Ready(verdicts, e)
    ensures var e' := EmitTo(verdicts, limit, e);
      && e.items <= e'.items
      && (e.gap ==> if |e'.items| == |e.items| then e'.gap else e'.items[|e.items|].gap)
    decreases if e.out < limit then limit - e.out else 0, |verdicts| - e.next
  {
    if e.out < limit && EmitStep(verdicts, limit, e).Some? {
      StepReady(verdicts, limit, e);
      EmitFlags(verdicts, limit, EmitStep(verdicts, limit, e).value);
    }
  }

  lemma FeedPipeInv(p: Pipe, chunk: seq<Byte>, gapped: bool)
    requires PipeInv(p)
    ensures PipeInv(FeedPipe(p, chunk, gapped))
  {
    hide Reorder.Valid, Reorder.Feed, PP.Valid, SplitAtGaps, FeedCalls, Bytes;
    if p.input == Signal {
      var m := p.reorderer;
      var m' := Reorder.Feed(m, chunk, gapped || p.resync);
      var added := NewItems(m, m');
      ReordererFeed(m, chunk, gapped || p.resync);
      FeedCallsValid(p.builder, NewCalls(m, m'));
      SplitJoins(added);
      RenderedBytes(m'.h, SplitAtGaps(added));
      assert m'.emitter.items == m.emitter.items + added;
      BytesJoin(m'.h, m.emitter.items, added);
    }
  }

  lemma BytesJoin(h: seq<Byte>, a: seq<Item>, b: seq<Item>)
    ensures Bytes(h, a + b) == Bytes(h, a) + Bytes(h, b)
  {
  }

  // ---------------------------------------------------------------- gaps

  datatype Op = Chunk(data: seq<Byte>, gapped: bool) | Input(state: InputState)

  function Apply(p: Pipe, op: Op): Pipe
    requires Reorder.Valid(p.reorderer)
  {
    match op
    case Chunk(data, gapped) => FeedPipe(p, data, gapped)
    case Input(state) => p.(input := state)
  }

  function Run(p: Pipe, ops: seq<Op>): Pipe
    requires PipeInv(p)
    decreases |ops|
  {
    if ops == [] then p
    else
      ApplyInv(p, ops[0]);
      Run(Apply(p, ops[0]), ops[1..])
  }

  lemma ApplyInv(p: Pipe, op: Op)
    requires PipeInv(p)
    ensures PipeInv(Apply(p, op))
  {
    if op.Chunk? {
      FeedPipeInv(p, op.data, op.gapped);
    }
  }

  /** From event `k` on, frames and packets use only bytes that entered at input offset `g` or later:
      either the builder has seen nothing since, and its next call is flagged; or everything it looks
      at lies after some place from which on every byte entered at `g` or later. */
  ghost predicate Isolated(p: Pipe, g: nat, k: nat) {
    && g <= p.reorderer.base
    && k <= |p.builder.p.log|
    && ((|p.builder.p.log| == k && p.reorderer.emitter.gap)
        || exists floor: nat :: FloorAt(p, floor, g, k))
  }

  ghost predicate FloorAt(p: Pipe, floor: nat, g: nat, k: nat) {
    && floor <= |p.builder.h|
    && PS.Above(p.builder.p, floor, k)
    && forall i | floor <= i < |Items(p)| :: g <= Items(p)[i].src
  }

  lemma {:induction false} FeedCallsAbove(b: P.Builder, calls: seq<Call>, floor: nat, k: nat)
    requires PP.Valid(b) && floor <= |b.h| && PS.Above(b.p, floor, k)
    ensures PS.Above(FeedCalls(b, calls).p, floor, k)
    decreases |calls|
  {
    if calls != [] {
      var n := |calls| - 1;
      FeedCallsAbove(b, calls[..n], floor, k);
      FeedCallsValid(b, calls[..n]);
      PS.FeedStaysAbove(FeedCalls(b, calls[..n]), calls[n].data, calls[n].gapped, floor, k);
    }
  }

  lemma {:induction false} FeedCallsIsolate(b: P.Builder, calls: seq<Call>)
    requires PP.Valid(b) && calls != [] && calls[0].gapped
    ensures PS.Above(FeedCalls(b, calls).p, |b.h|, |b.p.log|)
    decreases |calls|
  {
    var n := |calls| - 1;
    if n == 0 {
      assert calls[..0] == [];
      PS.GapIsolates(b, calls[0].data);
    } else {
      FeedCallsIsolate(b, calls[..n]);
      FeedCallsValid(b, calls[..n]);
      PS.FeedStaysAbove(FeedCalls(b, calls[..n]), calls[n].data, calls[n].gapped, |b.h|, |b.p.log|);
    }
  }

  lemma IsolatedFeed(p: Pipe, chunk: seq<Byte>, gapped: bool, g: nat, k: nat)
    requires PipeInv(p) && p.input == Signal && Isolated(p, g, k) && g <= |p.reorderer.h|
    ensures Isolated(FeedPipe(p, chunk, gapped), g, k)
  {
    hide Reorder.Valid, Reorder.Feed, PP.Valid, SplitAtGaps, FeedCalls, Bytes, PS.Above;
    var m := p.reorderer;
    var m' := Reorder.Feed(m, chunk, gapped || p.resync);
    var p' := FeedPipe(p, chunk, gapped);
    var added := NewItems(m, m');
    var calls := NewCalls(m, m');
    ReordererFeed(m, chunk, gapped || p.resync);
    FeedCallsValid(p.builder, calls);
    assert forall i | |m.emitter.items| <= i < |m'.emitter.items| :: g <= m'.emitter.items[i].src;
    if floor: nat :| FloorAt(p, floor, g, k) {
      FeedCallsAbove(p.builder, calls, floor, k);
      assert FloorAt(p', floor, g, k);
    } else if added == [] {
      SplitNothing();
      FeedNoCalls(p.builder);
    } else {
      SplitJoins(added);
      assert added[0] == m'.emitter.items[|m.emitter.items|];
      assert calls[0].gapped;
      FeedCallsIsolate(p.builder, calls);
      assert |Items(p)| == |p.builder.h| by { BytesLength(m.h, Items(p)); }
      assert FloorAt(p', |p.builder.h|, g, k);
    }
  }

  lemma SplitNothing()
    ensures SplitAtGaps([]) == []
  {
  }

  lemma FeedNoCalls(b: P.Builder)
    ensures FeedCalls(b, []) == b
  {
  }

  lemma BytesLength(h: seq<Byte>, items: seq<Item>)
    ensures |Bytes(h, items)| == |items|
  {
  }

  lemma {:induction false} IsolatedRun(p: Pipe, ops: seq<Op>, g: nat, k: nat)
    requires PipeInv(p) && Isolated(p, g, k) && g <= |p.reorderer.h|
    ensures PipeInv(Run(p, ops)) && Isolated(Run(p, ops), g, k)
    decreases |ops|
  {
    if ops != [] {
      var p' := Apply(p, ops[0]);
      ApplyInv(p, ops[0]);
      if ops[0].Chunk? && p.input == Signal {
        IsolatedFeed(p, ops[0].data, ops[0].gapped, g, k);
        ReordererFeed(p.reorderer, ops[0].data, ops[0].gapped || p.resync);
      } else {
        assert p'.builder == p.builder && p'.reorderer == p.reorderer;
        assert Isolated(p', g, k) by {
          if floor: nat :| FloorAt(p, floor, g, k) {
            assert FloorAt(p', floor, g, k);
          }
        }
      }
      hide Isolated, PipeInv;
      IsolatedRun(p', ops[1..], g, k);
    }
  }

  /** A gapped feed is a plain feed of the reset pipeline. */
  lemma GappedFeed(p: Pipe, chunk: seq<Byte>, gapped: bool)
    requires PipeInv(p) && p.input == Signal && (gapped || p.resync)
    ensures var p0 := p.(reorderer := Reorder.Reset(p.reorderer), resync := false);
      && PipeInv(p0) && Isolated(p0, |p.reorderer.h|, |p.builder.p.log|)
      && FeedPipe(p, chunk, gapped) == FeedPipe(p0, chunk, false)
  {
    ResetValid(p.reorderer);
    hide Reorder.Valid, FeedStep;
  }

  /** What was recognised since `p` uses only bytes that entered since then. */
  ghost predicate OnlyFrom(p: Pipe, q: Pipe) {
    forall i, j | |p.builder.p.log| <= i < |q.builder.p.log| && PS.Begins(q.builder.p.log[i]) <= j < |Items(q)| ::
      |p.reorderer.h| <= Items(q)[j].src
  }

  /** Main result: take a chunk that follows a gap, because bytes were lost or because data was skipped
      without a signal, and anything at all afterwards. Every frame, packet and marker recognised from
      then on uses only bytes that entered with that chunk or later. */
  lemma GapIsolation(p: Pipe, chunk: seq<Byte>, gapped: bool, later: seq<Op>)
    requires PipeInv(p) && p.input == Signal && (gapped || p.resync)
    ensures PipeInv(FeedPipe(p, chunk, gapped))
    ensures OnlyFrom(p, Run(FeedPipe(p, chunk, gapped), later))
  {
    var g, k := |p.reorderer.h|, |p.builder.p.log|;
    var p0 := p.(reorderer := Reorder.Reset(p.reorderer), resync := false);
    FeedPipeInv(p, chunk, gapped);
    GappedFeed(p, chunk, gapped);
    IsolatedFeed(p0, chunk, false, g, k);
    ReordererFeed(p0.reorderer, chunk, false);
    hide PipeInv, Reorder.Valid, FeedPipe;
    IsolatedRun(FeedPipe(p, chunk, gapped), later, g, k);
  }

  // ---------------------------------------------------------------- periods without a signal

  /** The input state after these steps. */
  function InputAfter(input: InputState, ops: seq<Op>): InputState {
    if ops == [] then input
    else if ops[|ops| - 1].Input? then ops[|ops| - 1].state
    else InputAfter(input, ops[..|ops| - 1])
  }

  /** The last chunk offered in these steps came without a signal; if none was offered, `before`. */
  predicate LastChunkSkipped(input: InputState, ops: seq<Op>, before: bool) {
    if ops == [] then before
    else
      var n := |ops| - 1;
      if ops[n].Chunk? then InputAfter(input, ops[..n]) != Signal else LastChunkSkipped(input, ops[..n], before)
  }

  lemma {:induction false} RunBoth(p: Pipe, first: seq<Op>, second: seq<Op>)
    requires PipeInv(p)
    ensures PipeInv(Run(p, first)) && Run(p, first + second) == Run(Run(p, first), second)
    decreases |first|
  {
    if first == [] {
      assert first + second == second;
    } else {
      ApplyInv(p, first[0]);
      assert Reorder.Valid(p.reorderer);
      hide PipeInv, Apply, Reorder.Valid;
      assert (first + second)[1..] == first[1..] + second;
      RunBoth(Apply(p, first[0]), first[1..], second);
    }
  }

  lemma RunLast(p: Pipe, ops: seq<Op>)
    requires PipeInv(p) && ops != []
    ensures PipeInv(Run(p, ops[..|ops| - 1])) && Reorder.Valid(Run(p, ops[..|ops| - 1]).reorderer)
    ensures Run(p, ops) == Apply(Run(p, ops[..|ops| - 1]), ops[|ops| - 1])
  {
    var n := |ops| - 1;
    RunBoth(p, ops[..n], [ops[n]]);
    assert ops[..n] + [ops[n]] == ops;
    ApplyInv(Run(p, ops[..n]), ops[n]);
    hide Reorder.Valid, PP.Valid;
    assert [ops[n]][1..] == [];
  }

  /** Main result: after any chunks, gaps and input states, the next chunk counts as following a gap,
      whether flagged or not, if and only if the last chunk offered was skipped for want of a signal. */
  lemma {:induction false} ResyncIff(p: Pipe, ops: seq<Op>)
    requires PipeInv(p)
    ensures Run(p, ops).input == InputAfter(p.input, ops)
    ensures Run(p, ops).resync <==> LastChunkSkipped(p.input, ops, p.resync)
    decreases |ops|
  {
    if ops != [] {
      RunLast(p, ops);
      ResyncIff(p, ops[..|ops| - 1]);
    }
  }

  /** No chunk meets a signal. */
  predicate NoneTaken(input: InputState, ops: seq<Op>) {
    forall i | 0 <= i < |ops| && ops[i].Chunk? :: InputAfter(input, ops[..i]) != Signal
  }

  predicate SomeOffered(ops: seq<Op>) { exists i :: 0 <= i < |ops| && ops[i].Chunk? }

  /** A period in which no chunk meets a signal leaves the parsers alone; and it counts as a gap if and
      only if a chunk was offered in it. A loss of signal between two chunks is none. */
  lemma {:induction false} AwayIsGapIff(p: Pipe, ops: seq<Op>)
    requires PipeInv(p) && NoneTaken(p.input, ops)
    ensures Run(p, ops) == p.(input := InputAfter(p.input, ops), resync := p.resync || SomeOffered(ops))
    decreases |ops|
  {
    if ops != [] {
      var n := |ops| - 1;
      var front := ops[..n];
      forall i | 0 <= i < |front| && front[i].Chunk? ensures InputAfter(p.input, front[..i]) != Signal {
        assert front[..i] == ops[..i] && ops[i].Chunk?;
      }
      RunLast(p, ops);
      AwayIsGapIff(p, front);
      assert SomeOffered(ops) <==> SomeOffered(front) || ops[n].Chunk? by {
        assert forall i | 0 <= i < n :: front[i] == ops[i];
      }
      hide SomeOffered, Reorder.Valid, PP.Valid;
    }
  }

  // ---------------------------------------------------------------- gaps that meet no signal

  /** Skipped data isolates as lost data does, whatever comes before the next chunk is taken. */
  lemma {:induction false} ResyncIsolates(p: Pipe, ops: seq<Op>)
    requires PipeInv(p) && p.resync
    ensures OnlyFrom(p, Run(p, ops))
    decreases |ops|
  {
    hide Reorder.Valid, PP.Valid, OnlyFrom, Reorder.Feed, FeedCalls, NewCalls;
    if ops == [] {
      NothingSince(p);
    } else {
      ApplyInv(p, ops[0]);
      if ops[0].Chunk? && p.input == Signal {
        GapIsolation(p, ops[0].data, ops[0].gapped, ops[1..]);
      } else {
        ResyncIsolates(Apply(p, ops[0]), ops[1..]);
        SameStart(p, Apply(p, ops[0]), Run(p, ops));
      }
    }
  }

  lemma NothingSince(p: Pipe)
    ensures OnlyFrom(p, p)
  {
  }

  lemma SameStart(p: Pipe, p': Pipe, q: Pipe)
    requires p'.builder == p.builder && p'.reorderer == p.reorderer
    ensures OnlyFrom(p, q) == OnlyFrom(p', q)
  {
  }

  /** So the result holds of a flagged chunk in any state of the input, taken or skipped. */
  lemma FlaggedChunkIsolates(p: Pipe, chunk: seq<Byte>, later: seq<Op>)
    requires PipeInv(p)
    ensures OnlyFrom(p, Run(p, [Chunk(chunk, true)] + later))
  {
    hide Reorder.Valid, PP.Valid, OnlyFrom, Reorder.Feed, FeedCalls, NewCalls;
    var ops := [Chunk(chunk, true)] + later;
    assert ops[1..] == later;
    ApplyInv(p, ops[0]);
    if p.input == Signal {
      GapIsolation(p, chunk, true, later);
    } else {
      ResyncIsolates(Apply(p, ops[0]), later);
      SameStart(p, Apply(p, ops[0]), Run(p, ops));
    }
  }
}
