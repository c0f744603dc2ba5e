/** A stream whose pairs arrive exchanged comes out in true order. */
module Restore {
  import opened Markers
  import opened ReorderModel
  import opened ScanProofs
  import opened EmitProofs
  import opened Reorder
  import H = Hysteresis

  // ---------------------------------------------------------------- the decision behind the output

  /** The order in force after emitting is the hysteresis over the verdicts taken so far. */
  lemma {:induction false} EmitDecides(verdicts: seq<Observation>, limit: nat, e: Emitter, start: Decision)
    requires Ready(verdicts, e) && e.decision == H.DecideAll(start, verdicts[..e.next])
    ensures var e' := EmitTo(verdicts, limit, e);
      e'.next <= |verdicts| && e'.decision == H.DecideAll(start, verdicts[..e'.next])
    decreases if e.out < limit then limit - e.out else 0, |verdicts| - e.next
  {
    if e.out < limit && EmitStep(verdicts, limit, e).Some? {
      var e' := EmitStep(verdicts, limit, e).value;
      if e'.next != e.next {
        H.DecideOneMore(start, verdicts, e.next);
      }
      StepReady(verdicts, limit, e);
      EmitDecides(verdicts, limit, e', start);
    }
  }

  /** The established order and the change count are those of the hysteresis over the verdicts that
      the scan defines, in stream order: nothing about chunks or timing enters. */
  lemma OrderIsHysteresis(m: Reorderer)
    requires Valid(m)
    ensures var v := m.scanner.verdicts; var n := m.emitter.next;
      && n <= |v| && H.Known(v)
      && (forall i | 0 <= i < |v| :: Verdict(m.h, v[i]))
      && m.emitter.decision == H.DecideAll(m.start, v[..n])
  {
    WholeReady(m.h, m.base, m.start, m.before);
    EmitDecides(m.scanner.verdicts, EmitLimit(m.h), AtReset(m.base, m.start, m.before), m.start);
  }

  // ---------------------------------------------------------------- restoring exchanged pairs

  /** `w` is `t` with the two halves of every complete pair exchanged. */
  ghost predicate Exchanged(w: seq<Byte>, t: seq<Byte>) {
    && |w| == |t|
    && forall i: nat | i / PAIR_BYTES * PAIR_BYTES + PAIR_BYTES <= |w| ::
         w[i] == t[if i % PAIR_BYTES < DMA_BUFFER_BYTES then i + DMA_BUFFER_BYTES else i - DMA_BUFFER_BYTES]
  }

  /** `items` is the restored stream from `a` on, flagged at its start only. */
  ghost predicate RestoredFrom(items: seq<Item>, a: nat, grid: Grid) {
    forall i | 0 <= i < |items| ::
      items[i].pos == a + i && items[i].grid == grid && items[i].gap == (i == 0)
  }

  /** The grid that a first verdict puts in force. */
  function GridOf(o: Observation): Grid {
    if o.order == Swapped then Pairs(o.sav) else Straight
  }

  /** One order from the first verdict on, with nothing but strays against it. */
  ghost predicate Steady(verdicts: seq<Observation>, start: Decision) {
    verdicts != [] && H.Undecided(start) && H.Known(verdicts) && H.OnlyStrays(verdicts)
  }

  /** The emitter, having put out `mark` bytes before the reset, is restoring the stream from the first
      verdict's SAV on. */
  ghost predicate Restoring(verdicts: seq<Observation>, e: Emitter, start: Decision, mark: nat)
    requires verdicts != []
  {
    var a, grid := verdicts[0].sav, GridOf(verdicts[0]);
    && EmitInv(verdicts, e)
    && e.decision == H.DecideAll(start, verdicts[..e.next])
    && mark <= |e.items|
    && RestoredFrom(e.items[mark..], a, grid)
    && e.gap == (|e.items| == mark)
    && if e.next == 0 then e.out <= a && |e.items| == mark else e.out == a + |e.items| - mark
  }

  /** Verdicts after the first leave a restoring emitter restoring. */
  lemma RestoringObserves(verdicts: seq<Observation>, limit: nat, e: Emitter, start: Decision, mark: nat)
    requires Steady(verdicts, start) && Restoring(verdicts, e, start, mark) && e.out < limit
    requires EmitStep(verdicts, limit, e).Some? && EmitStep(verdicts, limit, e).value.next != e.next
    ensures Restoring(verdicts, EmitStep(verdicts, limit, e).value, start, mark)
  {
    EmitStepInv(verdicts, limit, e);
    H.DecideOneMore(start, verdicts, e.next);
    H.StraysAreIgnored(start, verdicts, e.next + 1);
    if e.next > 0 {
      H.StraysAreIgnored(start, verdicts, e.next);
    } else {
      assert verdicts[..0] == [];
    }
  }

  /** Between verdicts the first one stands. */
  lemma SteadyDecision(verdicts: seq<Observation>, e: Emitter, start: Decision, mark: nat)
    requires Steady(verdicts, start) && Restoring(verdicts, e, start, mark) && e.next > 0
    ensures e.decision.order == verdicts[0].order && e.decision.origin == verdicts[0].sav
    ensures verdicts[0].order == Swapped ==> (e.out - e.decision.origin) % PAIR_BYTES == 0
  {
    hide RestoredFrom, Continuous, EndsAt;
    H.StraysAreIgnored(start, verdicts, e.next);
  }

  /** Putting out the next stretch on the grid in force. */
  lemma RestoringEmits(verdicts: seq<Observation>, e: Emitter, added: seq<Item>, start: Decision, mark: nat)
    requires verdicts != [] && Restoring(verdicts, e, start, mark) && e.next > 0
    requires Block(added, e.out, GridOf(verdicts[0]), e.gap)
    requires EmitInv(verdicts, e.(out := e.out + |added|, gap := false, items := e.items + added))
    ensures Restoring(verdicts, e.(out := e.out + |added|, gap := false, items := e.items + added), start, mark)
  {
    hide EmitInv;
    var items := e.items[mark..];
    assert (e.items + added)[mark..] == items + added;
    assert |added| > 0;
    hide RestoredFrom, Block;
  }

  lemma RestoringPair(verdicts: seq<Observation>, limit: nat, e: Emitter, start: Decision, mark: nat)
    requires Steady(verdicts, start) && verdicts[0].order == Swapped
    requires Restoring(verdicts, e, start, mark) && e.out < limit && e.next > 0
    requires EmitStep(verdicts, limit, e).Some? && EmitStep(verdicts, limit, e).value.next == e.next
    ensures Restoring(verdicts, EmitStep(verdicts, limit, e).value, start, mark)
  {
    EmitStepInv(verdicts, limit, e);
    SteadyDecision(verdicts, e, start, mark);
    hide H.OnlyStrays, H.Known, H.Undecided;
    StepPairs(verdicts, limit, e);
    PairIsBlock(e.out, verdicts[0].sav, e.gap);
    hide EmitStep, EmitInv, Block, Steady, Restoring;
    RestoringEmits(verdicts, e, PairItems(e.out, Pairs(e.decision.origin), e.gap), start, mark);
  }

  lemma StepPairs(verdicts: seq<Observation>, limit: nat, e: Emitter)
    requires e.next <= |verdicts| && e.decision.order == Swapped && e.out < limit
    requires EmitStep(verdicts, limit, e).Some? && EmitStep(verdicts, limit, e).value.next == e.next
    ensures var added := PairItems(e.out, Pairs(e.decision.origin), e.gap);
      && |added| == PAIR_BYTES
      && EmitStep(verdicts, limit, e).value == e.(out := e.out + |added|, gap := false, items := e.items + added)
  {
  }

  lemma RunIsBlock(out: nat, end: nat, gap: bool)
    requires out < end
    ensures Block(Run(out, out, end - out, Straight, gap), out, Straight, gap)
  {
  }

  lemma RestoringRun(verdicts: seq<Observation>, limit: nat, e: Emitter, start: Decision, mark: nat)
    requires Steady(verdicts, start) && verdicts[0].order == Normal
    requires Restoring(verdicts, e, start, mark) && e.out < limit && e.next > 0
    requires EmitStep(verdicts, limit, e).Some? && EmitStep(verdicts, limit, e).value.next == e.next
    ensures Restoring(verdicts, EmitStep(verdicts, limit, e).value, start, mark)
  {
    EmitStepInv(verdicts, limit, e);
    SteadyDecision(verdicts, e, start, mark);
    hide H.OnlyStrays, H.Known, H.Undecided;
    var e' := EmitStep(verdicts, limit, e).value;
    RunIsBlock(e.out, e'.out, e.gap);
    hide EmitStep, EmitInv, Block, Steady, Restoring;
    RestoringEmits(verdicts, e, Run(e.out, e.out, e'.out - e.out, Straight, e.gap), start, mark);
  }

  lemma RestoringStep(verdicts: seq<Observation>, limit: nat, e: Emitter, start: Decision, mark: nat)
    requires Steady(verdicts, start) && Restoring(verdicts, e, start, mark) && e.out < limit
    requires EmitStep(verdicts, limit, e).Some?
    ensures Restoring(verdicts, EmitStep(verdicts, limit, e).value, start, mark)
  {
    var e' := EmitStep(verdicts, limit, e).value;
    if e'.next != e.next {
      RestoringObserves(verdicts, limit, e, start, mark);
    } else if e.next == 0 {
      assert verdicts[..0] == [];
      assert e' == e.(out := e'.out) && e'.out <= verdicts[0].sav;
      EmitStepInv(verdicts, limit, e);
    } else if verdicts[0].order == Swapped {
      RestoringPair(verdicts, limit, e, start, mark);
    } else {
      RestoringRun(verdicts, limit, e, start, mark);
    }
  }

  lemma {:induction false} EmitRestores(
      verdicts: seq<Observation>, limit: nat, e: Emitter, start: Decision, mark: nat)
    requires Steady(verdicts, start) && Restoring(verdicts, e, start, mark)
    ensures Restoring(verdicts, EmitTo(verdicts, limit, e), start, mark)
    decreases if e.out < limit then limit - e.out else 0, |verdicts| - e.next
  {
    if e.out < limit && EmitStep(verdicts, limit, e).Some? {
      RestoringStep(verdicts, limit, e, start, mark);
      hide Restoring, Steady;
      EmitRestores(verdicts, limit, EmitStep(verdicts, limit, e).value, start, mark);
    }
  }

  /** The byte behind an emitted item; emitted items always lie inside the input. */
  function ByteOf(h: seq<Byte>, it: Item): Byte {
    if it.src < |h| then h[it.src] else 0
  }

  function Bytes(h: seq<Byte>, items: seq<Item>): seq<Byte> {
    seq(|items|, i requires 0 <= i < |items| => ByteOf(h, items[i]))
  }

  /** What was put out since the last reset. */
  function Since(m: Reorderer): seq<Item>
    requires |m.before| <= |m.emitter.items|
  {
    m.emitter.items[|m.before|..]
  }

  lemma RestoredByte(w: seq<Byte>, t: seq<Byte>, a: nat, p: nat)
    requires Exchanged(w, t) && a % PAIR_BYTES == 0 && a <= p
    requires (p - a) / PAIR_BYTES * PAIR_BYTES + PAIR_BYTES <= |w| - a
    ensures p < |t|
    ensures 0 <= Source(Pairs(a), p) < |w| && w[Source(Pairs(a), p)] == t[p]
  {
    PartnerInPair(a, p);
  }

  lemma PartnerInPair(a: nat, p: nat)
    requires a % PAIR_BYTES == 0 && a <= p
    ensures var s := Source(Pairs(a), p);
      && 0 <= s && s / PAIR_BYTES == p / PAIR_BYTES
      && p == (if s % PAIR_BYTES < DMA_BUFFER_BYTES then s + DMA_BUFFER_BYTES else s - DMA_BUFFER_BYTES)
      && p / PAIR_BYTES * PAIR_BYTES - a == (p - a) / PAIR_BYTES * PAIR_BYTES
  {
    WholePairs(p / PAIR_BYTES - a / PAIR_BYTES, p % PAIR_BYTES);
    WholePairs(a / PAIR_BYTES, 0);
  }

  lemma WholePairs(k: int, r: nat)
    requires r < PAIR_BYTES
    ensures (k * PAIR_BYTES + r) / PAIR_BYTES == k && (k * PAIR_BYTES + r) % PAIR_BYTES == r
  {
  }

  /** What a feed has put out since the reset, if the first verdict stands: the restored stream from its
      SAV on, up to the hold-back. */
  lemma RestoredShape(m: Reorderer)
    requires Valid(m)
    requires m.scanner.verdicts != [] && H.OnlyStrays(m.scanner.verdicts)
    ensures |m.before| <= |m.emitter.items|
    ensures m.base <= m.scanner.verdicts[0].sav
    ensures RestoredFrom(Since(m), m.scanner.verdicts[0].sav, GridOf(m.scanner.verdicts[0]))
    ensures |m.h| < m.scanner.verdicts[0].sav + |Since(m)| + RETAINED
    ensures Since(m) != [] ==>
      && m.scanner.verdicts[0].sav + |Since(m)| == m.emitter.out <= |m.h|
      && (m.scanner.verdicts[0].order == Swapped ==> |Since(m)| % PAIR_BYTES == 0)
  {
    hide EmitTo, Continuous, EndsAt;
    var v, e0 := m.scanner.verdicts, AtReset(m.base, m.start, m.before);
    WholeReady(m.h, m.base, m.start, m.before);
    Outputs(m);
    assert v[..0] == [] && e0.items[|m.before|..] == [];
    AtResetInv(m);
    EmitRestores(v, EmitLimit(m.h), e0, m.start, |m.before|);
    assert Restoring(v, m.emitter, m.start, |m.before|);
    hide Whole, RestoredFrom, WholeScan;
    if m.emitter.next > 0 {
      H.StraysAreIgnored(m.start, v, m.emitter.next);
    }
  }

  lemma AtResetInv(m: Reorderer)
    requires Valid(m)
    ensures EmitInv(m.scanner.verdicts, AtReset(m.base, m.start, m.before))
  {
    WholeReady(m.h, m.base, m.start, m.before);
  }

  // ---------------------------------------------------------------- pieces of the true stream

  ghost predicate Sourced(items: seq<Item>) {
    forall i | 0 <= i < |items| :: items[i].src == Source(items[i].grid, items[i].pos)
  }

  /** The emitted bytes from number `mark` on are in their places. */
  lemma SourcedFrom(m: Reorderer, mark: nat)
    requires Valid(m) && mark <= |m.emitter.items|
    ensures Sourced(m.emitter.items[mark..])
  {
    hide Valid;
    Outputs(m);
    hide Chained, Forward, OnceOnly;
    assert forall i | 0 <= i < |m.emitter.items[mark..]| :: m.emitter.items[mark..][i] == m.emitter.items[mark + i];
  }

  /** Restored bytes of a stream that, from input offset `from` on, is `t` with its pairs exchanged. */
  lemma PieceByte(h: seq<Byte>, from: nat, t: seq<Byte>, items: seq<Item>, sav: nat, i: nat)
    requires from <= |h| && Exchanged(h[from..], t) && from <= sav && (sav - from) % PAIR_BYTES == 0
    requires RestoredFrom(items, sav, Pairs(sav)) && Sourced(items)
    requires sav + |items| <= |h| && |items| % PAIR_BYTES == 0 && i < |items|
    ensures sav - from + i < |t| && items[i].src < |h| && h[items[i].src] == t[sav - from + i]
  {
    var a, w := sav - from, h[from..];
    RestoredByte(w, t, a, a + i);
    hide Exchanged;
    assert items[i].src == from + Source(Pairs(a), a + i);
    assert h[items[i].src] == w[items[i].src - from];
  }

  lemma PieceOfTruth(h: seq<Byte>, from: nat, t: seq<Byte>, items: seq<Item>, sav: nat)
    requires from <= |h| && Exchanged(h[from..], t) && from <= sav && (sav - from) % PAIR_BYTES == 0
    requires RestoredFrom(items, sav, Pairs(sav)) && Sourced(items)
    requires sav + |items| <= |h| && |items| % PAIR_BYTES == 0
    ensures forall i | 0 <= i < |items| :: items[i].src < |h|
    ensures sav - from + |items| <= |t| && Bytes(h, items) == t[sav - from..sav - from + |items|]
  {
    forall i: nat | i < |items|
      ensures items[i].src < |h| && sav - from + i < |t| && h[items[i].src] == t[sav - from + i]
    {
      PieceByte(h, from, t, items, sav, i);
    }
    assert |t| == |h| - from;
  }

  /** The stream from input offset `from` on is `t` as the first verdict of the settled order says: with its
      pairs exchanged, and that SAV on the pair grid; or as it is. */
  ghost predicate TrueFrom(h: seq<Byte>, from: nat, t: seq<Byte>, o: Observation) {
    && from <= o.sav && from <= |h|
    && if o.order == Swapped then Exchanged(h[from..], t) && (o.sav - from) % PAIR_BYTES == 0 else h[from..] == t
  }

  lemma PieceOfEither(h: seq<Byte>, from: nat, t: seq<Byte>, items: seq<Item>, o: Observation)
    requires TrueFrom(h, from, t, o) && RestoredFrom(items, o.sav, GridOf(o)) && Sourced(items)
    requires o.sav + |items| <= |h| && (o.order == Swapped ==> |items| % PAIR_BYTES == 0)
    ensures forall i | 0 <= i < |items| :: items[i].src < |h|
    ensures o.sav - from + |items| <= |t| == |h| - from
    ensures Bytes(h, items) == t[o.sav - from..o.sav - from + |items|]
  {
    if o.order == Swapped {
      PieceOfTruth(h, from, t, items, o.sav);
    } else {
    }
  }

  /** Main result: let everything from some offset `from` since the last reset be `t` with its pairs
      exchanged; after a gap nothing is known about where that grid lies. If the first SAV is found to be
      swapped and lies on the grid, and no two neighbouring verdicts that disagree with it agree with each
      other, then what came out since is a piece of `t` without a hole, starting at that SAV's place,
      flagged only at its start; and less than the hold-back and a pair of it is still to come. */
  lemma SwappedIsRestored(m: Reorderer, from: nat, t: seq<Byte>)
    requires Valid(m) && m.scanner.verdicts != [] && H.OnlyStrays(m.scanner.verdicts)
    requires var o := m.scanner.verdicts[0];
      o.order == Swapped && from <= o.sav && from <= |m.h| && Exchanged(m.h[from..], t) && (o.sav - from) % PAIR_BYTES == 0
    ensures |m.before| <= |m.emitter.items|
    ensures forall i | 0 <= i < |Since(m)| :: Since(m)[i].src < |m.h| && (Since(m)[i].gap <==> i == 0)
    ensures var a := m.scanner.verdicts[0].sav - from;
      && 0 <= a && a + |Since(m)| <= |t| < a + |Since(m)| + RETAINED
      && Bytes(m.h, Since(m)) == t[a..a + |Since(m)|]
  {
    FirstOrderRestored(m, from, t);
  }

  /** And the ordinary stream: if the first SAV is found in normal order, with nothing but strays against
      it, the input from that SAV on comes out as it is, flagged only at its start. */
  lemma NormalIsPassedOn(m: Reorderer)
    requires Valid(m)
    requires var v := m.scanner.verdicts; v != [] && v[0].order == Normal && H.OnlyStrays(v)
    ensures |m.before| <= |m.emitter.items|
    ensures forall i | 0 <= i < |Since(m)| :: Since(m)[i].src < |m.h| && (Since(m)[i].gap <==> i == 0)
    ensures var a := m.scanner.verdicts[0].sav;
      && m.base <= a && a + |Since(m)| <= |m.h| < a + |Since(m)| + RETAINED
      && Bytes(m.h, Since(m)) == m.h[a..a + |Since(m)|]
  {
    assert m.h[0..] == m.h;
    FirstOrderRestored(m, 0, m.h);
    RestoredShape(m);
  }

  lemma FirstOrderRestored(m: Reorderer, from: nat, t: seq<Byte>)
    requires Valid(m) && m.scanner.verdicts != [] && H.OnlyStrays(m.scanner.verdicts)
    requires TrueFrom(m.h, from, t, m.scanner.verdicts[0])
    ensures |m.before| <= |m.emitter.items|
    ensures forall i | 0 <= i < |Since(m)| :: Since(m)[i].src < |m.h| && (Since(m)[i].gap <==> i == 0)
    ensures var a := m.scanner.verdicts[0].sav - from;
      && a + |Since(m)| <= |t| < a + |Since(m)| + RETAINED
      && Bytes(m.h, Since(m)) == t[a..a + |Since(m)|]
  {
    RestoredShape(m);
    SourcedFrom(m, |m.before|);
    FirstSavInside(m);
    hide Valid, H.OnlyStrays, Sourced, TrueFrom;
    PieceOfEither(m.h, from, t, Since(m), m.scanner.verdicts[0]);
  }

  // ---------------------------------------------------------------- after a change of order

  function Dropped(e: Emitter, n: nat): Emitter
    requires n <= e.next
  {
    e.(next := e.next - n)
  }

  lemma StepDrops(verdicts: seq<Observation>, n: nat, limit: nat, e: Emitter)
    requires Ready(verdicts, e) && n <= e.next && e.out < limit
    ensures match EmitStep(verdicts, limit, e)
      case None => EmitStep(verdicts[n..], limit, Dropped(e, n)) == None
      case Some(e') => e.next <= e'.next && EmitStep(verdicts[n..], limit, Dropped(e, n)) == Some(Dropped(e', n))
  {
    var rest := verdicts[n..];
    assert |rest| == |verdicts| - n;
    if e.next < |verdicts| {
      assert rest[e.next - n] == verdicts[e.next];
    }
    hide Decide, Run, PairItems;
  }

  /** Verdicts already taken play no part any more. */
  lemma {:induction false} EmitDrops(verdicts: seq<Observation>, n: nat, limit: nat, e: Emitter)
    requires Ready(verdicts, e) && n <= e.next
    ensures Ready(verdicts[n..], Dropped(e, n))
    ensures var e' := EmitTo(verdicts, limit, e);
      e.next <= e'.next && EmitTo(verdicts[n..], limit, Dropped(e, n)) == Dropped(e', n)
    decreases if e.out < limit then limit - e.out else 0, |verdicts| - e.next
  {
    if e.out < limit {
      StepDrops(verdicts, n, limit, e);
      StepReady(verdicts, limit, e);
      EmitNext(verdicts, limit, e);
      hide EmitStep, Ready;
      if EmitStep(verdicts, limit, e).Some? {
        EmitDrops(verdicts, n, limit, EmitStep(verdicts, limit, e).value);
      }
    }
  }

  /** Verdict `n` puts its order in force: it is the first, or a switch; what follows is only strays. */
  ghost predicate SettlesAt(verdicts: seq<Observation>, start: Decision, n: nat) {
    && H.Undecided(start) && H.Known(verdicts) && n < |verdicts|
    && (n == 0 || H.Switches(start, verdicts, n))
    && H.OnlyStrays(verdicts[n..])
  }

  /** The emitter right after verdict `n` put its order in force. */
  ghost predicate JustSwitched(verdicts: seq<Observation>, e: Emitter, start: Decision, n: nat) {
    && n < |verdicts| && EmitInv(verdicts, e) && e.next == n + 1
    && e.decision == H.DecideAll(start, verdicts[..n + 1])
    && e.out == verdicts[n].sav && e.gap
  }

  /** Taking a verdict that puts its order in force. */
  lemma SwitchingStep(verdicts: seq<Observation>, limit: nat, e: Emitter, start: Decision, n: nat)
    requires EmitInv(verdicts, e) && e.next == n && e.decision == H.DecideAll(start, verdicts[..n])
    requires H.Undecided(start) && H.Known(verdicts) && n < |verdicts| && (n == 0 || H.Switches(start, verdicts, n))
    requires e.out < limit && EmitStep(verdicts, limit, e).Some? && EmitStep(verdicts, limit, e).value.next == n + 1
    ensures JustSwitched(verdicts, EmitStep(verdicts, limit, e).value, start, n)
  {
    EmitStepInv(verdicts, limit, e);
    H.DecideOneMore(start, verdicts, n);
    H.ChangesExactlyAtSwitches(start, verdicts, n);
    hide H.Switches, H.DecideAll, Continuous;
  }

  /** On the way past verdict `n` the emitter takes it. */
  lemma {:induction false} ReachesVerdict(verdicts: seq<Observation>, limit: nat, e: Emitter, start: Decision, n: nat)
      returns (e1: Emitter)
    requires EmitInv(verdicts, e) && e.next <= n && e.decision == H.DecideAll(start, verdicts[..e.next])
    requires H.Undecided(start) && H.Known(verdicts) && n < |verdicts| && (n == 0 || H.Switches(start, verdicts, n))
    requires n < EmitTo(verdicts, limit, e).next
    ensures JustSwitched(verdicts, e1, start, n) && |e.items| <= |e1.items|
    ensures EmitTo(verdicts, limit, e1) == EmitTo(verdicts, limit, e)
    decreases if e.out < limit then limit - e.out else 0, |verdicts| - e.next
  {
    StillToGo(verdicts, limit, e, n);
    var e' := EmitStep(verdicts, limit, e).value;
    EmitStepInv(verdicts, limit, e);
    StepDecides(verdicts, limit, e, start);
    if e'.next > n {
      SwitchingStep(verdicts, limit, e, start, n);
      e1 := e';
    } else {
      hide EmitTo, EmitStep, EmitInv, Extends, JustSwitched, H.DecideAll, H.Switches;
      e1 := ReachesVerdict(verdicts, limit, e', start, n);
    }
  }

  lemma StillToGo(verdicts: seq<Observation>, limit: nat, e: Emitter, n: nat)
    requires Ready(verdicts, e) && e.next <= n < EmitTo(verdicts, limit, e).next
    ensures e.out < limit && EmitStep(verdicts, limit, e).Some?
    ensures var e' := EmitStep(verdicts, limit, e).value;
      && Ready(verdicts, e') && EmitTo(verdicts, limit, e) == EmitTo(verdicts, limit, e')
      && e'.out <= limit && |e.items| <= |e'.items| && e.next <= e'.next <= e.next + 1
      && (e.out < e'.out || (e.out == e'.out && e.next < e'.next))
  {
    assert e.next <= |verdicts|;
    hide EmitTo, EmitStep, Ready;
    if e.out < limit {
      EmitNext(verdicts, limit, e);
    } else {
      EmitDone(verdicts, limit, e);
    }
  }

  lemma StepDecides(verdicts: seq<Observation>, limit: nat, e: Emitter, start: Decision)
    requires e.next <= |verdicts| && e.out < limit && EmitStep(verdicts, limit, e).Some?
    requires e.decision == H.DecideAll(start, verdicts[..e.next])
    ensures var e' := EmitStep(verdicts, limit, e).value;
      e'.next <= |verdicts| && e'.decision == H.DecideAll(start, verdicts[..e'.next])
  {
    if EmitStep(verdicts, limit, e).value.next != e.next {
      H.DecideOneMore(start, verdicts, e.next);
    }
    hide Decide, Run, PairItems, H.DecideAll;
  }

  /** A verdict far enough below the end of the input has been taken. */
  lemma VerdictTaken(m: Reorderer, n: nat)
    requires Valid(m) && n < |m.scanner.verdicts| && m.scanner.verdicts[n].sav + RETAINED <= |m.h|
    ensures n < m.emitter.next
  {
    Outputs(m);
  }

  /** From a switch on, the emitter is in the state that a reset right there would have led to. */
  lemma SwitchRestores(verdicts: seq<Observation>, e: Emitter, start: Decision, n: nat) returns (start': Decision)
    requires JustSwitched(verdicts, e, start, n) && SettlesAt(verdicts, start, n)
    ensures Steady(verdicts[n..], start') && Restoring(verdicts[n..], Dropped(e, n), start', |e.items|)
  {
    var rest := verdicts[n..];
    assert forall i | 0 <= i < |rest| :: rest[i] == verdicts[n + i];
    H.DecideOneMore(start, verdicts, n);
    H.ChangesExactlyAtSwitches(start, verdicts, n);
    start' := e.decision.(order := Unknown, changes := e.decision.changes - 1);
    assert rest[..1] == [rest[0]] && [rest[0]][..0] == [];
    assert H.DecideAll(start', []) == start';
    assert H.DecideAll(start', rest[..1]) == Decide(start', rest[0]) == e.decision;
    assert e.items[|e.items|..] == [];
    hide H.Switches, H.DecideAll, Continuous;
  }

  lemma SwitchedRestoring(
      verdicts: seq<Observation>, limit: nat, e0: Emitter, start: Decision, n: nat) returns (start': Decision, mark: nat)
    requires EmitInv(verdicts, e0) && e0.next == 0 && e0.decision == start
    requires SettlesAt(verdicts, start, n) && n < EmitTo(verdicts, limit, e0).next
    ensures var e := EmitTo(verdicts, limit, e0);
      && |e0.items| <= mark <= |e.items| && e.next > n
      && Steady(verdicts[n..], start') && Restoring(verdicts[n..], Dropped(e, n), start', mark)
  {
    assert verdicts[..0] == [];
    var e1 := ReachesVerdict(verdicts, limit, e0, start, n);
    mark := |e1.items|;
    start' := SwitchRestores(verdicts, e1, start, n);
    EmitDrops(verdicts, n, limit, e1);
    hide SettlesAt, Steady, EmitInv;
    EmitRestores(verdicts[n..], limit, Dropped(e1, n), start', mark);
  }

  /** What has been put out since verdict `n` put its order in force, being number `mark` and on: the
      restored stream from its SAV on, up to the hold-back, flagged at its start only. */
  lemma RestoredSince(m: Reorderer, n: nat) returns (mark: nat)
    requires Valid(m) && SettlesAt(m.scanner.verdicts, m.start, n)
    requires m.scanner.verdicts[n].sav + RETAINED <= |m.h|
    ensures |m.before| <= mark <= |m.emitter.items| && Sourced(m.emitter.items[mark..])
    ensures var o, count := m.scanner.verdicts[n], |m.emitter.items| - mark;
      && m.base <= o.sav
      && RestoredFrom(m.emitter.items[mark..], o.sav, GridOf(o))
      && o.sav + count == m.emitter.out <= |m.h| < o.sav + count + RETAINED
      && (o.order == Swapped ==> count % PAIR_BYTES == 0)
  {
    var v := m.scanner.verdicts;
    VerdictTaken(m, n);
    AtResetInv(m);
    AsEmitted(m);
    var start';
    start', mark := SwitchedRestoring(v, EmitLimit(m.h), AtReset(m.base, m.start, m.before), m.start, n);
    SourcedFrom(m, mark);
    InRange(m, n);
    hide Valid, Sourced, SettlesAt;
    SteadyDecision(v[n..], Dropped(m.emitter, n), start', mark);
    assert v[n..][0] == v[n];
    hide Steady, EmitInv, RestoredFrom;
  }

  lemma AsEmitted(m: Reorderer)
    requires Valid(m)
    ensures Ready(m.scanner.verdicts, AtReset(m.base, m.start, m.before))
    ensures m.emitter == EmitTo(m.scanner.verdicts, EmitLimit(m.h), AtReset(m.base, m.start, m.before))
  {
    WholeReady(m.h, m.base, m.start, m.before);
  }

  lemma InRange(m: Reorderer, n: nat)
    requires Valid(m) && n < |m.scanner.verdicts|
    ensures m.base <= m.scanner.verdicts[n].sav
    ensures m.emitter.out <= |m.h| < m.emitter.out + RETAINED
  {
    WholeReady(m.h, m.base, m.start, m.before);
    Outputs(m);
  }

  /** Main result on a change of order: from the verdict on that puts an order in force for good, the output
      is a piece of the true stream, whatever came before; it begins at the last flag. */
  lemma SwitchedIsRestored(m: Reorderer, n: nat, from: nat, t: seq<Byte>) returns (mark: nat)
    requires Valid(m) && SettlesAt(m.scanner.verdicts, m.start, n)
    requires m.scanner.verdicts[n].sav + RETAINED <= |m.h|
    requires TrueFrom(m.h, from, t, m.scanner.verdicts[n])
    ensures |m.before| <= mark < |m.emitter.items|
    ensures var items := m.emitter.items[mark..];
      var a := m.scanner.verdicts[n].sav - from;
      && (forall i | 0 <= i < |items| :: items[i].src < |m.h| && (items[i].gap <==> i == 0))
      && a + |items| <= |t| < a + |items| + RETAINED
      && Bytes(m.h, items) == t[a..a + |items|]
  {
    mark := RestoredSince(m, n);
    hide Valid, SettlesAt, Sourced, TrueFrom;
    PieceOfEither(m.h, from, t, m.emitter.items[mark..], m.scanner.verdicts[n]);
  }

  /** The phase of a swapped stream moves, as when a chunk of an odd number of buffers is lost unnoticed: the
      verdicts lie on one grid, and from number `k` on, on another. Then from the second one on the new grid
      on, the output is a piece of the true stream again, behind a flag. */
  lemma MovedGridIsRestored(m: Reorderer, k: nat, from: nat, t: seq<Byte>) returns (mark: nat)
    requires Valid(m) && 1 <= k && k + 1 < |m.scanner.verdicts|
    requires var v := m.scanner.verdicts;
      && H.OnGridOf(v, 0, k, v[0].sav) && H.OnGridOf(v, k, |v|, v[k].sav)
      && (v[k].sav - v[0].sav) % PAIR_BYTES != 0
      && v[k + 1].sav + RETAINED <= |m.h|
      && from <= v[k + 1].sav && from <= |m.h| && Exchanged(m.h[from..], t) && (v[k + 1].sav - from) % PAIR_BYTES == 0
    ensures |m.before| <= mark < |m.emitter.items|
    ensures var items := m.emitter.items[mark..];
      var a := m.scanner.verdicts[k + 1].sav - from;
      && (forall i | 0 <= i < |items| :: items[i].src < |m.h| && (items[i].gap <==> i == 0))
      && a + |items| <= |t| < a + |items| + RETAINED
      && Bytes(m.h, items) == t[a..a + |items|]
  {
    hide Valid, H.OnGridOf, Exchanged, SettlesAt;
    MovedGridSettles(m, k);
    mark := SwitchedIsRestored(m, k + 1, from, t);
  }

  lemma MovedGridSettles(m: Reorderer, k: nat)
    requires Valid(m) && 1 <= k && k + 1 < |m.scanner.verdicts|
    requires var v := m.scanner.verdicts;
      && H.OnGridOf(v, 0, k, v[0].sav) && H.OnGridOf(v, k, |v|, v[k].sav)
      && (v[k].sav - v[0].sav) % PAIR_BYTES != 0
    ensures SettlesAt(m.scanner.verdicts, m.start, k + 1) && m.scanner.verdicts[k + 1].order == Swapped
  {
    OrderIsHysteresis(m);
    assert H.Undecided(m.start);
    assert m.scanner.verdicts[k + 1].order == Swapped;
    hide Valid, H.OnlyStrays, H.Switches, H.OnGridOf;
    H.MovedGrid(m.start, m.scanner.verdicts, k);
  }

  // ---------------------------------------------------------------- counting over resets

  /** How many times the order was decided or changed since the last reset. */
  function Decisions(m: Reorderer): nat {
    var v, n := m.scanner.verdicts, m.emitter.next;
    if n == 0 || n > |v| then 0 else 1 + H.SwitchCount(m.start, v, n)
  }

  /** A reset forgets the order but not the count. */
  lemma CountSurvivesReset(m: Reorderer)
    requires Valid(m)
    ensures m.emitter.decision.changes == m.start.changes + Decisions(m)
    ensures Reorder.Reset(m).emitter.decision.changes == m.emitter.decision.changes
    ensures Reorder.Reset(m).emitter.decision.order == Unknown && Decisions(Reorder.Reset(m)) == 0
  {
    OrderIsHysteresis(m);
    if m.emitter.next > 0 {
      H.ChangesAreCounted(m.start, m.scanner.verdicts, m.emitter.next);
    } else {
      assert m.scanner.verdicts[..0] == [];
    }
  }

  /** Streams with gaps in between: each one is fed after a reset. */
  function FeedStreams(m: Reorderer, streams: seq<seq<Byte>>): Reorderer
    requires Valid(m)
    decreases |streams|
  {
    if streams == [] then m
    else
      ResetValid(m);
      FeedIsWhole(Reorder.Reset(m), streams[0]);
      FeedStreams(Reorder.Feed(m, streams[0], true), streams[1..])
  }

  /** How many decisions were made in them altogether. */
  function DecisionsIn(m: Reorderer, streams: seq<seq<Byte>>): nat
    requires Valid(m)
    decreases |streams|
  {
    if streams == [] then 0
    else
      ResetValid(m);
      FeedIsWhole(Reorder.Reset(m), streams[0]);
      var m' := Reorder.Feed(m, streams[0], true);
      Decisions(m') + DecisionsIn(m', streams[1..])
  }

  /** `orderChanges` counts the decisions over all gaps. */
  lemma {:induction false} CountOverGaps(m: Reorderer, streams: seq<seq<Byte>>)
    requires Valid(m)
    ensures Valid(FeedStreams(m, streams))
    ensures FeedStreams(m, streams).emitter.decision.changes == m.emitter.decision.changes + DecisionsIn(m, streams)
    decreases |streams|
  {
    if streams != [] {
      var m' := Reorder.Feed(m, streams[0], true);
      ResetValid(m);
      FeedIsWhole(Reorder.Reset(m), streams[0]);
      CountSurvivesReset(m);
      CountSurvivesReset(m');
      assert m'.start == Reorder.Reset(m).start;
      hide Valid, Decisions, Whole, FeedStep;
      CountOverGaps(m', streams[1..]);
    }
  }

  lemma FirstSavInside(m: Reorderer)
    requires Valid(m) && m.scanner.verdicts != []
    ensures m.scanner.verdicts[0].sav < |m.h|
  {
    WholeReady(m.h, m.base, m.start, m.before);
  }

}
