/** What the emitter puts out: contiguous between flags, each byte at most once, on the pair grid. */
module EmitProofs {
  import opened Markers
  import opened ReorderModel
  import opened Hysteresis

  /** Where the byte at place `pos` of the restored stream is in the input. */
  function Source(grid: Grid, pos: nat): int {
    match grid
    case Straight => pos
    case Pairs(origin) =>
      if (pos - origin) % PAIR_BYTES < DMA_BUFFER_BYTES then pos + DMA_BUFFER_BYTES
      else pos - DMA_BUFFER_BYTES
  }

  lemma OnGrid(out: nat, origin: nat, i: nat)
    requires (out - origin) % PAIR_BYTES == 0 && i < PAIR_BYTES
    ensures (out + i - origin) % PAIR_BYTES == i
  {
  }

  ghost predicate Placed(items: seq<Item>) {
    forall i | 0 <= i < |items| :: items[i].src == Source(items[i].grid, items[i].pos)
  }

  ghost predicate Chained(items: seq<Item>) {
    forall i | 0 <= i < |items| && !items[i].gap ::
      i > 0 && items[i].pos == items[i - 1].pos + 1 && items[i].grid == items[i - 1].grid
  }

  ghost predicate Forward(items: seq<Item>) {
    forall i, j | 0 <= i < j < |items| :: items[i].pos < items[j].pos
  }

  ghost predicate OnceOnly(items: seq<Item>) {
    forall i, j | 0 <= i < j < |items| :: items[i].src != items[j].src
  }

  /** An unflagged byte continues, in the restored order, exactly where the previous one ended;
      places only move forward, and no input byte is put out twice. */
  ghost predicate Continuous(items: seq<Item>) {
    Placed(items) && Chained(items) && Forward(items) && OnceOnly(items)
  }

  /** `items` may be followed by a byte at `out` on `grid`, flagged or not. */
  ghost predicate EndsAt(items: seq<Item>, out: nat, grid: Grid, gap: bool) {
    && (forall i | 0 <= i < |items| :: items[i].pos < out && items[i].src < out)
    && (!gap ==> |items| > 0 && items[|items| - 1].pos + 1 == out && items[|items| - 1].grid == grid)
  }

  function CurrentGrid(d: Decision): Grid {
    if d.order == Swapped then Pairs(d.origin) else Straight
  }

  ghost predicate EmitInv(verdicts: seq<Observation>, e: Emitter) {
    && Ready(verdicts, e)
    && (e.decision.order == Unknown ==> e.gap)
    && (e.decision.order == Swapped ==> e.decision.origin <= e.out && (e.out - e.decision.origin) % PAIR_BYTES == 0)
    && Continuous(e.items)
    && EndsAt(e.items, e.out, CurrentGrid(e.decision), e.gap)
  }

  /** `added` is the stretch of the restored stream from `out` on, read from inside that stretch. */
  ghost predicate Block(added: seq<Item>, out: nat, grid: Grid, gap: bool) {
    && |added| > 0
    && (forall i | 0 <= i < |added| ::
          added[i].pos == out + i && added[i].grid == grid && added[i].gap == (gap && i == 0))
    && Placed(added)
    && (forall i | 0 <= i < |added| :: out <= added[i].src < out + |added|)
    && OnceOnly(added)
  }

  lemma ChainedAppend(items: seq<Item>, added: seq<Item>, out: nat, grid: Grid, gap: bool)
    requires Chained(items) && EndsAt(items, out, grid, gap) && Block(added, out, grid, gap)
    ensures Chained(items + added)
  {
    var all, n := items + added, |items|;
    forall i | 0 <= i < |all| && !all[i].gap
      ensures i > 0 && all[i].pos == all[i - 1].pos + 1 && all[i].grid == all[i - 1].grid
    {
      if i > n {
        assert all[i] == added[i - n] && all[i - 1] == added[i - n - 1];
      } else if i == n {
        assert all[i] == added[0];
      }
    }
  }

  lemma ForwardAppend(items: seq<Item>, added: seq<Item>, out: nat, grid: Grid, gap: bool)
    requires Forward(items) && EndsAt(items, out, grid, gap) && Block(added, out, grid, gap)
    ensures Forward(items + added)
  {
  }

  lemma OnceOnlyAppend(items: seq<Item>, added: seq<Item>, out: nat, grid: Grid, gap: bool)
    requires OnceOnly(items) && EndsAt(items, out, grid, gap) && Block(added, out, grid, gap)
    ensures OnceOnly(items + added)
  {
    var all, n := items + added, |items|;
    forall i, j | 0 <= i < j < |all| ensures all[i].src != all[j].src {
      if j < n {
        assert all[i] == items[i] && all[j] == items[j];
      } else if i < n {
        assert all[i] == items[i] && all[j] == added[j - n];
      } else {
        assert all[i] == added[i - n] && all[j] == added[j - n];
      }
    }
  }

  lemma AppendBlock(items: seq<Item>, added: seq<Item>, out: nat, grid: Grid, gap: bool)
    requires Continuous(items) && EndsAt(items, out, grid, gap) && Block(added, out, grid, gap)
    ensures Continuous(items + added) && EndsAt(items + added, out + |added|, grid, false)
  {
    ChainedAppend(items, added, out, grid, gap);
    ForwardAppend(items, added, out, grid, gap);
    OnceOnlyAppend(items, added, out, grid, gap);
    assert (items + added)[|items + added| - 1] == added[|added| - 1];
  }

  lemma PairIsBlock(out: nat, origin: nat, gap: bool)
    requires (out - origin) % PAIR_BYTES == 0
    ensures Block(PairItems(out, Pairs(origin), gap), out, Pairs(origin), gap)
  {
    var added := PairItems(out, Pairs(origin), gap);
    forall i | 0 <= i < |added| ensures added[i].src == Source(added[i].grid, added[i].pos) {
      OnGrid(out, origin, i);
    }
    assert forall i | 0 <= i < |added| ::
      added[i].src == if i < DMA_BUFFER_BYTES then out + i + DMA_BUFFER_BYTES else out + i - DMA_BUFFER_BYTES;
  }

  /** The step only adds bytes read from at or after the output position. */
  ghost predicate Extends(e: Emitter, e': Emitter) {
    && e.out <= e'.out
    && e.items <= e'.items
    && forall i | |e.items| <= i < |e'.items| :: e.out <= e'.items[i].src
  }

  lemma ExtendsTransitive(a: Emitter, b: Emitter, c: Emitter)
    requires Extends(a, b) && Extends(b, c)
    ensures Extends(a, c)
  {
    assert forall i | |a.items| <= i < |b.items| :: c.items[i] == b.items[i];
  }

  lemma ObserveInv(verdicts: seq<Observation>, e: Emitter)
    requires EmitInv(verdicts, e) && e.next < |verdicts|
    ensures var o, e' := verdicts[e.next], Observe(e, verdicts[e.next]);
      if e'.decision.changes != e.decision.changes then EmitInv(verdicts, e'.(out := o.sav))
      else EmitInv(verdicts, e')
  {
    var o, e' := verdicts[e.next], Observe(e, verdicts[e.next]);
    assert forall i | e'.next <= i < |verdicts| :: o.sav < verdicts[i].sav;
  }

  lemma ReadyAt(verdicts: seq<Observation>, e: Emitter, out: nat)
    requires Ready(verdicts, e) && (e.next < |verdicts| ==> out <= verdicts[e.next].sav)
    ensures Ready(verdicts, e.(out := out))
  {
    assert forall i | e.next < i < |verdicts| :: verdicts[e.next].sav < verdicts[i].sav;
  }

  lemma AppendInv(verdicts: seq<Observation>, e: Emitter, added: seq<Item>)
    requires EmitInv(verdicts, e) && Block(added, e.out, CurrentGrid(e.decision), e.gap)
    requires e.decision.order == Normal || (e.decision.order == Swapped && |added| == PAIR_BYTES)
    requires e.next < |verdicts| ==> e.out + |added| <= verdicts[e.next].sav
    ensures var e' := e.(out := e.out + |added|, gap := false, items := e.items + added);
      EmitInv(verdicts, e') && Extends(e, e')
  {
    AppendBlock(e.items, added, e.out, CurrentGrid(e.decision), e.gap);
    ReadyAt(verdicts, e, e.out + |added|);
  }

  lemma UnknownInv(verdicts: seq<Observation>, e: Emitter, end: nat)
    requires EmitInv(verdicts, e) && e.decision.order == Unknown && e.out <= end
    requires e.next < |verdicts| ==> end <= verdicts[e.next].sav
    ensures EmitInv(verdicts, e.(out := end))
  {
    ReadyAt(verdicts, e, end);
  }

  lemma RunInv(verdicts: seq<Observation>, e: Emitter, end: nat)
    requires EmitInv(verdicts, e) && e.decision.order == Normal && e.out < end
    requires e.next < |verdicts| ==> end <= verdicts[e.next].sav
    ensures var e' := e.(out := end, gap := false, items := e.items + Run(e.out, e.out, end - e.out, Straight, e.gap));
      EmitInv(verdicts, e') && Extends(e, e')
  {
    var added := Run(e.out, e.out, end - e.out, Straight, e.gap);
    assert Block(added, e.out, Straight, e.gap);
    AppendInv(verdicts, e, added);
  }

  lemma PairInv(verdicts: seq<Observation>, e: Emitter)
    requires EmitInv(verdicts, e) && e.decision.order == Swapped
    requires e.next < |verdicts| ==> e.out + PAIR_BYTES <= verdicts[e.next].sav
    ensures var e' := e.(out := e.out + PAIR_BYTES, gap := false,
                         items := e.items + PairItems(e.out, Pairs(e.decision.origin), e.gap));
      EmitInv(verdicts, e') && Extends(e, e')
  {
    PairIsBlock(e.out, e.decision.origin, e.gap);
    AppendInv(verdicts, e, PairItems(e.out, Pairs(e.decision.origin), e.gap));
  }

  lemma StepObserves(verdicts: seq<Observation>, limit: nat, e: Emitter)
    requires EmitInv(verdicts, e) && e.out < limit && e.next < |verdicts|
    requires verdicts[e.next].sav == e.out
             || (e.decision.order == Swapped && verdicts[e.next].sav < e.out + PAIR_BYTES <= limit)
    ensures var r := EmitStep(verdicts, limit, e);
      r.Some? && EmitInv(verdicts, r.value) && e.out <= r.value.out <= limit && r.value.items == e.items
  {
    ObserveInv(verdicts, e);
  }

  lemma StepEmits(verdicts: seq<Observation>, limit: nat, e: Emitter)
    requires EmitInv(verdicts, e) && e.out < limit
    requires e.next < |verdicts| ==>
      verdicts[e.next].sav != e.out
      && (e.decision.order == Swapped && e.out + PAIR_BYTES <= limit ==> e.out + PAIR_BYTES <= verdicts[e.next].sav)
    ensures var r := EmitStep(verdicts, limit, e); r.Some? ==>
      EmitInv(verdicts, r.value) && r.value.out <= limit && Extends(e, r.value)
  {
    var end := if e.next < |verdicts| && verdicts[e.next].sav < limit then verdicts[e.next].sav else limit;
    if e.decision.order == Unknown {
      assert EmitStep(verdicts, limit, e) == Some(e.(out := end));
      UnknownInv(verdicts, e, end);
    } else if e.decision.order == Normal {
      var added := Run(e.out, e.out, end - e.out, Straight, e.gap);
      assert EmitStep(verdicts, limit, e) == Some(e.(out := end, gap := false, items := e.items + added));
      RunInv(verdicts, e, end);
    } else if e.out + PAIR_BYTES <= limit {
      var added := PairItems(e.out, Pairs(e.decision.origin), e.gap);
      assert EmitStep(verdicts, limit, e) == Some(e.(out := e.out + PAIR_BYTES, gap := false, items := e.items + added));
      PairInv(verdicts, e);
    }
  }

  lemma EmitStepInv(verdicts: seq<Observation>, limit: nat, e: Emitter)
    requires EmitInv(verdicts, e) && e.out < limit
    ensures var r := EmitStep(verdicts, limit, e); r.Some? ==>
      EmitInv(verdicts, r.value) && r.value.out <= limit && Extends(e, r.value)
  {
    if e.next < |verdicts|
       && (verdicts[e.next].sav == e.out
           || (e.decision.order == Swapped && verdicts[e.next].sav < e.out + PAIR_BYTES <= limit)) {
      StepObserves(verdicts, limit, e);
    } else {
      StepEmits(verdicts, limit, e);
    }
  }

  /** Main result on emitting; the last clause is the hold-back: at most a partial pair stays. */
  lemma {:induction false} EmitToInv(verdicts: seq<Observation>, limit: nat, e: Emitter)
    requires EmitInv(verdicts, e)
    ensures var e' := EmitTo(verdicts, limit, e);
      && EmitInv(verdicts, e')
      && Extends(e, e')
      && (e'.out <= limit || e'.out == e.out)
      && limit < e'.out + PAIR_BYTES
    decreases if e.out < limit then limit - e.out else 0, |verdicts| - e.next
  {
    if e.out < limit {
      var r := EmitStep(verdicts, limit, e);
      if r.Some? {
        EmitStepInv(verdicts, limit, e);
        EmitToInv(verdicts, limit, r.value);
        ExtendsTransitive(e, r.value, EmitTo(verdicts, limit, r.value));
      }
    }
  }

  // ---------------------------------------------------------------- emitting in two steps

  lemma StepReady(verdicts: seq<Observation>, limit: nat, e: Emitter)
    requires Ready(verdicts, e) && e.out < limit
    ensures var r := EmitStep(verdicts, limit, e); r.Some? ==> Ready(verdicts, r.value)
  {
    assert forall i | e.next < i < |verdicts| :: verdicts[e.next].sav < verdicts[i].sav;
  }

  /** The emit loop makes progress on every turn, and stops when a step has to wait. */
  lemma EmitNext(verdicts: seq<Observation>, limit: nat, e: Emitter)
    requires Ready(verdicts, e) && e.out < limit
    ensures match EmitStep(verdicts, limit, e)
      case None => EmitTo(verdicts, limit, e) == e
      case Some(e') =>
        && Ready(verdicts, e') && e.out <= e'.out <= limit
        && (e.out < e'.out || e.next < e'.next)
        && EmitTo(verdicts, limit, e) == EmitTo(verdicts, limit, e')
  {
    StepReady(verdicts, limit, e);
  }

  lemma EmitDone(verdicts: seq<Observation>, limit: nat, e: Emitter)
    requires Ready(verdicts, e) && e.out >= limit
    ensures EmitTo(verdicts, limit, e) == e
  {
  }

  /** Two adjacent stretches in normal order are one. */
  lemma RunsJoin(at: nat, n: nat, k: nat, gap: bool)
    requires n > 0
    ensures Run(at, at, n, Straight, gap) + Run(at + n, at + n, k, Straight, false) == Run(at, at, n + k, Straight, gap)
  {
  }

  /** `later` adds only SAVs at or after `limit` to `earlier`. */
  ghost predicate AddsFrom(earlier: seq<Observation>, later: seq<Observation>, limit: nat) {
    earlier <= later && forall i | |earlier| <= i < |later| :: limit <= later[i].sav
  }

  /** A step towards the nearer limit is a step towards the farther one, or the start of it. */
  lemma StepTowards(earlier: seq<Observation>, later: seq<Observation>, near: nat, far: nat, e: Emitter)
    requires Ready(earlier, e) && Ready(later, e) && AddsFrom(earlier, later, near)
    requires e.out < near <= far && EmitStep(earlier, near, e).Some?
    ensures var e1 := EmitStep(earlier, near, e).value;
      || EmitStep(later, far, e) == Some(e1)
      || (e1.out == near < far && EmitStep(later, far, e) == EmitStep(later, far, e1))
  {
    var e1 := EmitStep(earlier, near, e).value;
    if EmitStep(later, far, e) != Some(e1) && e.decision.order == Normal {
      var end := EmitStep(later, far, e).value.out;
      RunsJoin(e.out, near - e.out, end - near, e.gap);
      assert e.items + Run(e.out, e.out, near - e.out, Straight, e.gap) + Run(near, near, end - near, Straight, false)
          == e.items + Run(e.out, e.out, end - e.out, Straight, e.gap);
    }
  }

  /** Main result on resuming: emitting up to one limit and then, with more verdicts, up to a later
      one is emitting up to the later one. */
  lemma {:induction false} EmitResumes(
      earlier: seq<Observation>, later: seq<Observation>, near: nat, far: nat, e: Emitter)
    requires Ready(earlier, e) && Ready(later, e) && AddsFrom(earlier, later, near) && near <= far
    ensures Ready(later, EmitTo(earlier, near, e))
    ensures EmitTo(later, far, EmitTo(earlier, near, e)) == EmitTo(later, far, e)
    decreases if e.out < near then near - e.out else 0, |earlier| - e.next
  {
    if e.out < near && EmitStep(earlier, near, e).Some? {
      var e1 := EmitStep(earlier, near, e).value;
      StepReady(earlier, near, e);
      StepReady(later, far, e);
      StepTowards(earlier, later, near, far, e);
      if EmitStep(later, far, e) == Some(e1) {
        EmitResumes(earlier, later, near, far, e1);
      } else {
        assert EmitTo(earlier, near, e) == e1;
        assert Ready(later, e1) by {
          ReadyLater(earlier, later, near, e1);
        }
      }
    }
  }

  lemma ReadyLater(earlier: seq<Observation>, later: seq<Observation>, near: nat, e: Emitter)
    requires Ready(earlier, e) && AddsFrom(earlier, later, near) && e.out <= near && Sorted(later)
    ensures Ready(later, e)
  {
    forall i | e.next <= i < |later| ensures e.out <= later[i].sav {
      if i < |earlier| {
        assert later[i] == earlier[i];
      }
    }
  }
}
