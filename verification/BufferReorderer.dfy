/** The class itself: in-place scanning and emitting over the retained bytes, proved to follow
    Reorder.FeedStep. */
module BufferReordererClass {
  import opened Markers
  import opened ReorderModel
  import opened ScanProofs
  import opened EmitProofs
  import opened Reorder
  import opened Restore
  import opened SinkCalls

  /** memchr for a zero byte; `end` when there is none. */
  method FindZero(s: seq<Byte>, start: nat, end: nat) returns (i: nat)
    requires start <= end <= |s|
    ensures start <= i <= end
    ensures forall j | start <= j < i :: s[j] != 0
    ensures i < end ==> s[i] == 0
  {
    i := start;
    while i < end && s[i] != 0
      invariant start <= i <= end
      invariant forall j | start <= j < i :: s[j] != 0
    {
      i := i + 1;
    }
  }

  /** Which bytes wait in `out`, and which sink calls were made since `mark` bytes had been emitted. */
  ghost predicate Handing(h: seq<Byte>, items: seq<Item>, mark: nat, flushed: nat,
                          out: seq<Byte>, gapPending: bool, callsBefore: seq<Call>, calls: seq<Call>)
  {
    && mark <= flushed <= |items|
    && out == Bytes(h, items[flushed..])
    && (forall i | flushed < i < |items| :: !items[i].gap)
    && (flushed < |items| ==> items[flushed].gap == gapPending)
    && (flushed > mark ==> gapPending)
    && calls == callsBefore + Render(h, SplitAtGaps(items[mark..flushed]))
  }

  lemma StepParts(m: Reorderer, chunk: seq<Byte>)
    requires Reorder.Valid(m)
    ensures Ready(ScanOn(m, chunk).verdicts, m.emitter)
    ensures FeedStep(m, chunk) == Reorderer(m.h + chunk, m.base, m.start, m.before, ScanOn(m, chunk),
                                            EmitTo(ScanOn(m, chunk).verdicts, EmitLimit(m.h + chunk), m.emitter))
  {
    QueueReady(m, chunk);
  }

  /** A marker seen through the retained bytes is the marker of the input. */
  lemma SeenThrough(h: seq<Byte>, pipe: seq<Byte>, pipeStart: nat, p: nat)
    requires pipeStart <= |h| && pipe == h[pipeStart..] && p + MARKER_SPAN <= |pipe|
    ensures SavAt(pipe, p) == SavAt(h, pipeStart + p) && EavAt(pipe, p) == EavAt(h, pipeStart + p)
    ensures pipe[p + 4] == h[pipeStart + p + 4]
  {
  }

  lemma HandingAppends(h: seq<Byte>, items: seq<Item>, added: seq<Item>, mark: nat, flushed: nat,
                       out: seq<Byte>, gapPending: bool, callsBefore: seq<Call>, calls: seq<Call>)
    requires Handing(h, items, mark, flushed, out, gapPending, callsBefore, calls)
    requires forall i | 0 <= i < |added| :: added[i].gap == (gapPending && out == [] && i == 0)
    ensures Handing(h, items + added, mark, flushed, out + Bytes(h, added), gapPending, callsBefore, calls)
  {
    hide SplitAtGaps;
    var all := items + added;
    assert all[flushed..] == items[flushed..] + added;
    assert all[mark..flushed] == items[mark..flushed];
    assert forall i | |items| <= i < |all| :: all[i] == added[i - |items|];
  }

  lemma HandingFlushes(h: seq<Byte>, items: seq<Item>, mark: nat, flushed: nat,
                       out: seq<Byte>, gapPending: bool, callsBefore: seq<Call>, calls: seq<Call>)
    requires Handing(h, items, mark, flushed, out, gapPending, callsBefore, calls)
    ensures mark <= |items|
    ensures var calls' := if out == [] then calls else calls + [Call(out, gapPending)];
      calls' == callsBefore + Render(h, SplitAtGaps(items[mark..]))
  {
    hide SplitAtGaps;
    assert items[mark..flushed] + items[flushed..] == items[mark..];
    if out != [] {
      SplitAppend(items[mark..flushed], items[flushed..]);
    } else {
      assert items[mark..flushed] == items[mark..];
    }
  }

  lemma HandingEmpty(h: seq<Byte>, items: seq<Item>, mark: nat, gapPending: bool,
                     callsBefore: seq<Call>, calls: seq<Call>)
    requires mark <= |items| && (mark < |items| ==> gapPending)
    requires calls == callsBefore + Render(h, SplitAtGaps(items[mark..]))
    ensures Handing(h, items, mark, |items|, [], gapPending, callsBefore, calls)
  {
    assert items[mark..|items|] == items[mark..];
  }

  lemma HandingStarts(h: seq<Byte>, items: seq<Item>, gapPending: bool, calls: seq<Call>)
    ensures Handing(h, items, |items|, |items|, [], gapPending, calls, calls)
    ensures calls + Render(h, SplitAtGaps(items[|items|..])) == calls
  {
    assert items[|items|..|items|] == [] == items[|items|..];
  }

  datatype Epoch = Epoch(base: nat, start: Decision, before: seq<Item>)

  class BufferReorderer {
    // The input that is still needed: `pipe` starts at input offset pipeStart.
    var pipe: seq<Byte>
    var pipeStart: nat
    var outOffset: nat
    var inOffset: nat
    var scanOffset: nat

    var pendingSav: bool
    var pendingSavOffset: nat
    var pendingSavB0: Byte
    var observations: seq<Observation>

    var decision: Decision  // the established order with its pair grid, the candidate, orderChanges
    var gapPending: bool

    var out: seq<Byte>
    var calls: seq<Call>  // the sink, as the calls made to it so far

    ghost var input: seq<Byte>             // every byte fed so far
    ghost var epoch: Epoch                 // what the last reset left
    ghost var verdicts: seq<Observation>   // every verdict since the last reset
    ghost var taken: nat                   // how many of them have been applied
    ghost var items: seq<Item>             // every byte emitted so far
    ghost var flushed: nat                 // how many of those the sink has received

    ghost function ScannerNow(): Scanner
      reads this
    {
      Scanner(scanOffset, if pendingSav then Some(pendingSavOffset) else None, verdicts)
    }

    ghost function EmitterNow(): Emitter
      reads this
    {
      Emitter(outOffset, taken, decision, gapPending && out == [], items)
    }

    /** The abstract value of the object. */
    ghost function Model(): Reorderer
      reads this
    {
      Reorderer(input, epoch.base, epoch.start, epoch.before, ScannerNow(), EmitterNow())
    }

    /** The retained bytes are the input from pipeStart on, and the queue is the verdicts not taken. */
    ghost predicate Buffers()
      reads this
    {
      && pipeStart <= inOffset == |input| && pipe == input[pipeStart..]
      && taken <= |verdicts| && observations == verdicts[taken..]
      && (pendingSav ==> pendingSavOffset + 4 < |input| && pendingSavB0 == input[pendingSavOffset + 4])
    }

    ghost predicate Valid()
      reads this
    {
      Reorder.Valid(Model()) && Buffers() && pipeStart == outOffset && out == []
    }

    constructor ()
      ensures Valid() && Model() == Fresh() && calls == []
    {
      pipe, pipeStart, outOffset, inOffset, scanOffset := [], 0, 0, 0, 0;
      pendingSav, pendingSavOffset, pendingSavB0, observations := false, 0, 0, [];
      decision, gapPending := Decision(Unknown, 0, Unknown, 0, 0, 0), true;
      out, calls := [], [];
      input, epoch := [], Epoch(0, Decision(Unknown, 0, Unknown, 0, 0, 0), []);
      verdicts, taken, items, flushed := [], 0, [], 0;
      new;
      FreshValid();
    }

    method Reset()
      requires Valid()
      modifies this`pipe, this`pipeStart, this`outOffset, this`scanOffset, this`pendingSav, this`observations,
               this`decision, this`gapPending, this`epoch, this`verdicts, this`taken
      ensures Model() == Reorder.Reset(old(Model()))
      ensures Valid()
    {
      hide Reorder.Valid;
      ResetValid(Model());
      pipe := [];
      pipeStart := inOffset;
      outOffset := inOffset;
      scanOffset := inOffset;
      pendingSav := false;
      observations := [];
      decision := decision.(order := Unknown, candidateCount := 0);
      gapPending := true;
      epoch, verdicts, taken := Epoch(inOffset, decision, items), [], 0;
      assert Model() == Reorder.Reset(old(Model()));
    }

    // ------------------------------------------------------------ scan

    method ObserveSav(sav: nat, verdict: Order)
      requires taken <= |verdicts| && observations == verdicts[taken..]
      modifies this`observations, this`verdicts
      ensures verdicts == old(verdicts) + [Observation(sav, verdict)]
      ensures observations == verdicts[taken..]
    {
      observations := observations + [Observation(sav, verdict)];
      verdicts := verdicts + [Observation(sav, verdict)];
    }

    /** Give up waiting for a late EAV once the window has passed. */
    method ExpirePending()
      requires Buffers()
      modifies this`observations, this`verdicts, this`pendingSav
      ensures Buffers() && ScannerNow() == Expire(old(ScannerNow()))
    {
      if pendingSav && scanOffset >= pendingSavOffset + SWAP_WINDOW {
        ObserveSav(pendingSavOffset, Normal);
        pendingSav := false;
      }
    }

    /** Look at the zero byte at scanOffset. */
    method ScanMarker()
      requires Buffers() && pipeStart <= scanOffset && scanOffset + MARKER_SPAN <= inOffset
      requires pendingSav ==> pendingSavOffset < scanOffset
      requires input[scanOffset] == 0
      modifies this`scanOffset, this`observations, this`verdicts,
               this`pendingSav, this`pendingSavOffset, this`pendingSavB0
      ensures Buffers() && ScannerNow() == ScanByte(input, old(ScannerNow()))
      ensures scanOffset == old(scanOffset) + 1
      ensures pendingSav ==> pendingSavOffset < scanOffset
      ensures pendingSav ==> pendingSavOffset == scanOffset - 1 || (old(pendingSav) && pendingSavOffset == old(pendingSavOffset))
    {
      var p := scanOffset - pipeStart;
      hide SavHeaderValid, EavHeaderValid;
      SeenThrough(input, pipe, pipeStart, p);
      scanOffset := scanOffset + 1;
      if pipe[p + 1] != 0xFF || pipe[p + 2] != 0xFF {
        return;
      }
      if pipe[p + 3] == SAV_TYPE && SavHeaderValid(pipe, p + 4) {
        if pendingSav {
          ObserveSav(pendingSavOffset, Normal);
        }
        pendingSav := true;
        pendingSavOffset := scanOffset - 1;
        pendingSavB0 := pipe[p + 4];
      } else if pipe[p + 3] == EAV_TYPE && EavHeaderValid(pipe, p + 4) && pendingSav {
        var late := pipe[p + 4] != pendingSavB0;
        ObserveSav(pendingSavOffset, if late then Swapped else Normal);
        pendingSav := false;
      }
    }

    /** Advance to the next zero byte, not past `limit` or a pending SAV's deadline. */
    method SkipToZero(limit: nat) returns (found: bool)
      requires Buffers() && pipeStart <= scanOffset < limit && limit + MARKER_SPAN <= inOffset + 1
      requires pendingSav ==> pendingSavOffset < scanOffset < pendingSavOffset + SWAP_WINDOW
      modifies this`scanOffset
      ensures old(scanOffset) <= scanOffset <= limit
      ensures pendingSav ==> scanOffset <= pendingSavOffset + SWAP_WINDOW
      ensures ScanTo(input, old(ScannerNow()), limit) == ScanTo(input, Expire(ScannerNow()), limit)
      ensures !found ==> old(scanOffset) < scanOffset
      ensures found ==> scanOffset < limit && input[scanOffset] == 0
                        && (pendingSav ==> scanOffset < pendingSavOffset + SWAP_WINDOW)
    {
      hide ScanTo;
      var stop := limit;
      if pendingSav && pendingSavOffset + SWAP_WINDOW < stop {
        stop := pendingSavOffset + SWAP_WINDOW;
      }
      var zero := FindZero(pipe, scanOffset - pipeStart, stop - pipeStart);
      assert forall q: nat | scanOffset <= q < pipeStart + zero :: input[q] == pipe[q - pipeStart];
      ScanJumps(input, ScannerNow(), pipeStart + zero, limit);
      scanOffset := pipeStart + zero;
      found := zero < stop - pipeStart;
    }

    method Scan()
      requires Buffers() && pipeStart <= scanOffset
      requires pendingSav ==> pendingSavOffset < scanOffset <= pendingSavOffset + SWAP_WINDOW
      requires Expire(ScannerNow()) == ScannerNow()
      modifies this`scanOffset, this`observations, this`verdicts,
               this`pendingSav, this`pendingSavOffset, this`pendingSavB0
      ensures Buffers()
      ensures ScannerNow() ==
              if |input| < MARKER_SPAN then old(ScannerNow())
              else ScanTo(input, old(ScannerNow()), |input| - MARKER_SPAN + 1)
    {
      hide ScanByte, ScanTo;
      if inOffset < MARKER_SPAN {
        return;
      }
      var limit := inOffset - MARKER_SPAN + 1;
      while scanOffset < limit
        invariant Buffers() && pipeStart <= scanOffset
        invariant pendingSav ==> pendingSavOffset < scanOffset <= pendingSavOffset + SWAP_WINDOW
        invariant ScanTo(input, Expire(ScannerNow()), limit) == ScanTo(input, old(ScannerNow()), limit)
      {
        ExpirePending();
        var found := SkipToZero(limit);
        if found {
          ScanNext(input, ScannerNow(), limit);
          ScanMarker();
        }
      }
      ScanDone(input, Expire(ScannerNow()), limit);
      ExpirePending();
    }

    // ------------------------------------------------------------ emit

    method FlushOut(ghost mark: nat, ghost callsBefore: seq<Call>)
      requires Handing(input, items, mark, flushed, out, gapPending, callsBefore, calls)
      modifies this`gapPending, this`calls, this`out, this`flushed
      ensures out == [] && mark <= flushed == |items|
      ensures gapPending == (old(gapPending) && old(out) == [])
      ensures calls == callsBefore + Render(input, SplitAtGaps(items[mark..]))
    {
      hide SplitAtGaps, Handing, Render;
      HandingFlushes(input, items, mark, flushed, out, gapPending, callsBefore, calls);
      flushed := |items|;
      if |out| == 0 {
        return;
      }
      var gap := gapPending;
      gapPending := false;
      calls := calls + [Call(out, gap)];
      out := [];
    }

    method ApplyObservation(o: Observation, ghost mark: nat, ghost callsBefore: seq<Call>)
      requires Handing(input, items, mark, flushed, out, gapPending, callsBefore, calls)
      modifies this`decision, this`gapPending, this`calls, this`out, this`flushed
      ensures decision == Decide(old(decision), o)
      ensures (gapPending && out == []) ==
              (old(gapPending && out == []) || decision.changes != old(decision).changes)
      ensures Handing(input, items, mark, flushed, out, gapPending, callsBefore, calls)
    {
      hide SplitAtGaps, Handing, Render;
      if decision.order != Unknown {
        if Agrees(o, decision.order, decision.origin) {
          decision := decision.(candidateCount := 0);
          return;
        }
        // Change an established order only when two consecutive SAVs agree.
        if decision.candidateCount > 0 && Agrees(o, decision.candidateOrder, decision.candidateOrigin) {
          decision := decision.(candidateCount := decision.candidateCount + 1);
        } else {
          decision := decision.(candidateOrder := o.order, candidateOrigin := o.sav, candidateCount := 1);
        }
        if decision.candidateCount < 2 {
          return;
        }
        decision := decision.(candidateCount := 0);
      }
      // What waits belongs to the old order: hand it out before the gap.
      FlushOut(mark, callsBefore);
      decision := decision.(order := o.order, origin := o.sav, changes := decision.changes + 1);
      gapPending := true;
      HandingEmpty(input, items, mark, gapPending, callsBefore, calls);
    }

    /** Add bytes of the input to what waits for the sink. */
    method Append(data: seq<Byte>, ghost added: seq<Item>, ghost mark: nat, ghost callsBefore: seq<Call>)
      requires Handing(input, items, mark, flushed, out, gapPending, callsBefore, calls)
      requires data == Bytes(input, added) && data != []
      requires forall i | 0 <= i < |added| :: added[i].gap == (gapPending && out == [] && i == 0)
      modifies this`out, this`items
      ensures out != [] && items == old(items) + added
      ensures Handing(input, items, mark, flushed, out, gapPending, callsBefore, calls)
    {
      hide SplitAtGaps, Handing;
      HandingAppends(input, items, added, mark, flushed, out, gapPending, callsBefore, calls);
      out := out + data;
      items := items + added;
    }

    /** The emitter's frame: the input, the scan and the retained bytes stay as they are. */
    ghost predicate Emitting(mark: nat, callsBefore: seq<Call>)
      reads this
    {
      && Buffers() && pipeStart <= outOffset && Ready(verdicts, EmitterNow())
      && Handing(input, items, mark, flushed, out, gapPending, callsBefore, calls)
    }

    /** The next queued SAV starts at, or inside the pair at, the output position. */
    method TakeObservation(ghost mark: nat, ghost callsBefore: seq<Call>)
      requires Emitting(mark, callsBefore) && observations != []
      modifies this`decision, this`gapPending, this`calls, this`out, this`flushed, this`observations, this`taken
      ensures EmitterNow() == Observe(old(EmitterNow()), old(verdicts[taken]))
      ensures Buffers()
      ensures Handing(input, items, mark, flushed, out, gapPending, callsBefore, calls)
    {
      hide SplitAtGaps, Decide;
      var observation := observations[0];
      observations := observations[1..];
      taken := taken + 1;
      ApplyObservation(observation, mark, callsBefore);
    }

    /** One turn of the emit loop; false when the rest of a pair has not arrived. */
    method EmitOnce(limit: nat, ghost mark: nat, ghost callsBefore: seq<Call>) returns (more: bool)
      requires Emitting(mark, callsBefore) && outOffset < limit <= inOffset
      modifies this`decision, this`gapPending, this`calls, this`out, this`flushed,
               this`observations, this`taken, this`items, this`outOffset
      ensures more ==> EmitStep(verdicts, limit, old(EmitterNow())) == Some(EmitterNow())
      ensures !more ==> EmitStep(verdicts, limit, old(EmitterNow())) == None && EmitterNow() == old(EmitterNow())
      ensures Buffers()
      ensures Handing(input, items, mark, flushed, out, gapPending, callsBefore, calls)
    {
      hide SplitAtGaps, Handing, Decide;
      more := true;
      if observations != [] && observations[0].sav == outOffset {
        TakeObservation(mark, callsBefore);
        return;
      }
      var end := if observations != [] && observations[0].sav < limit then observations[0].sav else limit;
      match decision.order
      case Unknown =>
        outOffset := end;
      case Normal =>
        EmitStraight(end, mark, callsBefore);
      case Swapped =>
        if outOffset + PAIR_BYTES > limit {
          more := false;
          return;
        }
        if observations != [] && observations[0].sav < outOffset + PAIR_BYTES {
          var sav, changesBefore := observations[0].sav, decision.changes;
          TakeObservation(mark, callsBefore);
          if decision.changes != changesBefore {
            outOffset := sav;
          }
        } else {
          EmitPair(mark, callsBefore);
        }
    }

    method EmitStraight(end: nat, ghost mark: nat, ghost callsBefore: seq<Call>)
      requires Emitting(mark, callsBefore) && outOffset < end <= inOffset
      modifies this`out, this`items, this`outOffset
      ensures EmitterNow() == old(EmitterNow()).(
                out := end, gap := false,
                items := old(items) + Run(old(outOffset), old(outOffset), end - old(outOffset), Straight,
                                          old(gapPending && out == [])))
      ensures Handing(input, items, mark, flushed, out, gapPending, callsBefore, calls)
    {
      hide SplitAtGaps, Handing, Ready;
      ghost var added := Run(outOffset, outOffset, end - outOffset, Straight, gapPending && out == []);
      Append(pipe[outOffset - pipeStart..end - pipeStart], added, mark, callsBefore);
      outOffset := end;
    }

    method EmitPair(ghost mark: nat, ghost callsBefore: seq<Call>)
      requires Emitting(mark, callsBefore) && outOffset + PAIR_BYTES <= inOffset
      modifies this`out, this`items, this`outOffset
      ensures EmitterNow() == old(EmitterNow()).(
                out := old(outOffset) + PAIR_BYTES, gap := false,
                items := old(items) + PairItems(old(outOffset), Pairs(decision.origin), old(gapPending && out == [])))
      ensures Handing(input, items, mark, flushed, out, gapPending, callsBefore, calls)
    {
      hide SplitAtGaps, Handing, Ready;
      var pair := outOffset - pipeStart;
      ghost var added := PairItems(outOffset, Pairs(decision.origin), gapPending && out == []);
      Append(pipe[pair + DMA_BUFFER_BYTES..pair + PAIR_BYTES] + pipe[pair..pair + DMA_BUFFER_BYTES],
             added, mark, callsBefore);
      outOffset := outOffset + PAIR_BYTES;
    }

    method Emit(limit: nat, ghost mark: nat, ghost callsBefore: seq<Call>)
      requires Emitting(mark, callsBefore) && limit <= inOffset && outOffset <= inOffset
      modifies this`decision, this`gapPending, this`calls, this`out, this`flushed,
               this`observations, this`taken, this`items, this`outOffset
      ensures Emitting(mark, callsBefore) && outOffset <= inOffset
      ensures EmitterNow() == EmitTo(verdicts, limit, old(EmitterNow()))
    {
      hide EmitTo, EmitStep, Handing, SplitAtGaps;
      ghost var goal := EmitTo(verdicts, limit, EmitterNow());
      while outOffset < limit
        invariant Emitting(mark, callsBefore) && outOffset <= inOffset
        invariant EmitTo(verdicts, limit, EmitterNow()) == goal
        decreases if outOffset < limit then limit - outOffset else 0, |verdicts| - taken
      {
        EmitNext(verdicts, limit, EmitterNow());
        var more := EmitOnce(limit, mark, callsBefore);
        if !more {
          return;
        }
      }
      EmitDone(verdicts, limit, EmitterNow());
    }

    method Feed(chunk: seq<Byte>, gapped: bool)
      requires Valid()
      modifies this
      ensures Valid() && Model() == Reorder.Feed(old(Model()), chunk, gapped)
      ensures calls == old(calls) + NewCalls(old(Model()), Model())
    {
      hide Reorder.Valid, Reorder.Reset, SplitAtGaps, Render;
      ghost var m := Model();
      if gapped {
        Reset();
      }
      FeedEntry(Model());
      if |chunk| == 0 {
        FeedNothing(Model());
        HandingStarts(input, items, gapPending, calls);
        return;
      }
      FeedChunk(chunk);
    }

    /** Take in a chunk and scan what it completes. */
    method ScanChunk(chunk: seq<Byte>)
      requires Valid()
      modifies this`pipe, this`inOffset, this`input, this`scanOffset, this`observations, this`verdicts,
               this`pendingSav, this`pendingSavOffset, this`pendingSavB0
      ensures Buffers() && input == old(input) + chunk
      ensures ScannerNow() == ScanOn(old(Model()), chunk)
    {
      hide Reorder.Valid, ScanTo;
      FeedEntry(Model());
      pipe := pipe + chunk;
      inOffset := inOffset + |chunk|;
      input := input + chunk;
      Scan();
    }

    method FeedChunk(chunk: seq<Byte>)
      requires Valid() && chunk != []
      modifies this
      ensures Valid() && Model() == FeedStep(old(Model()), chunk)
      ensures calls == old(calls) + NewCalls(old(Model()), Model())
    {
      hide Reorder.Valid, SplitAtGaps, Render, Handing, EmitTo, ScanTo, ScanOn, Ready, EmitLimit, Whole;
      ghost var m, mark, callsBefore := Model(), |items|, calls;
      FeedEntry(m);
      FeedIsWhole(m, chunk);
      QueueReady(m, chunk);
      ScanChunk(chunk);
      out := [];
      flushed := |items|;
      HandingStarts(input, items, gapPending, calls);
      EmitNow(mark, callsBefore);
      FlushOut(mark, callsBefore);
      StepParts(m, chunk);
      hide FeedStep;
    }

    /** Emit what the hold-back allows and drop the emitted bytes. */
    method EmitNow(ghost mark: nat, ghost callsBefore: seq<Call>)
      requires Emitting(mark, callsBefore) && pipeStart == outOffset
      modifies this`decision, this`gapPending, this`calls, this`out, this`flushed,
               this`observations, this`taken, this`items, this`outOffset, this`pipe, this`pipeStart
      ensures Emitting(mark, callsBefore) && pipeStart == outOffset
      ensures EmitterNow() == EmitTo(verdicts, EmitLimit(input), old(EmitterNow()))
    {
      hide EmitTo, Handing, Ready;
      if inOffset > HOLD_BACK {
        Emit(inOffset - HOLD_BACK, mark, callsBefore);
        pipe := pipe[outOffset - pipeStart..];
        pipeStart := outOffset;
      } else {
        EmitDone(verdicts, 0, EmitterNow());
      }
    }
  }
}
