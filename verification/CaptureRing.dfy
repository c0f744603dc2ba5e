/** The bounded queue between the USB event thread and the consumer: a ring that drops its oldest
    chunk when full. Each operation runs under one mutex, so an execution of the two threads is some
    sequence of these operations; every result here is about all such sequences. */
module CaptureRing {
  import opened Markers

  const CHUNK_BYTES: nat := 0x1FC000
  const RING_SLOTS: nat := 8

  datatype Chunk = Chunk(data: seq<Byte>, gapped: bool)

  // ---------------------------------------------------------------- the queue and its history

  /** Every chunk ever stored, numbered from 0; those from `head` on are queued. */
  datatype History = History(stored: seq<Chunk>, head: nat, delivered: seq<nat>, dropped: nat, discarded: nat,
                             gapPending: bool, shuttingDown: bool)

  const Start: History := History([], 0, [], 0, 0, false, false)

  datatype Step = Enqueue(data: seq<Byte>, gapped: bool) | DeliverOne | Discard | MarkGap | Stop

  function Clamped(data: seq<Byte>): seq<Byte> {
    if |data| <= CHUNK_BYTES then data else data[..CHUNK_BYTES]
  }

  function Next(w: History, s: Step): History
    requires w.head <= |w.stored|
  {
    var n := |w.stored|;
    match s
    case Enqueue(data, gapped) =>
      if w.shuttingDown || data == [] then w
      else
        var full := n - w.head == RING_SLOTS;
        w.(stored := w.stored + [Chunk(Clamped(data), w.gapPending || full || gapped)],
           head := if full then w.head + 1 else w.head,
           dropped := if full then w.dropped + 1 else w.dropped,
           gapPending := false)
    case DeliverOne =>
      if n == w.head then w else w.(delivered := w.delivered + [w.head], head := w.head + 1)
    case Discard =>
      if n == w.head then w
      else w.(discarded := w.discarded + (n - w.head), head := n, gapPending := true)
    case MarkGap => w.(gapPending := true)
    case Stop => w.(shuttingDown := true)
  }

  /** Every stored chunk is delivered, queued, dropped by overflow or discarded, and the delivered ones
      are in the order they were stored. */
  ghost predicate Inv(w: History) {
    && w.head <= |w.stored| <= w.head + RING_SLOTS
    && (forall i, j | 0 <= i < j < |w.delivered| :: w.delivered[i] < w.delivered[j])
    && (forall i | 0 <= i < |w.delivered| :: w.delivered[i] < w.head)
    && w.head == |w.delivered| + w.dropped + w.discarded
  }

  lemma NextKeepsInv(w: History, s: Step)
    requires Inv(w)
    ensures Inv(Next(w, s))
  {
  }

  /** Any run: conservation and order hold after every sequence of steps. */
  function After(w: History, steps: seq<Step>): (w': History)
    requires Inv(w)
    ensures Inv(w')
    decreases |steps|
  {
    if steps == [] then w
    else
      NextKeepsInv(w, steps[0]);
      After(Next(w, steps[0]), steps[1..])
  }

  /** Bytes are lost in this step. */
  predicate Loses(w: History, s: Step)
    requires w.head <= |w.stored|
  {
    match s
    case Enqueue(data, _) => !w.shuttingDown && data != [] && |w.stored| - w.head == RING_SLOTS
    case DeliverOne => false
    case Discard => |w.stored| > w.head
    case MarkGap => true
    case Stop => false
  }

  ghost predicate Alive(w: History, id: nat) {
    w.head <= id || id in w.delivered
  }

  /** The loss that happened when `k` chunks had been stored is flagged: on the next chunk to be stored,
      or on one stored at or after it that is queued or has been delivered. */
  ghost predicate Flagged(w: History, k: nat) {
    w.gapPending || exists id :: k <= id < |w.stored| && w.stored[id].gapped && Alive(w, id)
  }

  lemma LossFlagged(w: History, s: Step)
    requires Inv(w) && Loses(w, s)
    ensures Flagged(Next(w, s), |w.stored|)
  {
    var w', n := Next(w, s), |w.stored|;
    if s.Enqueue? {
      assert w'.stored[n].gapped && Alive(w', n);
    }
  }

  lemma StillFlagged(w: History, s: Step, k: nat)
    requires Inv(w) && k <= |w.stored| && Flagged(w, k)
    ensures k <= |Next(w, s).stored| && Flagged(Next(w, s), k)
  {
    var w', n := Next(w, s), |w.stored|;
    if s.Enqueue? && !(w.shuttingDown || s.data == []) {
      if w.gapPending || n - w.head == RING_SLOTS {
        assert w'.stored[n].gapped && Alive(w', n);
      } else {
        var id :| k <= id < n && w.stored[id].gapped && Alive(w, id);
        assert w'.stored[id] == w.stored[id] && Alive(w', id);
      }
    } else if !w'.gapPending {
      var id :| k <= id < n && w.stored[id].gapped && Alive(w, id);
      if s.DeliverOne? && n != w.head {
        assert w'.delivered[|w.delivered|] == w.head;
        assert id in w.delivered ==> id in w'.delivered;
      }
      assert Alive(w', id);
    }
  }

  lemma {:induction false} FlagSurvives(w: History, k: nat, steps: seq<Step>)
    requires Inv(w) && k <= |w.stored| && Flagged(w, k)
    ensures Flagged(After(w, steps), k)
    decreases |steps|
  {
    if steps != [] {
      NextKeepsInv(w, steps[0]);
      StillFlagged(w, steps[0], k);
      FlagSurvives(Next(w, steps[0]), k, steps[1..]);
    }
  }

  /** Main result: a loss is never forgotten. Whatever happens after it, even if every chunk flagged for
      it is itself dropped or discarded, the gap is still pending or on a chunk stored since then that
      is queued or was delivered. */
  lemma LossNeverForgotten(w: History, loss: Step, later: seq<Step>)
    requires Inv(w) && Loses(w, loss)
    ensures Flagged(After(w, [loss] + later), |w.stored|)
  {
    NextKeepsInv(w, loss);
    LossFlagged(w, loss);
    FlagSurvives(Next(w, loss), |w.stored|, later);
    assert ([loss] + later)[1..] == later;
  }

  // ---------------------------------------------------------------- what is stored

  /** The chunks that are accepted, as they were offered. */
  function Accepted(w: History, steps: seq<Step>): seq<seq<Byte>>
    requires Inv(w)
    decreases |steps|
  {
    if steps == [] then []
    else
      NextKeepsInv(w, steps[0]);
      (if steps[0].Enqueue? && steps[0].data != [] && !w.shuttingDown then [steps[0].data] else [])
      + Accepted(Next(w, steps[0]), steps[1..])
  }

  /** A stored chunk is the chunk offered, or its beginning if it does not fit a slot. */
  ghost predicate StoredAs(c: Chunk, offered: seq<Byte>) {
    && c.data <= offered
    && (|offered| <= CHUNK_BYTES ==> c.data == offered)
    && (|offered| > CHUNK_BYTES ==> |c.data| == CHUNK_BYTES)
  }

  ghost predicate StoredFrom(stored: seq<Chunk>, n: nat, offered: seq<seq<Byte>>) {
    |stored| == n + |offered| && forall i | 0 <= i < |offered| :: StoredAs(stored[n + i], offered[i])
  }

  lemma StoredBefore(stored: seq<Chunk>, n: nat, x: seq<Byte>, later: seq<seq<Byte>>)
    requires StoredFrom(stored, n + 1, later) && StoredAs(stored[n], x)
    ensures StoredFrom(stored, n, [x] + later)
  {
    hide StoredAs;
    forall i | 0 <= i < |[x] + later| ensures StoredAs(stored[n + i], ([x] + later)[i]) {
      if i > 0 {
        assert StoredAs(stored[n + 1 + (i - 1)], later[i - 1]);
      }
    }
  }

  /** What is stored stays stored. */
  lemma {:induction false} StoredGrows(w: History, steps: seq<Step>)
    requires Inv(w)
    ensures w.stored <= After(w, steps).stored
    decreases |steps|
  {
    if steps != [] {
      StepStores(w, steps[0]);
      NextKeepsInv(w, steps[0]);
      StoredGrows(Next(w, steps[0]), steps[1..]);
    }
  }

  lemma FirstStored(w: History, steps: seq<Step>)
    requires Inv(w) && steps != []
    ensures var n, n1 := |w.stored|, |Next(w, steps[0]).stored|;
      && n1 == (if Accepts(w, steps[0]) then n + 1 else n) && n1 <= |After(w, steps).stored|
      && (Accepts(w, steps[0]) ==> StoredAs(After(w, steps).stored[n], DataOf(steps[0])))
  {
    assert w.head <= |w.stored|;
    hide Next, Inv, StoredAs, After, Accepted, Accepts;
    StepStores(w, steps[0]);
    UnfoldRun(w, steps);
    StoredGrows(Next(w, steps[0]), steps[1..]);
  }

  /** Over any run the queue stores exactly the accepted chunks, in order, with their contents; so what is
      delivered is what was offered. */
  lemma {:induction false} StoresWhatIsOffered(w: History, steps: seq<Step>)
    requires Inv(w)
    ensures StoredFrom(After(w, steps).stored, |w.stored|, Accepted(w, steps))
    decreases |steps|
  {
    assert w.head <= |w.stored|;
    hide Next, Inv, StoredAs, StoredFrom, After, Accepted, Accepts;
    if steps == [] {
      NothingStored(w);
    } else {
      var w1, later := Next(w, steps[0]), steps[1..];
      FirstStored(w, steps);
      UnfoldRun(w, steps);
      StoresWhatIsOffered(w1, later);
      if Accepts(w, steps[0]) {
        StoredBefore(After(w, steps).stored, |w.stored|, DataOf(steps[0]), Accepted(w1, later));
      }
    }
  }

  lemma NothingStored(w: History)
    requires Inv(w)
    ensures After(w, []) == w && Accepted(w, []) == [] && StoredFrom(w.stored, |w.stored|, [])
  {
  }

  function DataOf(s: Step): seq<Byte> { if s.Enqueue? then s.data else [] }

  lemma UnfoldRun(w: History, steps: seq<Step>)
    requires Inv(w) && steps != []
    ensures Inv(Next(w, steps[0])) && After(w, steps) == After(Next(w, steps[0]), steps[1..])
    ensures var later := Accepted(Next(w, steps[0]), steps[1..]);
      Accepted(w, steps) == if Accepts(w, steps[0]) then [DataOf(steps[0])] + later else later
  {
    NextKeepsInv(w, steps[0]);
    hide Next, Inv;
  }

  lemma StepStores(w: History, s: Step)
    requires Inv(w)
    ensures var w' := Next(w, s);
      && w.stored <= w'.stored && |w'.stored| == |w.stored| + (if Accepts(w, s) then 1 else 0)
      && (Accepts(w, s) ==> StoredAs(w'.stored[|w.stored|], DataOf(s)))
  {
  }

  /** What a chunk's flag says: bytes were lost with it, just before it, or by its own arrival. */
  lemma FlagIff(w: History, data: seq<Byte>, gapped: bool)
    requires Inv(w) && !w.shuttingDown && data != []
    ensures var w' := Next(w, Enqueue(data, gapped));
      && |w'.stored| == |w.stored| + 1 && !w'.gapPending
      && (w'.stored[|w.stored|].gapped <==> gapped || w.gapPending || Loses(w, Enqueue(data, gapped)))
  {
  }

  /** The gap that is pending is a loss since the last chunk was stored. */
  lemma {:induction false} PendingIff(w: History, steps: seq<Step>)
    requires Inv(w) && steps != []
    ensures var n := |steps| - 1;
      var before, last := After(w, steps[..n]), steps[n];
      After(w, steps).gapPending <==>
        if Accepts(before, last) then false else before.gapPending || Loses(before, last)
  {
    var n := |steps| - 1;
    AfterBoth(w, steps[..n], [steps[n]]);
    assert steps[..n] + [steps[n]] == steps;
    NextKeepsInv(After(w, steps[..n]), steps[n]);
    assert [steps[n]][1..] == [];
    assert After(After(w, steps[..n]), [steps[n]]) == After(Next(After(w, steps[..n]), steps[n]), []);
  }

  predicate Accepts(w: History, s: Step) { s.Enqueue? && s.data != [] && !w.shuttingDown }

  // ---------------------------------------------------------------- the flag read early

  /** The event thread reads the shutdown flag before it takes the queue's mutex, so a chunk it found
      wanted may be stored although stop has begun in between. */
  function StoreLate(w: History, data: seq<Byte>, gapped: bool): History
    requires w.head <= |w.stored|
  {
    Next(w.(shuttingDown := false), Enqueue(data, gapped)).(shuttingDown := w.shuttingDown)
  }

  lemma StopStep(w: History, s: Step)
    requires Inv(w) && !s.Enqueue?
    ensures Inv(Next(w, s)) && Inv(Next(w, s).(shuttingDown := true)) && Inv(w.(shuttingDown := true))
    ensures Next(w.(shuttingDown := true), s) == Next(w, s).(shuttingDown := true)
    ensures !w.shuttingDown && !s.Stop? ==> !Next(w, s).shuttingDown
  {
    NextKeepsInv(w, s);
    var w' := Next(w, s);
    assert w'.(shuttingDown := true).delivered == w'.delivered && w.(shuttingDown := true).delivered == w.delivered;
  }

  lemma {:induction false} StopAside(w: History, steps: seq<Step>)
    requires Inv(w) && Inv(w.(shuttingDown := true))
    requires forall i | 0 <= i < |steps| :: !steps[i].Enqueue?
    ensures After(w.(shuttingDown := true), steps) == After(w, steps).(shuttingDown := true)
    ensures !w.shuttingDown && Stop !in steps ==> !After(w, steps).shuttingDown
    decreases |steps|
  {
    if steps != [] {
      StopStep(w, steps[0]);
      assert forall i | 0 <= i < |steps[1..]| :: steps[1..][i] == steps[i + 1];
      hide Next, Inv;
      StopAside(Next(w, steps[0]), steps[1..]);
    }
  }

  /** That is an execution in which the store is atomic and stop begins after it: nothing the other
      thread does meanwhile depends on the flag. */
  lemma LateStoreIsEarlier(w: History, between: seq<Step>, data: seq<Byte>, gapped: bool)
    requires Inv(w) && !w.shuttingDown
    requires forall i | 0 <= i < |between| :: !between[i].Enqueue? && !between[i].Stop?
    ensures StoreLate(After(w, [Stop] + between), data, gapped) == After(w, between + [Enqueue(data, gapped), Stop])
  {
    var last := [Enqueue(data, gapped), Stop];
    StopAside(w, between);
    assert ([Stop] + between)[1..] == between;
    assert After(w, [Stop] + between) == After(Next(w, Stop), between);
    AfterBoth(w, between, last);
    var w' := After(w, between);
    NextKeepsInv(w', last[0]);
    assert last[1..] == [Stop] && [Stop][1..] == [];
    assert After(w', last) == After(Next(w', last[0]), [Stop]);
    assert After(Next(w', last[0]), [Stop]) == After(Next(Next(w', last[0]), Stop), []);
  }

  // ---------------------------------------------------------------- holes in what is delivered

  /** The chunk delivered last, or -1. */
  function LastDelivered(w: History): int {
    if w.delivered == [] then -1 else w.delivered[|w.delivered| - 1]
  }

  /** Chunks were lost just before `id`, the one before it in the consumer's view being `previous`. */
  predicate HoleBefore(previous: int, id: nat) { id != previous + 1 }

  /** Delivered chunk number `i` follows the one delivered before it, or is flagged. */
  predicate FlaggedAt(stored: seq<Chunk>, delivered: seq<nat>, i: nat)
    requires i < |delivered|
  {
    HoleBefore(if i == 0 then -1 else delivered[i - 1], delivered[i])
    ==> delivered[i] < |stored| && stored[delivered[i]].gapped
  }

  ghost predicate DeliveredFlagged(stored: seq<Chunk>, delivered: seq<nat>) {
    forall i | 0 <= i < |delivered| :: FlaggedAt(stored, delivered, i)
  }

  /** The chunk to be delivered next follows the last one, or is flagged; or it is still to come, and
      the gap is pending. */
  predicate NextFlagged(w: History) {
    HoleBefore(LastDelivered(w), w.head)
    ==> if w.head < |w.stored| then w.stored[w.head].gapped else w.gapPending
  }

  /** The consumer can tell every hole in what it gets. */
  ghost predicate HolesFlagged(w: History) {
    DeliveredFlagged(w.stored, w.delivered) && NextFlagged(w)
  }

  /** An overflow whose hole nothing marks: the chunk after the one dropped is not flagged. */
  predicate DropsSilently(w: History, s: Step)
    requires Inv(w)
  {
    && s.Enqueue? && s.data != [] && !w.shuttingDown && |w.stored| - w.head == RING_SLOTS
    && !w.stored[w.head + 1].gapped
  }

  lemma DeliveredStay(stored: seq<Chunk>, c: Chunk, delivered: seq<nat>)
    requires DeliveredFlagged(stored, delivered)
    ensures DeliveredFlagged(stored + [c], delivered)
  {
    forall i | 0 <= i < |delivered| ensures FlaggedAt(stored + [c], delivered, i) {
      assert FlaggedAt(stored, delivered, i);
    }
  }

  lemma EnqueueHoles(w: History, s: Step)
    requires Inv(w) && HolesFlagged(w) && s.Enqueue? && !w.shuttingDown && s.data != []
    ensures Inv(Next(w, s)) && (HolesFlagged(Next(w, s)) <==> !DropsSilently(w, s))
  {
    NextKeepsInv(w, s);
    var w', n := Next(w, s), |w.stored|;
    DeliveredStay(w.stored, w'.stored[n], w.delivered);
    hide DeliveredFlagged, Clamped;
    if n - w.head == RING_SLOTS {
      assert LastDelivered(w) < w.head;
      assert HoleBefore(LastDelivered(w'), w'.head) && w'.stored[w'.head] == w.stored[w.head + 1];
    }
  }

  lemma DeliverHoles(w: History)
    requires Inv(w) && HolesFlagged(w) && w.head < |w.stored|
    ensures Inv(Next(w, DeliverOne)) && HolesFlagged(Next(w, DeliverOne))
  {
    NextKeepsInv(w, DeliverOne);
    var delivered, n := Next(w, DeliverOne).delivered, |w.delivered|;
    assert delivered == w.delivered + [w.head];
    forall i | 0 <= i < |delivered| ensures FlaggedAt(w.stored, delivered, i) {
      if i < n {
        assert FlaggedAt(w.stored, w.delivered, i);
      }
    }
  }

  /** One step leaves a hole unflagged exactly if it drops silently. */
  lemma HoleUnflaggedIff(w: History, s: Step)
    requires Inv(w) && HolesFlagged(w)
    ensures Inv(Next(w, s)) && (HolesFlagged(Next(w, s)) <==> !DropsSilently(w, s))
  {
    NextKeepsInv(w, s);
    match s
    case Enqueue(data, _) =>
      if !w.shuttingDown && data != [] {
        EnqueueHoles(w, s);
      }
    case DeliverOne =>
      if w.head < |w.stored| {
        DeliverHoles(w);
      }
    case Discard => hide DeliveredFlagged;
    case MarkGap => hide DeliveredFlagged;
    case Stop => hide DeliveredFlagged;
  }

  /** At every point of the run, from here on. */
  ghost predicate HolesFlaggedThroughout(w: History, steps: seq<Step>)
    requires Inv(w)
    decreases |steps|
  {
    if steps == [] then HolesFlagged(w)
    else
      NextKeepsInv(w, steps[0]);
      HolesFlagged(w) && HolesFlaggedThroughout(Next(w, steps[0]), steps[1..])
  }

  predicate NeverDropsSilently(w: History, steps: seq<Step>)
    requires Inv(w)
    decreases |steps|
  {
    if steps == [] then true
    else
      NextKeepsInv(w, steps[0]);
      !DropsSilently(w, steps[0]) && NeverDropsSilently(Next(w, steps[0]), steps[1..])
  }

  /** Main result: over any run, the consumer can tell every hole at every point if and only if no
      overflow dropped a chunk that was followed by an unflagged one. */
  lemma {:induction false} EveryHoleFlaggedIff(w: History, steps: seq<Step>)
    requires Inv(w) && HolesFlagged(w)
    ensures HolesFlaggedThroughout(w, steps) <==> NeverDropsSilently(w, steps)
    decreases |steps|
  {
    if steps != [] {
      HoleUnflaggedIff(w, steps[0]);
      hide HolesFlagged, DropsSilently, Next;
      if !DropsSilently(w, steps[0]) {
        EveryHoleFlaggedIff(Next(w, steps[0]), steps[1..]);
      } else {
        FlaggedAtFirst(Next(w, steps[0]), steps[1..]);
      }
    }
  }

  lemma FlaggedAtFirst(w: History, steps: seq<Step>)
    requires Inv(w)
    ensures HolesFlaggedThroughout(w, steps) ==> HolesFlagged(w)
  {
  }

  lemma {:induction false} FlaggedAtLast(w: History, steps: seq<Step>)
    requires Inv(w) && HolesFlaggedThroughout(w, steps)
    ensures HolesFlagged(After(w, steps))
    decreases |steps|
  {
    if steps != [] {
      NextKeepsInv(w, steps[0]);
      hide HolesFlagged, Next;
      FlaggedAtLast(Next(w, steps[0]), steps[1..]);
    }
  }

  /** A full ring of chunks that follow each other, and one more. */
  function Overflow(data: seq<Byte>): seq<Step> { seq(RING_SLOTS + 1, _ => Enqueue(data, false)) }

  lemma {:induction false} Fills(w: History, data: seq<Byte>, k: nat)
    requires Inv(w) && data != [] && !w.shuttingDown && !w.gapPending && |w.stored| - w.head + k <= RING_SLOTS
    ensures var w' := After(w, seq(k, _ => Enqueue(data, false)));
      w' == w.(stored := w.stored + seq(k, _ => Chunk(Clamped(data), false)))
    decreases k
  {
    var steps := seq(k, _ => Enqueue(data, false));
    if k > 0 {
      assert steps[1..] == seq(k - 1, _ => Enqueue(data, false));
      NextKeepsInv(w, steps[0]);
      Fills(Next(w, steps[0]), data, k - 1);
      assert [Chunk(Clamped(data), false)] + seq(k - 1, _ => Chunk(Clamped(data), false))
          == seq(k, _ => Chunk(Clamped(data), false));
    }
  }

  lemma {:induction false} AfterBoth(w: History, first: seq<Step>, second: seq<Step>)
    requires Inv(w)
    ensures After(w, first + second) == After(After(w, first), second)
    decreases |first|
  {
    if first == [] {
      assert first + second == second;
    } else {
      NextKeepsInv(w, first[0]);
      assert (first + second)[1..] == first[1..] + second;
      AfterBoth(Next(w, first[0]), first[1..], second);
    }
  }

  /** That leaves a hole in front of the consumer that nothing marks: the chunk delivered next is the
      second one stored, unflagged; the flag is on the newest. */
  lemma OverflowLeavesHole(data: seq<Byte>)
    requires data != []
    ensures var w := After(Start, Overflow(data) + [DeliverOne]);
      && !HolesFlagged(w) && w.delivered == [1] && |w.stored| == RING_SLOTS + 1
      && !w.stored[1].gapped && w.stored[RING_SLOTS].gapped && w.head < RING_SLOTS
  {
    var full := seq(RING_SLOTS, _ => Enqueue(data, false));
    var last := [Enqueue(data, false), DeliverOne];
    assert Overflow(data) + [DeliverOne] == full + last;
    Fills(Start, data, RING_SLOTS);
    AfterBoth(Start, full, last);
    var w := After(Start, full);
    FullThenOne(w, data);
    assert !FlaggedAt(After(w, last).stored, After(w, last).delivered, 0);
  }

  lemma FullThenOne(w: History, data: seq<Byte>)
    requires Inv(w) && data != [] && !w.shuttingDown && w.head == 0 && |w.stored| == RING_SLOTS && w.delivered == []
    requires !w.gapPending
    ensures var w' := After(w, [Enqueue(data, false), DeliverOne]);
      w' == w.(stored := w.stored + [Chunk(Clamped(data), true)], head := 2, dropped := w.dropped + 1, delivered := [1])
  {
    var w1 := Next(w, Enqueue(data, false));
    NextKeepsInv(w, Enqueue(data, false));
    NextKeepsInv(w1, DeliverOne);
    var last := [Enqueue(data, false), DeliverOne];
    assert last[1..] == [DeliverOne] && [DeliverOne][1..] == [];
    hide Inv;
    assert After(w, last) == After(w1, [DeliverOne]);
    assert After(w1, [DeliverOne]) == After(Next(w1, DeliverOne), []);
  }

  // ---------------------------------------------------------------- the ring

  /** A slot's buffer keeps what longer chunks left behind its current length. */
  datatype Slot = Slot(buffer: seq<Byte>, length: nat, gapped: bool)

  function Held(s: Slot): Chunk {
    Chunk(if s.length <= |s.buffer| then s.buffer[..s.length] else s.buffer, s.gapped)
  }

  /** Queued chunk `id` is in slot `id` modulo the ring size. */
  ghost predicate SlotsHold(slots: seq<Slot>, stored: seq<Chunk>, head: nat) {
    && |slots| == RING_SLOTS
    && (forall i | 0 <= i < RING_SLOTS :: slots[i].length <= |slots[i].buffer| == CHUNK_BYTES)
    && forall id | head <= id < |stored| :: Held(slots[id % RING_SLOTS]) == stored[id]
  }

  lemma StoreHolds(slots: seq<Slot>, slot: Slot, stored: seq<Chunk>, head: nat, head': nat)
    requires SlotsHold(slots, stored, head) && head <= head' <= |stored| < head' + RING_SLOTS
    requires slot.length <= |slot.buffer| == CHUNK_BYTES
    ensures SlotsHold(slots[|stored| % RING_SLOTS := slot], stored + [Held(slot)], head')
  {
    var n := |stored|;
    forall id | head' <= id < n ensures id % RING_SLOTS != n % RING_SLOTS {
      OtherSlot(id, n);
    }
  }

  lemma StoreCase(w: History, data: seq<Byte>, gapped: bool)
    requires Inv(w) && !w.shuttingDown && data != []
    ensures w.head <= |w.stored| <= w.head + RING_SLOTS
    ensures var w', full := Next(w, Enqueue(data, gapped)), |w.stored| - w.head == RING_SLOTS;
      && w'.stored == w.stored + [Chunk(Clamped(data), w.gapPending || full || gapped)]
      && w'.head == (if full then w.head + 1 else w.head)
      && w'.dropped == (if full then w.dropped + 1 else w.dropped)
      && !w'.gapPending && !w'.shuttingDown
  {
  }

  lemma SlotSizes(slots: seq<Slot>, stored: seq<Chunk>, head: nat)
    requires SlotsHold(slots, stored, head)
    ensures |slots| == RING_SLOTS
    ensures forall i | 0 <= i < RING_SLOTS :: slots[i].length <= |slots[i].buffer| == CHUNK_BYTES
  {
  }

  lemma OldestSlot(n: nat, count: nat)
    requires count <= n && count <= RING_SLOTS
    ensures (n % RING_SLOTS - count + RING_SLOTS) % RING_SLOTS == (n - count) % RING_SLOTS
  {
    var q := n / RING_SLOTS;
    assert n - count == RING_SLOTS * (q - 1) + (n % RING_SLOTS - count + RING_SLOTS);
  }

  lemma OtherSlot(i: nat, j: nat)
    requires i < j < i + RING_SLOTS
    ensures i % RING_SLOTS != j % RING_SLOTS
  {
  }

  /** memcpy into a slot: the chunk, cut to the slot's size, over what was there. */
  function Stored(slot: Slot, data: seq<Byte>, gapped: bool): (r: Slot)
    requires |slot.buffer| == CHUNK_BYTES
    ensures Held(r) == Chunk(Clamped(data), gapped) && r.length <= |r.buffer| == CHUNK_BYTES
  {
    var length := if |data| > CHUNK_BYTES then CHUNK_BYTES else |data|;
    var r := Slot(data[..length] + slot.buffer[length..], length, gapped);
    assert r.buffer[..length] == data[..length];
    r
  }

  class CaptureQueue {
    const ring: array<Slot>
    var ringWrite: nat
    var ringCount: nat
    var gapPending: bool
    var shuttingDown: bool
    var droppedChunks: nat

    ghost var history: History

    ghost predicate Valid()
      reads this, ring
    {
      && ring.Length == RING_SLOTS && ringWrite == |history.stored| % RING_SLOTS
      && SlotsHold(ring[..], history.stored, history.head)
      && Inv(history)
      && gapPending == history.gapPending && shuttingDown == history.shuttingDown
      && droppedChunks == history.dropped
      && ringCount == |history.stored| - history.head
    }

    constructor ()
      ensures Valid() && history == Start && fresh(ring)
    {
      ring := new Slot[RING_SLOTS](_ => Slot(seq(CHUNK_BYTES, _ => 0), 0, false));
      ringWrite, ringCount, gapPending, shuttingDown, droppedChunks := 0, 0, false, false, 0;
      history := Start;
    }

    method EnqueueChunk(data: seq<Byte>, gapped: bool)
      requires Valid()
      modifies this`ringWrite, this`ringCount, this`gapPending, this`droppedChunks, this`history, ring
      ensures Valid() && history == Next(old(history), Enqueue(data, gapped))
    {
      if shuttingDown || |data| == 0 {
        return;
      }
      NextKeepsInv(history, Enqueue(data, gapped));
      StoreCase(history, data, gapped);
      hide SlotsHold, Stored, Inv, Next, Clamped;
      SlotSizes(ring[..], history.stored, history.head);
      if ringCount == RING_SLOTS {
        // The new chunk goes over the oldest one, and carries the flag itself.
        gapPending := true;
        droppedChunks := droppedChunks + 1;
      }
      var slot := Stored(ring[ringWrite], data, gapPending || gapped);
      ghost var slots := ring[..];
      ring[ringWrite] := slot;
      assert ring[..] == slots[ringWrite := slot];
      gapPending := false;
      ringWrite := (ringWrite + 1) % RING_SLOTS;
      if ringCount < RING_SLOTS {
        ringCount := ringCount + 1;
      }
      ghost var next := Next(history, Enqueue(data, gapped));
      StoreHolds(slots, slot, history.stored, history.head, next.head);
      history := next;
    }

    /** Take the oldest chunk out under the lock; the callback runs on the copy. */
    method TakeOldest() returns (chunk: Option<Chunk>)
      requires Valid()
      modifies this`ringCount, this`history
      ensures Valid() && history == Next(old(history), DeliverOne)
      ensures chunk == if old(ringCount) == 0 then None else Some(old(history).stored[old(history).head])
    {
      NextKeepsInv(history, DeliverOne);
      hide SlotsHold;
      SlotSizes(ring[..], history.stored, history.head);
      if ringCount == 0 {
        return None;
      }
      var readIndex := (ringWrite - ringCount + RING_SLOTS) % RING_SLOTS;
      chunk := Some(Chunk(ring[readIndex].buffer[..ring[readIndex].length], ring[readIndex].gapped));
      OldestSlot(|history.stored|, ringCount);
      ghost var slots := ring[..];
      ringCount := ringCount - 1;
      history := Next(history, DeliverOne);
    }

    method DiscardAll()
      requires Valid()
      modifies this`ringCount, this`gapPending, this`history
      ensures Valid() && history == Next(old(history), Discard)
    {
      NextKeepsInv(history, Discard);
      history := Next(history, Discard);
      if ringCount == 0 {
        return;
      }
      ringCount := 0;
      gapPending := true;
    }

    method MarkGapPending()
      requires Valid()
      modifies this`gapPending, this`history
      ensures Valid() && history == Next(old(history), MarkGap)
    {
      NextKeepsInv(history, MarkGap);
      history := Next(history, MarkGap);
      gapPending := true;
    }

    /** Hand everything pending to the callback, oldest first; nothing is enqueued meanwhile. */
    method Deliver() returns (chunks: seq<Chunk>)
      requires Valid()
      modifies this`ringCount, this`history
      ensures Valid() && ringCount == 0
      ensures old(history).head <= |old(history).stored| && chunks == old(history).stored[old(history).head..]
      ensures history.stored == old(history).stored && history.gapPending == old(history).gapPending
    {
      chunks := [];
      ghost var stored, head := history.stored, history.head;
      while true
        invariant Valid()
        invariant history.stored == stored && head <= history.head <= |stored|
        invariant history.gapPending == old(history).gapPending
        invariant chunks == stored[head..history.head]
        decreases ringCount
      {
        var chunk := TakeOldest();
        if chunk.None? {
          return;
        }
        chunks := chunks + [chunk.value];
      }
    }

    method BeginStopping()
      requires Valid()
      modifies this`shuttingDown, this`history
      ensures Valid() && history == Next(old(history), Stop)
    {
      NextKeepsInv(history, Stop);
      history := Next(history, Stop);
      shuttingDown := true;
    }
  }
}
