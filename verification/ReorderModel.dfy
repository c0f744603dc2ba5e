/** What BufferReorderer computes, as functions of the bytes fed to it.

    `h` is always every byte fed since construction, so that the class's uint64 stream offsets
    index it directly. A reset only moves the offsets to the end of `h`. */
module ReorderModel {
  import opened Markers

  const DMA_BUFFER_BYTES: nat := 0x4000
  const PAIR_BYTES: nat := 2 * DMA_BUFFER_BYTES
  const SWAP_WINDOW: nat := PAIR_BYTES
  const MARKER_SPAN: nat := 9
  const HOLD_BACK: nat := SWAP_WINDOW + MARKER_SPAN
  const RETAINED: nat := HOLD_BACK + PAIR_BYTES  // the input retained after a feed stays below this

  datatype Order = Unknown | Normal | Swapped

  datatype Observation = Observation(sav: nat, order: Order)

  // ---------------------------------------------------------------- scanning

  /** The scanner: next offset to look at, the SAV still waiting for its verdict, and every verdict
      given since the last reset, oldest first. */
  datatype Scanner = Scanner(offset: nat, pending: Option<nat>, verdicts: seq<Observation>)

  /** A SAV whose window has passed without a late EAV is in normal order. */
  function Expire(s: Scanner): Scanner {
    if s.pending.Some? && s.offset >= s.pending.value + SWAP_WINDOW then
      Scanner(s.offset, None, s.verdicts + [Observation(s.pending.value, Normal)])
    else s
  }

  /** Look for a marker at exactly one offset: the scan without the jumps between zero bytes. */
  function ScanByte(h: seq<Byte>, s: Scanner): Scanner
    requires s.offset + MARKER_SPAN <= |h|
    requires s.pending.Some? ==> s.pending.value < s.offset
  {
    var p := s.offset;
    if SavAt(h, p) then
      Scanner(p + 1, Some(p),
              s.verdicts + if s.pending.Some? then [Observation(s.pending.value, Normal)] else [])
    else if EavAt(h, p) && s.pending.Some? then
      var late := h[p + 4] != h[s.pending.value + 4];
      Scanner(p + 1, None, s.verdicts + [Observation(s.pending.value, if late then Swapped else Normal)])
    else
      s.(offset := p + 1)
  }

  /** Scan every offset below `limit`. */
  function ScanTo(h: seq<Byte>, s: Scanner, limit: nat): Scanner
    requires s.pending.Some? ==> s.pending.value < s.offset
    requires s.offset < limit ==> limit + MARKER_SPAN <= |h| + 1
    decreases limit - s.offset
  {
    if s.offset >= limit then s
    else ScanTo(h, Expire(ScanByte(h, s)), limit)
  }

  // ---------------------------------------------------------------- deciding the order

  /** The established order with its pair grid, and the candidate for replacing it. */
  datatype Decision = Decision(order: Order, origin: nat,
                               candidateOrder: Order, candidateOrigin: nat, candidateCount: nat,
                               changes: nat)

  predicate Agrees(o: Observation, order: Order, origin: nat) {
    o.order == order && (order == Swapped ==> (o.sav - origin) % PAIR_BYTES == 0)
  }

  /** One observation: a first decision, or one step of the two-in-a-row hysteresis. */
  function Decide(d: Decision, o: Observation): Decision {
    if d.order != Unknown && Agrees(o, d.order, d.origin) then
      d.(candidateCount := 0)
    else
      var c :=
        if d.order == Unknown then d
        else if d.candidateCount > 0 && Agrees(o, d.candidateOrder, d.candidateOrigin) then
          d.(candidateCount := d.candidateCount + 1)
        else
          d.(candidateOrder := o.order, candidateOrigin := o.sav, candidateCount := 1);
      if d.order != Unknown && c.candidateCount < 2 then c
      else
        c.(order := o.order, origin := o.sav, changes := c.changes + 1,
           candidateCount := if d.order == Unknown then c.candidateCount else 0)
  }

  // ---------------------------------------------------------------- emitting

  /** How emitted bytes are placed: as they came, or on a grid of exchanged pairs. */
  datatype Grid = Straight | Pairs(origin: nat)

  /** One emitted byte: the input offset it was read from, its place in the restored stream, the grid
      in force, and whether it is the first byte of a sink call flagged gapped. */
  datatype Item = Item(src: nat, pos: nat, grid: Grid, gap: bool)

  datatype Emitter = Emitter(out: nat, next: nat, decision: Decision, gap: bool, items: seq<Item>)

  /** `n` consecutive input bytes, emitted at consecutive places. */
  function Run(src: nat, pos: nat, n: nat, grid: Grid, gap: bool): seq<Item> {
    seq(n, i requires 0 <= i => Item(src + i, pos + i, grid, gap && i == 0))
  }

  function PairItems(out: nat, grid: Grid, gap: bool): seq<Item> {
    Run(out + DMA_BUFFER_BYTES, out, DMA_BUFFER_BYTES, grid, gap)
    + Run(out, out + DMA_BUFFER_BYTES, DMA_BUFFER_BYTES, grid, false)
  }

  /** Take the next verdict; a change of order makes the next emitted byte follow a gap. */
  function Observe(e: Emitter, o: Observation): Emitter {
    var d := Decide(e.decision, o);
    e.(next := e.next + 1, decision := d, gap := e.gap || d.changes != e.decision.changes)
  }

  /** The next queued SAV is not behind the output, and the verdicts are in stream order. */
  ghost predicate Ready(verdicts: seq<Observation>, e: Emitter) {
    && e.next <= |verdicts|
    && (forall i | e.next <= i < |verdicts| :: e.out <= verdicts[i].sav)
    && Sorted(verdicts)
  }

  ghost predicate Sorted(verdicts: seq<Observation>) {
    forall i, j | 0 <= i < j < |verdicts| :: verdicts[i].sav < verdicts[j].sav
  }

  /** One turn of the emit loop; `None` when it has to wait for the rest of a pair. */
  function EmitStep(verdicts: seq<Observation>, limit: nat, e: Emitter): Option<Emitter>
    requires e.next <= |verdicts| && e.out < limit
  {
    var queued := e.next < |verdicts|;
    if queued && verdicts[e.next].sav == e.out then Some(Observe(e, verdicts[e.next]))
    else
      var end := if queued && verdicts[e.next].sav < limit then verdicts[e.next].sav else limit;
      match e.decision.order
      case Unknown => Some(e.(out := end))
      case Normal =>
        var n := if end > e.out then end - e.out else 0;
        Some(e.(out := end, gap := false, items := e.items + Run(e.out, e.out, n, Straight, e.gap)))
      case Swapped =>
        if e.out + PAIR_BYTES > limit then None
        else if queued && verdicts[e.next].sav < e.out + PAIR_BYTES then
          var e' := Observe(e, verdicts[e.next]);
          Some(if e'.decision.changes != e.decision.changes then e'.(out := verdicts[e.next].sav) else e')
        else
          Some(e.(out := e.out + PAIR_BYTES, gap := false,
                  items := e.items + PairItems(e.out, Pairs(e.decision.origin), e.gap)))
  }

  /** Emit everything that can be ordered below `limit`. */
  function EmitTo(verdicts: seq<Observation>, limit: nat, e: Emitter): Emitter
    requires Ready(verdicts, e)
    decreases if e.out < limit then limit - e.out else 0, |verdicts| - e.next
  {
    if e.out >= limit then e
    else
      match EmitStep(verdicts, limit, e)
      case None => e
      case Some(e') => EmitTo(verdicts, limit, e')
  }
}
