/** BufferReorderer as a whole: what one feed does, and that any number of feeds amounts to scanning
    and emitting the concatenated input once. */
module Reorder {
  import opened Markers
  import opened Sequences
  import opened ReorderModel
  import opened ScanProofs
  import opened EmitProofs
  import H = Hysteresis

  /** Everything a reorderer knows, together with what it started from at its last reset: the offset
      `base`, the decision fields that survive a reset, and the bytes already put out. */
  datatype Reorderer = Reorderer(h: seq<Byte>, base: nat, start: Decision, before: seq<Item>,
                                 scanner: Scanner, emitter: Emitter)

  // ---------------------------------------------------------------- the simple, whole-stream form

  function ScanLimit(h: seq<Byte>, base: nat): nat {
    if |h| >= base + MARKER_SPAN then |h| - MARKER_SPAN + 1 else base
  }

  function EmitLimit(h: seq<Byte>): nat {
    if |h| > HOLD_BACK then |h| - HOLD_BACK else 0
  }

  function WholeScan(h: seq<Byte>, base: nat): Scanner {
    ScanTo(h, Scanner(base, None, []), ScanLimit(h, base))
  }

  function AtReset(base: nat, start: Decision, before: seq<Item>): Emitter {
    Emitter(base, 0, start, true, before)
  }

  /** Scan everything fed since `base`, then emit everything the hold-back allows. */
  function Whole(h: seq<Byte>, base: nat, start: Decision, before: seq<Item>): Reorderer
    requires base <= |h|
  {
    var scanner := WholeScan(h, base);
    WholeReady(h, base, start, before);
    Reorderer(h, base, start, before, scanner,
              EmitTo(scanner.verdicts, EmitLimit(h), AtReset(base, start, before)))
  }

  lemma WholeReady(h: seq<Byte>, base: nat, start: Decision, before: seq<Item>)
    requires base <= |h|
    ensures ScanInv(h, base, WholeScan(h, base)) && WholeScan(h, base).offset == ScanLimit(h, base)
    ensures Ready(WholeScan(h, base).verdicts, AtReset(base, start, before))
  {
    ScanToInv(h, base, Scanner(base, None, []), ScanLimit(h, base));
  }

  ghost predicate Valid(m: Reorderer) {
    && m.base <= |m.h|
    && H.Undecided(m.start)
    && Continuous(m.before)
    && EndsAt(m.before, m.base, Straight, true)
    && m == Whole(m.h, m.base, m.start, m.before)
  }

  // ---------------------------------------------------------------- one feed

  function Fresh(): Reorderer {
    var start := Decision(Unknown, 0, Unknown, 0, 0, 0);
    Reorderer([], 0, start, [], Scanner(0, None, []), AtReset(0, start, []))
  }

  lemma FreshValid()
    ensures Valid(Fresh())
  {
  }

  /** Bytes were lost: the pair grid is unknown, so start over at the end of the input. */
  function Reset(m: Reorderer): Reorderer {
    var start := m.emitter.decision.(order := Unknown, candidateCount := 0);
    Reorderer(m.h, |m.h|, start, m.emitter.items,
              Scanner(|m.h|, None, []), AtReset(|m.h|, start, m.emitter.items))
  }

  /** Continue the scan and the emission with one more chunk. */
  function FeedStep(m: Reorderer, chunk: seq<Byte>): Reorderer
    requires Valid(m)
  {
    var h := m.h + chunk;
    var scanner := ScanOn(m, chunk);
    QueueReady(m, chunk);
    m.(h := h, scanner := scanner, emitter := EmitTo(scanner.verdicts, EmitLimit(h), m.emitter))
  }

  function ScanOn(m: Reorderer, chunk: seq<Byte>): Scanner
    requires Valid(m)
  {
    var h := m.h + chunk;
    WholeReady(m.h, m.base, m.start, m.before);
    if |h| < MARKER_SPAN then m.scanner else ScanTo(h, m.scanner, |h| - MARKER_SPAN + 1)
  }

  /** No SAV below the emit limit is without its verdict. */
  lemma UndecidedIsHeldBack(h: seq<Byte>, base: nat)
    requires base <= |h|
    ensures Undecided(WholeScan(h, base)) >= base
    ensures Undecided(WholeScan(h, base)) >= EmitLimit(h)
  {
    ScanToInv(h, base, Scanner(base, None, []), ScanLimit(h, base));
  }

  /** Scanning chunk by chunk is scanning the concatenation. */
  lemma ScanOnIsWhole(m: Reorderer, chunk: seq<Byte>)
    requires Valid(m)
    ensures ScanOn(m, chunk) == WholeScan(m.h + chunk, m.base)
    ensures AddsFrom(m.scanner.verdicts, ScanOn(m, chunk).verdicts, EmitLimit(m.h))
  {
    hide ScanTo, EmitTo, Continuous, EndsAt;
    var h := m.h + chunk;
    WholeReady(m.h, m.base, m.start, m.before);
    ScanToResumes(m.h, chunk, Scanner(m.base, None, []), ScanLimit(m.h, m.base), ScanLimit(h, m.base));
    if |h| < m.base + MARKER_SPAN {
      ScanDone(m.h, Scanner(m.base, None, []), m.base);
      ScanDone(h, Scanner(m.base, None, []), m.base);
      if |h| >= MARKER_SPAN {
        ScanDone(h, m.scanner, |h| - MARKER_SPAN + 1);
      }
    } else {
      ScanToAppends(h, m.scanner, |h| - MARKER_SPAN + 1);
      UndecidedIsHeldBack(m.h, m.base);
    }
  }

  lemma QueueReady(m: Reorderer, chunk: seq<Byte>)
    requires Valid(m)
    ensures Ready(ScanOn(m, chunk).verdicts, m.emitter)
  {
    var start := AtReset(m.base, m.start, m.before);
    ScanOnIsWhole(m, chunk);
    WholeReady(m.h, m.base, m.start, m.before);
    WholeReady(m.h + chunk, m.base, m.start, m.before);
    EmitResumes(m.scanner.verdicts, ScanOn(m, chunk).verdicts, EmitLimit(m.h), EmitLimit(m.h + chunk), start);
  }

  /** Main result: an incremental feed leaves exactly what processing the whole input would. */
  lemma FeedIsWhole(m: Reorderer, chunk: seq<Byte>)
    requires Valid(m)
    ensures FeedStep(m, chunk) == Whole(m.h + chunk, m.base, m.start, m.before)
    ensures Valid(FeedStep(m, chunk))
  {
    var start := AtReset(m.base, m.start, m.before);
    ScanOnIsWhole(m, chunk);
    WholeReady(m.h, m.base, m.start, m.before);
    WholeReady(m.h + chunk, m.base, m.start, m.before);
    EmitResumes(m.scanner.verdicts, ScanOn(m, chunk).verdicts, EmitLimit(m.h), EmitLimit(m.h + chunk), start);
  }

  /** One call of feed: re-detect after a gap, then continue with the chunk. */
  function Feed(m: Reorderer, chunk: seq<Byte>, gapped: bool): Reorderer
    requires Valid(m)
  {
    ResetValid(m);
    FeedStep(if gapped then Reset(m) else m, chunk)
  }

  lemma FeedNothing(m: Reorderer)
    requires Valid(m)
    ensures FeedStep(m, []) == m
  {
    FeedIsWhole(m, []);
    assert m.h + [] == m.h;
  }

  function FeedAll(m: Reorderer, chunks: seq<seq<Byte>>): Reorderer
    requires Valid(m)
    decreases |chunks|
  {
    if chunks == [] then m
    else FeedIsWhole(m, chunks[0]); FeedAll(FeedStep(m, chunks[0]), chunks[1..])
  }

  /** Split independence: output, gap flags, order and change count depend only on the concatenated
      input, from any state and for any way of cutting it into chunks. */
  lemma {:induction false} SplitIndependence(m: Reorderer, chunks: seq<seq<Byte>>)
    requires Valid(m)
    ensures Valid(FeedAll(m, chunks))
    ensures FeedAll(m, chunks) == FeedStep(m, Concat(chunks))
    decreases |chunks|
  {
    FeedIsWhole(m, Concat(chunks));
    hide Whole;
    if chunks == [] {
      assert m.h + [] == m.h;
    } else {
      FeedIsWhole(m, chunks[0]);
      SplitIndependence(FeedStep(m, chunks[0]), chunks[1..]);
      FeedIsWhole(FeedStep(m, chunks[0]), Concat(chunks[1..]));
      assert m.h + chunks[0] + Concat(chunks[1..]) == m.h + Concat(chunks);
    }
  }

  // ---------------------------------------------------------------- what every state satisfies

  /** Everything emitted so far is continuous and read at most once; a swapped order keeps the output
      on the pair grid; and no more than the window, a marker and less than a pair is retained. */
  lemma Outputs(m: Reorderer)
    requires Valid(m)
    ensures EmitInv(m.scanner.verdicts, m.emitter)
    ensures m.before <= m.emitter.items
    ensures forall i | |m.before| <= i < |m.emitter.items| :: m.base <= m.emitter.items[i].src
    ensures m.base <= m.emitter.out <= |m.h| < m.emitter.out + RETAINED
    ensures m.emitter.out <= Undecided(m.scanner)
  {
    WholeReady(m.h, m.base, m.start, m.before);
    EmitToInv(m.scanner.verdicts, EmitLimit(m.h), AtReset(m.base, m.start, m.before));
    UndecidedIsHeldBack(m.h, m.base);
  }

  lemma ResetValid(m: Reorderer)
    requires Valid(m)
    ensures Valid(Reset(m))
  {
    Outputs(m);
    var items := m.emitter.items;
    assert forall i | 0 <= i < |items| :: items[i].pos < m.emitter.out && items[i].src < m.emitter.out;
    assert EmitLimit(m.h) <= |m.h|;
  }

  /** What a feed may rely on when it starts. */
  lemma FeedEntry(m: Reorderer)
    requires Valid(m)
    ensures m.emitter.out <= m.scanner.offset <= |m.h|
    ensures m.scanner.pending.Some? ==>
      m.scanner.pending.value < m.scanner.offset < m.scanner.pending.value + SWAP_WINDOW
    ensures Expire(m.scanner) == m.scanner
    ensures Ready(m.scanner.verdicts, m.emitter)
  {
    WholeReady(m.h, m.base, m.start, m.before);
    Outputs(m);
  }
}
