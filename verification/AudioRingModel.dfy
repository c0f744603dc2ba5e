/** The lock-free ring between the capture thread and PipeWire's real-time thread, with every load and
    store of an index and every byte copied as a step of its own. An execution is any interleaving of
    the two threads' steps. Indices are unbounded here; WrapAgrees relates them to the 32-bit ones. */
module AudioRingModel {
  import opened Markers
  import opened Sequences

  const RATE: nat := 48000
  const STRIDE: nat := 4
  const RING_BYTES: nat := 0x10000
  const TARGET_BYTES: nat := RATE * STRIDE * 40 / 1000
  const MAX_BYTES: nat := RATE * STRIDE * 120 / 1000

  /** Between packets, or writing one behind the published write index. */
  datatype Producer = Waiting | Writing(payload: seq<Byte>, done: nat)

  /** Between callbacks; having read the write index; having trimmed if needed; or copying `n` bytes. */
  datatype Consumer =
    | Idle
    | Checked(filled: nat, wanted: nat)
    | Ready(filled: nat, wanted: nat)
    | Copying(n: nat, wanted: nat, copied: seq<Byte>)

  /** A run of accepted bytes that left the ring: played, or trimmed away. */
  datatype Segment = Played(start: nat, bytes: seq<Byte>) | Trimmed(start: nat, length: nat)

  /** `accepted` holds every byte published so far, so |accepted| is the write index. */
  datatype Ring = Ring(mem: seq<Byte>, accepted: seq<Byte>, read: nat, producer: Producer, consumer: Consumer,
                       prebuffering: bool, left: seq<Segment>, droppedPackets: nat, underruns: nat, trims: nat)

  datatype Step =
    | Offer(payload: seq<Byte>)   // read the read index and decide
    | WriteByte
    | PublishWrite
    | Begin(wanted: nat)          // read the write index
    | Trim                        // skip a backlog, publishing the read index
    | StartCopy                   // decide how much to play
    | CopyByte
    | PublishRead

  function Whole(n: nat): nat { n / STRIDE * STRIDE }

  predicate Enabled(s: Ring, step: Step) {
    match step
    case Offer(_) => s.producer.Waiting?
    case WriteByte => s.producer.Writing? && s.producer.done < |s.producer.payload|
    case PublishWrite => s.producer.Writing? && s.producer.done == |s.producer.payload|
    case Begin(wanted) => s.consumer.Idle? && wanted % STRIDE == 0
    case Trim => s.consumer.Checked?
    case StartCopy => s.consumer.Ready?
    case CopyByte => s.consumer.Copying? && |s.consumer.copied| < s.consumer.n
    case PublishRead => s.consumer.Copying? && |s.consumer.copied| == s.consumer.n
  }

  function Next(s: Ring, step: Step): Ring
    requires Enabled(s, step) && |s.mem| == RING_BYTES
  {
    match step
    case Offer(payload) =>
      if |s.accepted| < s.read || |s.accepted| - s.read + |payload| > RING_BYTES then s.(droppedPackets := s.droppedPackets + 1)
      else s.(producer := Writing(payload, 0))
    case WriteByte =>
      var k := s.producer.done;
      s.(mem := s.mem[(|s.accepted| + k) % RING_BYTES := s.producer.payload[k]], producer := Writing(s.producer.payload, k + 1))
    case PublishWrite => s.(accepted := s.accepted + s.producer.payload, producer := Waiting)
    case Begin(wanted) => s.(consumer := Checked(if s.read <= |s.accepted| then |s.accepted| - s.read else 0, wanted))
    case Trim =>
      var filled := s.consumer.filled;
      if filled > MAX_BYTES then
        var skip := Whole(filled - TARGET_BYTES);
        s.(read := s.read + skip, consumer := Ready(filled - skip, s.consumer.wanted),
           left := s.left + [Trimmed(s.read, skip)], trims := s.trims + 1)
      else s.(consumer := Ready(filled, s.consumer.wanted))
    case StartCopy =>
      if !s.prebuffering || s.consumer.filled >= TARGET_BYTES then
        s.(prebuffering := false,
           consumer := Copying(Whole(Min(s.consumer.filled, s.consumer.wanted)), s.consumer.wanted, []))
      else s.(consumer := Idle)  // play silence only
    case CopyByte =>
      var c := s.consumer;
      s.(consumer := c.(copied := c.copied + [s.mem[(s.read + |c.copied|) % RING_BYTES]]))
    case PublishRead =>
      var c := s.consumer;
      var dry := c.n < c.wanted;
      s.(read := s.read + c.n, left := s.left + [Played(s.read, c.copied)], consumer := Idle,
         prebuffering := s.prebuffering || dry, underruns := if dry then s.underruns + 1 else s.underruns)
  }

  // ---------------------------------------------------------------- what every interleaving keeps

  function Length(x: Segment): nat { if x.Played? then |x.bytes| else x.length }

  /** The segments follow each other without a hole from 0 to `end`. */
  ghost predicate Tiles(left: seq<Segment>, end: nat) {
    if left == [] then end == 0
    else
      var last := left[|left| - 1];
      last.start + Length(last) == end && Tiles(left[..|left| - 1], last.start)
  }

  /** What was played is what was accepted at that place. */
  ghost predicate Faithful(left: seq<Segment>, accepted: seq<Byte>) {
    forall i | 0 <= i < |left| && left[i].Played? ::
      left[i].start + |left[i].bytes| <= |accepted|
      && left[i].bytes == accepted[left[i].start..left[i].start + |left[i].bytes|]
  }

  /** Bytes being written, beyond the published ones. */
  function InFlight(s: Ring): nat { if s.producer.Writing? then |s.producer.payload| else 0 }

  /** Every published byte that has not left the ring is in its place. */
  ghost predicate Stored(s: Ring)
    requires |s.mem| == RING_BYTES
  {
    forall i | s.read <= i < |s.accepted| :: s.mem[i % RING_BYTES] == s.accepted[i]
  }

  ghost predicate Inv(s: Ring) {
    && |s.mem| == RING_BYTES
    && s.read <= |s.accepted|
    && |s.accepted| + InFlight(s) <= s.read + RING_BYTES
    && Stored(s)
    && (s.producer.Writing? ==>
          && s.producer.done <= |s.producer.payload|
          && forall k | 0 <= k < s.producer.done ::
               s.mem[(|s.accepted| + k) % RING_BYTES] == s.producer.payload[k])
    && (match s.consumer
        case Idle => true
        case Checked(filled, _) => filled <= |s.accepted| - s.read
        case Ready(filled, _) => filled <= |s.accepted| - s.read
        case Copying(n, _, copied) =>
          && |copied| <= n <= |s.accepted| - s.read
          && copied == s.accepted[s.read..s.read + |copied|])
    && Tiles(s.left, s.read)
    && Faithful(s.left, s.accepted)
  }

  /** Different bytes within one ring's length never share a place. */
  lemma PlacesDiffer(i: nat, j: nat)
    requires i < j < i + RING_BYTES
    ensures i % RING_BYTES != j % RING_BYTES
  {
  }

  /** The byte being written is not one that is queued or being read. */
  lemma WriteAvoidsReader(s: Ring, k: nat)
    requires Inv(s) && s.producer.Writing? && k < |s.producer.payload|
    ensures forall i | s.read <= i < |s.accepted| + k :: i % RING_BYTES != (|s.accepted| + k) % RING_BYTES
  {
    forall i | s.read <= i < |s.accepted| + k ensures i % RING_BYTES != (|s.accepted| + k) % RING_BYTES {
      PlacesDiffer(i, |s.accepted| + k);
    }
  }

  lemma ProducerKeeps(s: Ring, step: Step)
    requires Inv(s) && Enabled(s, step) && (step.Offer? || step.WriteByte? || step.PublishWrite?)
    ensures Inv(Next(s, step))
  {
    match step
    case Offer(_) =>
    case WriteByte => WriteByteKeeps(s);
    case PublishWrite => PublishWriteKeeps(s);
  }

  lemma WriteByteKeeps(s: Ring)
    requires Inv(s) && Enabled(s, WriteByte)
    ensures Inv(Next(s, WriteByte))
  {
    var k := s.producer.done;
    WriteAvoidsReader(s, k);
    hide Tiles;
    var s' := Next(s, WriteByte);
    forall j | 0 <= j <= k ensures s'.mem[(|s.accepted| + j) % RING_BYTES] == s.producer.payload[j] {
      if j < k {
        PlacesDiffer(|s.accepted| + j, |s.accepted| + k);
      }
    }
  }

  lemma PublishWriteKeeps(s: Ring)
    requires Inv(s) && Enabled(s, PublishWrite)
    ensures Inv(Next(s, PublishWrite))
  {
    hide Tiles;
    var s', w := Next(s, PublishWrite), |s.accepted|;
    forall i | s'.read <= i < |s'.accepted| ensures s'.mem[i % RING_BYTES] == s'.accepted[i] {
      if i >= w {
        assert s.mem[(w + (i - w)) % RING_BYTES] == s.producer.payload[i - w];
      }
    }
    assert forall i | 0 <= i < |s.left| && s.left[i].Played? ::
      s'.accepted[s.left[i].start..s.left[i].start + |s.left[i].bytes|]
      == s.accepted[s.left[i].start..s.left[i].start + |s.left[i].bytes|];
    if s.consumer.Copying? {
      assert s'.accepted[s.read..s.read + |s.consumer.copied|] == s.accepted[s.read..s.read + |s.consumer.copied|];
    }
  }

  lemma Leaves(left: seq<Segment>, accepted: seq<Byte>, end: nat, x: Segment)
    requires Tiles(left, end) && Faithful(left, accepted) && x.start == end
    requires x.Played? ==> end + |x.bytes| <= |accepted| && x.bytes == accepted[end..end + |x.bytes|]
    ensures Tiles(left + [x], end + Length(x)) && Faithful(left + [x], accepted)
  {
    assert (left + [x])[..|left|] == left;
  }

  lemma ConsumerKeeps(s: Ring, step: Step)
    requires Inv(s) && Enabled(s, step) && !(step.Offer? || step.WriteByte? || step.PublishWrite?)
    ensures Inv(Next(s, step))
  {
    match step
    case Trim => TrimKeeps(s);
    case PublishRead => PublishReadKeeps(s);
    case CopyByte => CopyByteKeeps(s);
    case _ =>
      hide Tiles, Faithful;
  }

  lemma TrimKeeps(s: Ring)
    requires Inv(s) && Enabled(s, Trim)
    ensures Inv(Next(s, Trim))
  {
    hide Tiles, Faithful;
    if s.consumer.filled > MAX_BYTES {
      Leaves(s.left, s.accepted, s.read, Trimmed(s.read, Whole(s.consumer.filled - TARGET_BYTES)));
    }
  }

  lemma PublishReadKeeps(s: Ring)
    requires Inv(s) && Enabled(s, PublishRead)
    ensures Inv(Next(s, PublishRead))
  {
    hide Tiles, Faithful;
    Leaves(s.left, s.accepted, s.read, Played(s.read, s.consumer.copied));
  }

  lemma CopyByteKeeps(s: Ring)
    requires Inv(s) && Enabled(s, CopyByte)
    ensures Inv(Next(s, CopyByte))
  {
    hide Tiles, Faithful;
    var k := |s.consumer.copied|;
    assert s.mem[(s.read + k) % RING_BYTES] == s.accepted[s.read + k];
    assert s.accepted[s.read..s.read + k + 1] == s.accepted[s.read..s.read + k] + [s.accepted[s.read + k]];
  }

  lemma NextKeepsInv(s: Ring, step: Step)
    requires Inv(s) && Enabled(s, step)
    ensures Inv(Next(s, step))
  {
    if step.Offer? || step.WriteByte? || step.PublishWrite? {
      ProducerKeeps(s, step);
    } else {
      ConsumerKeeps(s, step);
    }
  }

  // ---------------------------------------------------------------- whole executions

  predicate Possible(s: Ring, steps: seq<Step>)
    requires |s.mem| == RING_BYTES
    decreases |steps|
  {
    steps == [] || (Enabled(s, steps[0]) && Possible(Next(s, steps[0]), steps[1..]))
  }

  function After(s: Ring, steps: seq<Step>): Ring
    requires |s.mem| == RING_BYTES && Possible(s, steps)
    decreases |steps|
  {
    if steps == [] then s else After(Next(s, steps[0]), steps[1..])
  }

  /** What the listener has heard, silence aside. */
  function Heard(left: seq<Segment>): seq<Byte> {
    if left == [] then []
    else Heard(left[..|left| - 1]) + if left[|left| - 1].Played? then left[|left| - 1].bytes else []
  }

  function TrimmedBytes(left: seq<Segment>): nat {
    if left == [] then 0
    else TrimmedBytes(left[..|left| - 1]) + if left[|left| - 1].Trimmed? then left[|left| - 1].length else 0
  }

  /** `accepted` up to where the ring is read, with exactly the trimmed runs taken out. */
  function Untrimmed(accepted: seq<Byte>, left: seq<Segment>): seq<Byte> {
    if left == [] then []
    else
      var last := left[|left| - 1];
      Untrimmed(accepted, left[..|left| - 1])
      + if last.Played? && last.start + |last.bytes| <= |accepted| then accepted[last.start..last.start + |last.bytes|] else []
  }

  lemma {:induction false} Accounted(left: seq<Segment>, accepted: seq<Byte>, end: nat)
    requires Tiles(left, end) && Faithful(left, accepted)
    ensures |Heard(left)| + TrimmedBytes(left) == end && Heard(left) == Untrimmed(accepted, left)
  {
    if left != [] {
      var last := left[|left| - 1];
      assert Faithful(left[..|left| - 1], accepted);
      Accounted(left[..|left| - 1], accepted, last.start);
    }
  }

  lemma {:induction false} EveryPrefixKeepsInv(s: Ring, steps: seq<Step>)
    requires Inv(s) && Possible(s, steps)
    ensures Inv(After(s, steps))
    decreases |steps|
  {
    if steps != [] {
      NextKeepsInv(s, steps[0]);
      EveryPrefixKeepsInv(Next(s, steps[0]), steps[1..]);
    }
  }

  /** Main result: after every interleaving, what was heard is the accepted bytes in order, each once,
      minus exactly the trimmed runs; and accepted = heard + trimmed + still queued. */
  lemma EveryInterleaving(s: Ring, steps: seq<Step>)
    requires Inv(s) && Possible(s, steps)
    ensures var s' := After(s, steps);
      && Inv(s')
      && Heard(s'.left) == Untrimmed(s'.accepted, s'.left)
      && |s'.accepted| == |Heard(s'.left)| + TrimmedBytes(s'.left) + (|s'.accepted| - s'.read)
  {
    EveryPrefixKeepsInv(s, steps);
    Accounted(After(s, steps).left, After(s, steps).accepted, After(s, steps).read);
  }

  function Empty(mem: seq<Byte>): Ring { Ring(mem, [], 0, Waiting, Idle, true, [], 0, 0, 0) }

  /** So from an empty ring on, whatever its memory holds. */
  lemma EveryInterleavingFromEmpty(mem: seq<Byte>, steps: seq<Step>)
    requires |mem| == RING_BYTES && Possible(Empty(mem), steps)
    ensures var s := After(Empty(mem), steps);
      && Heard(s.left) == Untrimmed(s.accepted, s.left)
      && |s.accepted| == |Heard(s.left)| + TrimmedBytes(s.left) + (|s.accepted| - s.read)
  {
    assert Inv(Empty(mem));
    EveryInterleaving(Empty(mem), steps);
  }

  // ---------------------------------------------------------------- 32-bit indices

  const WORD: nat := 0x1_0000_0000

  /** spa_ringbuffer's fill level: the difference of two uint32 indices, as an int32. */
  function Filled(write: nat, read: nat): int {
    var d := (write - read) % WORD;
    if d < WORD / 2 then d else d - WORD
  }

  /** Wrapped indices give the same fill level and the same places as unbounded ones. */
  lemma WrapAgrees(write: nat, read: nat, n: nat)
    requires read <= write <= read + RING_BYTES
    ensures Filled(write % WORD, read % WORD) == write - read
    ensures write % WORD % RING_BYTES == write % RING_BYTES
    ensures (write % WORD + n) % WORD == (write + n) % WORD
  {
    WrapPlace(write);
    WrapAdd(write, n);
  }

  lemma WrapPlace(i: nat)
    ensures i % WORD % RING_BYTES == i % RING_BYTES
  {
    var q, r := i / WORD, i % WORD;
    assert i == WORD * q + r;
    var p := r / RING_BYTES;
    assert i == RING_BYTES * (0x10000 * q + p) + r % RING_BYTES;
  }

  lemma WrapAdd(i: nat, n: nat)
    ensures (i % WORD + n) % WORD == (i + n) % WORD
  {
    var q := i / WORD;
    assert i + n == WORD * q + (i % WORD + n);
  }
}
