/** One call of each method is an execution of the interleaving model in which the other thread rests:
    the methods of PipeWireAudioOutput promise what these executions end in. */
module AudioRingCalls {
  import opened Markers
  import opened Sequences
  import opened AudioRingModel
  import opened PipeWireAudioOutputClass

  lemma {:induction false} Chain(s: Ring, a: seq<Step>, b: seq<Step>)
    requires |s.mem| == RING_BYTES && Possible(s, a) && |After(s, a).mem| == RING_BYTES && Possible(After(s, a), b)
    ensures Possible(s, a + b) && After(s, a + b) == After(After(s, a), b)
    decreases |a|
  {
    if a == [] {
      assert a + b == b;
    } else {
      assert (a + b)[1..] == a[1..] + b;
      Chain(Next(s, a[0]), a[1..], b);
    }
  }

  lemma One(s: Ring, step: Step)
    requires |s.mem| == RING_BYTES && Enabled(s, step)
    ensures Possible(s, [step]) && After(s, [step]) == Next(s, step)
  {
    assert [step][1..] == [];
  }

  /** The bytes to play have been copied. */
  function CopiedRing(s: Ring): Ring
    requires s.consumer.Copying? && s.read + s.consumer.n <= |s.accepted|
  {
    s.(consumer := s.consumer.(copied := s.accepted[s.read..s.read + s.consumer.n]))
  }

  lemma CopyCase(s: Ring)
    requires Inv(s) && s.consumer.Copying? && |s.consumer.copied| < s.consumer.n
    ensures var s1 := Next(s, CopyByte);
      && Inv(s1) && s1.consumer.Copying? && s1.consumer.n == s.consumer.n
      && |s1.consumer.copied| == |s.consumer.copied| + 1
      && s1.read + s1.consumer.n <= |s1.accepted| && CopiedRing(s1) == CopiedRing(s)
  {
    NextKeepsInv(s, CopyByte);
    hide Tiles, Faithful;
  }

  lemma {:induction false} CopyRuns(s: Ring) returns (steps: seq<Step>)
    requires Inv(s) && s.consumer.Copying?
    ensures Possible(s, steps)
    ensures s.read + s.consumer.n <= |s.accepted| && After(s, steps) == CopiedRing(s)
    decreases s.consumer.n - |s.consumer.copied|
  {
    hide Tiles, Faithful, Next;
    if |s.consumer.copied| == s.consumer.n {
      steps := [];
      assert s.consumer.copied == s.accepted[s.read..s.read + s.consumer.n];
    } else {
      One(s, CopyByte);
      CopyCase(s);
      var rest := CopyRuns(Next(s, CopyByte));
      hide Inv, Possible, After, CopiedRing;
      Chain(s, [CopyByte], rest);
      steps := [CopyByte] + rest;
    }
  }

  /** Which bytes a callback plays and where it leaves the ring. */
  ghost predicate Plays(s: Ring, wanted: nat, s': Ring)
    requires s.read <= |s.accepted|
  {
    var filled := |s.accepted| - s.read;
    var skip := Skipped(filled);
    var playing := !s.prebuffering || filled - skip >= TARGET_BYTES;
    var n := if playing then Whole(Min(filled - skip, wanted)) else 0;
    && s'.consumer == Idle && s'.mem == s.mem && s'.accepted == s.accepted && s'.producer == s.producer
    && s'.read == s.read + skip + n && s'.read <= |s.accepted|
    && Heard(s'.left) == Heard(s.left) + s.accepted[s.read + skip..s.read + skip + n]
    && s'.prebuffering == (!playing || n < wanted)
    && s'.trims == s.trims + (if skip > 0 then 1 else 0)
    && s'.underruns == s.underruns + if playing && n < wanted then 1 else 0
  }

  lemma HeardMore(left: seq<Segment>, x: Segment)
    ensures Heard(left + [x]) == Heard(left) + if x.Played? then x.bytes else []
  {
    assert (left + [x])[..|left|] == left;
  }

  lemma FinishRuns(s: Ring) returns (steps: seq<Step>)
    requires Inv(s) && s.consumer.Copying?
    ensures s.read + s.consumer.n <= |s.accepted| && Possible(s, steps)
    ensures Enabled(CopiedRing(s), PublishRead) && After(s, steps) == Next(CopiedRing(s), PublishRead)
  {
    assert s.read + s.consumer.n <= |s.accepted| && |s.mem| == RING_BYTES;
    var copies := CopyRuns(s);
    hide Inv, Possible, After, Next;
    One(CopiedRing(s), PublishRead);
    Chain(s, copies, [PublishRead]);
    steps := copies + [PublishRead];
  }

  lemma StartCase(s: Ring)
    requires Inv(s) && s.consumer.Ready?
    ensures Enabled(s, StartCopy) && PlayedRing(s).read <= |s.accepted|
    ensures var s1 := Next(s, StartCopy);
      if s1.consumer.Idle? then PlayedRing(s) == s1
      else s1.consumer.Copying? && s1.read + s1.consumer.n <= |s1.accepted|
           && Next(CopiedRing(s1), PublishRead) == PlayedRing(s)
  {
    hide Tiles, Faithful;
  }

  lemma PlayRuns(s: Ring) returns (steps: seq<Step>)
    requires Inv(s) && s.consumer.Ready?
    ensures Possible(s, steps)
    ensures After(s, steps) == PlayedRing(s) && PlayedRing(s).read <= |s.accepted|
  {
    StartCase(s);
    var s1 := Next(s, StartCopy);
    NextKeepsInv(s, StartCopy);
    One(s, StartCopy);
    assert |s.mem| == |s1.mem| == RING_BYTES;
    hide Inv, Possible, After, Next, PlayedRing;
    if s1.consumer.Idle? {
      steps := [StartCopy];
    } else {
      var rest := FinishRuns(s1);
      Chain(s, [StartCopy], rest);
      steps := [StartCopy] + rest;
    }
  }

  /** The ring after trimming: ready to play from what is left of the fill level. */
  function TrimmedRing(s: Ring, wanted: nat): Ring
    requires s.read <= |s.accepted|
  {
    var filled := |s.accepted| - s.read;
    var skip := Skipped(filled);
    s.(consumer := Ready(filled - skip, wanted), read := s.read + skip,
       trims := s.trims + (if skip > 0 then 1 else 0),
       left := if skip > 0 then s.left + [Trimmed(s.read, skip)] else s.left)
  }

  /** The ring after playing, from a ready one. */
  function PlayedRing(s: Ring): Ring
    requires s.consumer.Ready?
  {
    var c := s.consumer;
    var playing := !s.prebuffering || c.filled >= TARGET_BYTES;
    var n := if playing then Whole(Min(c.filled, c.wanted)) else 0;
    s.(consumer := Idle, read := s.read + n, prebuffering := !playing || n < c.wanted,
       underruns := s.underruns + (if playing && n < c.wanted then 1 else 0),
       left := if playing && s.read + n <= |s.accepted| then s.left + [Played(s.read, s.accepted[s.read..s.read + n])] else s.left)
  }

  lemma TrimCase(s: Ring, wanted: nat)
    requires |s.mem| == RING_BYTES && s.read <= |s.accepted| && s.consumer.Idle? && wanted % STRIDE == 0
    ensures Enabled(s, Begin(wanted)) && Enabled(Next(s, Begin(wanted)), Trim)
    ensures Next(Next(s, Begin(wanted)), Trim) == TrimmedRing(s, wanted)
  {
  }

  lemma TrimRuns(s: Ring, wanted: nat) returns (steps: seq<Step>)
    requires Inv(s) && s.consumer.Idle? && wanted % STRIDE == 0
    ensures Possible(s, steps) && Inv(After(s, steps)) && After(s, steps) == TrimmedRing(s, wanted)
  {
    var s1 := Next(s, Begin(wanted));
    NextKeepsInv(s, Begin(wanted));
    NextKeepsInv(s1, Trim);
    assert |s.mem| == |s1.mem| == RING_BYTES && s.read <= |s.accepted|;
    TrimCase(s, wanted);
    hide Inv, Possible, After, Next, TrimmedRing;
    One(s, Begin(wanted));
    One(s1, Trim);
    steps := [Begin(wanted)] + [Trim];
    Chain(s, [Begin(wanted)], [Trim]);
  }

  lemma PlaysWhat(s: Ring, wanted: nat)
    requires s.read <= |s.accepted| && s.consumer.Idle?
    ensures Plays(s, wanted, PlayedRing(TrimmedRing(s, wanted)))
  {
    hide Heard, Skipped;
    var s2 := TrimmedRing(s, wanted);
    var s3 := PlayedRing(s2);
    TrimmedHeard(s, wanted);
    PlayedHeard(s2);
  }

  lemma TrimmedHeard(s: Ring, wanted: nat)
    requires s.read <= |s.accepted|
    ensures Heard(TrimmedRing(s, wanted).left) == Heard(s.left)
  {
    HeardMore(s.left, Trimmed(s.read, Skipped(|s.accepted| - s.read)));
  }

  lemma PlayedHeard(s: Ring)
    requires s.consumer.Ready? && s.read <= PlayedRing(s).read <= |s.accepted|
    ensures Heard(PlayedRing(s).left) == Heard(s.left) + s.accepted[s.read..PlayedRing(s).read]
  {
    hide Heard;
    HeardMore(s.left, Played(s.read, s.accepted[s.read..PlayedRing(s).read]));
  }

  /** The consumer's callback, undisturbed. */
  lemma CallbackRuns(s: Ring, wanted: nat) returns (steps: seq<Step>)
    requires Inv(s) && s.consumer.Idle? && wanted % STRIDE == 0
    ensures Possible(s, steps) && Plays(s, wanted, After(s, steps))
  {
    assert |s.mem| == RING_BYTES && s.read <= |s.accepted|;
    hide Inv, Next, After, Possible, Plays, PlayedRing;
    var trims := TrimRuns(s, wanted);
    var plays := PlayRuns(After(s, trims));
    Chain(s, trims, plays);
    steps := trims + plays;
    PlaysWhat(s, wanted);
  }

  lemma {:induction false} WriteRuns(s: Ring) returns (steps: seq<Step>)
    requires Inv(s) && s.producer.Writing?
    ensures Possible(s, steps)
    ensures var s' := After(s, steps);
      && s'.producer == Waiting && s'.accepted == s.accepted + s.producer.payload
      && s' == s.(mem := s'.mem, accepted := s'.accepted, producer := Waiting)
    decreases |s.producer.payload| - s.producer.done
  {
    var step := if s.producer.done < |s.producer.payload| then WriteByte else PublishWrite;
    NextKeepsInv(s, step);
    One(s, step);
    if step == WriteByte {
      var rest := WriteRuns(Next(s, WriteByte));
      steps := [WriteByte] + rest;
      assert steps[1..] == rest;
    } else {
      steps := [PublishWrite];
    }
  }

  /** The producer's call, undisturbed: the packet is appended if it fits, else dropped. */
  lemma OfferRuns(s: Ring, payload: seq<Byte>) returns (steps: seq<Step>)
    requires Inv(s) && s.producer.Waiting?
    ensures Possible(s, steps)
    ensures var s' := After(s, steps);
      && s'.producer == Waiting && s'.read == s.read && s'.left == s.left
      && if |s.accepted| - s.read + |payload| <= RING_BYTES
         then s'.accepted == s.accepted + payload && s'.droppedPackets == s.droppedPackets
         else s'.accepted == s.accepted && s'.droppedPackets == s.droppedPackets + 1
  {
    NextKeepsInv(s, Offer(payload));
    One(s, Offer(payload));
    var s1 := Next(s, Offer(payload));
    if s1.producer.Waiting? {
      steps := [Offer(payload)];
    } else {
      var rest := WriteRuns(s1);
      steps := [Offer(payload)] + rest;
      assert steps[1..] == rest;
    }
  }
}
