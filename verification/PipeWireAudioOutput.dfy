/** The audio output itself: 32-bit indices over a fixed ring, written and read in place. One call of
    each method runs here without the other thread in between; AudioRingModel covers the rest. */
module PipeWireAudioOutputClass {
  import opened Markers
  import opened Sequences
  import opened AudioRingModel

  function Zeros(n: nat): seq<Byte> { seq(n, _ => 0) }

  /** How many bytes a callback has to fill: whole frames, and no more than was asked for. */
  function Wanted(maxSize: nat, requestedFrames: nat): (n: nat)
    ensures n % STRIDE == 0 && n <= maxSize
    ensures requestedFrames > 0 ==> n <= requestedFrames * STRIDE
    ensures n == requestedFrames * STRIDE || maxSize - n < STRIDE
  {
    WholeBounds(maxSize);
    if requestedFrames > 0 then Min(requestedFrames * STRIDE, Whole(maxSize)) else Whole(maxSize)
  }

  lemma WholeBounds(n: nat)
    ensures Whole(n) % STRIDE == 0 && Whole(n) <= n < Whole(n) + STRIDE
  {
  }

  /** How much of a fill level is skipped: a backlog down to the newest TARGET_BYTES, in whole frames. */
  function Skipped(filled: nat): (n: nat)
    ensures n <= filled && n % STRIDE == 0
    ensures filled > MAX_BYTES ==> TARGET_BYTES <= filled - n < TARGET_BYTES + STRIDE
    ensures filled <= MAX_BYTES ==> n == 0
  {
    if filled > MAX_BYTES then Whole(filled - TARGET_BYTES) else 0
  }

  /** The accepted bytes that have not been read are in their places. */
  ghost predicate Queued(mem: seq<Byte>, accepted: seq<Byte>, read: nat) {
    && |mem| == RING_BYTES && read <= |accepted| <= read + RING_BYTES
    && forall i | read <= i < |accepted| :: mem[i % RING_BYTES] == accepted[i]
  }

  class PipeWireAudioOutput {
    const ringData: array<Byte>
    var writeIndex: nat
    var readIndex: nat
    var prebuffering: bool
    var underruns: nat
    var trims: nat
    var droppedPackets: nat

    ghost var accepted: seq<Byte>  // every byte ever accepted
    ghost var read: nat            // how many of them have left the ring

    ghost predicate Valid()
      reads this, ringData
    {
      && writeIndex == |accepted| % WORD && readIndex == read % WORD
      && Queued(ringData[..], accepted, read)
    }

    constructor ()
      ensures Valid() && accepted == [] && read == 0 && prebuffering && fresh(ringData)
    {
      ringData := new Byte[RING_BYTES];
      writeIndex, readIndex, prebuffering, underruns, trims, droppedPackets := 0, 0, true, 0, 0, 0;
      accepted, read := [], 0;
    }

    /** Append the packet if all of it fits behind what the reader still owns, else drop it. */
    method AudioFrameAvailable(audio: seq<Byte>)
      requires Valid()
      modifies ringData, this`writeIndex, this`droppedPackets, this`accepted
      ensures Valid()
      ensures if old(|accepted|) - read + |audio| <= RING_BYTES
              then accepted == old(accepted) + audio && droppedPackets == old(droppedPackets)
              else accepted == old(accepted) && droppedPackets == old(droppedPackets) + 1
    {
      hide Filled, Queued;
      QueuedFits(ringData[..], accepted, read);
      WrapAgrees(|accepted|, read, |audio|);
      var index := writeIndex;
      var filled := Filled(writeIndex, readIndex);
      if filled < 0 || filled + |audio| > RING_BYTES {
        droppedPackets := droppedPackets + 1;
        return;
      }
      WriteData(index % RING_BYTES, audio);
      accepted := accepted + audio;
      writeIndex := (index + |audio|) % WORD;
    }

    method WriteData(offset: nat, audio: seq<Byte>)
      requires Queued(ringData[..], accepted, read) && offset == |accepted| % RING_BYTES
      requires |accepted| + |audio| <= read + RING_BYTES
      modifies ringData
      ensures Queued(ringData[..], accepted + audio, read)
    {
      hide Queued;
      QueuedFits(ringData[..], accepted, read);
      assert accepted + audio[..0] == accepted;
      for k := 0 to |audio|
        invariant Queued(ringData[..], accepted + audio[..k], read)
      {
        ghost var before := ringData[..];
        PlaceAdd(|accepted|, k);
        WriteQueues(before, accepted + audio[..k], read, audio[k]);
        ringData[(offset + k) % RING_BYTES] := audio[k];
        assert ringData[..] == before[(|accepted| + k) % RING_BYTES := audio[k]];
        assert accepted + audio[..k + 1] == accepted + audio[..k] + [audio[k]];
      }
      assert audio[..|audio|] == audio;
    }

    /** Cut a backlog beyond MAX_BYTES to the target; `filled` is what is left. */
    method TrimBacklog() returns (filled: nat)
      requires Valid()
      modifies this`readIndex, this`trims, this`read
      ensures Valid() && filled == |accepted| - read
      ensures var skip := Skipped(|accepted| - old(read));
        read == old(read) + skip && trims == old(trims) + if skip > 0 then 1 else 0
    {
      hide Queued, Filled;
      QueuedFits(ringData[..], accepted, read);
      WrapAgrees(|accepted|, read, 0);
      var level := Filled(writeIndex, readIndex);
      if level < 0 {
        level := 0;
      }
      filled := level;
      if filled > MAX_BYTES {
        var skip := Whole(filled - TARGET_BYTES);
        WrapAdd(read, skip);
        QueuedLess(ringData[..], accepted, read, skip);
        readIndex := (readIndex + skip) % WORD;
        read := read + skip;
        filled := filled - skip;
        trims := trims + 1;
      }
    }

    /** Fill one callback's buffer: trim a backlog, then play what there is, then silence. */
    method OnProcess(maxSize: nat, requestedFrames: nat) returns (dst: seq<Byte>)
      requires Valid()
      modifies this`readIndex, this`prebuffering, this`underruns, this`trims, this`read
      ensures Valid()
      ensures old(read) <= |accepted|
      ensures var wanted, filled := Wanted(maxSize, requestedFrames), |accepted| - old(read);
        var skip := Skipped(filled);
        var playing := !old(prebuffering) || filled - skip >= TARGET_BYTES;
        var n := if playing then Whole(Min(filled - skip, wanted)) else 0;
        && n <= filled - skip && n <= wanted
        && dst == accepted[old(read) + skip..old(read) + skip + n] + Zeros(wanted - n)
        && read == old(read) + skip + n
        && prebuffering == (!playing || n < wanted)
        && trims == old(trims) + (if skip > 0 then 1 else 0)
        && underruns == old(underruns) + if playing && n < wanted then 1 else 0
    {
      hide Queued, Skipped, Wanted;
      QueuedFits(ringData[..], accepted, read);
      var wanted := Wanted(maxSize, requestedFrames);
      var filled := TrimBacklog();
      QueuedFits(ringData[..], accepted, read);
      var copied := 0;
      dst := [];
      if !prebuffering || filled >= TARGET_BYTES {
        prebuffering := false;
        copied := Whole(Min(filled, wanted));
        dst := TakeData(copied);
        if copied < wanted {
          prebuffering := true;
          underruns := underruns + 1;
        }
      }
      dst := dst + Zeros(wanted - copied);
    }

    /** Copy the oldest bytes out and release their places. */
    method TakeData(n: nat) returns (data: seq<Byte>)
      requires Valid() && read + n <= |accepted|
      modifies this`readIndex, this`read
      ensures Valid() && read == old(read) + n && data == accepted[old(read)..read]
    {
      data := ReadData(n);
      hide Queued;
      WrapAdd(read, n);
      QueuedLess(ringData[..], accepted, read, n);
      readIndex := (readIndex + n) % WORD;
      read := read + n;
    }

    method ReadData(n: nat) returns (data: seq<Byte>)
      requires Valid() && read + n <= |accepted|
      ensures data == accepted[read..read + n]
    {
      data := [];
      WrapAgrees(|accepted|, read, 0);
      var offset := readIndex % RING_BYTES;
      WrapPlace(read);
      for k := 0 to n
        invariant data == accepted[read..read + k]
      {
        PlaceAdd(read, k);
        data := data + [ringData[(offset + k) % RING_BYTES]];
        assert ringData[..][(read + k) % RING_BYTES] == accepted[read + k];
      }
    }
  }

  lemma QueuedFits(mem: seq<Byte>, accepted: seq<Byte>, read: nat)
    requires Queued(mem, accepted, read)
    ensures |mem| == RING_BYTES && read <= |accepted| <= read + RING_BYTES
  {
  }

  lemma QueuedLess(mem: seq<Byte>, accepted: seq<Byte>, read: nat, n: nat)
    requires Queued(mem, accepted, read) && read + n <= |accepted|
    ensures Queued(mem, accepted, read + n)
  {
  }

  lemma PlaceAdd(i: nat, k: nat)
    ensures (i % RING_BYTES + k) % RING_BYTES == (i + k) % RING_BYTES
  {
    var q := i / RING_BYTES;
    assert i + k == RING_BYTES * q + (i % RING_BYTES + k);
  }

  /** One more byte behind the queue overwrites nothing that is still queued. */
  lemma WriteQueues(mem: seq<Byte>, accepted: seq<Byte>, read: nat, b: Byte)
    requires Queued(mem, accepted, read) && |accepted| < read + RING_BYTES
    ensures Queued(mem[|accepted| % RING_BYTES := b], accepted + [b], read)
  {
    forall i | read <= i < |accepted| ensures i % RING_BYTES != |accepted| % RING_BYTES {
      PlacesDiffer(i, |accepted|);
    }
  }
}
