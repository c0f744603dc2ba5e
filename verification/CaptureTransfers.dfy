/** The methods that change the transfer vector, in place, each proved to be one action of TransferPool. */
module CaptureTransfersClass {
  import opened TransferPool

  lemma {:induction false} WithoutAt(listed: seq<nat>, t: nat, i: nat)
    requires i <= |listed| && t !in listed[..i] && (i < |listed| ==> listed[i] == t)
    ensures Without(listed, t) == listed[..i] + (if i < |listed| then listed[i + 1..] else [])
    decreases i
  {
    if i > 0 {
      var rest := listed[1..];
      assert listed[..i][0] == listed[0];
      assert rest[..i - 1] == listed[..i][1..];
      WithoutAt(rest, t, i - 1);
      assert i < |listed| ==> rest[i..] == listed[i + 1..];
    }
  }

  class CaptureTransfers {
    var transfers: seq<Transfer>  // as libusb knows them
    var listed: seq<nat>          // _transfers
    var shuttingDown: bool
    var probeAttempts: nat

    ghost var handler: Handler
    ghost var started: bool
    ghost var lateSubmits: nat

    ghost function State(): Pool
      reads this
    {
      Pool(transfers, listed, handler, probeAttempts, started, shuttingDown, lateSubmits)
    }

    constructor ()
      ensures State() == Start
    {
      transfers, listed, shuttingDown, probeAttempts := [], [], false, 0;
      handler, started, lateSubmits := Idle, false, 0;
    }

    /** `ok` is what libusb_submit_transfer answers. */
    method AddTransferLocked(region: nat, kind: Kind, ok: bool)
      modifies this`transfers, this`listed, this`lateSubmits
      ensures State() == Add(old(State()), region, kind, ok)
    {
      var t := |transfers|;
      if shuttingDown {
        lateSubmits := lateSubmits + 1;
      }
      if !ok {
        transfers := transfers + [Transfer(region, kind, Freed, 1)];
        return;
      }
      transfers := transfers + [Transfer(region, kind, InFlight, 0)];
      listed := listed + [t];
    }

    method RemoveTransferLocked(t: nat) returns (drained: bool)
      modifies this`listed
      ensures listed == Without(old(listed), t)
      ensures drained == (listed == [])
    {
      var i := 0;
      while i < |listed| && listed[i] != t
        invariant i <= |listed| && t !in listed[..i]
      {
        i := i + 1;
      }
      WithoutAt(listed, t, i);
      if i < |listed| {
        listed := listed[..i] + listed[i + 1..];
      }
      drained := |listed| == 0;
    }

    /** libusb calls the completion handler: the transfer is no longer in flight. */
    method TakeBack(t: nat)
      requires t < |transfers|
      modifies this`transfers
      ensures transfers == old(transfers)[t := old(transfers[t]).(status := Handling)]
    {
      transfers := transfers[t := transfers[t].(status := Handling)];
    }

    method FreeTransfer(t: nat)
      requires t < |transfers|
      modifies this`transfers
      ensures transfers == old(transfers)[t := old(transfers[t]).(status := Freed, frees := old(transfers[t]).frees + 1)]
    {
      transfers := transfers[t := transfers[t].(status := Freed, frees := transfers[t].frees + 1)];
    }

    method SubmitTransfer(t: nat, ok: bool)
      requires t < |transfers|
      modifies this`transfers, this`listed
      ensures State() == Resubmit(old(State()), t, ok)
    {
      if !shuttingDown {
        if ok {
          transfers := transfers[t := transfers[t].(status := InFlight)];
          return;
        }
      }
      var drained := RemoveTransferLocked(t);
      FreeTransfer(t);
    }

    method DiscardTransfer(t: nat)
      requires t < |transfers|
      modifies this`transfers, this`listed
      ensures State() == Release(old(State()), t)
    {
      var drained := RemoveTransferLocked(t);
      FreeTransfer(t);
    }

    method QueueAllFrameReads(oks: seq<bool>)
      requires |oks| == TRANSFER_POOL_SIZE
      modifies this`transfers, this`listed, this`lateSubmits
      ensures State() == QueueReads(old(State()), oks)
    {
      if shuttingDown {
        return;
      }
      for i := 0 to TRANSFER_POOL_SIZE
        invariant AddFrom(State(), i, oks) == AddFrom(old(State()), 0, oks)
      {
        AddTransferLocked(i, Pooled, oks[i]);
      }
    }

    method RecordProbeAttempt() returns (again: bool)
      modifies this`probeAttempts
      ensures probeAttempts == old(probeAttempts) + 1 && again == (old(probeAttempts) < MAX_PROBE_ATTEMPTS)
    {
      probeAttempts := probeAttempts + 1;
      again := probeAttempts <= MAX_PROBE_ATTEMPTS;
    }

    /** `cancelled` are the transfers libusb is asked to cancel, in order. */
    method BeginStopping() returns (cancelled: seq<nat>)
      modifies this`shuttingDown
      ensures State() == Next(old(State()), BeginStop)
      ensures cancelled == listed
    {
      shuttingDown := true;
      cancelled := [];
      for i := 0 to |listed|
        invariant cancelled == listed[..i]
      {
        cancelled := cancelled + [listed[i]];
      }
    }
  }
}
