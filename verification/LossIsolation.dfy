/** The ring and the pipeline together: what the consumer makes of a ring that dropped chunks. */
module LossIsolation {
  import opened Markers
  import opened PipelineModel
  import Q = CaptureRing
  import C = CaptureStreamClass
  import T = TransferPool
  import PP = ParserProofs

  /** The chunks among these steps, as they were offered. */
  function Offered(ops: seq<Op>): seq<Q.Chunk> {
    if ops == [] then []
    else
      var last := ops[|ops| - 1];
      Offered(ops[..|ops| - 1]) + if last.Chunk? then [Q.Chunk(last.data, last.gapped)] else []
  }

  function Delivered(w: Q.History): seq<Q.Chunk>
    requires Q.Inv(w)
  {
    seq(|w.delivered|, i requires 0 <= i < |w.delivered| => w.stored[w.delivered[i]])
  }

  lemma {:induction false} OfferedAt(ops: seq<Op>, n: nat)
    requires n < |ops| && ops[n].Chunk?
    ensures |Offered(ops[..n])| < |Offered(ops)|
    ensures Offered(ops)[|Offered(ops[..n])|] == Q.Chunk(ops[n].data, ops[n].gapped)
    decreases |ops|
  {
    if n < |ops| - 1 {
      assert ops[..|ops| - 1][..n] == ops[..n];
      OfferedAt(ops[..|ops| - 1], n);
    }
  }

  /** Main result: feed the pipeline what a ring without an unflagged hole delivered, with any changes of
      the input state in between. Take a chunk before which the ring dropped some. Every frame, packet
      and marker recognised from then on uses only bytes of that chunk and later ones: nothing is put
      together from both sides of the hole. */
  lemma HolesAreIsolated(w: Q.History, p: Pipe, ops: seq<Op>, n: nat)
    requires Q.Inv(w) && Q.HolesFlagged(w) && PipeInv(p) && Offered(ops) == Delivered(w)
    requires n < |ops| && ops[n].Chunk?
    requires var i := |Offered(ops[..n])|;
      i < |w.delivered| ==> Q.HoleBefore(if i == 0 then -1 else w.delivered[i - 1], w.delivered[i])
    ensures PipeInv(Run(p, ops[..n])) && OnlyFrom(Run(p, ops[..n]), Run(p, ops))
  {
    hide PipeInv, OnlyFrom, Run;
    var i := |Offered(ops[..n])|;
    OfferedAt(ops, n);
    assert Q.FlaggedAt(w.stored, w.delivered, i);
    assert ops[n] == Chunk(ops[n].data, true);
    RunBoth(p, ops[..n], ops[n..]);
    assert ops[..n] + ops[n..] == ops && ops[n..] == [ops[n]] + ops[n + 1..];
    FlaggedChunkIsolates(Run(p, ops[..n]), ops[n].data, ops[n + 1..]);
  }

  /** In particular over any run of the ring from its start that never drops silently. */
  lemma RingRunIsIsolated(steps: seq<Q.Step>, p: Pipe, ops: seq<Op>, n: nat)
    requires Q.NeverDropsSilently(Q.Start, steps) && PipeInv(p)
    requires Offered(ops) == Delivered(Q.After(Q.Start, steps)) && n < |ops| && ops[n].Chunk?
    requires var i, ids := |Offered(ops[..n])|, Q.After(Q.Start, steps).delivered;
      i < |ids| ==> Q.HoleBefore(if i == 0 then -1 else ids[i - 1], ids[i])
    ensures PipeInv(Run(p, ops[..n])) && OnlyFrom(Run(p, ops[..n]), Run(p, ops))
  {
    hide PipeInv, OnlyFrom, Run;
    Q.EveryHoleFlaggedIff(Q.Start, steps);
    Q.FlaggedAtLast(Q.Start, steps);
    HolesAreIsolated(Q.After(Q.Start, steps), p, ops, n);
  }

  /** A pooled read that fell short: whenever its chunk, as it was stored, is fed, in whatever input state,
      nothing recognised from then on uses bytes from before the loss. */
  lemma ShortReadIsIsolated(w: Q.History, data: seq<Byte>, p: Pipe, later: seq<Op>)
    requires Q.Inv(w) && !w.shuttingDown && PipeInv(p) && 0 < |data| < Q.CHUNK_BYTES
    ensures var w' := Q.After(w, C.Reported(T.Pooled, C.ReadData(data)));
      && |w'.stored| == |w.stored| + 1
      && var c := w'.stored[|w.stored|];
      && c.data == data && OnlyFrom(p, Run(p, [Chunk(c.data, c.gapped)] + later))
  {
    hide PipeInv, OnlyFrom, Run, Q.Inv, Q.After;
    C.ShortReadIsFlagged(w, data);
    FlaggedChunkIsolates(p, data, later);
  }
}
