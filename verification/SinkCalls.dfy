/** How emitted bytes are grouped into calls of the sink. */
module SinkCalls {
  import opened Markers
  import opened Sequences
  import opened ReorderModel
  import opened Reorder
  import opened Restore

  datatype Call = Call(data: seq<Byte>, gapped: bool)

  /** Where the last call of `items` starts: at the last flagged byte, or at the front. */
  function LastStart(items: seq<Item>): (s: nat)
    requires items != []
    ensures s < |items| && (s > 0 ==> items[s].gap)
    ensures forall i | s < i < |items| :: !items[i].gap
  {
    if |items| == 1 || items[|items| - 1].gap then |items| - 1 else LastStart(items[..|items| - 1])
  }

  /** A call starts at the front and at every flagged byte. */
  function SplitAtGaps(items: seq<Item>): seq<seq<Item>>
    decreases |items|
  {
    if items == [] then [] else SplitAtGaps(items[..LastStart(items)]) + [items[LastStart(items)..]]
  }

  function Render(h: seq<Byte>, parts: seq<seq<Item>>): seq<Call> {
    seq(|parts|, k requires 0 <= k < |parts| => Call(Bytes(h, parts[k]), parts[k] != [] && parts[k][0].gap))
  }

  /** Flushing a non-empty buffer whose first byte alone may be flagged adds one call. */
  lemma SplitAppend(items: seq<Item>, part: seq<Item>)
    requires part != [] && (items == [] || part[0].gap)
    requires forall i | 1 <= i < |part| :: !part[i].gap
    ensures SplitAtGaps(items + part) == SplitAtGaps(items) + [part]
  {
    var all := items + part;
    var s := LastStart(all);
    assert all[|items|] == part[0];
    assert forall i | |items| < i < |all| :: all[i] == part[i - |items|];
    assert s == |items|;
    assert all[..s] == items && all[s..] == part;
  }

  /** The bytes put out between two states of a reorderer, and the sink calls that carried them. */
  function NewItems(m: Reorderer, m': Reorderer): seq<Item> {
    if |m.emitter.items| <= |m'.emitter.items| then m'.emitter.items[|m.emitter.items|..] else []
  }

  function NewCalls(m: Reorderer, m': Reorderer): seq<Call> {
    Render(m'.h, SplitAtGaps(NewItems(m, m')))
  }

  /** Only the first byte may be flagged. */
  ghost predicate OneFlag(part: seq<Item>) {
    forall i | 1 <= i < |part| :: !part[i].gap
  }

  /** The parts together are the items; each part is non-empty, only its first byte may be flagged, and
      that of every part but the first is. */
  lemma {:induction false} SplitJoins(items: seq<Item>)
    ensures Concat(SplitAtGaps(items)) == items
    ensures forall k | 0 <= k < |SplitAtGaps(items)| :: SplitAtGaps(items)[k] != [] && OneFlag(SplitAtGaps(items)[k])
    ensures forall k | 1 <= k < |SplitAtGaps(items)| :: SplitAtGaps(items)[k] != [] && SplitAtGaps(items)[k][0].gap
    ensures items != [] ==> SplitAtGaps(items) != [] && SplitAtGaps(items)[0] != [] && SplitAtGaps(items)[0][0] == items[0]
    decreases |items|
  {
    if items != [] {
      var s := LastStart(items);
      var front := SplitAtGaps(items[..s]);
      SplitJoins(items[..s]);
      assert SplitAtGaps(items) == front + [items[s..]];
      assert (front + [items[s..]])[..|front|] == front;
      ConcatLast(front + [items[s..]]);
      assert items[..s] + items[s..] == items;
      if s == 0 {
        assert front == [];
      } else {
        assert items[..s][0] == items[0];
      }
    }
  }
}
