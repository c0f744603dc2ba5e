/** What several modules need of sequences and numbers. */
module Sequences {
  function Min(a: nat, b: nat): nat { if a < b then a else b }

  function Concat<T>(parts: seq<seq<T>>): seq<T> {
    if parts == [] then [] else parts[0] + Concat(parts[1..])
  }

  lemma {:induction false} ConcatLast<T>(parts: seq<seq<T>>)
    requires parts != []
    ensures Concat(parts) == Concat(parts[..|parts| - 1]) + parts[|parts| - 1]
    decreases |parts|
  {
    var n := |parts| - 1;
    if n > 0 {
      ConcatLast(parts[1..]);
      assert parts[1..][..n - 1] == parts[..n][1..];
      assert parts[0] + (Concat(parts[1..][..n - 1]) + parts[n]) == parts[0] + Concat(parts[..n][1..]) + parts[n];
    } else {
      assert parts[..0] == [];
    }
  }
}
