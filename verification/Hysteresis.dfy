/** Once an order is established, only two SAVs in a row that disagree with it and agree with each
    other replace it. Everything here is about an arbitrary sequence of observations. */
module Hysteresis {
  import opened ReorderModel

  /** The decision after all of `obs`, in order. */
  function DecideAll(d: Decision, obs: seq<Observation>): Decision {
    if obs == [] then d else Decide(DecideAll(d, obs[..|obs| - 1]), obs[|obs| - 1])
  }

  lemma DecideOneMore(d: Decision, obs: seq<Observation>, n: nat)
    requires n < |obs|
    ensures DecideAll(d, obs[..n + 1]) == Decide(DecideAll(d, obs[..n]), obs[n])
  {
    assert obs[..n + 1][..n] == obs[..n];
  }

  ghost predicate Known(obs: seq<Observation>) {
    forall i | 0 <= i < |obs| :: obs[i].order != Unknown
  }

  /** As a reset leaves it. */
  predicate Undecided(d: Decision) { d.order == Unknown && d.candidateCount == 0 }

  predicate Accepts(d: Decision, o: Observation) { Agrees(o, d.order, d.origin) }

  /** Observation `n` and the one before it both disagree with the decision made so far, and agree
      with each other. */
  predicate Switches(d: Decision, obs: seq<Observation>, n: nat)
    requires 1 <= n < |obs|
  {
    var now := DecideAll(d, obs[..n]);
    && !Accepts(now, obs[n - 1])
    && !Accepts(now, obs[n])
    && Agrees(obs[n], obs[n - 1].order, obs[n - 1].sav)
  }

  /** The candidate is the previous observation, exactly when that one disagreed. */
  lemma {:induction false} CandidateIsPrevious(d: Decision, obs: seq<Observation>, n: nat)
    requires Undecided(d) && Known(obs) && 1 <= n <= |obs|
    ensures var now := DecideAll(d, obs[..n]);
      && now.order != Unknown
      && now.candidateCount == (if Accepts(now, obs[n - 1]) then 0 else 1)
      && (!Accepts(now, obs[n - 1]) ==>
            now.candidateOrder == obs[n - 1].order && now.candidateOrigin == obs[n - 1].sav)
  {
    DecideOneMore(d, obs, n - 1);
    if n > 1 {
      CandidateIsPrevious(d, obs, n - 1);
    } else {
      assert obs[..0] == [];
    }
  }

  /** Main result: the first observation decides, and observation `n` changes the decision exactly
      when it switches; every other observation leaves the order, its grid and the count alone. */
  lemma ChangesExactlyAtSwitches(d: Decision, obs: seq<Observation>, n: nat)
    requires Undecided(d) && Known(obs) && n < |obs|
    ensures var before, after := DecideAll(d, obs[..n]), DecideAll(d, obs[..n + 1]);
      if n == 0 || Switches(d, obs, n) then
        after.order == obs[n].order && after.origin == obs[n].sav && after.changes == before.changes + 1
      else
        after.order == before.order && after.origin == before.origin && after.changes == before.changes
  {
    DecideOneMore(d, obs, n);
    if n > 0 {
      CandidateIsPrevious(d, obs, n);
    } else {
      assert obs[..0] == [];
    }
  }

  /** How many of the observations below `n` switch. */
  function SwitchCount(d: Decision, obs: seq<Observation>, n: nat): nat
    requires n <= |obs|
  {
    if n <= 1 then 0
    else SwitchCount(d, obs, n - 1) + if Switches(d, obs, n - 1) then 1 else 0
  }

  /** `orderChanges` counts the first decision and the switches, nothing else. */
  lemma {:induction false} ChangesAreCounted(d: Decision, obs: seq<Observation>, n: nat)
    requires Undecided(d) && Known(obs) && 1 <= n <= |obs|
    ensures DecideAll(d, obs[..n]).changes == d.changes + 1 + SwitchCount(d, obs, n)
  {
    ChangesExactlyAtSwitches(d, obs, n - 1);
    hide Decide, Switches;
    if n == 1 {
      assert obs[..0] == [];
    } else {
      ChangesAreCounted(d, obs, n - 1);
    }
  }

  /** No two neighbours that disagree with the first observation agree with each other. */
  ghost predicate OnlyStrays(obs: seq<Observation>) {
    forall k | 1 <= k < |obs| ::
      Agrees(obs[k - 1], obs[0].order, obs[0].sav) || Agrees(obs[k], obs[0].order, obs[0].sav)
      || !Agrees(obs[k], obs[k - 1].order, obs[k - 1].sav)
  }

  /** Isolated strays, however many, never move an established order or its grid. */
  lemma {:induction false} StraysAreIgnored(d: Decision, obs: seq<Observation>, n: nat)
    requires Undecided(d) && Known(obs) && OnlyStrays(obs) && 1 <= n <= |obs|
    ensures var now := DecideAll(d, obs[..n]);
      now.order == obs[0].order && now.origin == obs[0].sav && now.changes == d.changes + 1
  {
    ChangesExactlyAtSwitches(d, obs, n - 1);
    if n > 1 {
      StraysAreIgnored(d, obs, n - 1);
    } else {
      assert obs[..0] == [];
    }
  }

  // ---------------------------------------------------------------- the pair grid, as arithmetic

  /** `b` is a whole number of pairs away from `a`. */
  ghost predicate WholePairsApart(a: int, b: int) {
    exists k: int :: b - a == k * PAIR_BYTES
  }

  lemma PairsApart(a: int, b: int)
    ensures WholePairsApart(a, b) <==> (b - a) % PAIR_BYTES == 0
  {
    if (b - a) % PAIR_BYTES == 0 {
      assert b - a == (b - a) / PAIR_BYTES * PAIR_BYTES;
    }
  }

  /** What an observation says about the stream: its order, and if it is swapped, where the pairs lie. */
  ghost predicate SameView(o: Observation, order: Order, origin: int) {
    if order == Swapped then o.order == Swapped && WholePairsApart(origin, o.sav) else o.order == order
  }

  lemma AgreesIsSameView(o: Observation, order: Order, origin: nat)
    ensures Agrees(o, order, origin) <==> SameView(o, order, origin)
  {
    PairsApart(origin, o.sav);
  }

  /** Two observations in a row, after a decision with nothing pending: they move it to where the second one
      lies exactly if both view the stream otherwise than the decision, and alike; else they move nothing. */
  lemma TwoInARow(d: Decision, b: Observation, c: Observation)
    requires d.order != Unknown && d.candidateCount == 0
    ensures var d' := Decide(Decide(d, b), c);
      if !SameView(b, d.order, d.origin) && !SameView(c, d.order, d.origin) && SameView(c, b.order, b.sav) then
        d'.order == c.order && d'.origin == c.sav && d'.changes == d.changes + 1
      else
        d'.order == d.order && d'.origin == d.origin && d'.changes == d.changes
  {
    AgreesIsSameView(b, d.order, d.origin);
    AgreesIsSameView(c, d.order, d.origin);
    AgreesIsSameView(c, b.order, b.sav);
    hide SameView;
  }

  /** The phase of a swapped stream moves: two SAVs off the grid in force, on one grid of their own. */
  lemma PhaseMoves(d: Decision, b: nat, c: nat)
    requires d.order == Swapped && d.candidateCount == 0
    requires (b - d.origin) % PAIR_BYTES != 0 && (c - d.origin) % PAIR_BYTES != 0 && (c - b) % PAIR_BYTES == 0
    ensures var d' := Decide(Decide(d, Observation(b, Swapped)), Observation(c, Swapped));
      d'.order == Swapped && d'.origin == c && d'.changes == d.changes + 1
  {
    PairsApart(d.origin, b);
    PairsApart(d.origin, c);
    PairsApart(b, c);
    TwoInARow(d, Observation(b, Swapped), Observation(c, Swapped));
    hide Decide;
  }

  /** One of them alone, or two on different grids, or with one on the grid in force, move nothing. */
  lemma PhaseStays(d: Decision, b: nat, c: nat)
    requires d.order == Swapped && d.candidateCount == 0
    requires (b - d.origin) % PAIR_BYTES == 0 || (c - d.origin) % PAIR_BYTES == 0 || (c - b) % PAIR_BYTES != 0
    ensures var d' := Decide(Decide(d, Observation(b, Swapped)), Observation(c, Swapped));
      d'.order == Swapped && d'.origin == d.origin && d'.changes == d.changes
  {
    PairsApart(d.origin, b);
    PairsApart(d.origin, c);
    PairsApart(b, c);
    TwoInARow(d, Observation(b, Swapped), Observation(c, Swapped));
    hide Decide;
  }

  /** Two opposite verdicts change the order; where two normal ones lie does not matter. */
  lemma OrderFlips(d: Decision, b: nat, c: nat)
    requires d.candidateCount == 0
    ensures d.order == Swapped ==>
      var d' := Decide(Decide(d, Observation(b, Normal)), Observation(c, Normal));
      d'.order == Normal && d'.changes == d.changes + 1
    ensures d.order == Normal && (c - b) % PAIR_BYTES == 0 ==>
      var d' := Decide(Decide(d, Observation(b, Swapped)), Observation(c, Swapped));
      d'.order == Swapped && d'.origin == c && d'.changes == d.changes + 1
    ensures d.order == Normal && (c - b) % PAIR_BYTES != 0 ==>
      var d' := Decide(Decide(d, Observation(b, Swapped)), Observation(c, Swapped));
      d'.order == Normal && d'.changes == d.changes
    ensures d.order == Normal ==>
      Decide(d, Observation(b, Normal)) == d
  {
    PairsApart(b, c);
    if d.order != Unknown {
      TwoInARow(d, Observation(b, Normal), Observation(c, Normal));
      TwoInARow(d, Observation(b, Swapped), Observation(c, Swapped));
    }
  }

  // ---------------------------------------------------------------- a stream whose phase moves

  /** Swapped observations on the grid through `origin`. */
  ghost predicate OnGridOf(obs: seq<Observation>, lo: nat, hi: nat, origin: nat) {
    forall i | lo <= i < hi && i < |obs| :: obs[i].order == Swapped && (obs[i].sav - origin) % PAIR_BYTES == 0
  }

  lemma SharedGrid(a: int, b: int, c: int)
    requires (b - a) % PAIR_BYTES == 0
    ensures (c - a) % PAIR_BYTES == 0 <==> (c - b) % PAIR_BYTES == 0
  {
    var k, r := (b - a) / PAIR_BYTES, (c - b) % PAIR_BYTES;
    var j := (c - b) / PAIR_BYTES;
    assert c - a == (k + j) * PAIR_BYTES + r;
  }

  /** While all lie on one grid, nothing changes. */
  lemma {:induction false} SteadyGrid(d: Decision, obs: seq<Observation>, n: nat)
    requires Undecided(d) && 1 <= n <= |obs| && OnGridOf(obs, 0, n, obs[0].sav)
    ensures var now := DecideAll(d, obs[..n]);
      now.order == Swapped && now.origin == obs[0].sav && now.candidateCount == 0 && now.changes == d.changes + 1
  {
    DecideOneMore(d, obs, n - 1);
    if n > 1 {
      SteadyGrid(d, obs, n - 1);
      AgreesIsSameView(obs[n - 1], Swapped, obs[0].sav);
      PairsApart(obs[0].sav, obs[n - 1].sav);
    } else {
      assert obs[..0] == [];
    }
  }

  /** Observations on one grid, and from number `m` on, on another: the second of those moves the grid, and
      from then on it stays. */
  lemma MovedGrid(d: Decision, obs: seq<Observation>, m: nat)
    requires Undecided(d) && 1 <= m && m + 1 < |obs|
    requires OnGridOf(obs, 0, m, obs[0].sav) && OnGridOf(obs, m, |obs|, obs[m].sav)
    requires (obs[m].sav - obs[0].sav) % PAIR_BYTES != 0
    ensures Switches(d, obs, m + 1)
    ensures OnlyStrays(obs[m + 1..])
  {
    var a, b, c := obs[0].sav, obs[m].sav, obs[m + 1].sav;
    SteadyGrid(d, obs, m);
    DecideOneMore(d, obs, m);
    Offset(a, c, b);
    PairsApart(a, b);
    PairsApart(a, c);
    PairsApart(b, c);
    AgreesIsSameView(obs[m], Swapped, a);
    AgreesIsSameView(obs[m + 1], Swapped, a);
    AgreesIsSameView(obs[m + 1], Swapped, b);
    var rest := obs[m + 1..];
    forall k | 1 <= k < |rest| ensures Agrees(rest[k], rest[0].order, rest[0].sav) {
      SharedGrid(b, c, obs[m + 1 + k].sav);
      AgreesIsSameView(obs[m + 1 + k], Swapped, c);
      PairsApart(c, obs[m + 1 + k].sav);
    }
  }

  lemma Offset(a: int, c: int, b: int)
    requires (c - b) % PAIR_BYTES == 0
    ensures (b - a) % PAIR_BYTES == 0 <==> (c - a) % PAIR_BYTES == 0
  {
    var j, r := (c - b) / PAIR_BYTES, (b - a) % PAIR_BYTES;
    var k := (b - a) / PAIR_BYTES;
    assert c - a == (k + j) * PAIR_BYTES + r;
  }
}
