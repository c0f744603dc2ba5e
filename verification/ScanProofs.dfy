/** The scanner gives every checksum-valid SAV exactly one verdict, the one its window defines. */
module ScanProofs {
  import opened Markers
  import opened ReorderModel

  ghost predicate NoMarker(h: seq<Byte>, lo: nat, hi: nat) {
    forall q | lo <= q < hi :: !SavAt(h, q) && !EavAt(h, q)
  }

  /** The first valid marker inside the window after the SAV at `p` is an EAV of another frame. */
  ghost predicate LateEav(h: seq<Byte>, p: nat)
    requires SavAt(h, p)
  {
    exists q | p < q < p + SWAP_WINDOW :: EavAt(h, q) && NoMarker(h, p + 1, q) && h[q + 4] != h[p + 4]
  }

  ghost predicate Verdict(h: seq<Byte>, o: Observation) {
    SavAt(h, o.sav) && o.order == if LateEav(h, o.sav) then Swapped else Normal
  }

  ghost predicate Decided(verdicts: seq<Observation>, p: nat) {
    exists i | 0 <= i < |verdicts| :: verdicts[i].sav == p
  }

  /** What scanning from `base` knows at `s.offset`. */
  ghost predicate ScanInv(h: seq<Byte>, base: nat, s: Scanner) {
    && base <= s.offset
    && (s.pending.Some? ==>
          && base <= s.pending.value < s.offset < s.pending.value + SWAP_WINDOW
          && SavAt(h, s.pending.value)
          && NoMarker(h, s.pending.value + 1, s.offset))
    && Sorted(s.verdicts)
    && (forall i | 0 <= i < |s.verdicts| ::
          && base <= s.verdicts[i].sav < (if s.pending.Some? then s.pending.value else s.offset)
          && Verdict(h, s.verdicts[i]))
    && (forall p | base <= p < s.offset && SavAt(h, p) ::
          s.pending == Some(p) || Decided(s.verdicts, p))
  }

  /** Deciding the pending SAV keeps the invariant when `o` is its verdict. */
  lemma Conclude(h: seq<Byte>, base: nat, s: Scanner, o: Observation, s': Scanner)
    requires ScanInv(h, base, s) && s.pending == Some(o.sav) && Verdict(h, o)
    requires s' == Scanner(s.offset, None, s.verdicts + [o])
    ensures ScanInv(h, base, s')
  {
    var v := s'.verdicts;
    assert v[|v| - 1] == o;
    forall p | base <= p < s.offset && SavAt(h, p) ensures Decided(v, p) {
      if s.pending != Some(p) {
        var i :| 0 <= i < |s.verdicts| && s.verdicts[i].sav == p;
        assert v[i].sav == p;
      }
    }
  }

  lemma ScanSav(h: seq<Byte>, base: nat, s: Scanner)
    requires ScanInv(h, base, s) && s.offset + MARKER_SPAN <= |h| && SavAt(h, s.offset)
    ensures ScanInv(h, base, ScanByte(h, s))
  {
    var done := s;
    if s.pending.Some? {
      var o := Observation(s.pending.value, Normal);
      done := Scanner(s.offset, None, s.verdicts + [o]);
      Conclude(h, base, s, o, done);
    }
    assert ScanByte(h, s) == Scanner(s.offset + 1, Some(s.offset), done.verdicts);
  }

  lemma ScanEav(h: seq<Byte>, base: nat, s: Scanner)
    requires ScanInv(h, base, s) && s.offset + MARKER_SPAN <= |h| && EavAt(h, s.offset) && s.pending.Some?
    ensures ScanInv(h, base, ScanByte(h, s))
  {
    var p, sav := s.offset, s.pending.value;
    var o := Observation(sav, if h[p + 4] != h[sav + 4] then Swapped else Normal);
    forall q | sav < q < sav + SWAP_WINDOW && EavAt(h, q) && NoMarker(h, sav + 1, q) ensures q == p {
      assert !(sav + 1 <= p < q);
    }
    Conclude(h, base, s, o, Scanner(p, None, s.verdicts + [o]));
  }

  lemma ScanByteInv(h: seq<Byte>, base: nat, s: Scanner)
    requires ScanInv(h, base, s) && s.offset + MARKER_SPAN <= |h|
    ensures ScanInv(h, base, Expire(ScanByte(h, s)))
  {
    var p := s.offset;
    if SavAt(h, p) {
      ScanSav(h, base, s);
    } else if s.pending.None? {
    } else if EavAt(h, p) {
      ScanEav(h, base, s);
    } else if p + 1 >= s.pending.value + SWAP_WINDOW {
      var o := Observation(s.pending.value, Normal);
      Conclude(h, base, s, o, Scanner(p, None, s.verdicts + [o]));
    }
  }

  /** Main result on scanning: from any reset point, to any limit inside the input. */
  lemma {:induction false} ScanToInv(h: seq<Byte>, base: nat, s: Scanner, limit: nat)
    requires ScanInv(h, base, s)
    requires s.offset < limit ==> limit + MARKER_SPAN <= |h| + 1
    ensures ScanInv(h, base, ScanTo(h, s, limit))
    ensures ScanTo(h, s, limit).offset == if s.offset < limit then limit else s.offset
    decreases limit - s.offset
  {
    if s.offset < limit {
      ScanByteInv(h, base, s);
      ScanToInv(h, base, Expire(ScanByte(h, s)), limit);
    }
  }

  /** Scanning in two steps is scanning once, and more input does not change what was scanned. */
  lemma {:induction false} ScanToResumes(h: seq<Byte>, x: seq<Byte>, s: Scanner, mid: nat, limit: nat)
    requires s.pending.Some? ==> s.pending.value < s.offset
    requires s.offset <= mid <= limit
    requires s.offset < mid ==> mid + MARKER_SPAN <= |h| + 1
    requires mid < limit ==> limit + MARKER_SPAN <= |h + x| + 1
    ensures var first := ScanTo(h, s, mid);
      && first.offset == mid
      && (first.pending.Some? ==> first.pending.value < first.offset)
      && ScanTo(h + x, first, limit) == ScanTo(h + x, s, limit)
    decreases mid - s.offset
  {
    if s.offset < mid {
      var p := s.offset;
      assert SavAt(h + x, p) == SavAt(h, p) && EavAt(h + x, p) == EavAt(h, p);
      assert ScanByte(h + x, s) == ScanByte(h, s);
      ScanToResumes(h, x, Expire(ScanByte(h, s)), mid, limit);
    }
  }

  /** Where the SAVs that are still to get a verdict can be. */
  function Undecided(s: Scanner): nat {
    if s.pending.Some? then s.pending.value else s.offset
  }

  /** Scanning on only appends verdicts, all of them for SAVs that had none. */
  lemma {:induction false} ScanToAppends(h: seq<Byte>, s: Scanner, limit: nat)
    requires s.pending.Some? ==> s.pending.value < s.offset
    requires s.offset < limit ==> limit + MARKER_SPAN <= |h| + 1
    ensures var s' := ScanTo(h, s, limit);
      && s.verdicts <= s'.verdicts
      && Undecided(s) <= Undecided(s')
      && (forall i | |s.verdicts| <= i < |s'.verdicts| :: Undecided(s) <= s'.verdicts[i].sav)
    decreases limit - s.offset
  {
    if s.offset < limit {
      ScanToAppends(h, Expire(ScanByte(h, s)), limit);
    }
  }

  lemma ScanNext(h: seq<Byte>, s: Scanner, limit: nat)
    requires s.pending.Some? ==> s.pending.value < s.offset
    requires s.offset < limit && limit + MARKER_SPAN <= |h| + 1
    ensures ScanTo(h, s, limit) == ScanTo(h, Expire(ScanByte(h, s)), limit)
  {
  }

  lemma ScanDone(h: seq<Byte>, s: Scanner, limit: nat)
    requires s.pending.Some? ==> s.pending.value < s.offset
    requires s.offset >= limit
    ensures ScanTo(h, s, limit) == s
  {
  }

  /** The memchr jump: offsets that hold no zero byte change nothing, up to the pending deadline. */
  lemma {:induction false} ScanJumps(h: seq<Byte>, s: Scanner, stop: nat, limit: nat)
    requires s.pending.Some? ==> s.pending.value < s.offset && stop <= s.pending.value + SWAP_WINDOW
    requires Expire(s) == s
    requires s.offset <= stop <= limit && limit + MARKER_SPAN <= |h| + 1
    requires forall q: nat | s.offset <= q < stop :: h[q] != 0
    ensures ScanTo(h, s, limit) == ScanTo(h, Expire(s.(offset := stop)), limit)
    decreases stop - s.offset
  {
    if s.offset < stop {
      assert !PrefixAt(h, s.offset);
      var s' := s.(offset := s.offset + 1);
      assert ScanByte(h, s) == s';
      if s'.offset < stop {
        ScanJumps(h, s', stop, limit);
      }
    }
  }
}
