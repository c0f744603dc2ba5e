/** Why the detection works: the layout of the device's frames over its DMA buffers makes every SAV of
    an exchanged stream a swapped one on the pair grid. */
module DeviceOrder {
  import opened Markers
  import opened ReorderModel
  import opened ScanProofs
  import opened EmitProofs
  import opened Reorder
  import opened Restore
  import H = Hysteresis

  ghost predicate MarkerAt(h: seq<Byte>, p: nat) { SavAt(h, p) || EavAt(h, p) }

  /** The buffer before the SAV at `s` ends a frame of another counter, at `e`, and neither buffer holds
      another marker in the stretch that is scanned between the two once they are exchanged. */
  ghost predicate FollowsFrame(t: seq<Byte>, s: nat, e: nat) {
    && s >= DMA_BUFFER_BYTES && s - DMA_BUFFER_BYTES <= e && e + EAV_BYTES <= s
    && s + SAV_BYTES <= |t| && EavAt(t, e) && t[e + 4] != t[s + 4]
    && NoMarker(t, s - DMA_BUFFER_BYTES, e) && NoMarker(t, s + 1, s + DMA_BUFFER_BYTES)
  }

  /** The true stream: each SAV starts the second buffer of a pair, right after the frame before it. */
  ghost predicate FramesOnBuffers(t: seq<Byte>) {
    forall s: nat | SavAt(t, s) :: s % PAIR_BYTES == DMA_BUFFER_BYTES && exists e: nat :: FollowsFrame(t, s, e)
  }

  /** Byte `p` is in a complete pair, and a marker there does not reach into the next buffer. */
  predicate InBuffer(w: seq<Byte>, p: nat) {
    p % DMA_BUFFER_BYTES + MARKER_SPAN <= DMA_BUFFER_BYTES && p / PAIR_BYTES * PAIR_BYTES + PAIR_BYTES <= |w|
  }

  /** The seams of the exchanged stream make no marker of their own. */
  ghost predicate CleanSeams(w: seq<Byte>) {
    forall p: nat | MarkerAt(w, p) :: InBuffer(w, p)
  }

  /** Where the other order has byte `p`. */
  function Partner(p: nat): nat {
    if p % PAIR_BYTES < DMA_BUFFER_BYTES then p + DMA_BUFFER_BYTES else p - DMA_BUFFER_BYTES
  }

  /** Places inside a pair, written out. */
  lemma PairPlace(k: nat, r: nat)
    requires r < PAIR_BYTES
    ensures (k * PAIR_BYTES + r) / PAIR_BYTES == k && (k * PAIR_BYTES + r) % PAIR_BYTES == r
    ensures (k * PAIR_BYTES + r) % DMA_BUFFER_BYTES == if r < DMA_BUFFER_BYTES then r else r - DMA_BUFFER_BYTES
  {
    WholePairs(k, r);
    if r < DMA_BUFFER_BYTES {
      WholeBuffers(2 * k, r);
    } else {
      WholeBuffers(2 * k + 1, r - DMA_BUFFER_BYTES);
    }
  }

  lemma WholeBuffers(k: nat, r: nat)
    requires r < DMA_BUFFER_BYTES
    ensures (k * DMA_BUFFER_BYTES + r) % DMA_BUFFER_BYTES == r
  {
  }

  lemma PartnersInBuffer(p: nat, i: nat)
    requires p % DMA_BUFFER_BYTES + MARKER_SPAN <= DMA_BUFFER_BYTES && i < MARKER_SPAN
    ensures Partner(p + i) == Partner(p) + i && (p + i) / PAIR_BYTES == p / PAIR_BYTES
  {
    var k, r := p / PAIR_BYTES, p % PAIR_BYTES;
    PairPlace(k, r);
    assert p == k * PAIR_BYTES + r;
    PairPlace(k, r + i);
  }

  /** A marker inside a buffer is exchanged as a whole. */
  lemma MarkersExchange(w: seq<Byte>, t: seq<Byte>, p: nat)
    requires Exchanged(w, t) && InBuffer(w, p)
    ensures p + MARKER_SPAN <= |w| && Partner(p) + MARKER_SPAN <= |t|
    ensures SavAt(w, p) == SavAt(t, Partner(p)) && EavAt(w, p) == EavAt(t, Partner(p))
    ensures w[p + 4] == t[Partner(p) + 4]
  {
    var q := Partner(p);
    var a, b := w[p..p + MARKER_SPAN], t[q..q + MARKER_SPAN];
    forall i | 0 <= i < |a| ensures a[i] == b[i] {
      PartnersInBuffer(p, i);
      assert w[p + i] == t[Partner(p + i)];
    }
    SameMarker(w, p, t, q);
  }

  lemma SameMarker(w: seq<Byte>, p: nat, t: seq<Byte>, q: nat)
    requires p + MARKER_SPAN <= |w| && q + MARKER_SPAN <= |t|
    requires w[p..p + MARKER_SPAN] == t[q..q + MARKER_SPAN]
    ensures SavAt(w, p) == SavAt(t, q) && EavAt(w, p) == EavAt(t, q) && w[p + 4] == t[q + 4]
  {
    var a, b := w[p..p + MARKER_SPAN], t[q..q + MARKER_SPAN];
    assert a[0] == w[p] && a[1] == w[p + 1] && a[2] == w[p + 2] && a[3] == w[p + 3] && a[4] == w[p + 4];
    assert a[5] == w[p + 5] && a[6] == w[p + 6] && a[7] == w[p + 7] && a[8] == w[p + 8];
    assert b[0] == t[q] && b[1] == t[q + 1] && b[2] == t[q + 2] && b[3] == t[q + 3] && b[4] == t[q + 4];
    assert b[5] == t[q + 5] && b[6] == t[q + 6] && b[7] == t[q + 7] && b[8] == t[q + 8];
  }

  /** Every SAV of the exchanged stream starts a pair and is followed by the late EAV. */
  lemma ExchangedSav(w: seq<Byte>, t: seq<Byte>, p: nat)
    requires Exchanged(w, t) && FramesOnBuffers(t) && CleanSeams(w) && SavAt(w, p)
    ensures p % PAIR_BYTES == 0 && LateEav(w, p)
  {
    hide Exchanged, InBuffer, SavAt, EavAt, NoMarker;
    assert MarkerAt(w, p);
    MarkersExchange(w, t, p);
    var s := Partner(p);
    var e: nat :| FollowsFrame(t, s, e);
    var q := e + DMA_BUFFER_BYTES;
    EavPlace(w, p, e);
    MarkersExchange(w, t, q);
    NothingBetween(w, t, p, e);
    assert EavAt(w, q) && p < q < p + SWAP_WINDOW;
    assert w[q + 4] != w[p + 4];
  }

  lemma EavPlace(w: seq<Byte>, p: nat, e: nat)
    requires p % PAIR_BYTES == 0 && InBuffer(w, p) && p <= e && e + EAV_BYTES <= p + DMA_BUFFER_BYTES
    ensures InBuffer(w, e + DMA_BUFFER_BYTES) && Partner(e + DMA_BUFFER_BYTES) == e
  {
    var k, r := p / PAIR_BYTES, e - p;
    assert p == k * PAIR_BYTES;
    PairPlace(k, r + DMA_BUFFER_BYTES);
  }

  lemma NothingBetween(w: seq<Byte>, t: seq<Byte>, p: nat, e: nat)
    requires Exchanged(w, t) && CleanSeams(w) && p % PAIR_BYTES == 0 && FollowsFrame(t, p + DMA_BUFFER_BYTES, e)
    ensures NoMarker(w, p + 1, e + DMA_BUFFER_BYTES)
  {
    forall r: nat | p + 1 <= r < e + DMA_BUFFER_BYTES ensures !SavAt(w, r) && !EavAt(w, r) {
      if MarkerAt(w, r) {
        MarkersExchange(w, t, r);
        BetweenPartners(p, r);
      }
    }
  }

  lemma BetweenPartners(p: nat, r: nat)
    requires p % PAIR_BYTES == 0 && p <= r < p + PAIR_BYTES
    ensures Partner(r) == if r < p + DMA_BUFFER_BYTES then r + DMA_BUFFER_BYTES else r - DMA_BUFFER_BYTES
  {
    assert p == p / PAIR_BYTES * PAIR_BYTES;
    PairPlace(p / PAIR_BYTES, r - p);
  }

  // ---------------------------------------------------------------- the scanner's verdicts

  /** The stream is, from `from` on, the beginning of a true stream with its pairs exchanged: `more` is what
      the device goes on to send. Before `from` the stream ends a pair that was cut, without a SAV. */
  ghost predicate DeviceStream(stream: seq<Byte>, from: nat, more: seq<Byte>, t: seq<Byte>) {
    && from <= |stream| && Exchanged((stream + more)[from..], t)
    && FramesOnBuffers(t) && CleanSeams((stream + more)[from..])
    && forall p: nat | p < from :: !SavAt(stream + more, p)
  }

  lemma ExchangedStart(w: seq<Byte>, more: seq<Byte>, t: seq<Byte>)
    requires Exchanged(w + more, t)
    ensures Exchanged(w, t[..|w|])
  {
    forall i: nat | i / PAIR_BYTES * PAIR_BYTES + PAIR_BYTES <= |w|
      ensures i < |w| && Partner(i) < |w| && w[i] == t[..|w|][Partner(i)]
    {
      PairPlace(i / PAIR_BYTES, i % PAIR_BYTES);
      assert i == i / PAIR_BYTES * PAIR_BYTES + i % PAIR_BYTES;
      assert (w + more)[i] == t[Partner(i)];
    }
  }

  lemma SuffixMarkers(h: seq<Byte>, base: nat, p: nat)
    requires base <= p && base <= |h|
    ensures SavAt(h[base..], p - base) == SavAt(h, p) && EavAt(h[base..], p - base) == EavAt(h, p)
    ensures p + 4 < |h| ==> h[base..][p - base + 4] == h[p + 4]
  {
  }

  lemma SuffixLateEav(h: seq<Byte>, base: nat, p: nat)
    requires base <= p && base <= |h| && SavAt(h, p)
    ensures SavAt(h[base..], p - base) && (LateEav(h[base..], p - base) ==> LateEav(h, p))
  {
    var w, at := h[base..], p - base;
    SuffixMarkers(h, base, p);
    if LateEav(w, at) {
      var q: nat :| at < q < at + SWAP_WINDOW && EavAt(w, q) && NoMarker(w, at + 1, q) && w[q + 4] != w[at + 4];
      SuffixMarkers(h, base, base + q);
      assert EavAt(h, base + q) && h[base + q + 4] != h[p + 4];
      hide SavAt, EavAt;
      forall r: nat | p + 1 <= r < base + q ensures !SavAt(h, r) && !EavAt(h, r) {
        SuffixMarkers(h, base, r);
        assert at + 1 <= r - base < q;
      }
      assert NoMarker(h, p + 1, base + q);
    }
  }

  lemma DeviceSav(h: seq<Byte>, base: nat, from: nat, t: seq<Byte>, p: nat)
    requires base + from <= |h| && base <= p && SavAt(h, p)
    requires Exchanged(h[base + from..], t) && FramesOnBuffers(t) && CleanSeams(h[base + from..])
    requires forall q: nat | q < from :: !SavAt(h[base..], q)
    ensures base + from <= p && (p - base - from) % PAIR_BYTES == 0 && LateEav(h, p)
  {
    SuffixMarkers(h, base, p);
    SuffixLateEav(h, base + from, p);
    hide LateEav, Exchanged, FramesOnBuffers, CleanSeams, SavAt;
    ExchangedSav(h[base + from..], t, p - base - from);
  }

  /** Main result: over a device stream, wherever its pair grid lies and wherever it is cut, every verdict is
      Swapped, on the grid, and no two of them disagree. */
  lemma ExchangedVerdicts(m: Reorderer, from: nat, more: seq<Byte>, t: seq<Byte>)
    requires Valid(m) && m.base <= |m.h| && DeviceStream(m.h[m.base..], from, more, t)
    ensures var v := m.scanner.verdicts;
      && (forall i | 0 <= i < |v| ::
            m.base + from <= v[i].sav && v[i].order == Swapped && (v[i].sav - m.base - from) % PAIR_BYTES == 0)
      && H.OnlyStrays(v)
  {
    var v := m.scanner.verdicts;
    forall i | 0 <= i < |v|
      ensures m.base + from <= v[i].sav && v[i].order == Swapped && (v[i].sav - m.base - from) % PAIR_BYTES == 0
    {
      DeviceVerdict(m, from, more, t, i);
    }
    hide Valid, DeviceStream;
    forall k | 1 <= k < |v| ensures Agrees(v[k], v[0].order, v[0].sav) {
    }
  }

  /** What the device goes on to send only adds verdicts, so a verdict may as well be judged by all of it. */
  lemma VerdictStands(m: Reorderer, more: seq<Byte>, i: nat)
    requires Valid(m) && i < |m.scanner.verdicts|
    ensures m.base <= m.scanner.verdicts[i].sav && m.base <= |m.h| && Verdict(m.h + more, m.scanner.verdicts[i])
  {
    FeedIsWhole(m, more);
    ScanOnIsWhole(m, more);
    hide Whole;
    VerdictAt(FeedStep(m, more), i);
    assert m.scanner.verdicts[i] == FeedStep(m, more).scanner.verdicts[i];
    VerdictAt(m, i);
  }

  lemma SuffixOfMore(h: seq<Byte>, base: nat, from: nat, more: seq<Byte>)
    requires base + from <= |h|
    ensures (h + more)[base..] == h[base..] + more
    ensures (h + more)[base + from..] == (h[base..] + more)[from..]
  {
  }

  lemma DeviceVerdict(m: Reorderer, from: nat, more: seq<Byte>, t: seq<Byte>, i: nat)
    requires Valid(m) && m.base <= |m.h| && DeviceStream(m.h[m.base..], from, more, t) && i < |m.scanner.verdicts|
    ensures var o := m.scanner.verdicts[i];
      m.base + from <= o.sav && o.order == Swapped && (o.sav - m.base - from) % PAIR_BYTES == 0
  {
    hide Valid, Exchanged, FramesOnBuffers, CleanSeams, LateEav, SavAt;
    var h := m.h + more;
    VerdictStands(m, more, i);
    SuffixOfMore(m.h, m.base, from, more);
    DeviceSav(h, m.base, from, t, m.scanner.verdicts[i].sav);
  }

  lemma VerdictAt(m: Reorderer, i: nat)
    requires Valid(m) && i < |m.scanner.verdicts|
    ensures m.base <= m.scanner.verdicts[i].sav && m.base <= |m.h| && Verdict(m.h, m.scanner.verdicts[i])
  {
    WholeReady(m.h, m.base, m.start, m.before);
  }

  /** `p` is where the first SAV of the stream is. */
  ghost predicate FirstSav(stream: seq<Byte>, p: nat) {
    SavAt(stream, p) && forall q: nat | q < p :: !SavAt(stream, q)
  }

  /** Below the hold-back it has its verdict, the first one. */
  lemma FirstVerdict(m: Reorderer, p: nat)
    requires Valid(m) && FirstSav(m.h[m.base..], p) && m.base + p < EmitLimit(m.h)
    ensures m.scanner.verdicts != [] && m.scanner.verdicts[0].sav == m.base + p
  {
    WholeReady(m.h, m.base, m.start, m.before);
    UndecidedIsHeldBack(m.h, m.base);
    SuffixMarkers(m.h, m.base, m.base + p);
    assert Decided(m.scanner.verdicts, m.base + p);
    VerdictAt(m, 0);
    SuffixMarkers(m.h, m.base, m.scanner.verdicts[0].sav);
  }

  lemma FirstSavPlace(stream: seq<Byte>, from: nat, more: seq<Byte>, t: seq<Byte>, p: nat)
    requires DeviceStream(stream, from, more, t) && SavAt(stream, p)
    ensures from <= p && (p - from) % PAIR_BYTES == 0
  {
    var h := stream + more;
    assert SavAt(h, p);
    assert h[0..] == h;
    hide SavAt, Exchanged, FramesOnBuffers, CleanSeams;
    DeviceSav(h, 0, from, t, p);
  }

  /** What the results about exchanged streams need of a device stream. */
  lemma DeviceSettles(m: Reorderer, from: nat, more: seq<Byte>, t: seq<Byte>, p: nat)
    requires Valid(m) && m.base <= |m.h| && DeviceStream(m.h[m.base..], from, more, t)
    requires FirstSav(m.h[m.base..], p) && m.base + p < EmitLimit(m.h)
    ensures var v := m.scanner.verdicts;
      v != [] && v[0].order == Swapped && v[0].sav == m.base + p && H.OnlyStrays(v)
    ensures from <= p && (p - from) % PAIR_BYTES == 0
    ensures from <= |m.h| - m.base <= from + |t|
    ensures Exchanged(m.h[m.base + from..], t[..|m.h| - m.base - from])
  {
    var stream := m.h[m.base..];
    FirstVerdict(m, p);
    FirstSavPlace(stream, from, more, t, p);
    ExchangedVerdicts(m, from, more, t);
    DeviceTruth(stream, from, more, t);
    assert m.h[m.base + from..] == stream[from..];
    hide Valid, DeviceStream, FirstSav, Exchanged;
  }

  lemma DeviceTruth(stream: seq<Byte>, from: nat, more: seq<Byte>, t: seq<Byte>)
    requires DeviceStream(stream, from, more, t)
    ensures from <= |stream| <= from + |t| && Exchanged(stream[from..], t[..|stream| - from])
  {
    assert (stream + more)[from..] == stream[from..] + more;
    assert |t| == |stream| - from + |more|;
    ExchangedStart(stream[from..], more, t);
  }

  /** So a device stream whose pairs arrive exchanged comes out as a piece of the true stream, without a
      hole, from the pair on whose grid it is found swapped: the one that holds the first SAV. */
  lemma DeviceStreamIsRestored(m: Reorderer, from: nat, more: seq<Byte>, t: seq<Byte>, p: nat)
    requires Valid(m) && m.base <= |m.h| && DeviceStream(m.h[m.base..], from, more, t)
    requires FirstSav(m.h[m.base..], p) && m.base + p < EmitLimit(m.h)
    ensures |m.before| <= |m.emitter.items|
    ensures forall i | 0 <= i < |Since(m)| :: Since(m)[i].src < |m.h| && (Since(m)[i].gap <==> i == 0)
    ensures from <= p && (p - from) % PAIR_BYTES == 0
    ensures p + |Since(m)| <= |m.h| - m.base < p + |Since(m)| + RETAINED
    ensures p - from + |Since(m)| <= |t| && Bytes(m.h, Since(m)) == t[p - from..p - from + |Since(m)|]
  {
    DeviceSettles(m, from, more, t, p);
    hide Valid, DeviceStream, FirstSav, Exchanged, H.OnlyStrays, EmitLimit;
    SwappedIsRestored(m, m.base + from, t[..|m.h| - m.base - from]);
  }
}
