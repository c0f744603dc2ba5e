/** The audio gate: opened by a settled signal, closed at once, with the gain ramped per frame. */
module AudioGateModel {
  import opened Markers

  const CHANNELS: nat := 2
  const FRAME_BYTES: nat := 2 * CHANNELS
  const RAMP_FRAMES: nat := 480
  const SETTLE_TIME: int := 500_000_000  // 500 ms in the clock's nanoseconds

  // ---------------------------------------------------------------- opening and closing

  datatype Gate = Gate(open: bool, present: bool, since: int)

  const Closed: Gate := Gate(false, false, 0)

  function Update(g: Gate, present: bool, now: int): Gate {
    if !present then g.(open := false, present := false)
    else
      var since := if g.present then g.since else now;
      Gate(g.open || now - since >= SETTLE_TIME, true, since)
  }

  datatype Report = Report(present: bool, now: int)

  function AfterReports(reports: seq<Report>): Gate {
    if reports == [] then Closed
    else
      var last := reports[|reports| - 1];
      Update(AfterReports(reports[..|reports| - 1]), last.present, last.now)
  }

  ghost predicate Monotone(reports: seq<Report>) {
    forall i, j | 0 <= i <= j < |reports| :: reports[i].now <= reports[j].now
  }

  /** Where the run of present reports that lasts to the end began. */
  function RunStart(reports: seq<Report>): (s: nat)
    requires reports != [] && reports[|reports| - 1].present
    ensures s < |reports| && (s > 0 ==> !reports[s - 1].present)
    ensures forall i | s <= i < |reports| :: reports[i].present
  {
    var n := |reports| - 1;
    if n == 0 || !reports[n - 1].present then n
    else
      assert forall i | 0 <= i < n :: reports[..n][i] == reports[i];
      RunStart(reports[..n])
  }

  /** Main result: after any reports in time order, the gate is open exactly when the signal is in a
      run of present reports that has lasted at least the settle time. */
  lemma {:induction false} OpenIffSettled(reports: seq<Report>)
    requires Monotone(reports) && reports != []
    ensures var g, last := AfterReports(reports), reports[|reports| - 1];
      && g.present == last.present
      && (g.open <==> last.present && last.now - reports[RunStart(reports)].now >= SETTLE_TIME)
      && (last.present ==> g.since == reports[RunStart(reports)].now)
  {
    var n := |reports| - 1;
    if n > 0 {
      OpenIffSettled(reports[..n]);
      assert reports[n - 1].now <= reports[n].now;
    } else {
      assert reports[..0] == [];
    }
  }

  // ---------------------------------------------------------------- the gain

  /** A little-endian 16-bit sample. */
  function Sample(lo: Byte, hi: Byte): (v: int)
    ensures -0x8000 <= v < 0x8000
  {
    var u := lo as int + 0x100 * hi as int;
    if u < 0x8000 then u else u - 0x10000
  }

  function LowByte(v: int): Byte { v % 0x100 }
  function HighByte(v: int): Byte { v / 0x100 % 0x100 }

  lemma SampleRoundTrip(lo: Byte, hi: Byte, v: int)
    ensures LowByte(Sample(lo, hi)) == lo && HighByte(Sample(lo, hi)) == hi
    ensures -0x8000 <= v < 0x8000 ==> Sample(LowByte(v), HighByte(v)) == v
  {
  }

  /** C++ integer division. */
  function TruncDiv(a: int, b: int): int
    requires b > 0
  {
    if a >= 0 then a / b else -(-a / b)
  }

  function Scale(v: int, ramp: nat): int { TruncDiv(v * ramp, RAMP_FRAMES) }

  function Abs(v: int): nat { if v >= 0 then v else -v }

  lemma DivBetween(a: nat, b: nat)
    requires b <= RAMP_FRAMES
    ensures 0 <= a * b / RAMP_FRAMES <= a
    ensures b == 0 ==> a * b / RAMP_FRAMES == 0
    ensures b == RAMP_FRAMES ==> a * b / RAMP_FRAMES == a
  {
    assert a * b <= a * RAMP_FRAMES;
  }

  /** The gate never amplifies or inverts; fully open it is the identity, fully closed it is silence. */
  lemma ScaleBounds(v: int, ramp: nat)
    requires ramp <= RAMP_FRAMES
    ensures Abs(Scale(v, ramp)) <= Abs(v)
    ensures v >= 0 ==> Scale(v, ramp) >= 0
    ensures v <= 0 ==> Scale(v, ramp) <= 0
    ensures ramp == 0 ==> Scale(v, ramp) == 0
    ensures ramp == RAMP_FRAMES ==> Scale(v, ramp) == v
  {
    DivBetween(Abs(v), ramp);
    assert v < 0 ==> -(v * ramp) == Abs(v) * ramp;
  }

  /** The gain is the ramp's part of the whole, rounded toward zero. */
  lemma ScaleIsPart(v: int, ramp: nat)
    ensures Abs(Scale(v, ramp)) * RAMP_FRAMES <= Abs(v) * ramp < (Abs(Scale(v, ramp)) + 1) * RAMP_FRAMES
  {
    assert v < 0 ==> -(v * ramp) == Abs(v) * ramp;
    assert v >= 0 ==> v * ramp == Abs(v) * ramp;
    var a := Abs(v) * ramp;
    assert a == a / RAMP_FRAMES * RAMP_FRAMES + a % RAMP_FRAMES;
    assert Abs(Scale(v, ramp)) == a / RAMP_FRAMES by {
      assert v >= 0 ==> Scale(v, ramp) == a / RAMP_FRAMES;
      assert v < 0 && v * ramp < 0 ==> Scale(v, ramp) == -(a / RAMP_FRAMES);
    }
  }

  /** A sample is the two's complement value of its bytes, low byte first. */
  lemma SampleIs(lo: Byte, hi: Byte)
    ensures (Sample(lo, hi) - lo as int - 0x100 * hi as int) % 0x10000 == 0
    ensures Sample(1, 0) == 1 && Sample(0, 1) == 0x100 && Sample(0xFF, 0xFF) == -1
  {
  }

  /** The ramp position after `n` frames on the way to `target`. */
  function RampAfter(ramp: nat, target: nat, n: nat): nat {
    if ramp <= target then (if ramp + n <= target then ramp + n else target)
    else (if ramp >= target + n then ramp - n else target)
  }

  /** From frame to frame it moves by one toward the target, and stays there. */
  lemma RampStep(ramp: nat, target: nat, n: nat)
    ensures RampAfter(ramp, target, 0) == ramp
    ensures var r, r' := RampAfter(ramp, target, n), RampAfter(ramp, target, n + 1);
      && (r < target ==> r' == r + 1) && (r > target ==> r' == r - 1) && (r == target ==> r' == r)
  {
  }

  function Target(open: bool): nat { if open then RAMP_FRAMES else 0 }

  /** Byte `k` after ramping the whole packet frame by frame; bytes after the last whole frame stay. */
  function GatedByte(pcm: seq<Byte>, ramp: nat, target: nat, k: nat): Byte
    requires k < |pcm|
  {
    if k / FRAME_BYTES >= |pcm| / FRAME_BYTES then pcm[k]
    else
      var s := k - k % 2;
      var v := Scale(Sample(pcm[s], pcm[s + 1]), RampAfter(ramp, target, k / FRAME_BYTES + 1));
      if k % 2 == 0 then LowByte(v) else HighByte(v)
  }

  function Gated(pcm: seq<Byte>, ramp: nat, target: nat): seq<Byte> {
    seq(|pcm|, k requires 0 <= k < |pcm| => GatedByte(pcm, ramp, target, k))
  }

  /** What process does, with its shortcut for a finished ramp. */
  function Processed(pcm: seq<Byte>, ramp: nat, target: nat): seq<Byte> {
    if ramp == target then (if target == 0 then seq(|pcm|, _ => 0) else pcm)
    else Gated(pcm, ramp, target)
  }

  /** With the ramp at its target, ramping changes nothing or silences. */
  lemma SteadyByte(pcm: seq<Byte>, open: bool, k: nat)
    requires |pcm| % FRAME_BYTES == 0 && k < |pcm|
    ensures GatedByte(pcm, Target(open), Target(open), k) == if open then pcm[k] else 0
  {
    hide Scale, Sample, LowByte, HighByte;
    WholeFrame(|pcm|, k);
    var s := k - k % 2;
    assert RampAfter(Target(open), Target(open), k / FRAME_BYTES + 1) == Target(open);
    ScaleBounds(Sample(pcm[s], pcm[s + 1]), Target(open));
    SampleRoundTrip(pcm[s], pcm[s + 1], 0);
    SilentBytes();
  }

  /** For whole frames the shortcut changes nothing. */
  lemma ShortcutIsGated(pcm: seq<Byte>, ramp: nat, open: bool)
    requires |pcm| % FRAME_BYTES == 0
    ensures Processed(pcm, ramp, Target(open)) == Gated(pcm, ramp, Target(open))
  {
    hide GatedByte;
    if ramp == Target(open) {
      forall k | 0 <= k < |pcm| ensures GatedByte(pcm, ramp, ramp, k) == if open then pcm[k] else 0 {
        SteadyByte(pcm, open, k);
      }
    }
  }

  lemma WholeFrame(n: nat, k: nat)
    requires k < n && n % FRAME_BYTES == 0
    ensures k / FRAME_BYTES < n / FRAME_BYTES && k - k % 2 + 1 < n
  {
    var frames, half := n / FRAME_BYTES, k / 2;
    assert n == FRAME_BYTES * frames && k - k % 2 == 2 * half;
    assert half < 2 * frames;
  }

  lemma FrameOffset(start: nat, k: nat)
    requires start % FRAME_BYTES == 0 && start <= k
    ensures k / FRAME_BYTES == start / FRAME_BYTES + (k - start) / FRAME_BYTES
    ensures k % 2 == (k - start) % 2
  {
    var frames, rest := start / FRAME_BYTES, k - start;
    assert start == 4 * frames && k == 4 * frames + rest;
    FourTimes(frames, rest / 4, rest % 4);
    TwoTimes(2 * frames + rest / 2, rest % 2);
  }

  lemma FourTimes(q: nat, d: nat, r: nat)
    requires r < 4
    ensures (4 * q + (4 * d + r)) / FRAME_BYTES == q + d
  {
    assert 4 * q + (4 * d + r) == 4 * (q + d) + r;
  }

  lemma TwoTimes(h: nat, r: nat)
    requires r < 2
    ensures (2 * h + r) % 2 == r
  {
  }

  /** How packets are cut does not matter: the ramp continues where the last packet left it. */
  lemma PacketisationIndependent(a: seq<Byte>, b: seq<Byte>, ramp: nat, open: bool)
    requires |a| % FRAME_BYTES == 0 && |b| % FRAME_BYTES == 0
    ensures var t := Target(open); var mid := RampAfter(ramp, t, |a| / FRAME_BYTES);
      && Processed(a + b, ramp, t) == Processed(a, ramp, t) + Processed(b, mid, t)
      && RampAfter(ramp, t, |a + b| / FRAME_BYTES) == RampAfter(mid, t, |b| / FRAME_BYTES)
  {
    var t := Target(open);
    var mid := RampAfter(ramp, t, |a| / FRAME_BYTES);
    FrameOffset(|a|, |a + b|);
    RampContinues(ramp, t, |a| / FRAME_BYTES, |b| / FRAME_BYTES);
    hide GatedByte, Processed, RampAfter;
    ShortcutIsGated(a, ramp, open);
    ShortcutIsGated(b, mid, open);
    ShortcutIsGated(a + b, ramp, open);
    forall k | 0 <= k < |a + b|
      ensures GatedByte(a + b, ramp, t, k)
           == if k < |a| then GatedByte(a, ramp, t, k) else GatedByte(b, mid, t, k - |a|)
    {
      GatedByteSplits(a, b, ramp, t, k);
    }
    assert Gated(a + b, ramp, t) == Gated(a, ramp, t) + Gated(b, mid, t);
  }

  lemma RampContinues(ramp: nat, t: nat, n: nat, more: nat)
    ensures RampAfter(RampAfter(ramp, t, n), t, more) == RampAfter(ramp, t, n + more)
  {
  }

  lemma GatedByteSplits(a: seq<Byte>, b: seq<Byte>, ramp: nat, t: nat, k: nat)
    requires |a| % FRAME_BYTES == 0 && |b| % FRAME_BYTES == 0 && k < |a + b|
    ensures GatedByte(a + b, ramp, t, k)
         == if k < |a| then GatedByte(a, ramp, t, k)
            else GatedByte(b, RampAfter(ramp, t, |a| / FRAME_BYTES), t, k - |a|)
  {
    hide Scale, Sample, LowByte, HighByte;
    FrameOffset(|a|, |a + b|);
    WholeFrame(|a + b|, k);
    if k < |a| {
      WholeFrame(|a|, k);
    } else {
      WholeFrame(|b|, k - |a|);
      FrameOffset(|a|, k);
      RampContinues(ramp, t, |a| / FRAME_BYTES, (k - |a|) / FRAME_BYTES + 1);
    }
  }

  /** With the ramp at its target any packet, whole frames or not, is passed on or silenced byte by byte. */
  lemma SteadyPacket(pcm: seq<Byte>, open: bool)
    ensures Processed(pcm, Target(open), Target(open)) == if open then pcm else seq(|pcm|, _ => 0)
    ensures Target(true) == RAMP_FRAMES && Target(false) == 0
  {
  }

  /** While the ramp moves, sample `s` of frame `s / FRAME_BYTES` gets the gain of one more step. */
  lemma GainOfFrame(pcm: seq<Byte>, ramp: nat, target: nat, s: nat)
    requires ramp != target && ramp <= RAMP_FRAMES && target <= RAMP_FRAMES && s % 2 == 0
    requires s / FRAME_BYTES < |pcm| / FRAME_BYTES
    ensures s + 1 < |pcm|
    ensures var out := Processed(pcm, ramp, target);
      && |out| == |pcm|
      && Sample(out[s], out[s + 1]) == Scale(Sample(pcm[s], pcm[s + 1]), RampAfter(ramp, target, s / FRAME_BYTES + 1))
  {
    hide Scale, Sample, LowByte, HighByte;
    SampleFits(|pcm|, s);
    SameFrame(s);
    var v := Sample(pcm[s], pcm[s + 1]);
    var scaled := Scale(v, RampAfter(ramp, target, s / FRAME_BYTES + 1));
    ScaleBounds(v, RampAfter(ramp, target, s / FRAME_BYTES + 1));
    SampleRoundTrip(pcm[s], pcm[s + 1], scaled);
  }

  lemma SampleFits(n: nat, s: nat)
    requires s % 2 == 0 && s / FRAME_BYTES < n / FRAME_BYTES
    ensures s + 1 < n
  {
  }

  /** No sample comes out louder than it went in, whatever the packet, the gate and the ramp. */
  lemma NeverLouder(pcm: seq<Byte>, ramp: nat, open: bool, s: nat)
    requires ramp <= RAMP_FRAMES && s % 2 == 0 && s + 1 < |pcm|
    ensures var out := Processed(pcm, ramp, Target(open));
      |out| == |pcm| && Abs(Sample(out[s], out[s + 1])) <= Abs(Sample(pcm[s], pcm[s + 1]))
  {
    var target := Target(open);
    if ramp != target {
      GatedSample(pcm, ramp, target, s);
    }
  }

  lemma SameFrame(s: nat)
    requires s % 2 == 0
    ensures (s + 1) / FRAME_BYTES == s / FRAME_BYTES && (s + 1) % 2 == 1
  {
  }

  lemma GatedSample(pcm: seq<Byte>, ramp: nat, target: nat, s: nat)
    requires ramp <= RAMP_FRAMES && target <= RAMP_FRAMES && s % 2 == 0 && s + 1 < |pcm|
    ensures Abs(Sample(GatedByte(pcm, ramp, target, s), GatedByte(pcm, ramp, target, s + 1)))
         <= Abs(Sample(pcm[s], pcm[s + 1]))
  {
    hide Scale, Sample, LowByte, HighByte;
    SameFrame(s);
    var v := Sample(pcm[s], pcm[s + 1]);
    var scaled := Scale(v, RampAfter(ramp, target, s / FRAME_BYTES + 1));
    ScaleBounds(v, RampAfter(ramp, target, s / FRAME_BYTES + 1));
    SampleRoundTrip(pcm[s], pcm[s + 1], scaled);
  }

  /** Once the ramp has run its course, an open gate passes frames through and a closed one is silent. */
  lemma SettledGate(pcm: seq<Byte>, ramp: nat, open: bool, k: nat)
    requires ramp <= RAMP_FRAMES && |pcm| % FRAME_BYTES == 0 && k < |pcm| && k / FRAME_BYTES + 1 >= RAMP_FRAMES
    ensures Processed(pcm, ramp, Target(open))[k] == if open then pcm[k] else 0
  {
    ShortcutIsGated(pcm, ramp, open);
    hide Processed, Scale, Sample, LowByte, HighByte;
    WholeFrame(|pcm|, k);
    var s := k - k % 2;
    assert RampAfter(ramp, Target(open), k / FRAME_BYTES + 1) == Target(open);
    ScaleBounds(Sample(pcm[s], pcm[s + 1]), Target(open));
    SampleRoundTrip(pcm[s], pcm[s + 1], 0);
    SilentBytes();
  }

  lemma SilentBytes()
    ensures LowByte(0) == 0 && HighByte(0) == 0
  {
  }

  // ---------------------------------------------------------------- the class

  class AudioGate {
    var open: bool
    var present: bool
    var presentSince: int
    var rampPosition: nat

    ghost function State(): Gate
      reads this
    {
      Gate(open, present, presentSince)
    }

    ghost predicate Valid()
      reads this
    {
      rampPosition <= RAMP_FRAMES
    }

    constructor ()
      ensures Valid() && State() == Closed && rampPosition == 0
    {
      open, present, presentSince, rampPosition := false, false, 0, 0;
    }

    method UpdateSignal(signalPresent: bool, now: int)
      modifies this`open, this`present, this`presentSince
      ensures State() == Update(old(State()), signalPresent, now)
    {
      if !signalPresent {
        present := false;
        open := false;
        return;
      }
      if !present {
        present := true;
        presentSince := now;
      }
      if !open && now - presentSince >= SETTLE_TIME {
        open := true;
      }
    }

    /** Apply the gate in place. */
    method Process(pcm: array<Byte>)
      requires Valid()
      modifies this`rampPosition, pcm
      ensures Valid()
      ensures pcm[..] == Processed(old(pcm[..]), old(rampPosition), Target(open))
      ensures rampPosition == RampAfter(old(rampPosition), Target(open), pcm.Length / FRAME_BYTES)
    {
      hide GatedByte;
      var target := if open then RAMP_FRAMES else 0;
      var frames := pcm.Length / FRAME_BYTES;
      if rampPosition == target {
        if target == 0 {
          forall i | 0 <= i < pcm.Length {
            pcm[i] := 0;
          }
        }
        return;
      }
      ghost var before, ramp := pcm[..], rampPosition;
      for f := 0 to frames
        invariant rampPosition == RampAfter(ramp, target, f)
        invariant UpTo(pcm[..], before, ramp, target, 4 * f)
      {
        if rampPosition < target {
          rampPosition := rampPosition + 1;
        } else if rampPosition > target {
          rampPosition := rampPosition - 1;
        }
        GateFrame(pcm, f, before, ramp, target);
      }
      AllGated(pcm[..], before, ramp, target);
    }

    /** Scale the samples of one frame by the current ramp position. */
    method GateFrame(pcm: array<Byte>, f: nat, ghost before: seq<Byte>, ghost ramp: nat, ghost target: nat)
      requires f < |before| / FRAME_BYTES && rampPosition == RampAfter(ramp, target, f + 1)
      requires UpTo(pcm[..], before, ramp, target, 4 * f)
      modifies pcm
      ensures UpTo(pcm[..], before, ramp, target, 4 * (f + 1))
    {
      hide GatedByte, TruncDiv, RampAfter, LowByte, HighByte;
      for c := 0 to CHANNELS
        invariant UpTo(pcm[..], before, ramp, target, 4 * f + 2 * c)
      {
        var s := (f * CHANNELS + c) * 2;
        SampleGated(before, ramp, target, f, c);
        var scaled := TruncDiv(Sample(pcm[s], pcm[s + 1]) * rampPosition, RAMP_FRAMES);
        pcm[s], pcm[s + 1] := LowByte(scaled), HighByte(scaled);
      }
    }
  }

  /** The first `n` bytes have been ramped, the rest not touched yet. */
  ghost predicate UpTo(now: seq<Byte>, before: seq<Byte>, ramp: nat, target: nat, n: nat) {
    && |now| == |before|
    && forall k | 0 <= k < |now| :: now[k] == if k < n then GatedByte(before, ramp, target, k) else before[k]
  }

  lemma SampleGated(before: seq<Byte>, ramp: nat, target: nat, f: nat, c: nat)
    requires f < |before| / FRAME_BYTES && c < CHANNELS
    ensures var s := 4 * f + 2 * c;
      && s + 1 < |before|
      && var v := Scale(Sample(before[s], before[s + 1]), RampAfter(ramp, target, f + 1));
      GatedByte(before, ramp, target, s) == LowByte(v) && GatedByte(before, ramp, target, s + 1) == HighByte(v)
  {
    var s := 4 * f + 2 * c;
    assert s / 4 == f && (s + 1) / 4 == f && s % 2 == 0 && (s + 1) % 2 == 1;
  }

  lemma AllGated(now: seq<Byte>, before: seq<Byte>, ramp: nat, target: nat)
    requires UpTo(now, before, ramp, target, 4 * (|before| / FRAME_BYTES))
    ensures now == Gated(before, ramp, target)
  {
  }
}
