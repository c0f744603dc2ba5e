/** Silence at the real audio rate while there is no signal. Times are in nanoseconds. */
module Silence {
  const AUDIO_BYTES_PER_SECOND: nat := 48000 * 4
  const MICROSECOND: nat := 1000
  const SECOND: nat := 1_000_000_000
  const SILENCE_CHUNK: nat := 10_000_000
  const SILENCE_MAX: nat := 100_000_000

  /** How far silence has been sent, and how many bytes were just sent. */
  datatype Sent = Sent(upTo: int, bytes: nat)

  function SendSilence(upTo: int, now: int): Sent {
    var owed := now - upTo;
    if owed < SILENCE_CHUNK then Sent(upTo, 0)
    else
      var from := if owed > SILENCE_MAX then now - SILENCE_MAX else upTo;
      var due := if owed > SILENCE_MAX then SILENCE_MAX else owed;
      var raw := due / MICROSECOND * AUDIO_BYTES_PER_SECOND / 1_000_000;
      var bytes := raw - raw % 4;
      if bytes == 0 then Sent(from, 0)
      else Sent(from + bytes * 1_000_000 / AUDIO_BYTES_PER_SECOND * MICROSECOND, bytes)
  }

  /** One call: whole stereo frames, at most SILENCE_MAX of them, never ahead of the clock, and never
      a chunk behind it afterwards although both divisions truncate. */
  lemma SendBounds(upTo: int, now: int)
    requires upTo <= now
    ensures var s := SendSilence(upTo, now);
      && s.bytes % 4 == 0 && s.bytes <= SILENCE_MAX / MICROSECOND * AUDIO_BYTES_PER_SECOND / 1_000_000
      && upTo <= s.upTo <= now < s.upTo + SILENCE_CHUNK
      && (s.bytes > 0 <==> now - upTo >= SILENCE_CHUNK)
      && s.bytes * SECOND <= AUDIO_BYTES_PER_SECOND * (s.upTo - upTo + MICROSECOND)
  {
    var s := SendSilence(upTo, now);
    if now - upTo >= SILENCE_CHUNK {
      var due := if now - upTo > SILENCE_MAX then SILENCE_MAX else now - upTo;
      var micros := due / MICROSECOND;
      var raw := micros * AUDIO_BYTES_PER_SECOND / 1_000_000;
      var bytes := raw - raw % 4;
      Truncation(micros, raw, bytes, bytes * 1_000_000 / AUDIO_BYTES_PER_SECOND);
    }
  }

  lemma Truncation(micros: nat, raw: nat, bytes: nat, advance: nat)
    requires SILENCE_CHUNK / MICROSECOND <= micros <= SILENCE_MAX / MICROSECOND
    requires raw == micros * AUDIO_BYTES_PER_SECOND / 1_000_000 && bytes == raw - raw % 4
    requires advance == bytes * 1_000_000 / AUDIO_BYTES_PER_SECOND
    ensures 0 < bytes <= 19200 && micros - 22 <= advance <= micros
    ensures bytes * 1_000_000 <= AUDIO_BYTES_PER_SECOND * (advance + 1)
  {
  }

  // ---------------------------------------------------------------- a whole no-signal episode

  datatype Episode = Episode(upTo: int, packets: seq<nat>)

  function Tick(e: Episode, now: int): Episode {
    var s := SendSilence(e.upTo, now);
    Episode(s.upTo, if s.bytes == 0 then e.packets else e.packets + [s.bytes])
  }

  /** From the loss of signal at `start`, ticks at `nows`. */
  function Run(start: int, nows: seq<int>): Episode {
    if nows == [] then Episode(start, [])
    else
      Tick(Run(start, nows[..|nows| - 1]), nows[|nows| - 1])
  }

  function Sum(packets: seq<nat>): nat {
    if packets == [] then 0 else Sum(packets[..|packets| - 1]) + packets[|packets| - 1]
  }

  ghost predicate InOrder(start: int, nows: seq<int>) {
    && (forall i | 0 <= i < |nows| :: start <= nows[i])
    && forall i, j | 0 <= i <= j < |nows| :: nows[i] <= nows[j]
  }

  function Now(start: int, nows: seq<int>): int { if nows == [] then start else nows[|nows| - 1] }

  ghost predicate WithinRate(bytes: int, time: int, packets: int) {
    bytes * SECOND <= AUDIO_BYTES_PER_SECOND * (time + packets * MICROSECOND)
  }

  lemma RateStep(sum: int, time: int, n: int, bytes: int, more: int)
    requires WithinRate(sum, time, n)
    requires bytes * SECOND <= AUDIO_BYTES_PER_SECOND * (more + MICROSECOND)
    ensures WithinRate(sum + bytes, time + more, n + 1)
  {
  }

  lemma RateLater(sum: int, time: int, n: int, more: int)
    requires WithinRate(sum, time, n) && more >= 0
    ensures WithinRate(sum, time + more, n)
  {
  }

  ghost predicate WholePackets(packets: seq<nat>) {
    forall i | 0 <= i < |packets| :: packets[i] % 4 == 0 && 0 < packets[i] <= 19200
  }

  ghost predicate OnTime(start: int, e: Episode, now: int) {
    && WithinRate(Sum(e.packets), e.upTo - start, |e.packets|)
    && WholePackets(e.packets)
    && start <= e.upTo <= now < e.upTo + SILENCE_CHUNK
  }

  lemma TickOnTime(start: int, e: Episode, before: int, now: int)
    requires OnTime(start, e, before) && before <= now
    ensures OnTime(start, Tick(e, now), now)
  {
    hide SendSilence, WithinRate;
    SendBounds(e.upTo, now);
    var s := SendSilence(e.upTo, now);
    if s.bytes > 0 {
      assert (e.packets + [s.bytes])[..|e.packets|] == e.packets;
      RateStep(Sum(e.packets), e.upTo - start, |e.packets|, s.bytes, s.upTo - e.upTo);
    } else {
      RateLater(Sum(e.packets), e.upTo - start, |e.packets|, s.upTo - e.upTo);
    }
  }

  lemma {:induction false} EpisodeInv(start: int, nows: seq<int>)
    requires InOrder(start, nows)
    ensures OnTime(start, Run(start, nows), Now(start, nows))
  {
    if nows != [] {
      var n := |nows| - 1;
      EpisodeInv(start, nows[..n]);
      TickOnTime(start, Run(start, nows[..n]), Now(start, nows[..n]), nows[n]);
      hide OnTime;
    } else {
      RateZero();
    }
  }

  lemma RateZero()
    ensures WithinRate(0, 0, 0)
  {
  }

  /** Main result: over an episode, n packets in t nanoseconds carry at most the real rate's bytes for t
      plus one microsecond a packet; every packet is whole frames and at most 100 ms; and after every
      tick the time covered is behind the clock by less than a chunk. */
  lemma RateBound(start: int, nows: seq<int>)
    requires InOrder(start, nows)
    ensures var e := Run(start, nows);
      && Sum(e.packets) * SECOND <= AUDIO_BYTES_PER_SECOND * (Now(start, nows) - start + |e.packets| * MICROSECOND)
      && (forall i | 0 <= i < |e.packets| :: e.packets[i] % 4 == 0 && 0 < e.packets[i] <= 19200)
      && start <= e.upTo <= Now(start, nows) < e.upTo + SILENCE_CHUNK
  {
    EpisodeInv(start, nows);
    var e := Run(start, nows);
    RateLater(Sum(e.packets), e.upTo - start, |e.packets|, Now(start, nows) - e.upTo);
  }

  // ---------------------------------------------------------------- never too little

  /** The time that silence has been sent for is paid for in full: what is owed and not too old is sent. */
  lemma SendPays(upTo: int, now: int)
    requires SILENCE_CHUNK <= now - upTo
    ensures var s, from := SendSilence(upTo, now), if now - upTo > SILENCE_MAX then now - SILENCE_MAX else upTo;
      && AUDIO_BYTES_PER_SECOND * (s.upTo - from) <= s.bytes * SECOND
      && (now - from - SILENCE_CHUNK) * AUDIO_BYTES_PER_SECOND < s.bytes * SECOND
  {
    var from := if now - upTo > SILENCE_MAX then now - SILENCE_MAX else upTo;
    var due := now - from;
    var micros := due / MICROSECOND;
    var raw := micros * AUDIO_BYTES_PER_SECOND / 1_000_000;
    Truncation(micros, raw, raw - raw % 4, (raw - raw % 4) * 1_000_000 / AUDIO_BYTES_PER_SECOND);
    TruncationBelow(micros, raw, raw - raw % 4, (raw - raw % 4) * 1_000_000 / AUDIO_BYTES_PER_SECOND);
  }

  lemma TruncationBelow(micros: nat, raw: nat, bytes: nat, advance: nat)
    requires SILENCE_CHUNK / MICROSECOND <= micros <= SILENCE_MAX / MICROSECOND
    requires raw == micros * AUDIO_BYTES_PER_SECOND / 1_000_000 && bytes == raw - raw % 4
    requires advance == bytes * 1_000_000 / AUDIO_BYTES_PER_SECOND
    ensures AUDIO_BYTES_PER_SECOND * advance <= bytes * 1_000_000
    ensures (micros + 1) * AUDIO_BYTES_PER_SECOND < bytes * 1_000_000 + 5 * 1_000_000
  {
  }

  /** Ten milliseconds of it, to the byte. */
  lemma TenMilliseconds()
    ensures SendSilence(0, 10_000_000) == Sent(10_000_000, 1920)
    ensures SendSilence(0, 9_999_999) == Sent(0, 0)
  {
  }

  /** Ticks that come often enough for nothing to grow too old. */
  ghost predicate Prompt(start: int, nows: seq<int>) {
    nows == []
    || (var n := |nows| - 1;
        nows[n] - Now(start, nows[..n]) <= SILENCE_MAX - SILENCE_CHUNK && Prompt(start, nows[..n]))
  }

  ghost predicate PaidFor(start: int, e: Episode) {
    AUDIO_BYTES_PER_SECOND * (e.upTo - start) <= Sum(e.packets) * SECOND
  }

  lemma {:induction false} EpisodePaidFor(start: int, nows: seq<int>)
    requires InOrder(start, nows) && Prompt(start, nows)
    ensures PaidFor(start, Run(start, nows))
    decreases |nows|
  {
    hide PaidFor;
    if nows != [] {
      var n := |nows| - 1;
      EpisodePaidFor(start, nows[..n]);
      Lags(start, nows[..n]);
      NowGrows(start, nows);
      FloorStep(start, Run(start, nows[..n]), nows[n]);
    } else {
      NothingPaidFor(start);
    }
  }

  lemma NothingPaidFor(start: int)
    ensures PaidFor(start, Run(start, []))
  {
  }

  /** Over an episode with prompt ticks, silence is sent at no less than the real rate, but for the last
      chunk: no listener of it runs dry. */
  lemma RateFloor(start: int, nows: seq<int>)
    requires InOrder(start, nows) && Prompt(start, nows)
    ensures var e := Run(start, nows);
      && AUDIO_BYTES_PER_SECOND * (e.upTo - start) <= Sum(e.packets) * SECOND
      && AUDIO_BYTES_PER_SECOND * (Now(start, nows) - start - SILENCE_CHUNK) <= Sum(e.packets) * SECOND
  {
    hide Run, InOrder, Prompt, Sum, Now;
    var e := Run(start, nows);
    EpisodePaidFor(start, nows);
    Lags(start, nows);
    LastChunkOpen(start, e.upTo, Now(start, nows), Sum(e.packets));
  }

  lemma LastChunkOpen(start: int, upTo: int, now: int, sum: nat)
    requires AUDIO_BYTES_PER_SECOND * (upTo - start) <= sum * SECOND && now < upTo + SILENCE_CHUNK
    ensures AUDIO_BYTES_PER_SECOND * (now - start - SILENCE_CHUNK) <= sum * SECOND
  {
  }

  lemma Lags(start: int, nows: seq<int>)
    requires InOrder(start, nows)
    ensures Run(start, nows).upTo <= Now(start, nows) < Run(start, nows).upTo + SILENCE_CHUNK
  {
    EpisodeInv(start, nows);
  }

  lemma NowGrows(start: int, nows: seq<int>)
    requires InOrder(start, nows) && nows != []
    ensures Now(start, nows[..|nows| - 1]) <= Now(start, nows)
  {
  }

  lemma FloorStep(start: int, e: Episode, now: int)
    requires e.upTo <= now <= e.upTo + SILENCE_MAX
    requires PaidFor(start, e)
    ensures PaidFor(start, Tick(e, now))
  {
    var s := SendSilence(e.upTo, now);
    if now - e.upTo >= SILENCE_CHUNK {
      SendPays(e.upTo, now);
      SendBounds(e.upTo, now);
      hide SendSilence;
      assert (e.packets + [s.bytes])[..|e.packets|] == e.packets;
    }
  }
}
