/** Incremental parsing is whole-stream parsing, exactly as long as no feed carries bytes that the
    scan had already passed. */
module ParserProofs {
  import opened Markers
  import opened Sequences
  import opened ParserModel

  /** Positions stay inside the input, except that an audio payload may still be arriving. */
  ghost predicate ParserInv(h: seq<Byte>, p: Parser) {
    match p.mode
    case Idle => p.pos <= |h|
    case Video(start) => start <= p.pos <= |h|
    case Audio(start) => start <= |h| && start <= p.pos <= start + AUDIO_MAX_PACKET_BYTES
  }

  /** Between feeds nothing in view is left to be done. */
  ghost predicate Valid(m: Builder) {
    ParserInv(m.h, m.p) && ParseStep(m.h, m.p).None?
  }

  lemma FreshValid()
    ensures Valid(Fresh())
  {
  }

  lemma ResetValid(m: Builder)
    ensures Valid(Reset(m))
  {
  }

  lemma StepInv(h: seq<Byte>, p: Parser)
    requires ParserInv(h, p)
    ensures CodeStep(h, p).Some? ==> ParserInv(h, CodeStep(h, p).value)
    ensures ParseStep(h, p).Some? ==> ParserInv(h, ParseStep(h, p).value)
  {
  }

  lemma {:induction false} RunInv(h: seq<Byte>, p: Parser)
    requires ParserInv(h, p)
    ensures ParserInv(h, RunCode(h, p)) && CodeStep(h, RunCode(h, p)).None?
    ensures p.pos <= RunCode(h, p).pos
    decreases if p.pos <= |h| then |h| - p.pos + 1 else 0, if p.mode.Audio? then 1 else 0
  {
    if CodeStep(h, p).Some? {
      StepInv(h, p);
      RunInv(h, CodeStep(h, p).value);
    }
  }

  /** A step that could be taken is still the step to take when more input has arrived. */
  lemma StepGrows(h: seq<Byte>, x: seq<Byte>, p: Parser)
    ensures CodeStep(h, p).Some? ==> CodeStep(h + x, p) == CodeStep(h, p)
    ensures ParseStep(h, p).Some? ==> ParseStep(h + x, p) == ParseStep(h, p)
  {
  }

  lemma {:induction false} RunCodeResumes(h: seq<Byte>, x: seq<Byte>, p: Parser)
    ensures RunCode(h + x, RunCode(h, p)) == RunCode(h + x, p)
    decreases if p.pos <= |h| then |h| - p.pos + 1 else 0, if p.mode.Audio? then 1 else 0
  {
    if CodeStep(h, p).Some? {
      StepGrows(h, x, p);
      RunCodeResumes(h, x, CodeStep(h, p).value);
    }
  }

  lemma {:induction false} ParseResumes(h: seq<Byte>, x: seq<Byte>, p: Parser)
    ensures Parse(h + x, Parse(h, p)) == Parse(h + x, p)
    decreases if p.pos <= |h| then |h| - p.pos + 1 else 0, if p.mode.Audio? then 1 else 0
  {
    if ParseStep(h, p).Some? {
      StepGrows(h, x, p);
      ParseResumes(h, x, ParseStep(h, p).value);
    }
  }

  lemma {:induction false} ParseAfterRun(h: seq<Byte>, p: Parser)
    ensures Parse(h, RunCode(h, p)) == Parse(h, p)
    decreases if p.pos <= |h| then |h| - p.pos + 1 else 0, if p.mode.Audio? then 1 else 0
  {
    if CodeStep(h, p).Some? {
      ParseAfterRun(h, CodeStep(h, p).value);
    }
  }

  // ---------------------------------------------------------------- the cut between two feeds

  /** Fewer than four bytes in view: the reference parser passes what is ruled out and waits. */
  lemma {:induction false} ParsePasses(h: seq<Byte>, p: Parser, q: nat)
    requires !p.mode.Audio? && p.pos <= q <= |h| < p.pos + 4
    requires (forall r: nat | p.pos <= r < q :: RulesOut(h, r)) && !RulesOut(h, q)
    ensures Parse(h, p) == p.(pos := q)
    decreases q - p.pos
  {
    if p.pos < q {
      assert RulesOut(h, p.pos);
      ParsePasses(h, p.(pos := p.pos + 1), q);
    }
  }

  /** The carried bytes are the only tail that could still start a marker. */
  lemma CarryStartsMarker(h: seq<Byte>, work: nat, pos: nat)
    requires work <= pos <= |h| < pos + 4
    ensures var q := |h| - TailCarry(h[work..]);
      && !RulesOut(h, q)
      && forall r: nat | pos <= r < q :: RulesOut(h, r)
  {
    var buf := h[work..];
    assert forall i | 0 <= i < |buf| :: buf[i] == h[work + i];
  }

  lemma {:induction false} ParseStays(h: seq<Byte>, p: Parser)
    ensures Parse(h, p).pos >= p.pos
    decreases if p.pos <= |h| then |h| - p.pos + 1 else 0, if p.mode.Audio? then 1 else 0
  {
    if ParseStep(h, p).Some? {
      ParseStays(h, ParseStep(h, p).value);
    }
  }

  /** The end of a feed, once the scan has stopped. */
  lemma CarryIffParse(h: seq<Byte>, work: nat, p: Parser)
    requires ParserInv(h, p) && CodeStep(h, p).None? && work <= |h| && work <= p.pos
    ensures p.mode.Audio? || p.pos + 4 <= |h| || TailCarry(h[work..]) <= |h| - p.pos
            <==> Finish(h, work, p) == Parse(h, p)
  {
    if !p.mode.Audio? && |h| < p.pos + 4 {
      CarryStartsMarker(h, work, p.pos);
      hide TailCarry;
      var q := |h| - TailCarry(h[work..]);
      if p.pos <= q {
        ParsePasses(h, p, q);
      } else {
        ParseStays(h, p);
      }
    }
  }

  /** Main result on one feed: it leaves the state of the reference parser over everything fed so
      far if and only if the cut after it is clean. */
  lemma CleanCutIffParse(m: Builder, chunk: seq<Byte>)
    requires Valid(m) && chunk != []
    ensures CleanCut(m, chunk) <==> FeedStep(m, chunk).p == Parse(m.h + chunk, m.p)
  {
    hide RunCode, Parse, CodeStep, Finish, TailCarry;
    var h := m.h + chunk;
    assert ParserInv(h, m.p);
    RunInv(h, m.p);
    ParseAfterRun(h, m.p);
    CarryIffParse(h, WorkStart(m), RunCode(h, m.p));
  }

  /** Where the header or payload that an event recognised ends. */
  function EndOf(e: Event): nat {
    match e
    case Sav(at) => at + SAV_BYTES
    case AudioHeader(at) => at + AUDIO_BYTES
    case BadEav(at) => at + EAV_BYTES
    case Partial(_, end) => end + EAV_BYTES
    case Frame(_, end) => end + EAV_BYTES
    case Packet(_, end) => end
    case Gap(at) => at
  }

  /** Where a scan from `p` that stopped outside a payload is: at the end of the last thing it recognised,
      or where it began, or past either with at least three bytes still in view. */
  predicate StoppedAt(h: seq<Byte>, p: Parser, q: Parser) {
    && p.log <= q.log
    && (q.log == p.log ==> q.mode.Audio? == p.mode.Audio?)
    && (!q.mode.Audio? ==>
          if q.log == p.log then q.pos == p.pos || q.pos + 3 <= |h|
          else
            var end := EndOf(q.log[|q.log| - 1]);
            end <= q.pos && (end == q.pos || q.pos + 3 <= |h|))
  }

  lemma StepStops(h: seq<Byte>, p: Parser)
    requires CodeStep(h, p).Some?
    ensures StoppedAt(h, p, CodeStep(h, p).value)
  {
  }

  lemma {:induction false} ScanStops(h: seq<Byte>, p: Parser)
    requires ParserInv(h, p)
    ensures StoppedAt(h, p, RunCode(h, p))
    decreases if p.pos <= |h| then |h| - p.pos + 1 else 0, if p.mode.Audio? then 1 else 0
  {
    if CodeStep(h, p).Some? {
      var p' := CodeStep(h, p).value;
      StepInv(h, p);
      RunInv(h, p');
      ScanStops(h, p');
      StepStops(h, p);
      hide StoppedAt, CodeStep, ParserInv;
    }
  }

  /** The clean cuts, by what was recognised and the last bytes alone: a cut is unclean if and only if
      this feed ended outside a payload and the last header or payload it recognised reaches into the
      trailing 00, 00 FF or 00 FF FF. */
  lemma UncleanCutIff(m: Builder, chunk: seq<Byte>)
    requires Valid(m) && chunk != []
    ensures var h, p := m.h + chunk, FeedStep(m, chunk).p;
      !CleanCut(m, chunk) <==>
        && !p.mode.Audio? && |p.log| > |m.p.log|
        && EndOf(p.log[|p.log| - 1]) > |h| - TailCarry(h[WorkStart(m)..])
  {
    var h := m.h + chunk;
    assert ParserInv(h, m.p);
    RunInv(h, m.p);
    ScanStops(h, m.p);
    hide RunCode, CodeStep, TailCarry;
  }

  lemma FinishValid(h: seq<Byte>, work: nat, p: Parser)
    requires ParserInv(h, p) && CodeStep(h, p).None? && work <= |h| && work <= p.pos
    ensures ParserInv(h, Finish(h, work, p)) && ParseStep(h, Finish(h, work, p)).None?
  {
    if !p.mode.Audio? && |h| < p.pos + 4 {
      CarryStartsMarker(h, work, p.pos);
      hide TailCarry;
    }
  }

  lemma FeedStepValid(m: Builder, chunk: seq<Byte>)
    requires Valid(m)
    ensures Valid(FeedStep(m, chunk))
  {
    if chunk != [] {
      assert ParserInv(m.h + chunk, m.p);
      RunInv(m.h + chunk, m.p);
      FinishValid(m.h + chunk, WorkStart(m), RunCode(m.h + chunk, m.p));
      hide Finish, RunCode;
    }
  }

  /** Clean or not, a feed recognises exactly what the reference parser does. */
  lemma FeedLog(m: Builder, chunk: seq<Byte>)
    requires Valid(m) && chunk != []
    ensures FeedStep(m, chunk).p.log == Parse(m.h + chunk, m.p).log
    ensures FeedStep(m, chunk).p.desync == Parse(m.h + chunk, m.p).desync
  {
    var h := m.h + chunk;
    assert ParserInv(h, m.p);
    RunInv(h, m.p);
    ParseAfterRun(h, m.p);
    var p := RunCode(h, m.p);
    if !p.mode.Audio? && |h| < p.pos + 4 {
      ParseOnlyPasses(h, p);
    }
  }

  lemma {:induction false} ParseOnlyPasses(h: seq<Byte>, p: Parser)
    requires !p.mode.Audio? && |h| < p.pos + 4
    ensures Parse(h, p) == p.(pos := Parse(h, p).pos)
    decreases if p.pos <= |h| then |h| - p.pos + 1 else 0
  {
    if RulesOut(h, p.pos) {
      ParseOnlyPasses(h, p.(pos := p.pos + 1));
    }
  }

  // ---------------------------------------------------------------- any number of feeds

  function FeedAll(m: Builder, chunks: seq<seq<Byte>>): Builder
    decreases |chunks|
  {
    if chunks == [] then m else FeedAll(FeedStep(m, chunks[0]), chunks[1..])
  }

  /** Every cut between two of the chunks is clean; the end of the last one does not matter. */
  predicate CleanCuts(m: Builder, chunks: seq<seq<Byte>>)
    decreases |chunks|
  {
    |chunks| <= 1
    || ((chunks[0] == [] || CleanCut(m, chunks[0])) && CleanCuts(FeedStep(m, chunks[0]), chunks[1..]))
  }

  /** Main result: parsing a stream in any number of clean pieces recognises, in the same order,
      exactly what parsing it in one piece does. */
  lemma {:induction false} SplitIndependence(m: Builder, chunks: seq<seq<Byte>>)
    requires Valid(m) && CleanCuts(m, chunks)
    ensures FeedAll(m, chunks).h == m.h + Concat(chunks)
    ensures FeedAll(m, chunks).p.log == Parse(m.h + Concat(chunks), m.p).log
    ensures FeedAll(m, chunks).p.log == FeedStep(m, Concat(chunks)).p.log
    ensures FeedAll(m, chunks).p.desync == FeedStep(m, Concat(chunks)).p.desync
    decreases |chunks|
  {
    if chunks == [] {
      assert m.h + [] == m.h;
    } else {
      var first, rest := chunks[0], chunks[1..];
      var m' := FeedStep(m, first);
      FeedStepValid(m, first);
      assert m.h + first + Concat(rest) == m.h + Concat(chunks);
      if first == [] {
        assert m.h + first == m.h && Concat(chunks) == Concat(rest);
      } else {
        FeedLog(m, first);
        ParseResumes(m.h + first, Concat(rest), m.p);
      }
      if rest == [] {
        assert Concat(chunks) == first;
        assert FeedAll(m', rest) == m';
      } else {
        if first != [] {
          CleanCutIffParse(m, first);
        }
        SplitIndependence(m', rest);
        if Concat(rest) != [] {
          FeedLog(m', Concat(rest));
        } else {
          assert m'.h + [] == m'.h;
        }
      }
      if Concat(chunks) != [] {
        FeedLog(m, Concat(chunks));
      }
    }
  }
}
