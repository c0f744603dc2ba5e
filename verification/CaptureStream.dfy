/** The capture stream: the completion handlers that libusb calls, start, and the shutdown flag, over
    the chunk queue and the transfer pool. Each runs here without the other thread in between, and is
    proved to be an execution of TransferPool, which covers everything that may happen in between. */
module CaptureStreamClass {
  import opened Markers
  import opened TransferPool
  import opened CaptureTransfersClass
  import Q = CaptureRing

  /** How a transfer ended, with what it read. */
  datatype Completion = ReadData(data: seq<Byte>) | WasCancelled | DeviceGone | ReadError

  /** The device starts every frame with a SAV marker. */
  predicate AtFrameStart(data: seq<Byte>) {
    |data| >= 4 && data[..4] == [0, 0xFF, 0xFF, SAV_TYPE]
  }

  function OutcomeOf(c: Completion): Outcome {
    match c
    case ReadData(data) => Filled(AtFrameStart(data))
    case WasCancelled => Cancelled
    case DeviceGone => NoDevice
    case ReadError => Failed
  }

  /** What the queue gets to see of a completed transfer: data, or the loss of some. A probe that does
      not start a frame leaves no trace; a pooled read that fails or falls short is a gap. */
  function Reported(kind: Kind, c: Completion): seq<Q.Step> {
    match c
    case ReadData(data) =>
      if kind == Pooled then [Q.Enqueue(data, |data| < Q.CHUNK_BYTES)]
      else if AtFrameStart(data) then [Q.Enqueue(data, false)]
      else []
    case ReadError => if kind == Pooled then [Q.MarkGap] else []
    case _ => []
  }

  /** A pooled completion leaves a chunk, or a gap pending, if and only if it failed or carried data,
      or one was pending already; one that carried none leaves the queue as it was. */
  lemma PooledTraceIff(w: Q.History, c: Completion)
    requires Q.Inv(w) && !w.shuttingDown
    ensures var w' := Q.After(w, Reported(Pooled, c));
      && (w'.gapPending || |w'.stored| > |w.stored| <==>
            w.gapPending || c.ReadError? || (c.ReadData? && c.data != []))
      && (c == ReadData([]) ==> w' == w)
  {
    var steps := Reported(Pooled, c);
    if steps != [] {
      assert steps[1..] == [];
    }
  }

  // ---------------------------------------------------------------- handlers as executions

  /** A handler that runs from its start to its end. */
  function HandlerActions(s: Pool, t: nat, outcome: Outcome, ok: bool, oks: seq<bool>): seq<Action>
    requires t < |s.transfers|
  {
    [Complete(t, outcome)] + seq(|HandlerFor(s.transfers[t].kind, outcome, s.attempts)|, _ => RunHandler(ok, oks))
  }

  /** The pool once libusb has handed a transfer back. */
  function HandedBack(s: Pool, t: nat, counted: bool): Pool
    requires t < |s.transfers|
  {
    s.(transfers := s.transfers[t := s.transfers[t].(status := Handling)],
       attempts := if counted then s.attempts + 1 else s.attempts)
  }

  function Handled(s: Pool, t: nat, outcome: Outcome, ok: bool, oks: seq<bool>): Pool
    requires t < |s.transfers| && |oks| == TRANSFER_POOL_SIZE
  {
    var kind := s.transfers[t].kind;
    var s1 := HandedBack(s, t, CountsAttempt(kind, outcome));
    if kind == Probe && outcome == Filled(true) then QueueReads(Release(s1, t), oks)
    else if outcome.NoDevice? || (CountsAttempt(kind, outcome) && s.attempts >= MAX_PROBE_ATTEMPTS) then Release(s1, t)
    else Resubmit(s1, t, ok)
  }

  lemma {:induction false} AddFromIgnoresHandler(s: Pool, from: nat, oks: seq<bool>, h: Handler)
    requires |oks| == TRANSFER_POOL_SIZE && from <= TRANSFER_POOL_SIZE
    ensures AddFrom(s.(handler := h), from, oks) == AddFrom(s, from, oks).(handler := h)
    decreases TRANSFER_POOL_SIZE - from
  {
    if from < TRANSFER_POOL_SIZE {
      AddFromIgnoresHandler(Add(s, from, Pooled, oks[from]), from + 1, oks, h);
    }
  }

  /** Running what is left of a handler. */
  lemma {:induction false} RunsOut(s: Pool, ok: bool, oks: seq<bool>, n: nat)
    requires |oks| == TRANSFER_POOL_SIZE
    requires n > 0 && s.handler.Busy? && |s.handler.todo| == n && s.handler.transfer < |s.transfers|
    requires forall i | 0 <= i < n - 1 :: s.handler.todo[i] != QueueAll
    ensures Possible(s, seq(n, _ => RunHandler(ok, oks)))
    ensures After(s, seq(n, _ => RunHandler(ok, oks)))
         == RunTodos(s, s.handler.transfer, s.handler.todo, ok, oks).(handler := Idle)
    decreases n
  {
    var step, t, todo := RunHandler(ok, oks), s.handler.transfer, s.handler.todo;
    var steps := seq(n, _ => step);
    assert steps[0] == step && steps[1..] == seq(n - 1, _ => step);
    var s' := Next(s, step);
    if n == 1 {
      assert todo == [todo[0]];
    } else {
      RunsOut(s', ok, oks, n - 1);
      TodosIgnoreHandler(RunTodo(s, t, todo[0], ok, oks), t, todo[1..], ok, oks, Busy(t, todo[1..]));
    }
  }

  function RunTodos(s: Pool, t: nat, todo: seq<Todo>, ok: bool, oks: seq<bool>): Pool
    requires t < |s.transfers| && |oks| == TRANSFER_POOL_SIZE
    requires forall i | 0 <= i < |todo| - 1 :: todo[i] != QueueAll
    decreases |todo|
  {
    if todo == [] then s
    else if |todo| == 1 then RunTodo(s, t, todo[0], ok, oks)
    else RunTodos(RunTodo(s, t, todo[0], ok, oks), t, todo[1..], ok, oks)
  }

  lemma TodoIgnoresHandler(s: Pool, t: nat, todo: Todo, ok: bool, oks: seq<bool>, h: Handler)
    requires t < |s.transfers| && |oks| == TRANSFER_POOL_SIZE
    ensures RunTodo(s.(handler := h), t, todo, ok, oks) == RunTodo(s, t, todo, ok, oks).(handler := h)
  {
    AddFromIgnoresHandler(s, 0, oks, h);
  }

  lemma {:induction false} TodosIgnoreHandler(s: Pool, t: nat, todo: seq<Todo>, ok: bool, oks: seq<bool>, h: Handler)
    requires t < |s.transfers| && |oks| == TRANSFER_POOL_SIZE
    requires forall i | 0 <= i < |todo| - 1 :: todo[i] != QueueAll
    ensures RunTodos(s.(handler := h), t, todo, ok, oks) == RunTodos(s, t, todo, ok, oks).(handler := h)
    decreases |todo|
  {
    if todo != [] {
      TodoIgnoresHandler(s, t, todo[0], ok, oks, h);
      if |todo| > 1 {
        assert |RunTodo(s, t, todo[0], ok, oks).transfers| == |s.transfers|;
        hide RunTodo;
        TodosIgnoreHandler(RunTodo(s, t, todo[0], ok, oks), t, todo[1..], ok, oks, h);
      }
    }
  }

  /** What a whole handler does, action by action. */
  lemma TodosAreHandled(s: Pool, t: nat, outcome: Outcome, ok: bool, oks: seq<bool>)
    requires t < |s.transfers| && |oks| == TRANSFER_POOL_SIZE
    ensures var kind := s.transfers[t].kind;
      var todo := HandlerFor(kind, outcome, s.attempts);
      && (forall i | 0 <= i < |todo| - 1 :: todo[i] != QueueAll)
      && RunTodos(HandedBack(s, t, CountsAttempt(kind, outcome)), t, todo, ok, oks) == Handled(s, t, outcome, ok, oks)
  {
    hide Release, Resubmit, QueueReads;
    var kind := s.transfers[t].kind;
    var s1, todo := HandedBack(s, t, CountsAttempt(kind, outcome)), HandlerFor(kind, outcome, s.attempts);
    if |todo| == 2 {
      assert todo[1..] == [Submit];
      assert RunTodos(s1, t, todo, ok, oks) == RunTodos(s1, t, [Submit], ok, oks) == Resubmit(s1, t, ok);
    } else if |todo| == 3 {
      assert todo[1..] == [Discard, QueueAll] && [Discard, QueueAll][1..] == [QueueAll];
      assert |Release(s1, t).transfers| == |s1.transfers| by { SameTransfers(s1, t); }
      assert RunTodos(s1, t, todo, ok, oks) == RunTodos(s1, t, [Discard, QueueAll], ok, oks)
          == RunTodos(Release(s1, t), t, [QueueAll], ok, oks) == QueueReads(Release(s1, t), oks);
    }
  }

  lemma SameTransfers(s: Pool, t: nat)
    requires t < |s.transfers|
    ensures |Release(s, t).transfers| == |s.transfers|
  {
  }

  /** A handler that nothing interrupts is an execution of the pool, with this effect. */
  lemma HandlerRuns(s: Pool, t: nat, outcome: Outcome, ok: bool, oks: seq<bool>)
    requires Enabled(s, Complete(t, outcome)) && |oks| == TRANSFER_POOL_SIZE
    ensures var actions := HandlerActions(s, t, outcome, ok, oks);
      && Possible(s, actions) && After(s, actions) == Handled(s, t, outcome, ok, oks)
      && StartsRightly(s, actions)
  {
    var actions, s1 := HandlerActions(s, t, outcome, ok, oks), Next(s, Complete(t, outcome));
    var todo, back := s1.handler.todo, HandedBack(s, t, CountsAttempt(s.transfers[t].kind, outcome));
    assert actions[1..] == seq(|todo|, _ => RunHandler(ok, oks));
    assert s1 == back.(handler := s1.handler) && back.handler == Idle;
    TodosAreHandled(s, t, outcome, ok, oks);
    RunsOut(s1, ok, oks, |todo|);
    NeverStarts(s, actions);
    TodosIgnoreHandler(back, t, todo, ok, oks, s1.handler);
    HandlerRestored(s, t, outcome, ok, oks);
  }

  lemma HandlerRestored(s: Pool, t: nat, outcome: Outcome, ok: bool, oks: seq<bool>)
    requires t < |s.transfers| && |oks| == TRANSFER_POOL_SIZE
    ensures Handled(s, t, outcome, ok, oks).handler == s.handler
  {
    var s1 := Release(HandedBack(s, t, CountsAttempt(s.transfers[t].kind, outcome)), t);
    AddFromIgnoresHandler(s1, 0, oks, s.handler);
    assert s1.(handler := s.handler) == s1;
  }

  lemma {:induction false} NeverStarts(s: Pool, actions: seq<Action>)
    requires Possible(s, actions)
    requires forall i | 0 <= i < |actions| :: !actions[i].StartAligned? && !actions[i].StartDirect?
    ensures StartsRightly(s, actions)
    decreases |actions|
  {
    if actions != [] {
      NeverStarts(Next(s, actions[0]), actions[1..]);
    }
  }

  // ---------------------------------------------------------------- what handlers end in

  /** A pooled read goes on if and only if stop has not begun, the device is there and libusb takes it
      back; nothing else changes then. Otherwise it is freed and struck off the vector. */
  lemma PooledReadsOnIff(s: Pool, t: nat, outcome: Outcome, ok: bool, oks: seq<bool>)
    requires Enabled(s, Complete(t, outcome)) && |oks| == TRANSFER_POOL_SIZE && s.transfers[t].kind == Pooled
    ensures var actions := HandlerActions(s, t, outcome, ok, oks);
      && Possible(s, actions)
      && var s' := After(s, actions);
      && |s'.transfers| == |s.transfers| && s'.handler == Idle && s'.attempts == s.attempts
      && s'.transfers[t].kind == Pooled && s'.transfers[t].region == s.transfers[t].region
      && (forall u | 0 <= u < |s.transfers| && u != t :: s'.transfers[u] == s.transfers[u])
      && if !s.shuttingDown && outcome != NoDevice && ok
         then s'.transfers[t].status == InFlight && s'.listed == s.listed
         else s'.transfers[t].status == Freed && s'.listed == Without(s.listed, t)
  {
    HandlerRuns(s, t, outcome, ok, oks);
  }

  /** The same by how the transfer ended: read data, failed and cancelled transfers go on, a device that is
      gone is not asked again. */
  lemma CompletionReadsOnIff(s: Pool, t: nat, c: Completion, ok: bool, oks: seq<bool>)
    requires Enabled(s, Complete(t, OutcomeOf(c))) && |oks| == TRANSFER_POOL_SIZE && s.transfers[t].kind == Pooled
    ensures var actions := HandlerActions(s, t, OutcomeOf(c), ok, oks);
      && Possible(s, actions)
      && t < |After(s, actions).transfers|
      && (After(s, actions).transfers[t].status == InFlight <==> !s.shuttingDown && c != DeviceGone && ok)
  {
    hide AtFrameStart, After, Possible, HandlerActions;
    PooledReadsOnIff(s, t, OutcomeOf(c), ok, oks);
  }

  /** A probe that does not start a frame goes on under the same conditions, if it has tries left or was
      only cancelled; a cancellation is no try. */
  lemma ProbeReadsOnIff(s: Pool, t: nat, outcome: Outcome, ok: bool, oks: seq<bool>)
    requires Enabled(s, Complete(t, outcome)) && |oks| == TRANSFER_POOL_SIZE
    requires s.transfers[t].kind == Probe && outcome != Filled(true)
    ensures var actions := HandlerActions(s, t, outcome, ok, oks);
      && Possible(s, actions)
      && var s' := After(s, actions);
      && |s'.transfers| == |s.transfers| && s'.handler == Idle && s'.shuttingDown == s.shuttingDown
      && s'.attempts == s.attempts + (if outcome == Failed || outcome == Filled(false) then 1 else 0)
      && s'.transfers[t].kind == Probe
      && if !s.shuttingDown && ok && (outcome == Cancelled || (outcome != NoDevice && s.attempts < MAX_PROBE_ATTEMPTS))
         then s'.transfers[t].status == InFlight && s'.listed == s.listed
         else s'.transfers[t].status == Freed && s'.listed == Without(s.listed, t)
  {
    HandlerRuns(s, t, outcome, ok, oks);
  }

  /** The same by how the probe ended: a failed read and one that starts no frame are tries, a cancellation
      and a lost device are none. */
  lemma ProbeCompletionReadsOnIff(s: Pool, t: nat, c: Completion, ok: bool, oks: seq<bool>)
    requires Enabled(s, Complete(t, OutcomeOf(c))) && |oks| == TRANSFER_POOL_SIZE && s.transfers[t].kind == Probe
    requires !(c.ReadData? && AtFrameStart(c.data))
    ensures var actions := HandlerActions(s, t, OutcomeOf(c), ok, oks);
      && Possible(s, actions)
      && t < |After(s, actions).transfers|
      && After(s, actions).attempts == s.attempts + (if c.ReadError? || c.ReadData? then 1 else 0)
      && (After(s, actions).transfers[t].status == InFlight <==>
            !s.shuttingDown && ok && (c.WasCancelled? || (!c.DeviceGone? && s.attempts < MAX_PROBE_ATTEMPTS)))
  {
    hide AtFrameStart, After, Possible, HandlerActions;
    ProbeReadsOnIff(s, t, OutcomeOf(c), ok, oks);
  }

  /** A probe that starts a frame is freed, and unless stop has begun a read for every region takes its
      place. */
  lemma ProbeHandsOver(s: Pool, t: nat, ok: bool, oks: seq<bool>)
    requires Enabled(s, Complete(t, Filled(true))) && |oks| == TRANSFER_POOL_SIZE && s.transfers[t].kind == Probe
    ensures var actions := HandlerActions(s, t, Filled(true), ok, oks);
      && Possible(s, actions)
      && var s', n := After(s, actions), |s.transfers|;
      && n <= |s'.transfers| && s'.transfers[t].status == Freed
      && (s.shuttingDown ==> s'.listed == Without(s.listed, t))
      && s'.transfers[n..] == if s.shuttingDown then [] else Reads(0, oks)
  {
    hide After, Possible, HandlerActions, AddFrom, Reads, Without;
    HandlerRuns(s, t, Filled(true), ok, oks);
    var s1 := Release(HandedBack(s, t, false), t);
    assert Handled(s, t, Filled(true), ok, oks) == QueueReads(s1, oks);
    assert s1.transfers[t].status == Freed && |s1.transfers| == |s.transfers| && s1.shuttingDown == s.shuttingDown;
    assert s1.listed == Without(s.listed, t);
    hide Handled, Release, HandedBack;
    AddFromLaysOut(s1, 0, oks);
  }

  /** The probe is read this often: the first time, and MAX_PROBE_ATTEMPTS times more. */
  lemma {:induction false} ProbeTries(s: Pool, t: nat, n: nat, oks: seq<bool>)
    requires t < |s.transfers| && s.transfers[t].kind == Probe && s.transfers[t].status == InFlight
    requires s.handler == Idle && !s.shuttingDown && |oks| == TRANSFER_POOL_SIZE
    requires s.attempts <= MAX_PROBE_ATTEMPTS && s.attempts + n <= MAX_PROBE_ATTEMPTS + 1
    ensures var s' := ComeBack(s, seq(n, _ => t), seq(n, _ => Filled(false)), true, oks);
      && t < |s'.transfers|
      && s'.transfers[t].status == if s.attempts + n <= MAX_PROBE_ATTEMPTS then InFlight else Freed
    decreases n
  {
    if n > 0 {
      var ts, outcomes := seq(n, _ => t), seq(n, _ => Filled(false));
      assert ts[1..] == seq(n - 1, _ => t) && outcomes[1..] == seq(n - 1, _ => Filled(false));
      ProbeReadsOnIff(s, t, Filled(false), true, oks);
      HandlerRuns(s, t, Filled(false), true, oks);
      var s1 := Handled(s, t, Filled(false), true, oks);
      hide Handled;
      assert ComeBack(s, ts, outcomes, true, oks) == ComeBack(s1, ts[1..], outcomes[1..], true, oks);
      if s.attempts < MAX_PROBE_ATTEMPTS {
        ProbeTries(s1, t, n - 1, oks);
      } else {
        assert ts[1..] == [];
      }
    }
  }

  // ---------------------------------------------------------------- what the queue gets

  /** A read that falls short is a loss: its chunk is stored flagged, whatever went before. A full read is
      flagged if and only if a gap was pending or the ring was full. */
  lemma ShortReadIsFlagged(w: Q.History, data: seq<Byte>)
    requires Q.Inv(w) && !w.shuttingDown && data != [] && |data| <= Q.CHUNK_BYTES
    ensures var w' := Q.After(w, Reported(Pooled, ReadData(data)));
      && |w'.stored| == |w.stored| + 1 && w.stored == w'.stored[..|w.stored|]
      && var c := w'.stored[|w.stored|];
      && c.data == data
      && (c.gapped <==> |data| < Q.CHUNK_BYTES || w.gapPending || |w.stored| - w.head == Q.RING_SLOTS)
  {
    assert Reported(Pooled, ReadData(data))[1..] == [];
  }

  /** A failed read leaves a gap pending, and nothing else. */
  lemma FailedReadIsGap(w: Q.History)
    requires Q.Inv(w)
    ensures Q.After(w, Reported(Pooled, ReadError)) == w.(gapPending := true)
  {
    assert Reported(Pooled, ReadError)[1..] == [];
  }

  /** A probe that reads a SAV marker first is stored as the first chunk, unflagged unless something was
      lost before, and ends the probing. One that reads anything else leaves no trace and is tried again. */
  lemma ProbeRecognises(w: Q.History, data: seq<Byte>)
    requires Q.Inv(w) && !w.shuttingDown && |data| <= Q.CHUNK_BYTES
    ensures SavAt(data, 0) ==>
      && OutcomeOf(ReadData(data)) == Filled(true)
      && var w' := Q.After(w, Reported(Probe, ReadData(data)));
      && |w'.stored| == |w.stored| + 1
      && w'.stored[|w.stored|] == Q.Chunk(data, w.gapPending || |w.stored| - w.head == Q.RING_SLOTS)
    ensures !PrefixAt(data, 0) || (|data| > 3 && data[3] != SAV_TYPE) ==>
      && OutcomeOf(ReadData(data)) == Filled(false)
      && Q.After(w, Reported(Probe, ReadData(data))) == w
  {
    if |data| >= 4 {
      var x := data[..4];
      assert x[0] == data[0] && x[1] == data[1] && x[2] == data[2] && x[3] == data[3];
    }
    var steps := Reported(Probe, ReadData(data));
    assert steps != [] ==> steps[1..] == [];
  }

  // ---------------------------------------------------------------- the shutdown

  /** Once stop has begun, a transfer that comes back is released, however it ended. */
  lemma StoppedHandlerReleases(s: Pool, t: nat, outcome: Outcome, ok: bool, oks: seq<bool>)
    requires Enabled(s, Complete(t, outcome)) && |oks| == TRANSFER_POOL_SIZE && s.shuttingDown
    ensures var s' := Handled(s, t, outcome, ok, oks);
      && s'.listed == Without(s.listed, t) && s'.shuttingDown && s'.handler == Idle
  {
  }

  /** The transfers come back, one after the other, in this order. */
  function ComeBack(s: Pool, ts: seq<nat>, outcomes: seq<Outcome>, ok: bool, oks: seq<bool>): Pool
    requires |outcomes| == |ts| && |oks| == TRANSFER_POOL_SIZE
    decreases |ts|
  {
    if ts == [] || ts[0] >= |s.transfers| then s
    else ComeBack(Handled(s, ts[0], outcomes[0], ok, oks), ts[1..], outcomes[1..], ok, oks)
  }

  lemma SameMembers(ts: seq<nat>, listed: seq<nat>)
    requires forall t: nat :: t in ts <==> t in listed
    ensures ts == [] ==> listed == []
  {
    if listed != [] {
      assert listed[0] in ts;
    }
  }

  /** What stop waits for comes about: when every listed transfer has come back, in any order and
      however each of them ended, the vector is empty. */
  lemma {:induction false} StopDrains(s: Pool, ts: seq<nat>, outcomes: seq<Outcome>, ok: bool, oks: seq<bool>)
    requires Inv(s) && s.shuttingDown && s.handler == Idle
    requires |outcomes| == |ts| && |oks| == TRANSFER_POOL_SIZE
    requires NoDuplicates(ts) && forall t: nat :: t in ts <==> t in s.listed
    ensures ComeBack(s, ts, outcomes, ok, oks).listed == []
    decreases |ts|
  {
    SameMembers(ts, s.listed);
    if ts != [] {
      var t, rest := ts[0], ts[1..];
      assert t in s.listed && Live(s, t);
      var s' := Handled(s, t, outcomes[0], ok, oks);
      assert Enabled(s, Complete(t, outcomes[0]));
      HandlerRuns(s, t, outcomes[0], ok, oks);
      EveryExecution(s, HandlerActions(s, t, outcomes[0], ok, oks));
      StoppedHandlerReleases(s, t, outcomes[0], ok, oks);
      WithoutRemoves(s.listed, t);
      assert NoDuplicates(rest) by {
        assert forall i | 0 <= i < |rest| :: rest[i] == ts[i + 1];
      }
      assert ts == [t] + rest;
      assert t !in rest;
      hide Inv, Handled;
      StopDrains(s', rest, outcomes[1..], ok, oks);
    }
  }

  // ---------------------------------------------------------------- the class

  class CaptureStream {
    const queue: Q.CaptureQueue
    const pool: CaptureTransfers
    var transferErrors: nat

    ghost predicate Valid()
      reads queue, queue.ring, pool`shuttingDown
    {
      queue.Valid() && Q.Inv(queue.history) && queue.shuttingDown == pool.shuttingDown
    }

    constructor ()
      ensures Valid() && pool.State() == Start && queue.history == Q.Start && transferErrors == 0
      ensures fresh(queue) && fresh(queue.ring) && fresh(pool)
    {
      queue := new Q.CaptureQueue();
      pool := new CaptureTransfers();
      transferErrors := 0;
    }

    /** Probe for a frame start, or read from wherever the device is. */
    method StartReading(alignToFrameStart: bool, ok: bool, oks: seq<bool>)
      requires Valid() && |oks| == TRANSFER_POOL_SIZE
      modifies pool`transfers, pool`listed, pool`lateSubmits, pool`started, queue`gapPending, queue`history
      ensures Valid()
      ensures pool.State() == Next(old(pool.State()), if alignToFrameStart then StartAligned(ok) else StartDirect(oks))
      ensures queue.history == Q.After(old(queue.history), if alignToFrameStart then [] else [Q.MarkGap])
    {
      if alignToFrameStart {
        pool.AddTransferLocked(0, Probe, ok);
      } else {
        queue.MarkGapPending();
        pool.QueueAllFrameReads(oks);
      }
      pool.started := true;
    }

    /** The probe's handler: pass the first frame's start on and queue the pool, or try again. */
    method ProbeTransferComplete(t: nat, c: Completion, ok: bool, oks: seq<bool>)
      requires Valid() && Enabled(pool.State(), Complete(t, OutcomeOf(c))) && |oks| == TRANSFER_POOL_SIZE
      requires pool.transfers[t].kind == Probe
      modifies pool`transfers, pool`listed, pool`lateSubmits, pool`probeAttempts,
               queue`ringWrite, queue`ringCount, queue`gapPending, queue`droppedChunks, queue`history, queue.ring
      ensures Valid()
      ensures var s, actions := old(pool.State()), HandlerActions(old(pool.State()), t, OutcomeOf(c), ok, oks);
        && Possible(s, actions) && pool.State() == After(s, actions) && StartsRightly(s, actions)
      ensures queue.history == Q.After(old(queue.history), Reported(Probe, c))
    {
      hide After, Possible, StartsRightly, HandlerActions, AtFrameStart, Q.Inv, Q.Next, QueueReads, Release, Resubmit;
      HandlerRuns(pool.State(), t, OutcomeOf(c), ok, oks);
      pool.TakeBack(t);
      if c.WasCancelled? {
        pool.SubmitTransfer(t, ok);
        return;
      }
      if c.DeviceGone? {
        pool.DiscardTransfer(t);
        return;
      }
      if c.ReadData? && AtFrameStart(c.data) {
        queue.EnqueueChunk(c.data, false);
        pool.DiscardTransfer(t);
        pool.QueueAllFrameReads(oks);
        return;
      }
      var again := pool.RecordProbeAttempt();
      if !again {
        pool.DiscardTransfer(t);
        return;
      }
      pool.SubmitTransfer(t, ok);
    }

    /** A pooled transfer's handler: pass on what was read, or that bytes were lost, and read on. */
    method UsbTransferComplete(t: nat, c: Completion, ok: bool, ghost oks: seq<bool>)
      requires Valid() && Enabled(pool.State(), Complete(t, OutcomeOf(c))) && |oks| == TRANSFER_POOL_SIZE
      requires pool.transfers[t].kind == Pooled
      modifies pool`transfers, pool`listed, this`transferErrors,
               queue`ringWrite, queue`ringCount, queue`gapPending, queue`droppedChunks, queue`history, queue.ring
      ensures Valid()
      ensures var s, actions := old(pool.State()), HandlerActions(old(pool.State()), t, OutcomeOf(c), ok, oks);
        && Possible(s, actions) && pool.State() == After(s, actions) && StartsRightly(s, actions)
      ensures queue.history == Q.After(old(queue.history), Reported(Pooled, c))
      ensures transferErrors == old(transferErrors) + if c.ReadError? then 1 else 0
    {
      hide After, Possible, StartsRightly, HandlerActions, AtFrameStart, Q.Inv, Q.Next, QueueReads, Release, Resubmit;
      HandlerRuns(pool.State(), t, OutcomeOf(c), ok, oks);
      pool.TakeBack(t);
      match c {
        case ReadData(data) =>
          queue.EnqueueChunk(data, |data| < Q.CHUNK_BYTES);
        case WasCancelled =>
        case DeviceGone =>
          pool.DiscardTransfer(t);
          return;
        case ReadError =>
          queue.MarkGapPending();
          transferErrors := transferErrors + 1;
      }
      pool.SubmitTransfer(t, ok);
    }

    /** The first half of stop: no more submissions, and libusb is asked to cancel every transfer that
        is listed. StopDrains is about the second half, the wait. */
    method BeginStop() returns (cancelled: seq<nat>)
      requires Valid()
      modifies pool`shuttingDown, queue`shuttingDown, queue`history
      ensures Valid() && pool.State() == Next(old(pool.State()), TransferPool.BeginStop)
      ensures queue.history == Q.Next(old(queue.history), Q.Stop)
      ensures cancelled == pool.listed
    {
      cancelled := pool.BeginStopping();
      queue.BeginStopping();
    }
  }
}
