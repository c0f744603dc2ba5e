/** The pool of USB transfers and its shutdown. The event thread runs one completion handler at a time,
    as a few actions under the transfers mutex; start and stop run on another thread in between. An
    execution is any sequence of these actions, with any outcome of every transfer and every call of
    libusb_submit_transfer; every result here is about all of them. */
module TransferPool {
  const TRANSFER_POOL_SIZE: nat := 4
  const MAX_PROBE_ATTEMPTS: nat := 8

  datatype Kind = Probe | Pooled
  /** With libusb; completed and in its handler; or freed. */
  datatype Status = InFlight | Handling | Freed

  /** `region` is the part of the frame buffer the transfer reads into. */
  datatype Transfer = Transfer(region: nat, kind: Kind, status: Status, frees: nat)

  datatype Outcome = Filled(atFrameStart: bool) | Cancelled | NoDevice | Failed

  /** What is left to do in a completion handler. */
  datatype Todo = ReadBuffer | Submit | Discard | QueueAll

  datatype Handler = Idle | Busy(transfer: nat, todo: seq<Todo>)

  /** `listed` is the _transfers vector; `lateSubmits` counts submissions made after stop began. */
  datatype Pool = Pool(transfers: seq<Transfer>, listed: seq<nat>, handler: Handler, attempts: nat,
                       started: bool, shuttingDown: bool, lateSubmits: nat)

  const Start: Pool := Pool([], [], Idle, 0, false, false, 0)

  // ---------------------------------------------------------------- actions under the mutex

  predicate Live(s: Pool, t: nat) {
    t < |s.transfers| && s.transfers[t].status != Freed
  }

  /** Erase the first occurrence. */
  function Without(listed: seq<nat>, t: nat): seq<nat> {
    if listed == [] then [] else if listed[0] == t then listed[1..] else [listed[0]] + Without(listed[1..], t)
  }

  function Release(s: Pool, t: nat): Pool
    requires t < |s.transfers|
  {
    var x := s.transfers[t];
    s.(transfers := s.transfers[t := x.(status := Freed, frees := x.frees + 1)], listed := Without(s.listed, t))
  }

  /** Submit a new transfer; if that fails it is freed at once. */
  function Add(s: Pool, region: nat, kind: Kind, ok: bool): Pool {
    s.(transfers := s.transfers + [if ok then Transfer(region, kind, InFlight, 0) else Transfer(region, kind, Freed, 1)],
       listed := if ok then s.listed + [|s.transfers|] else s.listed,
       lateSubmits := if s.shuttingDown then s.lateSubmits + 1 else s.lateSubmits)
  }

  /** Add the transfers for regions `from` and up. */
  function AddFrom(s: Pool, from: nat, oks: seq<bool>): Pool
    requires |oks| == TRANSFER_POOL_SIZE && from <= TRANSFER_POOL_SIZE
    decreases TRANSFER_POOL_SIZE - from
  {
    if from == TRANSFER_POOL_SIZE then s else AddFrom(Add(s, from, Pooled, oks[from]), from + 1, oks)
  }

  function QueueReads(s: Pool, oks: seq<bool>): Pool
    requires |oks| == TRANSFER_POOL_SIZE
  {
    if s.shuttingDown then s else AddFrom(s, 0, oks)
  }

  /** Back to libusb with the transfer; it is freed instead if that fails or stop has begun. */
  function Resubmit(s: Pool, t: nat, ok: bool): Pool
    requires t < |s.transfers|
  {
    if !s.shuttingDown && ok then s.(transfers := s.transfers[t := s.transfers[t].(status := InFlight)])
    else Release(s, t)
  }

  // ---------------------------------------------------------------- executions

  function HandlerFor(kind: Kind, outcome: Outcome, attempts: nat): seq<Todo> {
    match outcome
    case Cancelled => [Submit]
    case NoDevice => [Discard]
    case Filled(atFrameStart) =>
      if kind == Pooled then [ReadBuffer, Submit]
      else if atFrameStart then [ReadBuffer, Discard, QueueAll]
      else if attempts < MAX_PROBE_ATTEMPTS then [Submit] else [Discard]
    case Failed =>
      if kind == Pooled || attempts < MAX_PROBE_ATTEMPTS then [Submit] else [Discard]
  }

  predicate CountsAttempt(kind: Kind, outcome: Outcome) {
    kind == Probe && (outcome.Failed? || (outcome.Filled? && !outcome.atFrameStart))
  }

  datatype Action =
    | StartAligned(ok: bool)                      // start: submit the probe
    | StartDirect(oks: seq<bool>)                 // start: queue all reads
    | Complete(t: nat, outcome: Outcome)          // libusb calls the completion handler
    | RunHandler(ok: bool, oks: seq<bool>)        // the handler's next action
    | BeginStop                                   // stop: no more submissions; cancel the rest

  predicate Enabled(s: Pool, a: Action) {
    match a
    case StartAligned(_) => true
    case StartDirect(oks) => |oks| == TRANSFER_POOL_SIZE
    case Complete(t, _) => s.handler == Idle && t < |s.transfers| && s.transfers[t].status == InFlight
    case RunHandler(_, oks) =>
      s.handler.Busy? && s.handler.todo != [] && s.handler.transfer < |s.transfers| && |oks| == TRANSFER_POOL_SIZE
    case BeginStop => true
  }

  function RunTodo(s: Pool, t: nat, todo: Todo, ok: bool, oks: seq<bool>): Pool
    requires t < |s.transfers| && |oks| == TRANSFER_POOL_SIZE
  {
    match todo
    case ReadBuffer => s
    case Submit => Resubmit(s, t, ok)
    case Discard => Release(s, t)
    case QueueAll => QueueReads(s, oks)
  }

  function Next(s: Pool, a: Action): Pool
    requires Enabled(s, a)
  {
    match a
    case StartAligned(ok) => Add(s, 0, Probe, ok).(started := true)
    case StartDirect(oks) => QueueReads(s, oks).(started := true)
    case Complete(t, outcome) =>
      s.(transfers := s.transfers[t := s.transfers[t].(status := Handling)],
         handler := Busy(t, HandlerFor(s.transfers[t].kind, outcome, s.attempts)),
         attempts := if CountsAttempt(s.transfers[t].kind, outcome) then s.attempts + 1 else s.attempts)
    case RunHandler(ok, oks) =>
      var t, todo := s.handler.transfer, s.handler.todo;
      RunTodo(s, t, todo[0], ok, oks).(handler := if |todo| == 1 then Idle else Busy(t, todo[1..]))
    case BeginStop => s.(shuttingDown := true)
  }

  // ---------------------------------------------------------------- what every execution keeps

  ghost predicate NoDuplicates(listed: seq<nat>) {
    forall i, j | 0 <= i < j < |listed| :: listed[i] != listed[j]
  }

  /** The vector holds exactly the transfers that have not been freed; those freed were freed once. */
  ghost predicate Accounted(s: Pool) {
    && NoDuplicates(s.listed)
    && (forall t: nat :: t in s.listed <==> Live(s, t))
    && (forall t | 0 <= t < |s.transfers| :: s.transfers[t].frees == if s.transfers[t].status == Freed then 1 else 0)
  }

  /** Transfers that may touch their buffer use different parts of it. */
  ghost predicate Disjoint(s: Pool) {
    && (forall t | 0 <= t < |s.transfers| :: s.transfers[t].region < TRANSFER_POOL_SIZE)
    && (forall t, u | 0 <= t < u < |s.transfers| && Live(s, t) && Live(s, u) ::
          s.transfers[t].region != s.transfers[u].region)
  }

  /** The handler works on its own transfer, and queues the pool only after letting the probe go. */
  ghost predicate HandlerOk(s: Pool) {
    && (forall t | 0 <= t < |s.transfers| && s.transfers[t].status == Handling ::
          s.handler.Busy? && s.handler.transfer == t)
    && (s.handler.Busy? ==>
          var t, todo := s.handler.transfer, s.handler.todo;
          && t < |s.transfers|
          && todo in {[ReadBuffer, Submit], [Submit], [Discard], [ReadBuffer, Discard, QueueAll],
                      [Discard, QueueAll], [QueueAll]}
          && (todo == [QueueAll] || s.transfers[t].status == Handling)
          && (QueueAll in todo ==> |s.transfers| == 1)
          && (todo == [QueueAll] ==> s.transfers[0].status == Freed))
  }

  ghost predicate Inv(s: Pool) {
    && Accounted(s) && Disjoint(s) && HandlerOk(s)
    && (!s.started ==> s.transfers == [] && s.handler == Idle)
    && (forall t | 1 <= t < |s.transfers| :: s.transfers[t].kind == Pooled)
    && (|s.transfers| > 0 && s.transfers[0].kind == Probe && Live(s, 0) ==> |s.transfers| == 1)
    && s.lateSubmits == 0
  }

  lemma {:induction false} WithoutRemoves(listed: seq<nat>, t: nat)
    requires NoDuplicates(listed)
    ensures NoDuplicates(Without(listed, t))
    ensures forall u: nat :: u in Without(listed, t) <==> u in listed && u != t
  {
    if listed != [] && listed[0] != t {
      var rest := listed[1..];
      assert forall i | 0 <= i < |rest| :: rest[i] == listed[i + 1];
      WithoutRemoves(rest, t);
      assert listed == [listed[0]] + rest;
      assert forall i | 1 <= i < |listed| :: listed[0] != listed[i];
      assert listed[0] !in rest;
    } else if listed != [] {
      assert listed == [t] + listed[1..];
    }
  }

  lemma ReleaseAccounted(s: Pool, t: nat)
    requires Accounted(s) && Live(s, t)
    ensures Accounted(Release(s, t))
    ensures forall u: nat :: Live(Release(s, t), u) <==> Live(s, u) && u != t
  {
    WithoutRemoves(s.listed, t);
  }

  lemma AddAccounted(s: Pool, region: nat, kind: Kind, ok: bool)
    requires Accounted(s)
    ensures Accounted(Add(s, region, kind, ok))
    ensures forall u: nat :: Live(Add(s, region, kind, ok), u) <==> Live(s, u) || (ok && u == |s.transfers|)
  {
    var s', n := Add(s, region, kind, ok), |s.transfers|;
    assert !Live(s, n);
    forall u: nat ensures u in s'.listed <==> Live(s', u) {
    }
  }

  /** Adding the whole pool when nothing is live keeps the regions apart. */
  lemma {:induction false} AddFromKeeps(s: Pool, from: nat, oks: seq<bool>)
    requires |oks| == TRANSFER_POOL_SIZE && from <= TRANSFER_POOL_SIZE
    requires Accounted(s) && Disjoint(s)
    requires forall t | 0 <= t < |s.transfers| && Live(s, t) :: s.transfers[t].region < from
    ensures var s' := AddFrom(s, from, oks);
      && Accounted(s') && Disjoint(s')
      && s.transfers <= s'.transfers
      && (forall t | |s.transfers| <= t < |s'.transfers| ::
            s'.transfers[t].kind == Pooled && s'.transfers[t].status != Handling)
      && (s'.handler, s'.started, s'.shuttingDown) == (s.handler, s.started, s.shuttingDown)
      && (!s.shuttingDown ==> s'.lateSubmits == s.lateSubmits)
    decreases TRANSFER_POOL_SIZE - from
  {
    if from < TRANSFER_POOL_SIZE {
      AddAccounted(s, from, Pooled, oks[from]);
      var s1 := Add(s, from, Pooled, oks[from]);
      AddDisjoint(s, from, oks[from]);
      hide Add, Accounted, Disjoint, Live;
      AddFromKeeps(s1, from + 1, oks);
    }
  }

  lemma AddDisjoint(s: Pool, from: nat, ok: bool)
    requires Disjoint(s) && from < TRANSFER_POOL_SIZE
    requires forall t | 0 <= t < |s.transfers| && Live(s, t) :: s.transfers[t].region < from
    ensures var s1, n := Add(s, from, Pooled, ok), |s.transfers|;
      && Disjoint(s1)
      && (forall t | 0 <= t < |s1.transfers| && Live(s1, t) :: s1.transfers[t].region < from + 1)
      && |s1.transfers| == n + 1 && s.transfers <= s1.transfers
      && s1.transfers[n].kind == Pooled && s1.transfers[n].status != Handling
      && (s1.handler, s1.started, s1.shuttingDown) == (s.handler, s.started, s.shuttingDown)
      && (!s.shuttingDown ==> s1.lateSubmits == s.lateSubmits)
  {
    var s1 := Add(s, from, Pooled, ok);
    assert forall t: nat | t < |s.transfers| :: s1.transfers[t] == s.transfers[t] && (Live(s1, t) <==> Live(s, t));
  }

  lemma QueueReadsKeeps(s: Pool, oks: seq<bool>)
    requires |oks| == TRANSFER_POOL_SIZE && Accounted(s) && Disjoint(s)
    requires forall t: nat :: !Live(s, t)
    ensures var s' := QueueReads(s, oks);
      && Accounted(s') && Disjoint(s')
      && s.transfers <= s'.transfers
      && (forall t | |s.transfers| <= t < |s'.transfers| ::
            s'.transfers[t].kind == Pooled && s'.transfers[t].status != Handling)
      && (s'.handler, s'.started, s'.shuttingDown, s'.lateSubmits)
         == (s.handler, s.started, s.shuttingDown, s.lateSubmits)
  {
    if !s.shuttingDown {
      AddFromKeeps(s, 0, oks);
    }
  }

  /** The one action that submits without looking at the shutdown flag. */
  predicate StartsAfterStop(s: Pool, a: Action) {
    s.shuttingDown && a.StartAligned?
  }

  /** A start that submits although there was one before, or although stop has begun. */
  predicate StartsWrongly(s: Pool, a: Action) {
    || StartsAfterStop(s, a)
    || (s.started && (a.StartAligned? || (a.StartDirect? && !s.shuttingDown)))
  }

  lemma StartKeeps(s: Pool, a: Action)
    requires Inv(s) && Enabled(s, a) && (a.StartAligned? || a.StartDirect?) && !StartsWrongly(s, a)
    ensures Inv(Next(s, a))
  {
    if a.StartAligned? {
      AddAccounted(s, 0, Probe, a.ok);
    } else if !s.shuttingDown {
      QueueReadsKeeps(s, a.oks);
    } else {
      assert forall u: nat :: Live(Next(s, a), u) <==> Live(s, u);
    }
  }

  lemma CompleteKeeps(s: Pool, a: Action)
    requires Inv(s) && Enabled(s, a) && a.Complete?
    ensures Inv(Next(s, a))
  {
    var s' := Next(s, a);
    assert forall u: nat :: Live(s', u) <==> Live(s, u);
  }

  lemma ResubmitKeeps(s: Pool, t: nat, ok: bool)
    requires Accounted(s) && Disjoint(s) && t < |s.transfers| && s.transfers[t].status == Handling
    ensures Accounted(Resubmit(s, t, ok)) && Disjoint(Resubmit(s, t, ok))
    ensures forall u: nat :: Live(Resubmit(s, t, ok), u) ==> Live(s, u)
  {
    if !s.shuttingDown && ok {
      assert forall u: nat :: Live(Resubmit(s, t, ok), u) <==> Live(s, u);
    } else {
      ReleaseAccounted(s, t);
    }
  }

  lemma FinishHandlerKeeps(s: Pool, a: Action)
    requires Inv(s) && Enabled(s, a) && a.RunHandler? && (s.handler.todo[0].Submit? || s.handler.todo[0].Discard?)
    ensures Inv(Next(s, a))
  {
    if s.handler.todo[0].Submit? {
      ResubmitKeeps(s, s.handler.transfer, a.ok);
    } else {
      ReleaseAccounted(s, s.handler.transfer);
    }
    hide Without;
  }

  lemma QueueAllKeeps(s: Pool, a: Action)
    requires Inv(s) && Enabled(s, a) && a.RunHandler? && s.handler.todo[0].QueueAll?
    ensures Inv(Next(s, a))
  {
    assert forall u: nat :: !Live(s, u);
    QueueReadsKeeps(s, a.oks);
    hide QueueReads;
  }

  lemma RunHandlerKeeps(s: Pool, a: Action)
    requires Inv(s) && Enabled(s, a) && a.RunHandler?
    ensures Inv(Next(s, a))
  {
    match s.handler.todo[0]
    case ReadBuffer => assert forall u: nat :: Live(Next(s, a), u) <==> Live(s, u);
    case Submit => FinishHandlerKeeps(s, a);
    case Discard => FinishHandlerKeeps(s, a);
    case QueueAll => QueueAllKeeps(s, a);
  }

  lemma NextKeepsInv(s: Pool, a: Action)
    requires Inv(s) && Enabled(s, a) && !StartsWrongly(s, a)
    ensures Inv(Next(s, a))
  {
    match a
    case StartAligned(_) => StartKeeps(s, a);
    case StartDirect(_) => StartKeeps(s, a);
    case Complete(_, _) => CompleteKeeps(s, a);
    case RunHandler(_, _) => RunHandlerKeeps(s, a);
    case BeginStop => assert forall u: nat :: Live(Next(s, a), u) <==> Live(s, u);
  }

  // ---------------------------------------------------------------- whole executions

  /** Every action is possible when it happens. */
  predicate Possible(s: Pool, actions: seq<Action>)
    decreases |actions|
  {
    actions == [] || (Enabled(s, actions[0]) && Possible(Next(s, actions[0]), actions[1..]))
  }

  function After(s: Pool, actions: seq<Action>): Pool
    requires Possible(s, actions)
    decreases |actions|
  {
    if actions == [] then s else After(Next(s, actions[0]), actions[1..])
  }

  /** start is not called after stop has begun. */
  predicate StartPrecedesStop(s: Pool, actions: seq<Action>)
    requires Possible(s, actions)
    decreases |actions|
  {
    actions == []
    || (!StartsAfterStop(s, actions[0]) && StartPrecedesStop(Next(s, actions[0]), actions[1..]))
  }

  /** start is called once, and not after stop has begun. */
  predicate StartsRightly(s: Pool, actions: seq<Action>)
    requires Possible(s, actions)
    decreases |actions|
  {
    actions == []
    || (!StartsWrongly(s, actions[0]) && StartsRightly(Next(s, actions[0]), actions[1..]))
  }

  /** Main result: in every execution in which start is called once, before stop, at every point (every prefix is an
      execution too): transfers that libusb or a handler may be using have disjoint buffer regions,
      each transfer is freed at most once, the vector lists exactly the ones not freed, and nothing
      has been submitted since stop began. */
  lemma {:induction false} EveryExecution(s: Pool, actions: seq<Action>)
    requires Inv(s) && Possible(s, actions) && StartsRightly(s, actions)
    ensures Inv(After(s, actions))
    decreases |actions|
  {
    if actions != [] {
      NextKeepsInv(s, actions[0]);
      EveryExecution(Next(s, actions[0]), actions[1..]);
    }
  }

  /** So from the beginning on. */
  lemma EveryExecutionFromStart(actions: seq<Action>)
    requires Possible(Start, actions) && StartsRightly(Start, actions)
    ensures Inv(After(Start, actions))
  {
    EveryExecution(Start, actions);
  }

  lemma {:induction false} AddFromAppends(s: Pool, from: nat, oks: seq<bool>)
    requires |oks| == TRANSFER_POOL_SIZE && from <= TRANSFER_POOL_SIZE
    ensures s.transfers <= AddFrom(s, from, oks).transfers
    decreases TRANSFER_POOL_SIZE - from
  {
    if from < TRANSFER_POOL_SIZE {
      AddFromAppends(Add(s, from, Pooled, oks[from]), from + 1, oks);
    }
  }

  /** A live transfer already uses a region that is about to be submitted again. */
  ghost predicate Claimed(s: Pool, from: nat, oks: seq<bool>) {
    exists t :: 0 <= t < |s.transfers| && Live(s, t) && from <= s.transfers[t].region < |oks| && oks[s.transfers[t].region]
  }

  lemma {:induction false} AddFromDisjointIff(s: Pool, from: nat, oks: seq<bool>)
    requires |oks| == TRANSFER_POOL_SIZE && from <= TRANSFER_POOL_SIZE && Disjoint(s)
    ensures Disjoint(AddFrom(s, from, oks)) <==> !Claimed(s, from, oks)
    decreases TRANSFER_POOL_SIZE - from
  {
    if from < TRANSFER_POOL_SIZE {
      var s1, n := Add(s, from, Pooled, oks[from]), |s.transfers|;
      assert forall t | 0 <= t < n :: s1.transfers[t] == s.transfers[t];
      if t: nat :| t < n && Live(s, t) && s.transfers[t].region == from && oks[from] {
        AddFromAppends(s1, from + 1, oks);
        var s' := AddFrom(s, from, oks);
        assert s'.transfers[t] == s1.transfers[t] && s'.transfers[n] == s1.transfers[n];
        assert Live(s', t) && Live(s', n);
      } else {
        AddFromDisjointIff(s1, from + 1, oks);
        ClaimedNext(s, from, oks);
      }
    }
  }

  lemma ClaimedNext(s: Pool, from: nat, oks: seq<bool>)
    requires |oks| == TRANSFER_POOL_SIZE && from < TRANSFER_POOL_SIZE
    requires !exists t: nat :: t < |s.transfers| && Live(s, t) && s.transfers[t].region == from && oks[from]
    ensures Claimed(Add(s, from, Pooled, oks[from]), from + 1, oks) <==> Claimed(s, from, oks)
  {
    var s1 := Add(s, from, Pooled, oks[from]);
    assert forall t | 0 <= t < |s.transfers| :: s1.transfers[t] == s.transfers[t] && (Live(s1, t) <==> Live(s, t));
  }

  /** A start, the first one or another, keeps the regions disjoint if and only if none that it submits
      successfully is in use. The code does not look: it relies on being started once. */
  lemma StartDisjointIff(s: Pool, a: Action)
    requires Disjoint(s) && Enabled(s, a) && (a.StartAligned? || (a.StartDirect? && !s.shuttingDown))
    ensures Disjoint(Next(s, a))
            <==> !Claimed(s, 0, if a.StartDirect? then a.oks else [a.ok, false, false, false])
  {
    if a.StartDirect? {
      AddFromDisjointIff(s, 0, a.oks);
      assert forall t: nat :: Live(Next(s, a), t) <==> Live(AddFrom(s, 0, a.oks), t);
    } else {
      var s', n := Next(s, a), |s.transfers|;
      assert forall t | 0 <= t < n :: s'.transfers[t] == s.transfers[t] && (Live(s', t) <==> Live(s, t));
      assert Live(s', n) <==> a.ok;
      if Claimed(s, 0, [a.ok, false, false, false]) {
        var t: nat :| t < n && Live(s, t) && s.transfers[t].region == 0 && a.ok;
        assert Live(s', t);
      } else {
        assert forall t: nat | t < n && Live(s, t) && a.ok :: s.transfers[t].region != 0;
      }
    }
  }

  lemma {:induction false} AddFromSubmits(s: Pool, from: nat, oks: seq<bool>)
    requires |oks| == TRANSFER_POOL_SIZE && from <= TRANSFER_POOL_SIZE && !s.shuttingDown
    ensures AddFrom(s, from, oks).lateSubmits == s.lateSubmits
    decreases TRANSFER_POOL_SIZE - from
  {
    if from < TRANSFER_POOL_SIZE {
      AddFromSubmits(Add(s, from, Pooled, oks[from]), from + 1, oks);
    }
  }

  /** One action submits after stop has begun exactly if it is the aligned start called too late. */
  lemma SubmitsLateIff(s: Pool, a: Action)
    requires Enabled(s, a)
    ensures Next(s, a).lateSubmits == s.lateSubmits + if StartsAfterStop(s, a) then 1 else 0
  {
    if a.StartDirect? && !s.shuttingDown {
      AddFromSubmits(s, 0, a.oks);
    } else if a.RunHandler? && s.handler.todo[0].QueueAll? && !s.shuttingDown {
      AddFromSubmits(s, 0, a.oks);
    }
  }

  lemma {:induction false} LateSubmitsGrow(s: Pool, actions: seq<Action>)
    requires Possible(s, actions)
    ensures After(s, actions).lateSubmits >= s.lateSubmits
    decreases |actions|
  {
    if actions != [] {
      SubmitsLateIff(s, actions[0]);
      LateSubmitsGrow(Next(s, actions[0]), actions[1..]);
    }
  }

  /** Exactly when nothing is submitted once stop has begun: if and only if start precedes stop. */
  lemma {:induction false} NothingSubmittedLateIff(s: Pool, actions: seq<Action>)
    requires Possible(s, actions)
    ensures After(s, actions).lateSubmits == s.lateSubmits <==> StartPrecedesStop(s, actions)
    decreases |actions|
  {
    if actions != [] {
      SubmitsLateIff(s, actions[0]);
      LateSubmitsGrow(Next(s, actions[0]), actions[1..]);
      NothingSubmittedLateIff(Next(s, actions[0]), actions[1..]);
    }
  }

  /** Once stop has begun, the vector only shrinks; so after stop has seen it empty, no transfer is in
      flight ever again and the buffer may go. */
  lemma {:induction false} EmptiedStaysEmpty(s: Pool, actions: seq<Action>)
    requires Inv(s) && s.shuttingDown && s.listed == []
    requires Possible(s, actions) && StartPrecedesStop(s, actions)
    ensures After(s, actions).listed == []
    ensures forall t | 0 <= t < |After(s, actions).transfers| :: After(s, actions).transfers[t].status == Freed
    decreases |actions|
  {
    if actions != [] {
      var s', a := Next(s, actions[0]), actions[0];
      NextKeepsInv(s, a);
      assert forall t: nat :: !Live(s, t);
      EmptiedStaysEmpty(s', actions[1..]);
    } else {
      forall t: nat | t < |s.transfers| ensures s.transfers[t].status == Freed {
        assert t !in s.listed;
        assert !Live(s, t);
      }
    }
  }

  /** An empty vector means that no handler has anything left to do with a transfer; but the probe's handler
      may still be on its way to queue the pool, which it then finds shut down. */
  lemma EmptiedHandler(s: Pool)
    requires Inv(s) && s.shuttingDown && s.listed == []
    ensures s.handler == Idle || s.handler.todo == [QueueAll]
    ensures forall ok, oks | Enabled(s, RunHandler(ok, oks)) :: Next(s, RunHandler(ok, oks)) == s.(handler := Idle)
  {
    assert s.handler.Busy? ==> !Live(s, s.handler.transfer);
  }

  /** Stop begins while the probe's handler passes its chunk on; the handler then lets the probe go. */
  function StopDuringProbe(oks: seq<bool>): seq<Action> {
    [StartAligned(true), Complete(0, Filled(true)), RunHandler(true, oks), BeginStop, RunHandler(true, oks)]
  }

  /** So stop can find the vector empty while a handler is still running. */
  lemma EmptiedWhileHandling(oks: seq<bool>)
    requires |oks| == TRANSFER_POOL_SIZE
    ensures Possible(Start, StopDuringProbe(oks)) && StartsRightly(Start, StopDuringProbe(oks))
    ensures var s := After(Start, StopDuringProbe(oks));
      s.shuttingDown && s.listed == [] && s.handler == Busy(0, [QueueAll])
  {
    var a := StopDuringProbe(oks);
    var s1 := Next(Start, a[0]);
    var s2 := Next(s1, a[1]);
    var s3 := Next(s2, a[2]);
    var s4 := Next(s3, a[3]);
    var s5 := Next(s4, a[4]);
    assert s2.handler == Busy(0, [ReadBuffer, Discard, QueueAll]);
    assert s4.handler == Busy(0, [Discard, QueueAll]) && s4.listed == [0];
    assert Without([0], 0) == [] && s5.listed == [];
    OneMore(s4, a[4], []);
    OneMore(s3, a[3], [a[4]]);
    OneMore(s2, a[2], [a[3], a[4]]);
    OneMore(s1, a[1], [a[2], a[3], a[4]]);
    OneMore(Start, a[0], [a[1], a[2], a[3], a[4]]);
  }

  lemma OneMore(s: Pool, a: Action, rest: seq<Action>)
    requires Enabled(s, a) && !StartsWrongly(s, a) && Possible(Next(s, a), rest) && StartsRightly(Next(s, a), rest)
    ensures Possible(s, [a] + rest) && StartsRightly(s, [a] + rest)
    ensures After(s, [a] + rest) == After(Next(s, a), rest)
  {
    assert ([a] + rest)[1..] == rest;
  }

  // ---------------------------------------------------------------- what keeps capture going

  /** A read of one region; freed at once if it is not accepted. */
  function Read(region: nat, ok: bool): Transfer {
    if ok then Transfer(region, Pooled, InFlight, 0) else Transfer(region, Pooled, Freed, 1)
  }

  /** A read of every region from `from` on. */
  function Reads(from: nat, oks: seq<bool>): seq<Transfer>
    requires |oks| == TRANSFER_POOL_SIZE && from <= TRANSFER_POOL_SIZE
  {
    seq(TRANSFER_POOL_SIZE - from, i requires 0 <= i < TRANSFER_POOL_SIZE - from => Read(from + i, oks[from + i]))
  }

  lemma {:induction false} AddFromLaysOut(s: Pool, from: nat, oks: seq<bool>)
    requires |oks| == TRANSFER_POOL_SIZE && from <= TRANSFER_POOL_SIZE
    ensures AddFrom(s, from, oks).transfers == s.transfers + Reads(from, oks)
    decreases TRANSFER_POOL_SIZE - from
  {
    if from < TRANSFER_POOL_SIZE {
      var s1 := Add(s, from, Pooled, oks[from]);
      AddFromLaysOut(s1, from + 1, oks);
      assert s1.transfers == s.transfers + [Read(from, oks[from])];
      hide Add, Read;
      assert Reads(from, oks) == [Read(from, oks[from])] + Reads(from + 1, oks);
      assert AddFrom(s, from, oks) == AddFrom(s1, from + 1, oks);
    }
  }

  /** A start puts one probe, or one read for each region, in flight, as far as they are accepted. */
  lemma StartSubmits(s: Pool, a: Action)
    requires Enabled(s, a) && (a.StartAligned? || (a.StartDirect? && !s.shuttingDown))
    ensures var s', n := Next(s, a), |s.transfers|;
      && s.transfers <= s'.transfers
      && (a.StartAligned? ==>
            && |s'.transfers| == n + 1
            && s'.transfers[n].(frees := 0) == Transfer(0, Probe, if a.ok then InFlight else Freed, 0))
      && (a.StartDirect? ==>
            s'.transfers == s.transfers + Reads(0, a.oks))
  {
    if a.StartDirect? {
      AddFromLaysOut(s, 0, a.oks);
    }
  }

  /** Nothing happens that could end a read: no stop, no device gone, no submission refused. */
  predicate Undisturbed(a: Action) {
    match a
    case BeginStop => false
    case Complete(_, outcome) => !outcome.NoDevice?
    case RunHandler(ok, _) => ok
    case _ => true
  }

  /** A handler at work on a pooled read is going to submit it again. */
  predicate WillResubmit(s: Pool) {
    s.handler.Busy? ==>
      && s.handler.transfer < |s.transfers|
      && (s.transfers[s.handler.transfer].kind == Pooled ==>
            s.handler.todo == [ReadBuffer, Submit] || s.handler.todo == [Submit])
  }

  /** Pooled reads that have not been freed. */
  ghost predicate Reading(s: Pool, t: nat) { Live(s, t) && s.transfers[t].kind == Pooled }

  lemma UndisturbedStep(s: Pool, a: Action)
    requires Enabled(s, a) && Undisturbed(a) && !s.shuttingDown && WillResubmit(s)
    ensures var s' := Next(s, a);
      !s'.shuttingDown && WillResubmit(s') && forall t: nat :: Reading(s, t) ==> Reading(s', t)
  {
    match a
    case StartAligned(_) =>
    case StartDirect(oks) => AddFromLaysOut(s, 0, oks); QueueReadsFlags(s, oks);
    case Complete(_, _) =>
    case RunHandler(_, oks) =>
      if s.handler.todo[0] == QueueAll {
        AddFromLaysOut(s, 0, oks);
        QueueReadsFlags(s, oks);
      }
  }

  lemma {:induction false} AddFromFlags(s: Pool, from: nat, oks: seq<bool>)
    requires |oks| == TRANSFER_POOL_SIZE && from <= TRANSFER_POOL_SIZE
    ensures var s' := AddFrom(s, from, oks);
      s'.shuttingDown == s.shuttingDown && s'.handler == s.handler && s'.attempts == s.attempts
    decreases TRANSFER_POOL_SIZE - from
  {
    if from < TRANSFER_POOL_SIZE {
      AddFromFlags(Add(s, from, Pooled, oks[from]), from + 1, oks);
    }
  }

  lemma QueueReadsFlags(s: Pool, oks: seq<bool>)
    requires |oks| == TRANSFER_POOL_SIZE
    ensures var s' := QueueReads(s, oks);
      s'.shuttingDown == s.shuttingDown && s'.handler == s.handler && s'.attempts == s.attempts
  {
    AddFromFlags(s, 0, oks);
  }

  /** Main result on keeping up: as long as stop has not begun, the device is there and submissions are
      accepted, no read that was ever started is lost; whenever no handler is running, all are in flight. */
  lemma {:induction false} ReadsNeverEnd(s: Pool, actions: seq<Action>)
    requires Inv(s) && Possible(s, actions) && StartsRightly(s, actions)
    requires forall i | 0 <= i < |actions| :: Undisturbed(actions[i])
    requires !s.shuttingDown && WillResubmit(s)
    ensures var s' := After(s, actions);
      && (forall t: nat :: Reading(s, t) ==> Reading(s', t))
      && (s'.handler == Idle ==> forall t: nat :: Reading(s, t) ==> s'.transfers[t].status == InFlight)
    decreases |actions|
  {
    if actions == [] {
      assert s.handler == Idle ==> forall t: nat :: Live(s, t) ==> s.transfers[t].status == InFlight;
    } else {
      UndisturbedStep(s, actions[0]);
      NextKeepsInv(s, actions[0]);
      hide Inv, Next, WillResubmit, Enabled;
      ReadsNeverEnd(Next(s, actions[0]), actions[1..]);
    }
  }
}
