/** The bounded export queue as a state machine: states, operations, and what every run keeps. */
module ExportQueueSpec {
  import opened Common
  import Planner

  const PENDING_JOB_LIMIT: nat := 2

  datatype ExportJob = ExportJob(sourcePath: string, destinationPath: string, plan: Planner.Plan)

  datatype Stage = Preparing | Encoding | Probing | Decoding | Publishing

  datatype Progress = Progress(stage: Stage, percent: nat)

  datatype Status = Completed | Failed(reason: string) | Cancelled

  /** A job in the active slot or behind it. */
  datatype Item = Item(id: nat, job: ExportJob, cancelled: bool, progress: Progress)

  /** A finished job. */
  datatype Terminal = Terminal(id: nat, job: ExportJob, status: Status, progress: Progress, cancellationRequested: bool)

  datatype State = State(nextId: nat, active: Option<Item>, pending: seq<Item>, history: seq<Terminal>)

  datatype QueueError =
    | QueueFull
    | Busy
    | StateUnavailable
    | UnknownJob(id: nat)
    | NotActive(id: nat)
    | CancellationRequested(id: nat)
    | CancellationNotRequested(id: nat)
    | JobIdExhausted

  datatype CancelOutcome = QueuedCancelled | ActiveCancellationRequested

  /** What trying the lock finds. */
  datatype Lock = Free | Held | Poisoned

  function LockError(lock: Lock): QueueError
    requires !lock.Free?
  {
    if lock.Held? then Busy else StateUnavailable
  }

  const INITIAL: State := State(1, None, [], [])

  function PushTerminal(history: seq<Terminal>, t: Terminal, limit: nat): seq<Terminal> {
    if limit == 0 then history
    else if |history| >= limit then history[1..] + [t]
    else history + [t]
  }

  function Finish(e: Item, status: Status): Terminal {
    Terminal(e.id, e.job, status, e.progress, status.Cancelled?)
  }

  /** The active slot after its job left: the oldest pending job moves up. */
  function Promote(s: State): State {
    if s.active.None? && s.pending != [] then s.(active := Some(s.pending[0]), pending := s.pending[1..]) else s
  }

  function Retire(s: State, status: Status, limit: nat): State
    requires s.active.Some?
  {
    Promote(s.(active := None, history := PushTerminal(s.history, Finish(s.active.value, status), limit)))
  }

  function Submit(s: State, job: ExportJob): (State, Result<nat, QueueError>) {
    if s.active.Some? && |s.pending| >= PENDING_JOB_LIMIT then (s, Err(QueueFull))
    else if s.nextId + 1 > U64_MAX then (s, Err(JobIdExhausted))
    else
      var e := Item(s.nextId, job, false, Progress(Preparing, 0));
      var s1 := s.(nextId := s.nextId + 1);
      (if s.active.None? then s1.(active := Some(e)) else s1.(pending := s.pending + [e]), Ok(s.nextId))
  }

  /** The place of the first pending job with this id, or the length of the queue. */
  function Position(pending: seq<Item>, id: nat): (r: nat)
    ensures r <= |pending|
    ensures r < |pending| ==> pending[r].id == id
    ensures forall i | 0 <= i < r :: pending[i].id != id
  {
    if pending == [] || pending[0].id == id then 0 else 1 + Position(pending[1..], id)
  }

  function Cancel(s: State, id: nat, limit: nat): (State, Result<CancelOutcome, QueueError>) {
    if s.active.Some? && s.active.value.id == id then
      (s.(active := Some(s.active.value.(cancelled := true))), Ok(ActiveCancellationRequested))
    else
      var at := Position(s.pending, id);
      if at < |s.pending| then
        var e := s.pending[at].(cancelled := true);
        (s.(pending := s.pending[..at] + s.pending[at + 1..],
            history := PushTerminal(s.history, Finish(e, Cancelled), limit)),
         Ok(QueuedCancelled))
      else if exists t :: t in s.history && t.id == id then (s, Err(NotActive(id)))
      else (s, Err(UnknownJob(id)))
  }

  predicate IsActive(s: State, id: nat) {
    s.active.Some? && s.active.value.id == id
  }

  function Complete(s: State, id: nat, limit: nat): (State, Result<(), QueueError>) {
    if !IsActive(s, id) then (s, Err(NotActive(id)))
    else if s.active.value.cancelled then (s, Err(CancellationRequested(id)))
    else (Retire(s, Completed, limit), Ok(()))
  }

  function Fail(s: State, id: nat, reason: string, limit: nat): (State, Result<(), QueueError>) {
    if !IsActive(s, id) then (s, Err(NotActive(id)))
    else if s.active.value.cancelled then (s, Err(CancellationRequested(id)))
    else (Retire(s, Failed(reason), limit), Ok(()))
  }

  function FinishCancelled(s: State, id: nat, limit: nat): (State, Result<(), QueueError>) {
    if !IsActive(s, id) then (s, Err(NotActive(id)))
    else if !s.active.value.cancelled then (s, Err(CancellationNotRequested(id)))
    else (Retire(s, Cancelled, limit), Ok(()))
  }

  function UpdateProgress(s: State, id: nat, p: Progress): (State, Result<(), QueueError>) {
    if !IsActive(s, id) then (s, Err(NotActive(id)))
    else (s.(active := Some(s.active.value.(progress := p.(percent := Min(p.percent, 100))))), Ok(()))
  }

  /** A holder of a live job's cancellation token signals it, outside the queue. */
  function SignalToken(s: State, id: nat): State {
    State(
      s.nextId,
      if IsActive(s, id) then Some(s.active.value.(cancelled := true)) else s.active,
      seq(|s.pending|, i requires 0 <= i < |s.pending| =>
        if s.pending[i].id == id then s.pending[i].(cancelled := true) else s.pending[i]),
      s.history)
  }

  // ---------------------------------------------------------------------------
  // Runs.

  datatype Op =
    | SubmitOp(job: ExportJob)
    | CancelOp(id: nat)
    | CompleteOp(id: nat)
    | FailOp(id: nat, reason: string)
    | FinishCancelledOp(id: nat)
    | ProgressOp(id: nat, progress: Progress)
    | TokenOp(id: nat)

  function Apply(s: State, op: Op, limit: nat): State {
    match op
    case SubmitOp(job) => Submit(s, job).0
    case CancelOp(id) => Cancel(s, id, limit).0
    case CompleteOp(id) => Complete(s, id, limit).0
    case FailOp(id, reason) => Fail(s, id, reason, limit).0
    case FinishCancelledOp(id) => FinishCancelled(s, id, limit).0
    case ProgressOp(id, p) => UpdateProgress(s, id, p).0
    case TokenOp(id) => SignalToken(s, id)
  }

  /** The record the operation finishes, if any. */
  function Finished(s: State, op: Op): Option<Terminal> {
    match op
    case CompleteOp(id) =>
      if IsActive(s, id) && !s.active.value.cancelled then Some(Finish(s.active.value, Completed)) else None
    case FailOp(id, reason) =>
      if IsActive(s, id) && !s.active.value.cancelled then Some(Finish(s.active.value, Failed(reason))) else None
    case FinishCancelledOp(id) =>
      if IsActive(s, id) && s.active.value.cancelled then Some(Finish(s.active.value, Cancelled)) else None
    case CancelOp(id) =>
      if IsActive(s, id) || Position(s.pending, id) == |s.pending| then None
      else Some(Finish(s.pending[Position(s.pending, id)], Cancelled))
    case _ => None
  }

  predicate Live(s: State, id: nat) {
    IsActive(s, id) || exists e :: e in s.pending && e.id == id
  }

  /**
   * A queue with everything that ever happened to it: the ids accepted, every finished record,
   * the ids in the order they became active, and the live ids whose cancellation was requested.
   */
  datatype World = World(queue: State, accepted: seq<nat>, log: seq<Terminal>, activated: seq<nat>, requested: set<nat>)

  const START: World := World(INITIAL, [], [], [], {})

  function Step(w: World, op: Op, limit: nat): World {
    var q := Apply(w.queue, op, limit);
    var finished := Finished(w.queue, op);
    World(
      q,
      if q.nextId > w.queue.nextId then w.accepted + [w.queue.nextId] else w.accepted,
      if finished.Some? then w.log + [finished.value] else w.log,
      if q.active.Some? && !IsActive(w.queue, q.active.value.id)
      then w.activated + [q.active.value.id] else w.activated,
      if (op.CancelOp? || op.TokenOp?) && Live(w.queue, op.id) then w.requested + {op.id} else w.requested)
  }

  function Run(ops: seq<Op>, limit: nat): World {
    if ops == [] then START else Step(Run(ops[..|ops| - 1], limit), ops[|ops| - 1], limit)
  }

  function LiveItems(s: State): seq<Item> {
    (if s.active.Some? then [s.active.value] else []) + s.pending
  }

  function ItemIds(items: seq<Item>): seq<nat> {
    seq(|items|, i requires 0 <= i < |items| => items[i].id)
  }

  function TerminalIds(log: seq<Terminal>): seq<nat> {
    seq(|log|, i requires 0 <= i < |log| => log[i].id)
  }

  predicate Increasing(s: seq<nat>) {
    forall i, j | 0 <= i < j < |s| :: s[i] < s[j]
  }

  /** The shape of the queue: pending jobs wait behind an active one, in the order they were accepted. */
  predicate Shape(s: State) {
    && (s.active.None? ==> s.pending == [])
    && |s.pending| <= PENDING_JOB_LIMIT
    && 1 <= s.nextId <= U64_MAX
    && Ordered(LiveItems(s), s.nextId)
  }

  predicate Ordered(live: seq<Item>, nextId: nat) {
    && (forall i, j | 0 <= i < j < |live| :: live[i].id < live[j].id)
    && (forall i | 0 <= i < |live| :: 1 <= live[i].id < nextId && live[i].progress.percent <= 100)
  }

  /** Ids 1, 2, 3, ... below `nextId`. */
  function FirstIds(nextId: nat): seq<nat>
    requires nextId >= 1
  {
    seq(nextId - 1, i requires 0 <= i < nextId - 1 => i + 1)
  }

  /** Every accepted job is in exactly one place: active, pending, or finished. */
  predicate Accounted(accepted: seq<nat>, live: seq<Item>, log: seq<Terminal>, nextId: nat) {
    && nextId >= 1
    && accepted == FirstIds(nextId)
    && multiset(accepted) == multiset(ItemIds(live)) + multiset(TerminalIds(log))
  }

  /** Jobs become active in the order they were accepted. */
  predicate InOrder(activated: seq<nat>, live: seq<Item>, nextId: nat) {
    && Increasing(activated)
    && (live != [] ==> activated != [] && activated[|activated| - 1] == live[0].id)
    && (forall i | 0 <= i < |activated| :: activated[i] < nextId)
    && (forall i, j | 0 <= i < |activated| && 1 <= j < |live| :: activated[i] < live[j].id)
  }

  /** Requests are remembered, and a job that was asked to stop only ever finishes as cancelled. */
  predicate Cooperative(live: seq<Item>, log: seq<Terminal>, requested: set<nat>, activated: seq<nat>, nextId: nat) {
    && (forall i | 0 <= i < |live| :: live[i].cancelled <==> live[i].id in requested)
    && (forall i | 0 <= i < |log| ::
          && (log[i].status.Cancelled? <==> log[i].id in requested)
          && log[i].cancellationRequested == log[i].status.Cancelled?
          && (!log[i].status.Cancelled? ==> log[i].id in activated))
    && (forall id | id in requested :: id < nextId)
  }

  predicate Invariant(w: World, limit: nat) {
    var live := LiveItems(w.queue);
    && Shape(w.queue)
    && Accounted(w.accepted, live, w.log, w.queue.nextId)
    && InOrder(w.activated, live, w.queue.nextId)
    && Cooperative(live, w.log, w.requested, w.activated, w.queue.nextId)
    && w.queue.history == LastOf(w.log, limit)
  }

  lemma PushTerminalKeepsLast(log: seq<Terminal>, t: Terminal, limit: nat)
    ensures PushTerminal(LastOf(log, limit), t, limit) == LastOf(log + [t], limit)
  {
  }

  // A job arrives at the back.

  lemma ArriveOrdered(live: seq<Item>, e: Item, nextId: nat)
    requires Ordered(live, nextId) && e.id == nextId >= 1 && e.progress.percent <= 100
    ensures Ordered(live + [e], nextId + 1)
  {
  }

  lemma ArriveAccounted(accepted: seq<nat>, live: seq<Item>, log: seq<Terminal>, e: Item, nextId: nat)
    requires Accounted(accepted, live, log, nextId) && e.id == nextId
    ensures Accounted(accepted + [nextId], live + [e], log, nextId + 1)
  {
    assert FirstIds(nextId + 1) == FirstIds(nextId) + [nextId];
    assert ItemIds(live + [e]) == ItemIds(live) + [e.id];
  }

  lemma ArriveInOrder(activated: seq<nat>, live: seq<Item>, e: Item, nextId: nat)
    requires InOrder(activated, live, nextId) && e.id == nextId
    ensures InOrder(if live == [] then activated + [e.id] else activated, live + [e], nextId + 1)
  {
  }

  lemma ArriveCooperative(
      live: seq<Item>, log: seq<Terminal>, requested: set<nat>, activated: seq<nat>, more: seq<nat>, e: Item,
      nextId: nat)
    requires Cooperative(live, log, requested, activated, nextId) && e.id == nextId && !e.cancelled
    ensures Cooperative(live + [e], log, requested, activated + more, nextId + 1)
  {
  }

  // A job leaves from anywhere.

  function Without(live: seq<Item>, at: nat): seq<Item>
    requires at < |live|
  {
    live[..at] + live[at + 1..]
  }

  lemma LeaveOrdered(live: seq<Item>, at: nat, nextId: nat)
    requires Ordered(live, nextId) && at < |live|
    ensures Ordered(Without(live, at), nextId)
    ensures forall i | 0 <= i < |Without(live, at)| :: Without(live, at)[i].id != live[at].id
  {
    var left := Without(live, at);
    forall i | 0 <= i < |left| ensures left[i] == live[if i < at then i else i + 1] {
    }
  }

  lemma LeaveAccounted(accepted: seq<nat>, live: seq<Item>, log: seq<Terminal>, at: nat, t: Terminal, nextId: nat)
    requires Accounted(accepted, live, log, nextId) && at < |live| && t.id == live[at].id
    ensures Accounted(accepted, Without(live, at), log + [t], nextId)
  {
    var ids := ItemIds(live);
    assert ids == ids[..at] + [ids[at]] + ids[at + 1..];
    assert ItemIds(Without(live, at)) == ids[..at] + ids[at + 1..];
    assert TerminalIds(log + [t]) == TerminalIds(log) + [t.id];
  }

  lemma LeaveInOrder(activated: seq<nat>, live: seq<Item>, at: nat, nextId: nat)
    requires InOrder(activated, live, nextId) && Ordered(live, nextId) && at < |live|
    ensures InOrder(if at == 0 && |live| > 1 then activated + [live[1].id] else activated, Without(live, at), nextId)
  {
    var left := Without(live, at);
    forall i | 0 <= i < |left| ensures left[i] == live[if i < at then i else i + 1] {
    }
  }

  lemma LeaveCooperative(
      live: seq<Item>, log: seq<Terminal>, requested: set<nat>, activated: seq<nat>, more: seq<nat>, at: nat,
      t: Terminal, asked: set<nat>, nextId: nat)
    requires Cooperative(live, log, requested, activated, nextId) && Ordered(live, nextId) && at < |live|
    requires t.id == live[at].id && asked <= {t.id}
    requires forall i | 0 <= i < |log| :: log[i].id != t.id
    requires t.status.Cancelled? == t.cancellationRequested
    requires t.status.Cancelled? <==> t.id in requested + asked
    requires !t.status.Cancelled? ==> t.id in activated
    ensures Cooperative(Without(live, at), log + [t], requested + asked, activated + more, nextId)
  {
    var left := Without(live, at);
    LeaveOrdered(live, at, nextId);
    forall i | 0 <= i < |left| ensures left[i] == live[if i < at then i else i + 1] {
    }
  }

  /** A live job is not in the log. */
  lemma LiveNotFinished(accepted: seq<nat>, live: seq<Item>, log: seq<Terminal>, nextId: nat, i: nat, j: nat)
    requires Accounted(accepted, live, log, nextId) && i < |live| && j < |log|
    ensures live[i].id != log[j].id
  {
    assert ItemIds(live)[i] in multiset(ItemIds(live));
    assert TerminalIds(log)[j] in multiset(TerminalIds(log));
    if live[i].id == log[j].id {
      assert multiset(accepted)[live[i].id] >= 2;
      FirstIdsOnce(nextId, live[i].id);
    }
  }

  lemma {:induction false} FirstIdsOnce(nextId: nat, id: nat)
    requires nextId >= 1
    ensures multiset(FirstIds(nextId))[id] == if 1 <= id < nextId then 1 else 0
  {
    if nextId != 1 {
      assert FirstIds(nextId) == FirstIds(nextId - 1) + [nextId - 1];
      FirstIdsOnce(nextId - 1, id);
    }
  }

  // A live job is changed in place.

  predicate SameIds(live: seq<Item>, same: seq<Item>) {
    |live| == |same| && forall i | 0 <= i < |live| :: live[i].id == same[i].id
  }

  lemma ChangeKeeps(
      accepted: seq<nat>, live: seq<Item>, same: seq<Item>, log: seq<Terminal>, activated: seq<nat>,
      nextId: nat)
    requires SameIds(live, same) && forall i | 0 <= i < |same| :: same[i].progress.percent <= 100
    requires Ordered(live, nextId) && Accounted(accepted, live, log, nextId) && InOrder(activated, live, nextId)
    ensures Ordered(same, nextId) && Accounted(accepted, same, log, nextId) && InOrder(activated, same, nextId)
  {
    assert ItemIds(live) == ItemIds(same);
  }

  lemma AskCooperative(
      live: seq<Item>, same: seq<Item>, log: seq<Terminal>, requested: set<nat>, activated: seq<nat>, id: nat,
      nextId: nat)
    requires Cooperative(live, log, requested, activated, nextId) && SameIds(live, same) && id < nextId
    requires forall i | 0 <= i < |same| :: same[i].cancelled == (live[i].cancelled || live[i].id == id)
    requires forall i | 0 <= i < |log| :: log[i].id != id
    ensures Cooperative(same, log, requested + {id}, activated, nextId)
  {
  }

  // The operations.

  lemma SubmitKeeps(w: World, job: ExportJob, limit: nat)
    requires Invariant(w, limit)
    ensures Invariant(Step(w, SubmitOp(job), limit), limit)
  {
    hide Ordered, Accounted, InOrder, Cooperative, LastOf;
    var v := Step(w, SubmitOp(job), limit);
    if v.queue.nextId > w.queue.nextId {
      var live, nextId := LiveItems(w.queue), w.queue.nextId;
      var e := Item(nextId, job, false, Progress(Preparing, 0));
      assert LiveItems(v.queue) == live + [e];
      var more := if live == [] then [e.id] else [];
      assert v.activated == w.activated + more by {
        if live != [] { assert w.activated + [] == w.activated; }
      }
      ArriveOrdered(live, e, nextId);
      ArriveAccounted(w.accepted, live, w.log, e, nextId);
      ArriveInOrder(w.activated, live, e, nextId);
      ArriveCooperative(live, w.log, w.requested, w.activated, more, e, nextId);
    }
  }

  lemma LeavingRecord(
      live: seq<Item>, log: seq<Terminal>, requested: set<nat>, activated: seq<nat>, at: nat, nextId: nat)
    requires Cooperative(live, log, requested, activated, nextId) && InOrder(activated, live, nextId) && at < |live|
    ensures live[at].cancelled <==> live[at].id in requested
    ensures at == 0 ==> live[at].id in activated
  {
    if at == 0 { assert activated[|activated| - 1] in activated; }
  }

  /** The job at `at` in the live order finishes with record `t`, after possibly being asked to stop. */
  lemma LeaveKeeps(w: World, v: World, at: nat, t: Terminal, asked: set<nat>, limit: nat)
    requires Invariant(w, limit) && at < |LiveItems(w.queue)|
    requires t.id == LiveItems(w.queue)[at].id && asked <= {t.id}
    requires t.status.Cancelled? == t.cancellationRequested
    requires t.status.Cancelled? <==> (LiveItems(w.queue)[at].cancelled || asked == {t.id})
    requires !t.status.Cancelled? ==> at == 0
    requires LiveItems(v.queue) == Without(LiveItems(w.queue), at)
    requires v.queue.active.None? ==> v.queue.pending == []
    requires v.queue.nextId == w.queue.nextId && |v.queue.pending| <= |w.queue.pending|
    requires v.queue.history == PushTerminal(w.queue.history, t, limit)
    requires v.accepted == w.accepted && v.log == w.log + [t] && v.requested == w.requested + asked
    requires v.activated ==
             if at == 0 && |LiveItems(w.queue)| > 1 then w.activated + [LiveItems(w.queue)[1].id] else w.activated
    ensures Invariant(v, limit)
  {
    var live, nextId := LiveItems(w.queue), w.queue.nextId;
    hide Ordered, Accounted, InOrder, Cooperative, LastOf, PushTerminal, Without;
    var more := if at == 0 && |live| > 1 then [live[1].id] else [];
    assert v.activated == w.activated + more;
    forall j | 0 <= j < |w.log| ensures w.log[j].id != t.id {
      LiveNotFinished(w.accepted, live, w.log, nextId, at, j);
    }
    LeavingRecord(live, w.log, w.requested, w.activated, at, nextId);
    assert t.id in asked <==> asked == {t.id};
    PushTerminalKeepsLast(w.log, t, limit);
    LeaveOrdered(live, at, nextId);
    LeaveAccounted(w.accepted, live, w.log, at, t, nextId);
    LeaveInOrder(w.activated, live, at, nextId);
    LeaveCooperative(live, w.log, w.requested, w.activated, more, at, t, asked, nextId);
  }

  /** Any way the active job can finish. */
  lemma RetireKeeps(w: World, op: Op, status: Status, limit: nat)
    requires Invariant(w, limit) && w.queue.active.Some?
    requires op.CompleteOp? || op.FailOp? || op.FinishCancelledOp?
    requires Finished(w.queue, op) == Some(Finish(w.queue.active.value, status))
    requires Apply(w.queue, op, limit) == Retire(w.queue, status, limit)
    requires status.Cancelled? <==> w.queue.active.value.cancelled
    ensures Invariant(Step(w, op, limit), limit)
  {
    hide Ordered, Accounted, InOrder, Cooperative, LastOf, PushTerminal, Without, Retire;
    var v := Step(w, op, limit);
    var live := LiveItems(w.queue);
    RetireMoves(w.queue, status, limit);
    assert v.requested == w.requested + {};
    LeaveKeeps(w, v, 0, Finish(w.queue.active.value, status), {}, limit);
  }

  /** The front of the live order leaves, and the next job, if any, takes the active slot. */
  lemma RetireMoves(s: State, status: Status, limit: nat)
    requires Shape(s) && s.active.Some?
    ensures var q := Retire(s, status, limit);
            var live := LiveItems(s);
            && live != [] && live[0] == s.active.value
            && LiveItems(q) == Without(live, 0)
            && (q.active.None? ==> q.pending == [])
            && (if |live| > 1 then q.active == Some(live[1]) && !IsActive(s, live[1].id) else q.active.None?)
            && q.nextId == s.nextId && |q.pending| <= |s.pending|
            && q.history == PushTerminal(s.history, Finish(s.active.value, status), limit)
  {
    SecondIsNotActive(s);
    hide PushTerminal, Shape;
    var q := Retire(s, status, limit);
    assert LiveItems(q) == s.pending;
    assert LiveItems(s)[1..] == s.pending;
    assert |LiveItems(s)| > 1 ==> LiveItems(s)[1] == s.pending[0];
  }

  lemma SecondIsNotActive(s: State)
    requires Shape(s) && s.active.Some?
    ensures s.pending != [] ==> !IsActive(s, s.pending[0].id)
  {
    if s.pending != [] {
      var live := LiveItems(s);
      assert live[0] == s.active.value && live[1] == s.pending[0];
    }
  }

  lemma CancelPendingKeeps(w: World, id: nat, limit: nat)
    requires Invariant(w, limit)
    requires !IsActive(w.queue, id) && Position(w.queue.pending, id) < |w.queue.pending|
    ensures Invariant(Step(w, CancelOp(id), limit), limit)
  {
    hide Ordered, Accounted, InOrder, Cooperative, LastOf, PushTerminal;
    var v := Step(w, CancelOp(id), limit);
    var at := Position(w.queue.pending, id);
    var live := LiveItems(w.queue);
    assert live[at + 1] == w.queue.pending[at];
    assert w.queue.pending[at] in w.queue.pending;
    assert LiveItems(v.queue) == Without(live, at + 1);
    LeaveKeeps(w, v, at + 1, Finish(w.queue.pending[at], Cancelled), {id}, limit);
  }

  /** Requesting cancellation of a live job, through the queue or through its token. */
  lemma SignalKeeps(w: World, op: Op, limit: nat)
    requires Invariant(w, limit)
    requires op.TokenOp? || (op.CancelOp? && IsActive(w.queue, op.id))
    ensures Invariant(Step(w, op, limit), limit)
  {
    hide Invariant, Step;
    if Live(w.queue, op.id) { SignalLiveKeeps(w, op, limit); } else { SignalOtherIsIdle(w, op, limit); }
  }

  /** The token of a job that is no longer in the queue changes nothing. */
  lemma SignalOtherIsIdle(w: World, op: Op, limit: nat)
    requires op.TokenOp? && !Live(w.queue, op.id)
    ensures Step(w, op, limit) == w
  {
    assert SignalToken(w.queue, op.id).pending == w.queue.pending;
  }

  lemma SignalLiveKeeps(w: World, op: Op, limit: nat)
    requires op.TokenOp? || (op.CancelOp? && IsActive(w.queue, op.id))
    requires Invariant(w, limit) && Live(w.queue, op.id)
    ensures Invariant(Step(w, op, limit), limit)
  {
    var v := Step(w, op, limit);
    var live, same, nextId := LiveItems(w.queue), LiveItems(v.queue), w.queue.nextId;
    SignalChanges(w.queue, op, limit);
    ChangeKeeps(w.accepted, live, same, w.log, w.activated, nextId);
    var i := LiveIndex(w.queue, op.id);
    forall j | 0 <= j < |w.log| ensures w.log[j].id != op.id {
      LiveNotFinished(w.accepted, live, w.log, nextId, i, j);
    }
    OrderedBound(live, nextId, i);
    hide Ordered, Accounted, InOrder, Cooperative, LastOf, SameIds, LiveItems;
    AskCooperative(live, same, w.log, w.requested, w.activated, op.id, nextId);
  }

  lemma OrderedBound(live: seq<Item>, nextId: nat, i: nat)
    requires Ordered(live, nextId) && i < |live|
    ensures live[i].id < nextId
  {
  }

  lemma SignalChanges(s: State, op: Op, limit: nat)
    requires Shape(s) && (op.TokenOp? || (op.CancelOp? && IsActive(s, op.id)))
    ensures var q := Apply(s, op, limit);
            var live, same := LiveItems(s), LiveItems(q);
            && SameIds(live, same)
            && (forall i | 0 <= i < |live| ::
                  same[i] == live[i].(cancelled := live[i].cancelled || live[i].id == op.id))
            && q.nextId == s.nextId && q.history == s.history && |q.pending| == |s.pending|
            && q.active.Some? == s.active.Some?
            && (q.active.Some? ==> q.active.value.id == s.active.value.id)
  {
    var live := LiveItems(s);
    if op.CancelOp? {
      assert live[0].id == op.id;
      forall i | 0 < i < |live| ensures live[i].id != op.id {
      }
    }
  }

  lemma LiveIndex(s: State, id: nat) returns (i: nat)
    requires Live(s, id)
    ensures i < |LiveItems(s)| && LiveItems(s)[i].id == id
  {
    if IsActive(s, id) {
      i := 0;
    } else {
      var k :| 0 <= k < |s.pending| && s.pending[k].id == id;
      i := if s.active.Some? then k + 1 else k;
    }
  }

  lemma NotLiveUnchanged(s: State, id: nat)
    requires !Live(s, id)
    ensures forall i | 0 <= i < |LiveItems(s)| :: LiveItems(s)[i].id != id
  {
    var live := LiveItems(s);
    forall i | 0 <= i < |live| ensures live[i].id != id {
      if s.active.None? {
        assert live[i] == s.pending[i] && s.pending[i] in s.pending;
      } else if i > 0 {
        assert live[i] == s.pending[i - 1] && s.pending[i - 1] in s.pending;
      }
    }
  }

  lemma ProgressChanges(s: State, id: nat, p: Progress)
    requires Shape(s) && IsActive(s, id)
    ensures var q := UpdateProgress(s, id, p).0;
            var live, same := LiveItems(s), LiveItems(q);
            && SameIds(live, same)
            && (forall i | 0 <= i < |live| :: same[i].cancelled == live[i].cancelled && same[i].progress.percent <= 100)
  {
  }

  lemma SameFlagsCooperative(
      live: seq<Item>, same: seq<Item>, log: seq<Terminal>, requested: set<nat>, activated: seq<nat>,
      nextId: nat)
    requires Cooperative(live, log, requested, activated, nextId) && SameIds(live, same)
    requires forall i | 0 <= i < |same| :: same[i].cancelled == live[i].cancelled
    ensures Cooperative(same, log, requested, activated, nextId)
  {
  }

  lemma ProgressKeeps(w: World, id: nat, p: Progress, limit: nat)
    requires Invariant(w, limit)
    ensures Invariant(Step(w, ProgressOp(id, p), limit), limit)
  {
    var v := Step(w, ProgressOp(id, p), limit);
    if IsActive(w.queue, id) {
      var live, same := LiveItems(w.queue), LiveItems(v.queue);
      ProgressChanges(w.queue, id, p);
      hide Ordered, Accounted, InOrder, Cooperative, LastOf;
      ChangeKeeps(w.accepted, live, same, w.log, w.activated, w.queue.nextId);
      SameFlagsCooperative(live, same, w.log, w.requested, w.activated, w.queue.nextId);
    }
  }

  // The shape of the queue survives every operation, whatever its history.

  lemma SubmitKeepsShape(s: State, job: ExportJob)
    requires Shape(s)
    ensures Shape(Submit(s, job).0)
  {
    hide Ordered;
    var q := Submit(s, job).0;
    if q != s {
      var e := Item(s.nextId, job, false, Progress(Preparing, 0));
      ArriveOrdered(LiveItems(s), e, s.nextId);
      assert LiveItems(q) == LiveItems(s) + [e];
    }
  }

  lemma SignalKeepsShape(s: State, op: Op, limit: nat)
    requires Shape(s) && (op.TokenOp? || (op.CancelOp? && IsActive(s, op.id)))
    ensures Shape(Apply(s, op, limit))
  {
    SignalChanges(s, op, limit);
    hide Ordered, Apply;
    SameIdsOrdered(LiveItems(s), LiveItems(Apply(s, op, limit)), s.nextId);
  }

  lemma CancelKeepsShape(s: State, id: nat, limit: nat)
    requires Shape(s)
    ensures Shape(Cancel(s, id, limit).0)
  {
    hide Ordered, PushTerminal, Without;
    if IsActive(s, id) {
      SignalKeepsShape(s, CancelOp(id), limit);
    } else if Position(s.pending, id) < |s.pending| {
      LeaveFromPending(s, id, limit);
      LeaveOrdered(LiveItems(s), Position(s.pending, id) + 1, s.nextId);
    }
  }

  lemma RetireKeepsShape(s: State, status: Status, limit: nat)
    requires Shape(s) && s.active.Some?
    ensures Shape(Retire(s, status, limit))
  {
    hide Ordered, PushTerminal, Without, Retire;
    RetireMoves(s, status, limit);
    LeaveOrdered(LiveItems(s), 0, s.nextId);
  }

  lemma ProgressKeepsShape(s: State, id: nat, p: Progress)
    requires Shape(s) && IsActive(s, id)
    ensures Shape(UpdateProgress(s, id, p).0)
  {
    ProgressChanges(s, id, p);
    hide Ordered;
    SameIdsOrdered(LiveItems(s), LiveItems(UpdateProgress(s, id, p).0), s.nextId);
  }

  lemma SameIdsOrdered(live: seq<Item>, same: seq<Item>, nextId: nat)
    requires Ordered(live, nextId) && SameIds(live, same)
    requires forall i | 0 <= i < |same| :: same[i].progress.percent <= 100 || same[i].progress == live[i].progress
    ensures Ordered(same, nextId)
  {
  }

  lemma LeaveFromPending(s: State, id: nat, limit: nat)
    requires Shape(s) && !IsActive(s, id) && Position(s.pending, id) < |s.pending|
    ensures Position(s.pending, id) + 1 < |LiveItems(s)|
    ensures LiveItems(Cancel(s, id, limit).0) == Without(LiveItems(s), Position(s.pending, id) + 1)
  {
  }

  /** Every operation keeps the invariant. */
  lemma StepKeepsInvariant(w: World, op: Op, limit: nat)
    requires Invariant(w, limit)
    ensures Invariant(Step(w, op, limit), limit)
  {
    hide Invariant;
    assert Step(w, op, limit) == w || Invariant(Step(w, op, limit), limit) by {
      match op
      case SubmitOp(job) => SubmitKeeps(w, job, limit);
      case ProgressOp(id, p) => ProgressKeeps(w, id, p, limit);
      case TokenOp(_) => SignalKeeps(w, op, limit);
      case CancelOp(id) =>
        if IsActive(w.queue, id) {
          SignalKeeps(w, op, limit);
        } else if Position(w.queue.pending, id) < |w.queue.pending| {
          CancelPendingKeeps(w, id, limit);
        } else {
          NotLive(w.queue, id);
        }
      case CompleteOp(id) =>
        if IsActive(w.queue, id) && !w.queue.active.value.cancelled { RetireKeeps(w, op, Completed, limit); }
      case FailOp(id, reason) =>
        if IsActive(w.queue, id) && !w.queue.active.value.cancelled { RetireKeeps(w, op, Failed(reason), limit); }
      case FinishCancelledOp(id) =>
        if IsActive(w.queue, id) && w.queue.active.value.cancelled { RetireKeeps(w, op, Cancelled, limit); }
    }
  }

  lemma NotLive(s: State, id: nat)
    requires !IsActive(s, id) && Position(s.pending, id) == |s.pending|
    ensures !Live(s, id)
  {
  }

  /** Over every run from an empty queue, the invariant holds. */
  lemma {:induction false} RunKeepsInvariant(ops: seq<Op>, limit: nat)
    ensures Invariant(Run(ops, limit), limit)
  {
    if ops == [] {
      assert FirstIds(1) == [];
    } else {
      RunKeepsInvariant(ops[..|ops| - 1], limit);
      StepKeepsInvariant(Run(ops[..|ops| - 1], limit), ops[|ops| - 1], limit);
    }
  }

  /** Once a live job was asked to stop, every later record of it says cancelled. */
  lemma RequestedEndsCancelled(before: seq<Op>, after: seq<Op>, limit: nat, id: nat, t: Terminal)
    requires id in Run(before, limit).requested
    requires t in Run(before + after, limit).log && t.id == id
    ensures t.status.Cancelled?
  {
    hide Run;
    RunKeepsInvariant(before + after, limit);
    RequestsPersist(before, after, limit, id);
    var w := Run(before + after, limit);
    var i :| 0 <= i < |w.log| && w.log[i] == t;
  }

  lemma {:induction false} RequestsPersist(before: seq<Op>, after: seq<Op>, limit: nat, id: nat)
    requires id in Run(before, limit).requested
    ensures id in Run(before + after, limit).requested
    decreases |after|
  {
    hide Apply, Finished, Live;
    if after == [] {
      assert before + after == before;
    } else {
      var ops := before + after;
      assert ops[..|ops| - 1] == before + after[..|after| - 1];
      RequestsPersist(before, after[..|after| - 1], limit, id);
    }
  }

  // ---------------------------------------------------------------------------
  // What each operation does to the line of live jobs and to the history.

  /** Every reachable queue has its shape, and no more records than it may keep. */
  predicate Reachable(s: State, limit: nat) {
    Shape(s) && |s.history| <= limit
  }

  lemma RunsAreReachable(ops: seq<Op>, limit: nat)
    ensures Reachable(Run(ops, limit).queue, limit)
  {
    RunKeepsInvariant(ops, limit);
    hide Run;
  }

  /** A job is accepted exactly while fewer than three are live and ids are left; it joins the line at its end. */
  lemma SubmitAcceptsExactlyWhen(s: State, limit: nat, job: ExportJob)
    requires Reachable(s, limit)
    ensures var (t, r) := Submit(s, job);
            && (r.Ok? <==> |LiveItems(s)| < 3 && s.nextId < 0xFFFF_FFFF_FFFF_FFFF)
            && (r == Err(QueueFull) <==> |LiveItems(s)| == 3)
            && (r.Err? ==> t == s && (r == Err(QueueFull) || r == Err(JobIdExhausted)))
            && (r.Ok? ==>
                  && r.value == s.nextId && t.nextId == s.nextId + 1 && t.history == s.history
                  && LiveItems(t) == LiveItems(s) + [Item(s.nextId, job, false, Progress(Preparing, 0))])
  {
  }

  /** The job at the head of the line, if it is the one named. */
  predicate Heads(s: State, id: nat) {
    LiveItems(s) != [] && LiveItems(s)[0].id == id
  }

  /** The head of the line leaves it for the history, which keeps the last records. */
  predicate HeadLeaves(s: State, t: State, limit: nat, status: Status)
    requires LiveItems(s) != []
  {
    var head := LiveItems(s)[0];
    var record := Terminal(head.id, head.job, status, head.progress, status == Cancelled);
    && LiveItems(t) == LiveItems(s)[1..]
    && t.nextId == s.nextId
    && t.history == LastOf(s.history + [record], limit)
  }

  lemma RetireLeaves(s: State, limit: nat, status: Status)
    requires Reachable(s, limit) && s.active.Some?
    ensures HeadLeaves(s, Retire(s, status, limit), limit, status)
  {
  }

  /**
   * The head of the line ends as completed or failed exactly while nobody asked it to stop, and as
   * cancelled exactly once somebody did; no other job ends so, and a refusal changes nothing.
   */
  lemma FinishesExactlyWhen(s: State, limit: nat, id: nat, reason: string)
    requires Reachable(s, limit)
    ensures var asked := Heads(s, id) && LiveItems(s)[0].cancelled;
            var (t1, r1) := Complete(s, id, limit);
            var (t2, r2) := Fail(s, id, reason, limit);
            var (t3, r3) := FinishCancelled(s, id, limit);
            && r1 == r2
            && r1 == (if !Heads(s, id) then Err(NotActive(id))
                      else if asked then Err(CancellationRequested(id)) else Ok(()))
            && r3 == (if !Heads(s, id) then Err(NotActive(id))
                      else if asked then Ok(()) else Err(CancellationNotRequested(id)))
            && (if r1.Ok? then HeadLeaves(s, t1, limit, Completed) && HeadLeaves(s, t2, limit, Failed(reason))
                else t1 == t2 == s)
            && (if r3.Ok? then HeadLeaves(s, t3, limit, Cancelled) else t3 == s)
  {
    if Heads(s, id) {
      assert s.active.Some?;
      RetireLeaves(s, limit, Completed);
      RetireLeaves(s, limit, Failed(reason));
      RetireLeaves(s, limit, Cancelled);
    }
    hide Retire, HeadLeaves;
    assert IsActive(s, id) <==> Heads(s, id);
  }

  /** The place of the job in the line, or its length. */
  predicate StandsAt(live: seq<Item>, id: nat, at: nat) {
    at <= |live| && (at < |live| ==> live[at].id == id) && (at == |live| ==> forall e | e in live :: e.id != id)
  }

  /**
   * Cancelling asks the head of the line to stop, takes any other live job out of it as cancelled,
   * and fails for a job that is not live without changing anything.
   */
  lemma CancelsExactlyWhen(s: State, limit: nat, id: nat, at: nat)
    requires Reachable(s, limit) && StandsAt(LiveItems(s), id, at)
    ensures var (t, r) := Cancel(s, id, limit);
            var live := LiveItems(s);
            && (at == |live| ==>
                  var ended := exists e :: e in s.history && e.id == id;
                  t == s && r == Err(if ended then NotActive(id) else UnknownJob(id)))
            && (at < |live| ==> t.nextId == s.nextId)
            && (at == 0 && live != [] ==>
                  && r == Ok(ActiveCancellationRequested)
                  && LiveItems(t) == [live[0].(cancelled := true)] + live[1..] && t.history == s.history)
            && (0 < at < |live| ==>
                  && r == Ok(QueuedCancelled)
                  && LiveItems(t) == live[..at] + live[at + 1..]
                  && t.history == LastOf(
                       s.history + [Terminal(id, live[at].job, Cancelled, live[at].progress, true)], limit))
  {
    var live := LiveItems(s);
    LiveAndPending(s, id, at);
    hide PushTerminal, Shape;
    if 0 < at < |live| {
      var e := live[at];
      assert e == s.pending[at - 1];
      PushTerminalKeepsLast(s.history, Terminal(id, e.job, Cancelled, e.progress, true), limit);
      assert LastOf(s.history, limit) == s.history;
      assert LiveItems(Cancel(s, id, limit).0) == live[..at] + live[at + 1..];
    }
  }

  /** Progress is taken from the head of the line only; a token asks exactly its own job to stop. */
  lemma ProgressAndTokens(s: State, id: nat, p: Progress)
    requires Shape(s)
    ensures var (t, r) := UpdateProgress(s, id, p);
            && r == (if Heads(s, id) then Ok(()) else Err(NotActive(id)))
            && t.nextId == s.nextId && t.history == s.history
            && |LiveItems(t)| == |LiveItems(s)|
            && forall i | 0 <= i < |LiveItems(s)| ::
                 LiveItems(t)[i] == if i == 0 && Heads(s, id)
                                    then LiveItems(s)[i].(progress := Progress(p.stage, Min(p.percent, 100)))
                                    else LiveItems(s)[i]
    ensures var t := SignalToken(s, id);
            && t.nextId == s.nextId && t.history == s.history
            && |LiveItems(t)| == |LiveItems(s)|
            && forall i | 0 <= i < |LiveItems(s)| ::
                 LiveItems(t)[i] == if LiveItems(s)[i].id == id
                                    then LiveItems(s)[i].(cancelled := true) else LiveItems(s)[i]
  {
  }

  /** A live job is active at the head of the line, or pending one place further on. */
  lemma LiveAndPending(s: State, id: nat, at: nat)
    requires Shape(s) && StandsAt(LiveItems(s), id, at)
    ensures IsActive(s, id) <==> at == 0 && s.active.Some?
    ensures at > 0 && at < |LiveItems(s)| ==> s.active.Some? && Position(s.pending, id) == at - 1
    ensures at == |LiveItems(s)| ==> Position(s.pending, id) == |s.pending|
  {
    var live := LiveItems(s);
    assert s.active.Some? ==> live[0] == s.active.value && live[1..] == s.pending;
    var p := Position(s.pending, id);
    if p < |s.pending| {
      assert s.active.Some? && live[p + 1] == s.pending[p];
      assert live[p + 1] in live;
    }
    if s.active.Some? { assert live[0] in live; }
    assert Ordered(live, s.nextId);
  }
}
