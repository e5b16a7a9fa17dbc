/** What the queue shows: the list of all states, and the state of one job. */
module ExportQueueViews {
  import opened Common
  import opened ExportQueueSpec

  datatype ShownStatus = Active | Queued | Ended(status: Status)

  datatype Shown = Shown(id: nat, job: ExportJob, status: ShownStatus, progress: Progress, cancellationRequested: bool)

  /** A pending job is always shown without a cancellation request. */
  function ShownItem(e: Item, active: bool): Shown {
    Shown(e.id, e.job, if active then Active else Queued, e.progress, active && e.cancelled)
  }

  function ShownTerminal(t: Terminal): Shown {
    Shown(t.id, t.job, Ended(t.status), t.progress, t.cancellationRequested)
  }

  function ShownPending(pending: seq<Item>): (r: seq<Shown>)
    ensures |r| == |pending| && forall i | 0 <= i < |r| :: r[i] == ShownItem(pending[i], false)
  {
    seq(|pending|, i requires 0 <= i < |pending| => ShownItem(pending[i], false))
  }

  function ShownHistory(history: seq<Terminal>): (r: seq<Shown>)
    ensures |r| == |history| && forall i | 0 <= i < |r| :: r[i] == ShownTerminal(history[i])
  {
    seq(|history|, i requires 0 <= i < |history| => ShownTerminal(history[i]))
  }

  function States(s: State): seq<Shown> {
    (if s.active.Some? then [ShownItem(s.active.value, true)] else [])
    + ShownPending(s.pending)
    + ShownHistory(s.history)
  }

  /** The place of the first record with this id, or the length of the history. */
  function PositionEnded(history: seq<Terminal>, id: nat): (r: nat)
    ensures r <= |history|
    ensures r < |history| ==> history[r].id == id
    ensures forall i | 0 <= i < r :: history[i].id != id
  {
    if history == [] || history[0].id == id then 0 else 1 + PositionEnded(history[1..], id)
  }

  function StateOf(s: State, id: nat): Option<Shown> {
    if IsActive(s, id) then Some(ShownItem(s.active.value, true))
    else if Position(s.pending, id) < |s.pending| then Some(ShownItem(s.pending[Position(s.pending, id)], false))
    else if PositionEnded(s.history, id) < |s.history| then Some(ShownTerminal(s.history[PositionEnded(s.history, id)]))
    else None
  }

  function ShownIds(states: seq<Shown>): seq<nat> {
    seq(|states|, i requires 0 <= i < |states| => states[i].id)
  }

  /** The records that the history no longer holds. */
  function Dropped(log: seq<Terminal>, limit: nat): seq<Terminal> {
    if |log| <= limit then [] else log[..|log| - limit]
  }

  lemma DistinctWhenOnce(s: seq<nat>, i: nat, j: nat)
    requires i < j < |s| && multiset(s)[s[i]] <= 1
    ensures s[i] != s[j]
  {
    assert s == s[..i] + [s[i]] + s[i + 1..j] + [s[j]] + s[j + 1..];
  }

  /** The listed ids and the dropped ones are the accepted ones, as bags. */
  lemma ShownAndDropped(w: World, limit: nat)
    requires Invariant(w, limit)
    ensures multiset(ShownIds(States(w.queue))) + multiset(TerminalIds(Dropped(w.log, limit)))
            == multiset(FirstIds(w.queue.nextId))
  {
    var q := w.queue;
    ListedIds(q);
    DroppedIds(w.log, limit);
    assert multiset(w.accepted) == multiset(ItemIds(LiveItems(q))) + multiset(TerminalIds(w.log));
    assert w.accepted == FirstIds(q.nextId) && q.history == LastOf(w.log, limit);
    hide *;
    assert multiset(ShownIds(States(q))) == multiset(ItemIds(LiveItems(q))) + multiset(TerminalIds(q.history));
  }

  lemma ListedIds(q: State)
    ensures ShownIds(States(q)) == ItemIds(LiveItems(q)) + TerminalIds(q.history)
  {
  }

  lemma DroppedIds(log: seq<Terminal>, limit: nat)
    ensures TerminalIds(log) == TerminalIds(Dropped(log, limit)) + TerminalIds(LastOf(log, limit))
  {
    assert log == Dropped(log, limit) + LastOf(log, limit);
  }

  /**
   * In every reachable state: the list shows no job twice; it shows an accepted job unless its
   * record has left the bounded history; and asking for one job gives its entry of the list.
   */
  lemma StatesListEachJobOnce(ops: seq<Op>, limit: nat)
    ensures var w := Run(ops, limit);
            var states := States(w.queue);
            && (forall i, j | 0 <= i < j < |states| :: states[i].id != states[j].id)
            && (forall id: nat :: id in ShownIds(states) <==>
                  1 <= id < w.queue.nextId && id !in TerminalIds(Dropped(w.log, limit)))
            && (forall id: nat :: match StateOf(w.queue, id)
                             case Some(shown) => shown in states && shown.id == id
                             case None => id !in ShownIds(states))
  {
    var w := Run(ops, limit);
    var states := States(w.queue);
    RunKeepsInvariant(ops, limit);
    ShownAndDropped(w, limit);
    SplitOnce(ShownIds(states), TerminalIds(Dropped(w.log, limit)), w.queue.nextId);
    hide Invariant, Run, States, Dropped, TerminalIds, FirstIds, StateOf;
    forall i, j | 0 <= i < j < |states| ensures states[i].id != states[j].id {
      assert ShownIds(states)[i] != ShownIds(states)[j];
    }
    hide ShownIds;
    forall id: nat
      ensures match StateOf(w.queue, id)
              case Some(shown) => shown in states && shown.id == id
              case None => id !in ShownIds(states)
    {
      LookupFindsShown(w.queue, id);
    }
  }

  /** Two lists that together hold each of the first ids once are disjoint and without repetition. */
  lemma SplitOnce(a: seq<nat>, b: seq<nat>, nextId: nat)
    requires nextId >= 1 && multiset(a) + multiset(b) == multiset(FirstIds(nextId))
    ensures forall i, j | 0 <= i < j < |a| :: a[i] != a[j]
    ensures forall id: nat :: id in a <==> 1 <= id < nextId && id !in b
  {
    hide FirstIds;
    forall id: nat ensures multiset(a)[id] + multiset(b)[id] == if 1 <= id < nextId then 1 else 0 {
      FirstIdsOnce(nextId, id);
      assert (multiset(a) + multiset(b))[id] == multiset(a)[id] + multiset(b)[id];
    }
    forall i, j | 0 <= i < j < |a| ensures a[i] != a[j] {
      DistinctWhenOnce(a, i, j);
    }
    forall id: nat ensures id in a <==> 1 <= id < nextId && id !in b {
      assert id in a <==> multiset(a)[id] > 0;
      assert id in b <==> multiset(b)[id] > 0;
    }
  }

  lemma LookupFindsShown(s: State, id: nat)
    ensures match StateOf(s, id)
            case Some(shown) => shown in States(s) && shown.id == id
            case None => id !in ShownIds(States(s))
  {
    var pending, ended := ShownPending(s.pending), ShownHistory(s.history);
    var head := if s.active.Some? then [ShownItem(s.active.value, true)] else [];
    var at, k := Position(s.pending, id), PositionEnded(s.history, id);
    assert States(s) == head + pending + ended;
    if IsActive(s, id) {
      assert head[0] in States(s);
    } else if at < |s.pending| {
      assert pending[at] in States(s);
    } else if k < |s.history| {
      assert ended[k] in States(s);
    }
  }

  /** Asking for a listed job gives its entry of the list. */
  lemma LookupGivesListed(ops: seq<Op>, limit: nat, x: Shown)
    requires x in States(Run(ops, limit).queue)
    ensures StateOf(Run(ops, limit).queue, x.id) == Some(x)
  {
    var q := Run(ops, limit).queue;
    StatesListEachJobOnce(ops, limit);
    LookupFindsShown(q, x.id);
    hide Run, Dropped, TerminalIds, StateOf, States;
    var i :| 0 <= i < |States(q)| && States(q)[i] == x;
    ShownIdOf(States(q), i);
    hide ShownIds;
    SameIdSameShown(States(q), StateOf(q, x.id).value, x);
  }

  /** Right after a job finishes, asking for it shows the record it finished with. */
  lemma FinishedIsShown(ops: seq<Op>, op: Op, limit: nat, t: Terminal)
    requires limit > 0 && Finished(Run(ops, limit).queue, op) == Some(t)
    ensures StateOf(Run(ops + [op], limit).queue, t.id) == Some(ShownTerminal(t))
  {
    var more := ops + [op];
    assert more[..|more| - 1] == ops;
    var w := Run(more, limit);
    assert w.log == Run(ops, limit).log + [t];
    RunKeepsInvariant(more, limit);
    assert w.queue.history == LastOf(w.log, limit);
    hide Run, Finished, Invariant, StateOf, States;
    LastRecordIsShown(w.queue, w.log, t, limit);
    LookupGivesListed(more, limit, ShownTerminal(t));
  }

  lemma LastRecordIsShown(q: State, log: seq<Terminal>, t: Terminal, limit: nat)
    requires limit > 0 && log != [] && log[|log| - 1] == t && q.history == LastOf(log, limit)
    ensures States(q) != [] && States(q)[|States(q)| - 1] == ShownTerminal(t)
  {
    assert q.history[|q.history| - 1] == t;
  }

  lemma ShownIdOf(states: seq<Shown>, i: nat)
    requires i < |states|
    ensures states[i].id in ShownIds(states)
  {
    assert ShownIds(states)[i] == states[i].id;
  }

  lemma SameIdSameShown(states: seq<Shown>, a: Shown, b: Shown)
    requires forall i, j | 0 <= i < j < |states| :: states[i].id != states[j].id
    requires a in states && b in states && a.id == b.id
    ensures a == b
  {
    var i :| 0 <= i < |states| && states[i] == a;
    var j :| 0 <= j < |states| && states[j] == b;
  }

  // ---------------------------------------------------------------------------
  // A job keeps its identity.

  /** The jobs accepted over the run, in the order of their ids. */
  function AcceptedJobs(ops: seq<Op>, limit: nat): seq<ExportJob> {
    if ops == [] then [] else
    var before, op := ops[..|ops| - 1], ops[|ops| - 1];
    AcceptedJobs(before, limit)
    + if op.SubmitOp? && Submit(Run(before, limit).queue, op.job).1.Ok? then [op.job] else []
  }

  predicate SameJob(jobs: seq<ExportJob>, id: nat, job: ExportJob) {
    1 <= id <= |jobs| && jobs[id - 1] == job
  }

  predicate KeepsJobs(jobs: seq<ExportJob>, s: State, log: seq<Terminal>) {
    && |jobs| + 1 == s.nextId
    && (s.active.Some? ==> SameJob(jobs, s.active.value.id, s.active.value.job))
    && (forall e | e in s.pending :: SameJob(jobs, e.id, e.job))
    && (forall t | t in log :: SameJob(jobs, t.id, t.job))
  }

  lemma MoreJobs(jobs: seq<ExportJob>, job: ExportJob, s: State, log: seq<Terminal>)
    requires KeepsJobs(jobs, s, log)
    ensures KeepsJobs(jobs + [job], s.(nextId := s.nextId + 1), log)
  {
  }

  lemma SubmitKeepsJobs(jobs: seq<ExportJob>, s: State, log: seq<Terminal>, job: ExportJob)
    requires KeepsJobs(jobs, s, log)
    ensures KeepsJobs(if Submit(s, job).1.Ok? then jobs + [job] else jobs, Submit(s, job).0, log)
  {
    MoreJobs(jobs, job, s, log);
  }

  /** The item is one of these, perhaps with another flag or progress. */
  predicate Stems(items: seq<Item>, id: nat, job: ExportJob) {
    exists d :: d in items && d.id == id && d.job == job
  }

  lemma ItemsStem(s: State, op: Op, limit: nat)
    requires !op.SubmitOp?
    ensures var q, finished := Apply(s, op, limit), Finished(s, op);
            && q.nextId == s.nextId
            && (q.active.Some? ==> Stems(LiveItems(s), q.active.value.id, q.active.value.job))
            && (forall e | e in q.pending :: Stems(LiveItems(s), e.id, e.job))
            && (finished.Some? ==> Stems(LiveItems(s), finished.value.id, finished.value.job))
  {
    var live := LiveItems(s);
    assert s.active.Some? ==> live[0] == s.active.value;
    assert forall e | e in s.pending :: e in live;
    forall d | d in live ensures Stems(live, d.id, d.job) {}
    hide PushTerminal, Position, Stems, LiveItems;
    match op
    case CancelOp(id) => CancelledStems(s, id, limit);
    case TokenOp(id) => SignalledStems(s, id, limit);
    case ProgressOp(_, _) =>
    case _ =>
  }

  lemma SignalledStems(s: State, id: nat, limit: nat)
    requires forall d | d in LiveItems(s) :: Stems(LiveItems(s), d.id, d.job)
    requires s.active.Some? ==> s.active.value in LiveItems(s)
    requires forall e | e in s.pending :: e in LiveItems(s)
    ensures var q := Apply(s, TokenOp(id), limit);
            && q.nextId == s.nextId && Finished(s, TokenOp(id)).None?
            && (q.active.Some? ==> Stems(LiveItems(s), q.active.value.id, q.active.value.job))
            && (forall e | e in q.pending :: Stems(LiveItems(s), e.id, e.job))
  {
    hide Stems, LiveItems;
    var live := LiveItems(s);
    forall e | e in SignalToken(s, id).pending ensures Stems(live, e.id, e.job) {
      var i :| 0 <= i < |s.pending| && e == SignalToken(s, id).pending[i];
      assert s.pending[i] in live;
    }
  }

  lemma CancelledStems(s: State, id: nat, limit: nat)
    requires forall d | d in LiveItems(s) :: Stems(LiveItems(s), d.id, d.job)
    requires s.active.Some? ==> s.active.value in LiveItems(s)
    requires forall e | e in s.pending :: e in LiveItems(s)
    ensures var q, finished := Apply(s, CancelOp(id), limit), Finished(s, CancelOp(id));
            && q.nextId == s.nextId
            && (q.active.Some? ==> Stems(LiveItems(s), q.active.value.id, q.active.value.job))
            && (forall e | e in q.pending :: Stems(LiveItems(s), e.id, e.job))
            && (finished.Some? ==> Stems(LiveItems(s), finished.value.id, finished.value.job))
  {
    hide PushTerminal, Position, Stems, LiveItems;
    var at := Position(s.pending, id);
    if at < |s.pending| { assert s.pending[at] in s.pending; }
    forall e | e in Cancel(s, id, limit).0.pending ensures e in s.pending {}
  }

  lemma StemsKeepJob(jobs: seq<ExportJob>, s: State, log: seq<Terminal>, id: nat, job: ExportJob)
    requires KeepsJobs(jobs, s, log) && Stems(LiveItems(s), id, job)
    ensures SameJob(jobs, id, job)
  {
    hide SameJob;
  }

  lemma OtherKeepsJobs(jobs: seq<ExportJob>, s: State, log: seq<Terminal>, op: Op, limit: nat)
    requires KeepsJobs(jobs, s, log) && !op.SubmitOp?
    ensures var finished := Finished(s, op);
            KeepsJobs(jobs, Apply(s, op, limit), if finished.Some? then log + [finished.value] else log)
  {
    var q, finished := Apply(s, op, limit), Finished(s, op);
    ItemsStem(s, op, limit);
    hide SameJob, Stems, Apply, Finished, LiveItems;
    if q.active.Some? { StemsKeepJob(jobs, s, log, q.active.value.id, q.active.value.job); }
    if finished.Some? { StemsKeepJob(jobs, s, log, finished.value.id, finished.value.job); }
    forall e | e in q.pending ensures SameJob(jobs, e.id, e.job) {
      StemsKeepJob(jobs, s, log, e.id, e.job);
    }
  }

  /** Over every run, every live job and every record carries the job that was submitted under its id. */
  lemma {:induction false} RecordsKeepTheirJobs(ops: seq<Op>, limit: nat)
    ensures KeepsJobs(AcceptedJobs(ops, limit), Run(ops, limit).queue, Run(ops, limit).log)
  {
    hide KeepsJobs;
    if ops == [] {
      NoJobs();
    } else {
      var before, op := ops[..|ops| - 1], ops[|ops| - 1];
      var w := Run(before, limit);
      RecordsKeepTheirJobs(before, limit);
      if op.SubmitOp? {
        SubmitKeepsJobs(AcceptedJobs(before, limit), w.queue, w.log, op.job);
      } else {
        OtherKeepsJobs(AcceptedJobs(before, limit), w.queue, w.log, op, limit);
      }
      assert AcceptedJobs(before, limit) + [] == AcceptedJobs(before, limit);
      hide Apply, Finished, Submit;
    }
  }

  lemma NoJobs()
    ensures KeepsJobs([], INITIAL, [])
  {
  }

  /**
   * The list shows the head of the line as active, with its request to stop, every other live job as
   * queued, and then every record as it ended.
   */
  lemma StatesShowTheLine(s: State)
    requires s.active.None? ==> s.pending == []
    ensures |States(s)| == |LiveItems(s)| + |s.history|
    ensures forall i | 0 <= i < |LiveItems(s)| ::
              States(s)[i] == (
                var e := LiveItems(s)[i];
                Shown(e.id, e.job, if i == 0 then Active else Queued, e.progress, i == 0 && e.cancelled))
    ensures forall i | 0 <= i < |s.history| ::
              States(s)[|LiveItems(s)| + i] == (
                var t := s.history[i];
                Shown(t.id, t.job, Ended(t.status), t.progress, t.cancellationRequested))
  {
    var live := LiveItems(s);
    var head := if s.active.Some? then [ShownItem(s.active.value, true)] else [];
    assert States(s) == head + ShownPending(s.pending) + ShownHistory(s.history);
    assert |head + ShownPending(s.pending)| == |live|;
    hide States;
    forall i | 0 <= i < |live|
      ensures (head + ShownPending(s.pending))[i] == ShownItem(live[i], i == 0)
    {
    }
    forall i | 0 <= i < |s.history|
      ensures States(s)[|live| + i] == ShownTerminal(s.history[i])
    {
    }
    hide LiveItems;
  }
}
