/**
 * The bounded save pipeline as a transition system: one owner thread that submits, drains and
 * shuts down, one worker thread, two bounded channels and shared counters. Every step is one
 * atomic action of one thread, so a run is any interleaving.
 */
module SaveSpec {
  import opened Common

  const SAVE_QUEUE_BOUND: nat := 8
  const FIXED_OUTPUT_OVERHEAD_BYTES: nat := 1024 * 1024
  const PACKET_OUTPUT_OVERHEAD_BYTES: nat := 64

  datatype Work = Work(clipPath: string, payloadBytes: nat, packetCount: nat, minimumFreeSpaceBytes: nat)

  datatype MuxerError = InsufficientDiskSpace | OutputDirectoryUnavailable | OtherMuxerError

  datatype SaveResult = Completed(work: Work) | Failed(work: Work, error: MuxerError)

  datatype Metrics = Metrics(
    savesQueued: nat,
    savesCompleted: nat,
    savesFailed: nat,
    queueFull: nat,
    muxFailures: nat,
    availableDiskSpaceBytes: Option<nat>)

  function Inc(n: nat): nat {
    Min(n + 1, U64_MAX)
  }

  function SaturatingAdd(a: nat, b: nat): nat {
    Min(a + b, U64_MAX)
  }

  /** The free space a save asks for: the whole sum, capped, whichever addition saturates first. */
  function RequiredFreeSpace(w: Work): (r: nat)
    ensures r == Min(w.minimumFreeSpaceBytes + w.payloadBytes + FIXED_OUTPUT_OVERHEAD_BYTES
                     + w.packetCount * PACKET_OUTPUT_OVERHEAD_BYTES, U64_MAX)
  {
    SaturatingAdd(
      SaturatingAdd(SaturatingAdd(w.minimumFreeSpaceBytes, FIXED_OUTPUT_OVERHEAD_BYTES), w.payloadBytes),
      Min(w.packetCount * PACKET_OUTPUT_OVERHEAD_BYTES, U64_MAX))
  }

  /** Where the worker thread is. */
  datatype Worker =
    | Receiving
    | Probing(work: Work)
    | Muxing(work: Work)
    | Recording(result: SaveResult)
    | Sending(result: SaveResult)
    | Stopped

  /**
   * Where the owner thread is: between calls, inside a submit, inside shutdown, or past it. A
   * submit is rejected because the queue is full, or because the sender is gone.
   */
  datatype Owner =
    | Ready
    | ReportAccepted
    | ReportRejected(full: bool)
    | Joining
    | LastDrain
    | Closed

  /** What the disk probe answered for one job, and the muxer if it was asked: nothing for success, or its error. */
  datatype Asked = Asked(space: Option<nat>, muxer: Option<Option<MuxerError>>)

  /**
   * The threads, channels and counters, with the history of what was accepted, rejected, recorded
   * and handed out, and of what was answered for each job the worker took up.
   */
  datatype State = State(
    owner: Owner,
    worker: Worker,
    senderOpen: bool,
    queue: seq<Work>,
    results: seq<SaveResult>,
    metrics: Metrics,
    accepted: seq<Work>,
    rejected: nat,
    rejectedFull: nat,
    recorded: seq<SaveResult>,
    handed: seq<SaveResult>,
    asked: seq<Asked>)

  const INITIAL: State := State(Ready, Receiving, true, [], [], Metrics(0, 0, 0, 0, 0, None), [], 0, 0, [], [], [])

  datatype Step =
    // owner
    | TrySend(work: Work)
    | Report
    | Pop
    | CloseSender
    | Join
    | FinishDrain
    // worker
    | Recv
    | Probe(available: Option<nat>)
    | Mux(outcome: Option<MuxerError>)
    | Record
    | Send

  predicate IsWorkerStep(step: Step) {
    step.Recv? || step.Probe? || step.Mux? || step.Record? || step.Send?
  }

  predicate Enabled(s: State, step: Step) {
    match step
    case TrySend(_) => s.owner.Ready? || s.owner.Closed?
    case Report => s.owner.ReportAccepted? || s.owner.ReportRejected?
    case Pop => s.results != [] && !s.owner.ReportAccepted? && !s.owner.ReportRejected?
    case CloseSender => s.owner.Ready?
    case Join => s.owner.Joining? && s.worker.Stopped?
    case FinishDrain => s.owner.LastDrain? && s.results == []
    case Recv => s.worker.Receiving? && (s.queue != [] || !s.senderOpen)
    case Probe(_) => s.worker.Probing?
    case Mux(_) => s.worker.Muxing?
    case Record => s.worker.Recording?
    case Send => s.worker.Sending? && |s.results| < SAVE_QUEUE_BOUND
  }

  function Recorded(m: Metrics, r: SaveResult): Metrics {
    match r
    case Completed(_) => m.(savesCompleted := Inc(m.savesCompleted))
    case Failed(_, e) =>
      m.(savesFailed := Inc(m.savesFailed),
         muxFailures := if e.OtherMuxerError? then Inc(m.muxFailures) else m.muxFailures)
  }

  /** The history once the muxer has answered for the job in work. */
  function Answered(asked: seq<Asked>, outcome: Option<MuxerError>): seq<Asked> {
    if asked == [] then [] else asked[..|asked| - 1] + [asked[|asked| - 1].(muxer := Some(outcome))]
  }

  function Take(s: State, step: Step): State
    requires Enabled(s, step)
  {
    match step
    case TrySend(work) =>
      if !s.senderOpen || |s.queue| >= SAVE_QUEUE_BOUND then
        s.(owner := ReportRejected(s.senderOpen),
           rejected := s.rejected + 1,
           rejectedFull := if s.senderOpen then s.rejectedFull + 1 else s.rejectedFull)
      else
        s.(owner := ReportAccepted, queue := s.queue + [work], accepted := s.accepted + [work])
    case Report =>
      var m := s.metrics;
      s.(owner := if s.senderOpen then Ready else Closed,
         metrics := if s.owner.ReportAccepted? then m.(savesQueued := Inc(m.savesQueued))
                    else m.(savesFailed := Inc(m.savesFailed),
                            queueFull := if s.owner.full then Inc(m.queueFull) else m.queueFull))
    case Pop => s.(results := s.results[1..], handed := s.handed + [s.results[0]])
    case CloseSender => s.(owner := Joining, senderOpen := false)
    case Join => s.(owner := LastDrain)
    case FinishDrain => s.(owner := Closed)
    case Recv =>
      if s.queue != [] then s.(worker := Probing(s.queue[0]), queue := s.queue[1..]) else s.(worker := Stopped)
    case Probe(available) =>
      var w := s.worker.work;
      var asked := s.asked + [Asked(available, None)];
      if available.None? then s.(asked := asked, worker := Recording(Failed(w, OutputDirectoryUnavailable)))
      else
        s.(asked := asked,
           metrics := s.metrics.(availableDiskSpaceBytes := available),
           worker :=
             if available.value < RequiredFreeSpace(w) then Recording(Failed(w, InsufficientDiskSpace)) else Muxing(w))
    case Mux(outcome) =>
      var w := s.worker.work;
      s.(asked := Answered(s.asked, outcome),
         worker := Recording(if outcome.None? then Completed(w) else Failed(w, outcome.value)))
    case Record =>
      s.(worker := Sending(s.worker.result),
         metrics := Recorded(s.metrics, s.worker.result),
         recorded := s.recorded + [s.worker.result])
    case Send =>
      s.(worker := Receiving, results := s.results + [s.worker.result])
  }

  // ---------------------------------------------------------------------------
  // Conservation.

  function Works(rs: seq<SaveResult>): seq<Work> {
    seq(|rs|, i requires 0 <= i < |rs| => rs[i].work)
  }

  /** The job the worker holds. */
  function InFlight(w: Worker): seq<Work> {
    match w
    case Receiving => []
    case Stopped => []
    case Probing(work) => [work]
    case Muxing(work) => [work]
    case Recording(r) => [r.work]
    case Sending(r) => [r.work]
  }

  /** The result the worker has counted but not sent. */
  function Unsent(w: Worker): seq<SaveResult> {
    if w.Sending? then [w.result] else []
  }

  function CountCompleted(rs: seq<SaveResult>): nat {
    if rs == [] then 0 else CountCompleted(rs[..|rs| - 1]) + if rs[|rs| - 1].Completed? then 1 else 0
  }

  function CountMux(rs: seq<SaveResult>): nat {
    if rs == [] then 0
    else CountMux(rs[..|rs| - 1]) + if rs[|rs| - 1].Failed? && rs[|rs| - 1].error.OtherMuxerError? then 1 else 0
  }

  /** Handed out, then waiting to be handed out, then in work, then queued: exactly the accepted jobs, in order. */
  predicate Conserved(s: State) {
    && Works(s.handed) + Works(s.results) + InFlight(s.worker) + s.queue == s.accepted
    && s.handed + s.results + Unsent(s.worker) == s.recorded
  }

  predicate Bounded(s: State) {
    |s.queue| <= 8 && |s.results| <= 8
  }

  /** Every counter is the saturated count of what it stands for, up to a report still under way. */
  predicate Counted(s: State) {
    var m := s.metrics;
    && CountCompleted(s.recorded) <= |s.recorded|
    && m.savesQueued == Min(|s.accepted| - (if s.owner.ReportAccepted? then 1 else 0), U64_MAX)
    && m.savesCompleted == Saturated(CountCompleted(s.recorded))
    && m.savesFailed == Min(
         |s.recorded| - CountCompleted(s.recorded) + s.rejected - (if s.owner.ReportRejected? then 1 else 0), U64_MAX)
    && m.queueFull == Min(s.rejectedFull - (if s.owner.ReportRejected? && s.owner.full then 1 else 0), U64_MAX)
    && m.muxFailures == Saturated(CountMux(s.recorded))
  }

  /** Shutdown has returned; a later submit may be under way. */
  predicate Returned(s: State) {
    s.owner.Closed? || s.owner == ReportRejected(false)
  }

  predicate Phased(s: State) {
    && (s.senderOpen <==> s.owner.Ready? || s.owner.ReportAccepted? || s.owner == ReportRejected(true))
    && (s.worker.Stopped? ==> !s.senderOpen && s.queue == [])
    && (s.owner.LastDrain? || Returned(s) ==> s.worker.Stopped?)
    && (Returned(s) ==> s.results == [])
    && (s.owner.ReportAccepted? ==> |s.accepted| >= 1)
    && (s.owner.ReportRejected? ==> s.rejected >= 1 && (s.owner.full ==> s.rejectedFull >= 1))
    && s.rejectedFull <= s.rejected
  }

  /** Minimum, payload, one mebibyte and 64 bytes a packet would fit, or the probe answered all that 64 bits hold. */
  predicate HasSpace(w: Work, space: nat) {
    space >= w.minimumFreeSpaceBytes + w.payloadBytes + 1_048_576 + 64 * w.packetCount || space >= U64_MAX
  }

  /** The result says what was answered: completed exactly when there was space and the muxer did not fail. */
  predicate Truthful(a: Asked, r: SaveResult) {
    && (a.space.None? ==> a.muxer.None? && r == Failed(r.work, OutputDirectoryUnavailable))
    && (a.space.Some? && !HasSpace(r.work, a.space.value) ==>
          a.muxer.None? && r == Failed(r.work, InsufficientDiskSpace))
    && (a.space.Some? && HasSpace(r.work, a.space.value) ==>
          && a.muxer.Some?
          && r == if a.muxer.value.None? then Completed(r.work) else Failed(r.work, a.muxer.value.value))
  }

  /** What the worker has been answered for the job it holds. */
  predicate InWorkTruthful(w: Worker, a: Asked) {
    match w
    case Muxing(work) => a.muxer.None? && a.space.Some? && HasSpace(work, a.space.value)
    case Recording(r) => Truthful(a, r)
    case _ => true
  }

  predicate AnswerPending(w: Worker) {
    w.Muxing? || w.Recording?
  }

  function LastSpace(asked: seq<Asked>): Option<nat> {
    if asked == [] then None
    else if asked[|asked| - 1].space.Some? then asked[|asked| - 1].space
    else LastSpace(asked[..|asked| - 1])
  }

  /** Every recorded result says what the probe and the muxer answered for its job. */
  predicate AllTruthful(s: State) {
    && |s.asked| == |s.recorded| + (if AnswerPending(s.worker) then 1 else 0)
    && (forall i | 0 <= i < |s.recorded| :: Truthful(s.asked[i], s.recorded[i]))
    && (AnswerPending(s.worker) ==> InWorkTruthful(s.worker, s.asked[|s.recorded|]))
    && s.metrics.availableDiskSpaceBytes == LastSpace(s.asked)
  }

  predicate Invariant(s: State) {
    Bounded(s) && Phased(s) && Conserved(s) && Counted(s) && AllTruthful(s)
  }

  lemma WorksAppend(rs: seq<SaveResult>, r: SaveResult)
    ensures Works(rs + [r]) == Works(rs) + [r.work]
  {
  }

  lemma WorksTail(rs: seq<SaveResult>)
    requires rs != []
    ensures Works(rs) == [rs[0].work] + Works(rs[1..])
  {
  }

  /** The owner's steps on the channels. */
  lemma OwnerConserves(s: State, step: Step)
    requires Enabled(s, step) && Conserved(s) && !IsWorkerStep(step)
    ensures Conserved(Take(s, step))
  {
    hide Works, InFlight, Unsent;
    var t := Take(s, step);
    if step.TrySend? && t.accepted != s.accepted {
      var before := Works(s.handed) + Works(s.results) + InFlight(s.worker);
      assert before + (s.queue + [step.work]) == (before + s.queue) + [step.work];
    } else if step.Pop? {
      var r, later := s.results[0], InFlight(s.worker) + s.queue;
      WorksTail(s.results);
      WorksAppend(s.handed, r);
      assert Works(s.handed) + ([r.work] + Works(t.results)) + InFlight(s.worker) + s.queue
          == (Works(s.handed) + [r.work]) + Works(t.results) + InFlight(s.worker) + s.queue;
      assert s.handed + s.results == t.handed + t.results;
    }
  }

  lemma RecvConserves(s: State)
    requires Enabled(s, Recv) && Conserved(s)
    ensures Conserved(Take(s, Recv))
  {
    hide Works;
    var t := Take(s, Recv);
    var done := Works(s.handed) + Works(s.results);
    if s.queue != [] {
      assert done + [] + s.queue == done + [s.queue[0]] + t.queue;
    }
  }

  lemma RecordConserves(s: State)
    requires Enabled(s, Record) && Conserved(s)
    ensures Conserved(Take(s, Record))
  {
    hide Works;
    assert s.handed + s.results + [] == s.handed + s.results;
  }

  lemma SendConserves(s: State)
    requires Enabled(s, Send) && Conserved(s)
    ensures Conserved(Take(s, Send))
  {
    hide Works;
    var r := s.worker.result;
    WorksAppend(s.results, r);
    assert Works(s.handed) + Works(s.results) + [r.work] + s.queue
        == Works(s.handed) + (Works(s.results) + [r.work]) + [] + s.queue;
    assert s.handed + s.results + [r] == s.handed + (s.results + [r]) + [];
  }

  lemma TakeConserves(s: State, step: Step)
    requires Enabled(s, step) && Conserved(s)
    ensures Conserved(Take(s, step))
  {
    hide Works;
    match step
    case Recv => RecvConserves(s);
    case Record => RecordConserves(s);
    case Send => SendConserves(s);
    case Probe(_) =>
    case Mux(_) =>
    case _ => OwnerConserves(s, step);
  }

  lemma RecordCounts(s: State)
    requires Enabled(s, Record) && Counted(s)
    ensures Counted(Take(s, Record))
  {
    var t := Take(s, Record);
    assert t.recorded[..|t.recorded| - 1] == s.recorded;
  }

  lemma TakeCounts(s: State, step: Step)
    requires Enabled(s, step) && Counted(s) && Phased(s)
    ensures Counted(Take(s, step))
  {
    hide CountCompleted, CountMux;
    if step.Record? {
      RecordCounts(s);
    } else {
      assert Take(s, step).recorded == s.recorded;
    }
  }

  lemma AnsweredSpace(asked: seq<Asked>, outcome: Option<MuxerError>)
    ensures LastSpace(Answered(asked, outcome)) == LastSpace(asked)
  {
    if asked != [] {
      var a := Answered(asked, outcome);
      assert a[..|a| - 1] == asked[..|asked| - 1];
    }
  }

  lemma ProbeIsTruthful(s: State, available: Option<nat>)
    requires Enabled(s, Probe(available)) && AllTruthful(s)
    ensures AllTruthful(Take(s, Probe(available)))
  {
    var t := Take(s, Probe(available));
    assert t.asked[..|t.asked| - 1] == s.asked;
  }

  lemma TakeIsTruthful(s: State, step: Step)
    requires Enabled(s, step) && AllTruthful(s)
    ensures AllTruthful(Take(s, step))
  {
    hide Truthful, HasSpace, LastSpace;
    match step
    case Probe(available) => ProbeIsTruthful(s, available);
    case Mux(outcome) => MuxIsTruthful(s, outcome);
    case _ =>
  }

  lemma MuxIsTruthful(s: State, outcome: Option<MuxerError>)
    requires Enabled(s, Mux(outcome)) && AllTruthful(s)
    ensures AllTruthful(Take(s, Mux(outcome)))
  {
    hide HasSpace, LastSpace;
    AnsweredSpace(s.asked, outcome);
  }

  lemma TakeKeepsInvariant(s: State, step: Step)
    requires Enabled(s, step) && Invariant(s)
    ensures Invariant(Take(s, step))
  {
    hide Conserved, Counted, AllTruthful;
    TakeConserves(s, step);
    TakeIsTruthful(s, step);
    TakeCounts(s, step);
  }

  // ---------------------------------------------------------------------------
  // Runs.

  /** Every step of the run is enabled where it is taken. */
  predicate Legal(s: State, run: seq<Step>)
    decreases |run|
  {
    run == [] || (Enabled(s, run[0]) && Legal(Take(s, run[0]), run[1..]))
  }

  function After(s: State, run: seq<Step>): State
    requires Legal(s, run)
    decreases |run|
  {
    if run == [] then s else After(Take(s, run[0]), run[1..])
  }

  /** In every interleaving: nothing lost, duplicated or reordered, both channels bounded, every counter right. */
  lemma {:induction false} EveryRunKeepsInvariant(s: State, run: seq<Step>)
    requires Invariant(s) && Legal(s, run)
    ensures Invariant(After(s, run))
    decreases |run|
  {
    hide Invariant, Enabled, Take;
    if run != [] {
      TakeKeepsInvariant(s, run[0]);
      EveryRunKeepsInvariant(Take(s, run[0]), run[1..]);
    }
  }

  /** What the probe and the muxer answer in the course of a run, job by job. */
  function AnswersIn(asked: seq<Asked>, run: seq<Step>): seq<Asked>
    decreases |run|
  {
    if run == [] then asked else
    var now :=
      match run[0]
      case Probe(available) => asked + [Asked(available, None)]
      case Mux(outcome) =>
        if asked == [] then asked else asked[|asked| - 1 := Asked(asked[|asked| - 1].space, Some(outcome))]
      case _ => asked;
    AnswersIn(now, run[1..])
  }

  lemma {:induction false} AnswersAreRemembered(s: State, run: seq<Step>)
    requires Legal(s, run)
    ensures After(s, run).asked == AnswersIn(s.asked, run)
    decreases |run|
  {
    if run != [] {
      AnswersAreRemembered(Take(s, run[0]), run[1..]);
      if run[0].Mux? && s.asked != [] {
        var last := |s.asked| - 1;
        assert Answered(s.asked, run[0].outcome) == s.asked[last := Asked(s.asked[last].space, Some(run[0].outcome))];
      }
    }
  }

  lemma InitialInvariant()
    ensures Invariant(INITIAL)
  {
  }

  /**
   * Short of saturation and of a rejection still being counted, the counters add up to the finished jobs
   * and the rejected submits.
   */
  lemma CountersAddUp(s: State)
    requires Invariant(s) && !s.owner.ReportRejected? && |s.recorded| + s.rejected <= U64_MAX
    ensures s.metrics.savesCompleted + s.metrics.savesFailed == |s.recorded| + s.rejected
    ensures s.metrics.queueFull == s.rejectedFull && s.metrics.muxFailures <= s.metrics.savesFailed
  {
    MuxAreFailures(s.recorded);
  }

  lemma {:induction false} MuxAreFailures(rs: seq<SaveResult>)
    ensures CountMux(rs) + CountCompleted(rs) <= |rs|
  {
    if rs != [] { MuxAreFailures(rs[..|rs| - 1]); }
  }

  // ---------------------------------------------------------------------------
  // Shutdown.

  predicate ShuttingDown(s: State) {
    s.owner.Joining? || s.owner.LastDrain?
  }

  function WorkerWeight(w: Worker): nat {
    match w
    case Probing(_) => 6
    case Muxing(_) => 5
    case Recording(_) => 4
    case Sending(_) => 3
    case Receiving => 1
    case Stopped => 0
  }

  function OwnerWeight(o: Owner): nat {
    match o
    case Joining => 2
    case LastDrain => 1
    case _ => 0
  }

  /** How many steps can still happen before shutdown returns. */
  function Remaining(s: State): nat {
    6 * |s.queue| + WorkerWeight(s.worker) + |s.results| + OwnerWeight(s.owner)
  }

  /** From the closing of the sender on, every step of either thread uses up the measure. */
  lemma ShutdownStepDecreases(s: State, step: Step)
    requires ShuttingDown(s) && Enabled(s, step)
    ensures Remaining(Take(s, step)) < Remaining(s)
    ensures ShuttingDown(Take(s, step)) || Take(s, step).owner.Closed?
  {
  }

  /** Shutdown never deadlocks: until it returns, one of the threads can move. */
  lemma ShutdownCanMove(s: State) returns (step: Step)
    requires Invariant(s) && ShuttingDown(s)
    ensures Enabled(s, step) && !step.TrySend?
  {
    hide Conserved, Counted, AllTruthful;
    match s.worker
    case Stopped => step := if s.owner.Joining? then Join else if s.results != [] then Pop else FinishDrain;
    case Receiving => step := Recv;
    case Probing(_) => step := Probe(None);
    case Muxing(_) => step := Mux(None);
    case Recording(_) => step := Record;
    case Sending(_) => step := if |s.results| < SAVE_QUEUE_BOUND then Send else Pop;
  }

  /** After shutdown only a submit can happen, and it is rejected. */
  lemma ClosedOnlyRejects(s: State, step: Step)
    requires Invariant(s) && s.owner.Closed?
    ensures Enabled(s, step) <==> step.TrySend?
    ensures step.TrySend? ==>
              var t := Take(Take(s, step), Report);
              t == s.(rejected := s.rejected + 1, metrics := s.metrics.(savesFailed := Inc(s.metrics.savesFailed)))
  {
  }

  /** Every interleaving of a shutdown is shorter than the measure, and one that cannot go on has returned. */
  lemma {:induction false} ShutdownTerminates(s: State, run: seq<Step>)
    requires Invariant(s) && (ShuttingDown(s) || s.owner.Closed?) && Legal(s, run)
    requires forall step | step in run :: !step.TrySend?
    ensures |run| <= Remaining(s)
    ensures (forall step: Step | !step.TrySend? :: !Enabled(After(s, run), step)) <==> After(s, run).owner.Closed?
    decreases |run|
  {
    hide Conserved, Counted, AllTruthful, Take, Enabled, Remaining;
    if run == [] {
      if s.owner.Closed? {
        forall step: Step | !step.TrySend? ensures !Enabled(s, step) { ClosedOnlyRejects(s, step); }
      } else {
        var step := ShutdownCanMove(s);
      }
    } else {
      assert run[0] in run && forall step | step in run[1..] :: step in run;
      if s.owner.Closed? { ClosedOnlyRejects(s, run[0]); }
      ShutdownStepDecreases(s, run[0]);
      TakeKeepsInvariant(s, run[0]);
      ShutdownTerminates(Take(s, run[0]), run[1..]);
    }
  }

  lemma ClosedIsEmpty(s: State)
    requires Invariant(s)
    ensures s.owner.Closed? ==> s.results == []
  {
  }

  lemma ClosedHandsBackEverything(s: State)
    requires Invariant(s) && s.owner.Closed?
    ensures Works(s.handed) == s.accepted
    ensures s.handed == s.recorded && |s.asked| == |s.handed|
    ensures forall i | 0 <= i < |s.handed| :: Truthful(s.asked[i], s.handed[i])
  {
    assert Works(s.handed) + Works(s.results) + InFlight(s.worker) + s.queue == Works(s.handed);
    assert s.handed + s.results + Unsent(s.worker) == s.handed;
  }

  /**
   * Over every run that ends with a returned shutdown: a result was handed out for every accepted
   * job, once and in order, it says what the probe and the muxer answered for that job, and short of
   * saturation the counters add up to accepted and rejected jobs.
   */
  lemma ShutdownHandsBackEverything(run: seq<Step>)
    requires Legal(INITIAL, run) && After(INITIAL, run).owner.Closed?
    ensures var s := After(INITIAL, run);
            && Works(s.handed) == s.accepted
            && s.handed == s.recorded
            && |AnswersIn([], run)| == |s.handed|
            && (forall i | 0 <= i < |s.handed| :: Truthful(AnswersIn([], run)[i], s.handed[i]))
            && (|s.accepted| + s.rejected <= U64_MAX ==>
                  s.metrics.savesCompleted + s.metrics.savesFailed == |s.accepted| + s.rejected)
  {
    hide Legal, After;
    InitialInvariant();
    EveryRunKeepsInvariant(INITIAL, run);
    AnswersAreRemembered(INITIAL, run);
    var s := After(INITIAL, run);
    ClosedHandsBackEverything(s);
    assert |Works(s.handed)| == |s.handed|;
    if |s.recorded| + s.rejected <= U64_MAX { CountersAddUp(s); }
  }
}

/** The save worker's public calls, each run against an arbitrary worker thread. */
module SaveWorker {
  import opened Common
  import opened SaveSpec

  datatype JobQueueError = QueueFull | WorkerStopped

  /** What the environment answers: the disk probe and the muxer. */
  datatype Answers = Answers(available: Option<nat>, mux: Option<MuxerError>)

  /** The worker's next step under the given answers, if it is not blocked. */
  function WorkerStep(s: State, a: Answers): (r: Option<Step>)
    ensures r.Some? ==> IsWorkerStep(r.value) && Enabled(s, r.value)
    ensures r.None? ==> forall step :: IsWorkerStep(step) ==> !Enabled(s, step)
  {
    var step := match s.worker
      case Receiving => Recv
      case Probing(_) => Probe(a.available)
      case Muxing(_) => Mux(a.mux)
      case Recording(_) => Record
      case Sending(_) => Send
      case Stopped => Recv;
    if Enabled(s, step) then Some(step) else None
  }

  /** What was taken and what waits, against the results that waited at first. */
  predicate TakenFrom(first: seq<SaveResult>, taken: seq<SaveResult>, waiting: seq<SaveResult>) {
    if |taken| <= |first| then first[..|taken|] == taken && first[|taken|..] <= waiting else first <= taken
  }

  lemma NoneTaken(first: seq<SaveResult>)
    ensures TakenFrom(first, [], first)
  {
  }

  lemma OneMoreTaken(
    first: seq<SaveResult>, taken: seq<SaveResult>, waiting: seq<SaveResult>, later: seq<SaveResult>)
    requires TakenFrom(first, taken, waiting) && waiting != [] && waiting[1..] <= later
    ensures TakenFrom(first, taken + [waiting[0]], later)
  {
    var n := |taken|;
    if n < |first| {
      assert first[n..][0] == waiting[0] && first[n..][1..] == first[n + 1..];
      assert first[..n + 1] == first[..n] + [first[n]];
    }
  }

  lemma AllTaken(first: seq<SaveResult>, taken: seq<SaveResult>, waiting: seq<SaveResult>)
    requires TakenFrom(first, taken, waiting)
    ensures waiting == [] || |taken| >= |first| ==> first <= taken
  {
  }

  class SaveWorker {
    var shared: State

    ghost predicate Valid()
      reads this
    {
      Invariant(shared)
    }

    constructor ()
      ensures Valid() && shared == INITIAL
    {
      shared := INITIAL;
      InitialInvariant();
    }

    /** The worker thread gets the processor for as many steps as there are answers. */
    method WorkerRuns(answers: seq<Answers>) returns (ghost steps: seq<Step>)
      requires Valid()
      modifies this
      ensures Valid() && Legal(old(shared), steps) && shared == After(old(shared), steps)
      ensures forall step | step in steps :: IsWorkerStep(step)
      ensures shared.owner == old(shared.owner) && shared.handed == old(shared.handed)
      ensures shared.accepted == old(shared.accepted)
      ensures shared.senderOpen == old(shared.senderOpen)
      ensures ShuttingDown(shared) ==> Remaining(shared) + |steps| <= old(Remaining(shared))
      ensures answers != [] && steps == [] ==> shared == old(shared) && WorkerStep(shared, answers[0]).None?
    {
      hide Invariant, Remaining;
      steps := [];
      for i := 0 to |answers|
        invariant Valid() && Legal(old(shared), steps) && shared == After(old(shared), steps)
        invariant forall step | step in steps :: IsWorkerStep(step)
        invariant shared.owner == old(shared.owner) && shared.handed == old(shared.handed)
        invariant shared.accepted == old(shared.accepted)
        invariant shared.senderOpen == old(shared.senderOpen)
        invariant ShuttingDown(shared) ==> Remaining(shared) + |steps| <= old(Remaining(shared))
        invariant i > 0 && steps == [] ==> WorkerStep(shared, answers[0]).None?
      {
        var next := WorkerStep(shared, answers[i]);
        if next.Some? {
          TakeKeepsInvariant(shared, next.value);
          if ShuttingDown(shared) { ShutdownStepDecreases(shared, next.value); }
          AfterOneMore(old(shared), steps, next.value);
          shared := Take(shared, next.value);
          steps := steps + [next.value];
        }
      }
    }

    method Submit(work: Work, answers: seq<Answers>) returns (r: Result<(), JobQueueError>)
      requires Valid() && (shared.owner.Ready? || shared.owner.Closed?)
      modifies this
      ensures Valid() && shared.owner == old(shared.owner) && shared.handed == old(shared.handed)
      ensures r.Ok? <==> old(shared.owner.Ready?) && old(|shared.queue|) < 8
      ensures r.Ok? ==> shared.accepted == old(shared.accepted) + [work] && shared.rejected == old(shared.rejected)
      ensures r.Err? ==>
                && r.error == (if old(shared.owner.Closed?) then WorkerStopped else QueueFull)
                && shared.accepted == old(shared.accepted)
                && shared.rejected == old(shared.rejected) + 1
                && shared.rejectedFull == old(shared.rejectedFull) + if r.error.QueueFull? then 1 else 0
    {
      hide Conserved, Counted, AllTruthful;
      TakeKeepsInvariant(shared, TrySend(work));
      shared := Take(shared, TrySend(work));
      var outcome := shared.owner;
      ghost var steps := WorkerRuns(answers);
      TakeKeepsInvariant(shared, Report);
      RejectedUntouched(old(Take(shared, TrySend(work))), steps);
      shared := Take(shared, Report);
      if outcome.ReportAccepted? { return Ok(()); }
      return Err(if outcome.full then QueueFull else WorkerStopped);
    }

    /** Take one result from the channel; the worker may run before the next is taken. */
    method PopOne(answers: seq<Answers>) returns (result: SaveResult)
      requires Valid() && Enabled(shared, Pop)
      modifies this
      ensures Valid() && shared.owner == old(shared.owner) && shared.accepted == old(shared.accepted)
      ensures result == old(shared.results)[0] && shared.handed == old(shared.handed) + [result]
      ensures old(shared.results)[1..] <= shared.results
      ensures ShuttingDown(shared) ==> Remaining(shared) + 1 <= old(Remaining(shared))
    {
      hide Invariant, Remaining, Legal, After;
      TakeKeepsInvariant(shared, Pop);
      if ShuttingDown(shared) { ShutdownStepDecreases(shared, Pop); }
      result := shared.results[0];
      shared := Take(shared, Pop);
      ghost var before := shared;
      ghost var steps := WorkerRuns(answers);
      ResultsGrow(before, steps);
    }

    /** Hand out what the result channel holds, while the worker keeps running in between. */
    method Drain(answers: seq<Answers>) returns (handed: seq<SaveResult>)
      requires Valid() && (shared.owner.Ready? || ShuttingDown(shared) || shared.owner.Closed?)
      modifies this
      ensures Valid() && shared.owner == old(shared.owner) && shared.accepted == old(shared.accepted)
      ensures shared.handed == old(shared.handed) + handed
      ensures old(shared.results) <= handed
      ensures handed == [] ==> shared == old(shared)
      ensures shared.owner.Closed? ==> handed == []
      ensures ShuttingDown(shared) ==> Remaining(shared) + |handed| <= old(Remaining(shared))
    {
      ClosedIsEmpty(shared);
      hide Invariant, Remaining, Take, TakenFrom;
      NoneTaken(shared.results);
      handed := [];
      ghost var first := shared.results;
      for i := 0 to |shared.results| + |answers|
        invariant Valid() && shared.owner == old(shared.owner) && shared.accepted == old(shared.accepted)
        invariant shared.handed == old(shared.handed) + handed
        invariant |handed| == i
        invariant TakenFrom(first, handed, shared.results)
        invariant i == 0 ==> shared == old(shared)
        invariant i > 0 ==> first != []
        invariant ShuttingDown(shared) ==> Remaining(shared) + i <= old(Remaining(shared))
      {
        if shared.results == [] { break; }
        ghost var waiting := shared.results;
        var result := PopOne(if i < |answers| then answers[i..i + 1] else []);
        OneMoreTaken(first, handed, waiting, shared.results);
        handed := handed + [result];
      }
      AllTaken(first, handed, shared.results);
    }

    /**
     * Close the sender, drain until the worker has stopped, and drain once more. Each time
     * around, the worker is scheduled for at least one step; the muxer is assumed to return.
     */
    method Shutdown(fair: nat -> Answers) returns (results: seq<SaveResult>)
      requires Valid() && (shared.owner.Ready? || shared.owner.Closed?)
      modifies this
      ensures Valid() && shared.owner.Closed? && shared.accepted == old(shared.accepted)
      ensures old(shared.owner.Closed?) ==> results == [] && shared == old(shared)
      ensures shared.handed == old(shared.handed) + results
      ensures Works(old(shared.handed)) + Works(results) == shared.accepted
    {
      hide Invariant, Remaining, Conserved, Counted, AllTruthful;
      if shared.owner.Closed? {
        ClosedHandsBackEverything(shared);
        results := Drain([]);
        assert Works(results) == [];
        return;
      }
      TakeKeepsInvariant(shared, CloseSender);
      shared := Take(shared, CloseSender);
      results := [];
      var round := 0;
      while !shared.worker.Stopped?
        invariant Valid() && shared.owner.Joining? && shared.accepted == old(shared.accepted)
        invariant shared.handed == old(shared.handed) + results
        decreases Remaining(shared)
      {
        var more := Drain([]);
        results := results + more;
        if more == [] { UnblockedWorkerCanMove(shared, fair(round)); }
        ghost var steps := WorkerRuns([fair(round)]);
        assert |more| + |steps| > 0;
        round := round + 1;
      }
      TakeKeepsInvariant(shared, Join);
      shared := Take(shared, Join);
      while shared.results != []
        invariant Valid() && shared.owner.LastDrain? && shared.accepted == old(shared.accepted)
        invariant shared.handed == old(shared.handed) + results
        decreases Remaining(shared)
      {
        var more := Drain([]);
        results := results + more;
      }
      TakeKeepsInvariant(shared, FinishDrain);
      shared := Take(shared, FinishDrain);
      ClosedHandsBackEverything(shared);
      assert Works(old(shared.handed) + results) == Works(old(shared.handed)) + Works(results);
    }
  }

  lemma {:induction false} AfterOneMore(s: State, run: seq<Step>, step: Step)
    requires Legal(s, run) && Enabled(After(s, run), step)
    ensures Legal(s, run + [step]) && After(s, run + [step]) == Take(After(s, run), step)
    decreases |run|
  {
    hide Enabled, Take;
    if run != [] {
      AfterOneMore(Take(s, run[0]), run[1..], step);
      assert (run + [step])[1..] == run[1..] + [step];
    }
  }

  /** The worker never touches the count of rejected submits. */
  lemma {:induction false} RejectedUntouched(s: State, run: seq<Step>)
    requires Legal(s, run) && forall step | step in run :: IsWorkerStep(step)
    ensures After(s, run).rejected == s.rejected && After(s, run).rejectedFull == s.rejectedFull
    decreases |run|
  {
    if run != [] {
      assert run[0] in run;
      RejectedUntouched(Take(s, run[0]), run[1..]);
    }
  }

  /** The worker only adds to the result channel. */
  lemma {:induction false} ResultsGrow(s: State, run: seq<Step>)
    requires Legal(s, run) && forall step | step in run :: IsWorkerStep(step)
    ensures s.results <= After(s, run).results
    decreases |run|
  {
    if run != [] {
      assert run[0] in run;
      ResultsGrow(Take(s, run[0]), run[1..]);
    }
  }

  /** With the sender closed, an unfinished worker is blocked only by a full result channel. */
  lemma UnblockedWorkerCanMove(s: State, a: Answers)
    requires Invariant(s) && ShuttingDown(s) && !s.worker.Stopped? && s.results == []
    ensures WorkerStep(s, a).Some?
  {
    hide Conserved, Counted, AllTruthful;
  }
}
