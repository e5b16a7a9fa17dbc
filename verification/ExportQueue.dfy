/** The export queue itself: fields changed in place, and cancellation tokens shared with their holders. */
module ExportQueue {
  import opened Common
  import opened Spec = ExportQueueSpec

  /** A flag shared between the queue, the worker and any other holder. */
  class CancellationToken {
    var cancelled: bool

    constructor ()
      ensures !cancelled
    {
      cancelled := false;
    }

    method Cancel()
      modifies this
      ensures cancelled
    {
      cancelled := true;
    }
  }

  datatype Entry = Entry(id: nat, job: ExportJob, token: CancellationToken, progress: Progress)

  function ItemOf(e: Entry): Item
    reads e.token
  {
    Item(e.id, e.job, e.token.cancelled, e.progress)
  }

  class ExportQueue {
    const terminalHistoryLimit: nat
    var nextId: nat
    var active: Option<Entry>
    var pending: seq<Entry>
    var terminalHistory: seq<Terminal>

    function Tokens(): set<CancellationToken>
      reads this
    {
      (if active.Some? then {active.value.token} else {}) + set i | 0 <= i < |pending| :: pending[i].token
    }

    /** The queue as a value, with each token replaced by its current flag. */
    function Abs(): State
      reads this, Tokens()
    {
      State(
        nextId,
        if active.Some? then Some(ItemOf(active.value)) else None,
        seq(|pending|, i requires 0 <= i < |pending| reads this, Tokens() => ItemOf(pending[i])),
        terminalHistory)
    }

    /** The queue has its shape, and every live job has a token of its own. */
    ghost predicate Valid()
      reads this, Tokens()
    {
      Shape(Abs()) && DistinctTokens()
    }

    ghost predicate DistinctTokens()
      reads this
    {
      && (forall i, j | 0 <= i < j < |pending| :: pending[i].token != pending[j].token)
      && (active.Some? ==> forall i | 0 <= i < |pending| :: pending[i].token != active.value.token)
    }

    constructor (limit: nat)
      ensures Valid() && Abs() == INITIAL && terminalHistoryLimit == limit && Tokens() == {}
    {
      terminalHistoryLimit := limit;
      nextId, active, pending, terminalHistory := 1, None, [], [];
    }

    method Submit(job: ExportJob, lock: Lock) returns (r: Result<nat, QueueError>)
      requires Valid()
      modifies this
      ensures Valid()
      ensures if lock.Free? then (Abs(), r) == Spec.Submit(old(Abs()), job)
              else Abs() == old(Abs()) && r == Err(if lock.Held? then Busy else StateUnavailable)
      ensures fresh(Tokens() - old(Tokens()))
    {
      hide Shape;
      if !lock.Free? { return Err(LockError(lock)); }
      if active.Some? && |pending| >= PENDING_JOB_LIMIT { return Err(QueueFull); }
      var id := nextId;
      if nextId + 1 > U64_MAX { return Err(JobIdExhausted); }
      SubmitKeepsShape(Abs(), job);
      nextId := nextId + 1;
      var token := new CancellationToken();
      var entry := Entry(id, job, token, Progress(Preparing, 0));
      if active.None? {
        active := Some(entry);
      } else {
        pending := pending + [entry];
      }
      assert Abs().pending == Spec.Submit(old(Abs()), job).0.pending;
      return Ok(id);
    }

    /** Where the entry with this id waits. */
    method FindPending(id: nat) returns (at: nat)
      requires Valid()
      ensures at == Position(Abs().pending, id)
    {
      at := 0;
      while at < |pending| && pending[at].id != id
        invariant at <= |pending|
        invariant forall i | 0 <= i < at :: pending[i].id != id
      {
        at := at + 1;
      }
      PositionUnique(Abs().pending, id, at);
    }

    method RemovePending(at: nat) returns (entry: Entry)
      requires at < |pending|
      requires forall i, j | 0 <= i < j < |pending| :: pending[i].token != pending[j].token
      modifies this`pending
      ensures entry == old(pending)[at] && pending == old(pending)[..at] + old(pending)[at + 1..]
      ensures forall i, j | 0 <= i < j < |pending| :: pending[i].token != pending[j].token
      ensures forall i | 0 <= i < |pending| :: pending[i] in old(pending) && pending[i].token != entry.token
      ensures Tokens() <= old(Tokens())
    {
      ghost var was := pending;
      entry := pending[at];
      pending := pending[..at] + pending[at + 1..];
      assert forall i | 0 <= i < |pending| :: pending[i] == was[if i < at then i else i + 1];
    }

    /** A queued job is signalled and moves straight to the history. */
    method CancelPending(at: nat)
      requires Valid() && at < |pending|
      modifies this, Tokens()
      ensures Abs() == old(Abs()).(
                pending := old(Abs()).pending[..at] + old(Abs()).pending[at + 1..],
                history := PushTerminal(
                  old(terminalHistory),
                  Finish(old(Abs()).pending[at].(cancelled := true), Cancelled),
                  terminalHistoryLimit))
      ensures Tokens() <= old(Tokens())
      ensures DistinctTokens()
    {
      hide Shape, PushTerminal;
      ghost var before := Abs();
      var entry := RemovePending(at);
      entry.token.Cancel();
      terminalHistory := PushTerminal(terminalHistory, Finish(ItemOf(entry), Cancelled), terminalHistoryLimit);
      assert Abs().pending == before.pending[..at] + before.pending[at + 1..];
    }

    method Cancel(id: nat, lock: Lock) returns (r: Result<CancelOutcome, QueueError>)
      requires Valid()
      modifies this, Tokens()
      ensures Valid()
      ensures if lock.Free? then (Abs(), r) == Spec.Cancel(old(Abs()), id, terminalHistoryLimit)
              else Abs() == old(Abs()) && r == Err(if lock.Held? then Busy else StateUnavailable)
      ensures Tokens() <= old(Tokens())
    {
      hide Shape, PushTerminal;
      if !lock.Free? { return Err(LockError(lock)); }
      CancelKeepsShape(Abs(), id, terminalHistoryLimit);
      ghost var before := Abs();
      if active.Some? && active.value.id == id {
        active.value.token.Cancel();
        assert Abs().pending == before.pending;
        return Ok(ActiveCancellationRequested);
      }
      var at := FindPending(id);
      if at < |pending| {
        CancelPending(at);
        return Ok(QueuedCancelled);
      }
      if exists t :: t in terminalHistory && t.id == id { return Err(NotActive(id)); }
      return Err(UnknownJob(id));
    }

    /** Take the active entry out of its slot, if it is the one named. */
    method TakeActive(id: nat) returns (r: Result<Entry, QueueError>)
      modifies this`active
      ensures if old(active.Some? && active.value.id == id)
              then r == Ok(old(active).value) && active.None?
              else r == Err(NotActive(id)) && active == old(active)
    {
      var taken := active;
      active := None;
      if taken.None? { return Err(NotActive(id)); }
      if taken.value.id != id {
        active := taken;
        return Err(NotActive(id));
      }
      return Ok(taken.value);
    }

    method PromoteNext()
      modifies this`active, this`pending
      ensures if old(active.None? && pending != [])
              then active == Some(old(pending)[0]) && pending == old(pending)[1..]
              else active == old(active) && pending == old(pending)
    {
      if active.None? && pending != [] {
        active, pending := Some(pending[0]), pending[1..];
      }
    }

    /** The shared tail of `Complete`, `Fail` and `FinishCancelled`: record the entry and promote the next. */
    method RetireTaken(entry: Entry, status: Status, ghost before: State, ghost tokens: set<CancellationToken>)
      requires active.None? && entry.token !in Tokens()
      requires tokens == Tokens() + {entry.token}
      requires forall i, j | 0 <= i < j < |pending| :: pending[i].token != pending[j].token
      requires before == Abs().(active := Some(ItemOf(entry))) && Shape(before)
      modifies this
      ensures Valid() && Abs() == Retire(before, status, terminalHistoryLimit)
      ensures Tokens() <= tokens
    {
      hide Shape;
      RetireKeepsShape(before, status, terminalHistoryLimit);
      terminalHistory := PushTerminal(terminalHistory, Finish(ItemOf(entry), status), terminalHistoryLimit);
      PromoteNext();
      assert Abs() == Retire(before, status, terminalHistoryLimit) by {
        assert Abs().pending == Retire(before, status, terminalHistoryLimit).pending;
      }
    }

    method Complete(id: nat, lock: Lock) returns (r: Result<(), QueueError>)
      requires Valid()
      modifies this
      ensures Valid() && Tokens() <= old(Tokens())
      ensures if lock.Free? then (Abs(), r) == Spec.Complete(old(Abs()), id, terminalHistoryLimit)
              else Abs() == old(Abs()) && r == Err(if lock.Held? then Busy else StateUnavailable)
    {
      hide Shape, Retire;
      if !lock.Free? { return Err(LockError(lock)); }
      var entry := TakeActive(id);
      assert Abs().pending == old(Abs()).pending;
      if entry.Err? { return Err(entry.error); }
      if entry.value.token.cancelled {
        active := Some(entry.value);
        assert Abs().pending == old(Abs()).pending;
        return Err(CancellationRequested(id));
      }
      RetireTaken(entry.value, Completed, old(Abs()), old(Tokens()));
      return Ok(());
    }

    method Fail(id: nat, reason: string, lock: Lock) returns (r: Result<(), QueueError>)
      requires Valid()
      modifies this
      ensures Valid() && Tokens() <= old(Tokens())
      ensures if lock.Free? then (Abs(), r) == Spec.Fail(old(Abs()), id, reason, terminalHistoryLimit)
              else Abs() == old(Abs()) && r == Err(if lock.Held? then Busy else StateUnavailable)
    {
      hide Shape, Retire;
      if !lock.Free? { return Err(LockError(lock)); }
      var entry := TakeActive(id);
      assert Abs().pending == old(Abs()).pending;
      if entry.Err? { return Err(entry.error); }
      if entry.value.token.cancelled {
        active := Some(entry.value);
        assert Abs().pending == old(Abs()).pending;
        return Err(CancellationRequested(id));
      }
      RetireTaken(entry.value, Failed(reason), old(Abs()), old(Tokens()));
      return Ok(());
    }

    method FinishCancelled(id: nat, lock: Lock) returns (r: Result<(), QueueError>)
      requires Valid()
      modifies this
      ensures Valid() && Tokens() <= old(Tokens())
      ensures if lock.Free? then (Abs(), r) == Spec.FinishCancelled(old(Abs()), id, terminalHistoryLimit)
              else Abs() == old(Abs()) && r == Err(if lock.Held? then Busy else StateUnavailable)
    {
      hide Shape, Retire;
      if !lock.Free? { return Err(LockError(lock)); }
      var entry := TakeActive(id);
      assert Abs().pending == old(Abs()).pending;
      if entry.Err? { return Err(entry.error); }
      if !entry.value.token.cancelled {
        active := Some(entry.value);
        assert Abs().pending == old(Abs()).pending;
        return Err(CancellationNotRequested(id));
      }
      RetireTaken(entry.value, Cancelled, old(Abs()), old(Tokens()));
      return Ok(());
    }

    method UpdateProgress(id: nat, p: Progress, lock: Lock) returns (r: Result<(), QueueError>)
      requires Valid()
      modifies this`active
      ensures Valid() && Tokens() == old(Tokens())
      ensures if lock.Free? then (Abs(), r) == Spec.UpdateProgress(old(Abs()), id, p)
              else Abs() == old(Abs()) && r == Err(if lock.Held? then Busy else StateUnavailable)
    {
      hide Shape;
      if !lock.Free? { return Err(LockError(lock)); }
      if active.None? || active.value.id != id { return Err(NotActive(id)); }
      ProgressKeepsShape(Abs(), id, p);
      active := Some(active.value.(progress := p.(percent := Min(p.percent, 100))));
      assert Abs().pending == old(Abs()).pending;
      return Ok(());
    }

    /** A holder of the token of the live job `id` signals it without going through the queue. */
    method SignalThroughToken(id: nat, token: CancellationToken)
      requires Valid() && token in Tokens()
      requires if active.Some? && active.value.token == token then active.value.id == id
               else exists i | 0 <= i < |pending| :: pending[i].token == token && pending[i].id == id
      modifies token
      ensures Valid() && Abs() == SignalToken(old(Abs()), id)
    {
      SignalKeepsShape(Abs(), TokenOp(id), terminalHistoryLimit);
      ghost var before := Abs();
      TokenIdentifiesId(id, token);
      hide Shape;
      token.Cancel();
      assert Abs().pending == SignalToken(before, id).pending;
    }

    /** Ids and tokens name the same entry. */
    lemma TokenIdentifiesId(id: nat, token: CancellationToken)
      requires Valid() && token in Tokens()
      requires if active.Some? && active.value.token == token then active.value.id == id
               else exists i | 0 <= i < |pending| :: pending[i].token == token && pending[i].id == id
      ensures active.Some? ==> (active.value.token == token <==> active.value.id == id)
      ensures forall i | 0 <= i < |pending| :: pending[i].token == token <==> pending[i].id == id
    {
      var live := LiveItems(Abs());
      assert Ordered(live, nextId);
      forall i | 0 <= i < |pending| ensures live[if active.Some? then i + 1 else i].id == pending[i].id {
      }
      assert active.Some? ==> live[0].id == active.value.id;
    }
  }

  lemma {:induction false} PositionUnique(items: seq<Item>, id: nat, at: nat)
    requires at <= |items| && forall i | 0 <= i < at :: items[i].id != id
    requires at < |items| ==> items[at].id == id
    ensures Position(items, id) == at
  {
  }
}
