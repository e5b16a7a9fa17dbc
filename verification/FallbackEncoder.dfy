/** Latency percentiles over a bounded history. */
module Latency {
  import opened Common
  import opened Sorting

  const HISTORY_LIMIT: nat := 256

  predicate NatLe(a: nat, b: nat) {
    a <= b
  }

  function Remembered(history: seq<nat>, elapsed: nat): seq<nat> {
    (if |history| == HISTORY_LIMIT then history[1..] else history) + [elapsed]
  }

  /** The element of a sorted history at a rank of `numerator / denominator`. */
  function Percentile(ordered: seq<nat>, numerator: nat, denominator: nat): nat
    requires denominator > 0
  {
    var index := Min(Max(|ordered| * numerator - 1, 0) / denominator, Max(|ordered| - 1, 0));
    if 0 <= index < |ordered| then ordered[index] else 0
  }

  function CountAtMost(s: seq<nat>, v: nat): nat {
    if s == [] then 0 else CountAtMost(s[..|s| - 1], v) + if s[|s| - 1] <= v then 1 else 0
  }

  function CountBelow(s: seq<nat>, v: nat): nat {
    if s == [] then 0 else CountBelow(s[..|s| - 1], v) + if s[|s| - 1] < v then 1 else 0
  }

  lemma {:induction false} InsertCounts(s: seq<nat>, x: nat, v: nat)
    ensures CountAtMost(InsertLast(NatLe, s, x), v) == CountAtMost(s, v) + if x <= v then 1 else 0
    ensures CountBelow(InsertLast(NatLe, s, x), v) == CountBelow(s, v) + if x < v then 1 else 0
  {
    var r := InsertLast(NatLe, s, x);
    if s == [] {
      assert r[..0] == s;
    } else if s[|s| - 1] <= x {
      assert r[..|r| - 1] == s;
    } else {
      assert r[..|r| - 1] == InsertLast(NatLe, s[..|s| - 1], x);
      InsertCounts(s[..|s| - 1], x, v);
    }
  }

  lemma {:induction false} SortCounts(s: seq<nat>, v: nat)
    ensures CountAtMost(StableSort(NatLe, s), v) == CountAtMost(s, v)
    ensures CountBelow(StableSort(NatLe, s), v) == CountBelow(s, v)
  {
    if s != [] {
      SortCounts(s[..|s| - 1], v);
      InsertCounts(StableSort(NatLe, s[..|s| - 1]), s[|s| - 1], v);
    }
  }

  lemma {:induction false} SortedCounts(s: seq<nat>, v: nat, k: nat)
    requires k <= |s|
    ensures (forall i | 0 <= i < k :: s[i] <= v) ==> CountAtMost(s, v) >= k
    ensures (forall i | k <= i < |s| :: s[i] >= v) ==> CountBelow(s, v) <= k
  {
    if s != [] {
      var front := s[..|s| - 1];
      SortedCounts(front, v, Min(k, |front|));
      assert forall i | 0 <= i < |front| :: front[i] == s[i];
    }
  }

  /** The value at place `index` of a sorted history splits it by rank. */
  lemma RankSplits(history: seq<nat>, index: nat)
    requires index < |history|
    ensures var v := StableSort(NatLe, history)[index];
            v in history && CountAtMost(history, v) >= index + 1 && CountBelow(history, v) <= index
  {
    hide StableSort, InsertLast;
    var ordered := StableSort(NatLe, history);
    assert TotalPreorder(NatLe);
    StableSortSorts(NatLe, history);
    var v := ordered[index];
    assert v in multiset(history) by { assert v in multiset(ordered); }
    forall i | 0 <= i < index ensures ordered[i] <= v {
      assert NatLe(ordered[i], ordered[index]);
    }
    forall i | index < i < |ordered| ensures ordered[i] >= v {
      assert NatLe(ordered[index], ordered[i]);
    }
    SortedCounts(ordered, v, index + 1);
    SortedCounts(ordered, v, index);
    SortCounts(history, v);
  }

  /** Each percentile is the nearest rank: enough of the history is at or below it, and not enough is strictly below. */
  lemma PercentileIsNearestRank(history: seq<nat>, numerator: nat, denominator: nat)
    requires history != [] && 0 < numerator <= denominator
    ensures var v := Percentile(StableSort(NatLe, history), numerator, denominator);
            && v in history
            && CountAtMost(history, v) * denominator >= |history| * numerator
            && CountBelow(history, v) * denominator < |history| * numerator
  {
    hide StableSort, CountAtMost, CountBelow;
    var n := |history|;
    RankInRange(n, numerator, denominator);
    var index := (n * numerator - 1) / denominator;
    var v := StableSort(NatLe, history)[index];
    assert Percentile(StableSort(NatLe, history), numerator, denominator) == v;
    RankSplits(history, index);
    Scale(index + 1, CountAtMost(history, v), denominator);
    Scale(CountBelow(history, v), index, denominator);
  }

  lemma RankInRange(n: nat, numerator: nat, denominator: nat)
    requires n > 0 && 0 < numerator <= denominator
    ensures n * numerator >= 1
    ensures var index := (n * numerator - 1) / denominator;
            0 <= index < n && index * denominator < n * numerator <= (index + 1) * denominator
  {
    Scale(1, n, numerator);
    Scale(numerator, denominator, n);
    var index := (n * numerator - 1) / denominator;
    assert index * denominator <= n * numerator - 1;
    assert (index + 1) * denominator == index * denominator + denominator;
    if index >= n { Scale(n, index, denominator); }
  }

  lemma Scale(a: int, b: int, c: nat)
    requires a <= b
    ensures a * c <= b * c
  {
  }

  /** The median never exceeds the 95th percentile, nor that the maximum. */
  lemma PercentilesOrdered(history: seq<nat>)
    requires history != []
    ensures var ordered := StableSort(NatLe, history);
            Percentile(ordered, 1, 2) <= Percentile(ordered, 19, 20) <= ordered[|ordered| - 1]
    ensures forall x | x in history :: x <= StableSort(NatLe, history)[|history| - 1]
  {
    var ordered := StableSort(NatLe, history);
    assert TotalPreorder(NatLe);
    StableSortSorts(NatLe, history);
    var n := |history|;
    var i, j := (n - 1) / 2, (n * 19 - 1) / 20;
    assert 0 <= i <= j <= n - 1;
    assert NatLe(ordered[i], ordered[j]) || i == j;
    assert NatLe(ordered[j], ordered[n - 1]) || j == n - 1;
    forall x | x in history ensures x <= ordered[n - 1] {
      assert x in multiset(ordered);
      var k :| 0 <= k < n && ordered[k] == x;
      assert NatLe(ordered[k], ordered[n - 1]) || k == n - 1;
    }
  }

  lemma SortedInHistory(history: seq<nat>)
    ensures forall x | x in StableSort(NatLe, history) :: x in history
  {
    assert TotalPreorder(NatLe);
    StableSortSorts(NatLe, history);
    forall x | x in StableSort(NatLe, history) ensures x in history {
      assert x in multiset(StableSort(NatLe, history));
    }
  }

  /** The history holds the last 256 samples of all that were taken. */
  lemma HistoryIsLast(all: seq<nat>, elapsed: nat)
    ensures Remembered(LastOf(all, 256), elapsed) == LastOf(all + [elapsed], 256)
  {
  }
}

/** The fallback encoder itself: fields changed in place inside a retry loop. */
module FallbackEncoder {
  import opened Common
  import opened Sorting
  import opened EncoderRanking
  import opened FallbackSpec
  import Latency

  class FallbackVideoEncoder {
    const preference: Preference
    var candidates: seq<Candidate>
    var active: Option<Backend>
    var activeIndex: Option<nat>
    var config: Option<Config>
    var metrics: Metrics
    var events: seq<Event>
    var epoch: nat
    var latencyHistoryUs: seq<nat>
    var latencyUsP50: nat
    var latencyUsP95: nat
    var latencyUsMax: nat

    function Abs(): Encoder
      reads this
    {
      Encoder(preference, candidates, active, activeIndex, config.Some?, metrics, events, epoch)
    }

    /** The published percentiles are those of the remembered history. */
    ghost predicate LatencyCurrent()
      reads this`latencyHistoryUs, this`latencyUsP50, this`latencyUsP95, this`latencyUsMax
    {
      && |latencyHistoryUs| <= Latency.HISTORY_LIMIT
      && (latencyHistoryUs != [] ==>
            var ordered := StableSort(Latency.NatLe, latencyHistoryUs);
            && latencyUsP50 == Latency.Percentile(ordered, 1, 2)
            && latencyUsP95 == Latency.Percentile(ordered, 19, 20)
            && latencyUsMax == ordered[|ordered| - 1])
    }

    ghost predicate Valid()
      reads this
    {
      WellFormed(Abs()) && LatencyCurrent()
    }

    constructor (preference: Preference)
      ensures Valid() && Abs() == New(preference) && latencyHistoryUs == []
    {
      this.preference := preference;
      candidates, active, activeIndex, config := [], None, None, None;
      metrics := Metrics(0, 0, 0, 0, 0, None, 0);
      events, epoch, latencyHistoryUs := [], 0, [];
      latencyUsP50, latencyUsP95, latencyUsMax := 0, 0, 0;
    }

    method UpdateLatency(elapsed: nat)
      requires LatencyCurrent()
      modifies this`latencyHistoryUs, this`latencyUsP50, this`latencyUsP95, this`latencyUsMax
      ensures latencyHistoryUs == Latency.Remembered(old(latencyHistoryUs), elapsed)
      ensures LatencyCurrent() && latencyHistoryUs != []
      // Half of the history, and 95 of a hundred, are at most the percentiles, and no more than those are less.
      ensures var h := latencyHistoryUs;
              && latencyUsP50 in h && latencyUsP95 in h && latencyUsMax in h
              && Latency.CountBelow(h, latencyUsP50) * 2 < |h| <= Latency.CountAtMost(h, latencyUsP50) * 2
              && Latency.CountBelow(h, latencyUsP95) * 20 < |h| * 19 <= Latency.CountAtMost(h, latencyUsP95) * 20
              && forall x | x in h :: x <= latencyUsMax
    {
      if |latencyHistoryUs| == Latency.HISTORY_LIMIT {
        latencyHistoryUs := latencyHistoryUs[1..];
      }
      latencyHistoryUs := latencyHistoryUs + [elapsed];
      var ordered := StableSort(Latency.NatLe, latencyHistoryUs);
      latencyUsP50 := Latency.Percentile(ordered, 1, 2);
      latencyUsP95 := Latency.Percentile(ordered, 19, 20);
      latencyUsMax := ordered[|ordered| - 1];
      hide StableSort, Latency.Percentile, Latency.CountAtMost, Latency.CountBelow;
      Latency.PercentileIsNearestRank(latencyHistoryUs, 1, 2);
      Latency.PercentileIsNearestRank(latencyHistoryUs, 19, 20);
      Latency.PercentilesOrdered(latencyHistoryUs);
      Latency.SortedInHistory(latencyHistoryUs);
    }

    /** Try the candidates from `start` on, in order, until one configures. */
    method TryNext(start: nat, configures: nat -> Option<string>) returns (r: Option<Backend>)
      ensures r == ActivateNext(start, |candidates|, configures)
    {
      for index := start to Max(start, |candidates|)
        invariant ActivateNext(start, |candidates|, configures) == ActivateNext(index, |candidates|, configures)
      {
        var name := configures(index);
        if name.Some? { return Some(Backend(index, name.value)); }
      }
      return None;
    }

    /** Put the first configured backend in place and report it. */
    method SelectFirst(next: Backend)
      modifies this`active, this`activeIndex, this`epoch, this`metrics, this`events
      ensures active == Some(next) && activeIndex == Some(next.index) && epoch == NextEpoch(old(epoch))
      ensures metrics == old(metrics).(epoch := epoch, activeBackend := Some(next.name))
      ensures events == old(events) + [BackendSelected(next.name)]
    {
      activeIndex, active := Some(next.index), Some(next);
      epoch := NextEpoch(epoch);
      metrics := metrics.(epoch := epoch, activeBackend := Some(next.name));
      events := events + [BackendSelected(next.name)];
    }

    method Configure(c: Config, discovered: Option<seq<Candidate>>, configures: nat -> Option<string>)
      returns (ok: bool)
      requires Valid()
      modifies this
      ensures Valid()
      ensures (Abs(), ok) == FallbackSpec.Configure(old(Abs()), c, discovered, configures)
    {
      hide ValidConfig, RankCandidates, Eligible, HardwareFirst, LatencyCurrent;
      if !ValidConfig(c) { return false; }
      config, active, activeIndex := Some(c), None, None;
      if discovered.None? { return false; }
      candidates := RankCandidates(discovered.value, c, preference);
      assert HardwareFirst(candidates) by { RankingIsSound(discovered.value, c, preference); }
      if candidates == [] { return false; }
      var next := TryNext(0, configures);
      if next.None? { return false; }
      SelectFirst(next.value);
      return true;
    }

    method TakeEvents() returns (taken: seq<Event>)
      requires Valid()
      modifies this`events
      ensures Valid() && taken == old(events) && Abs() == old(Abs()).(events := [])
    {
      taken := events;
      events := [];
    }

    /** Put a replacement in place of the failed backend and report the switch. */
    method SwitchTo(next: Backend, fromName: string, toName: string)
      modifies this`active, this`activeIndex, this`epoch, this`metrics, this`events
      ensures active == Some(next) && activeIndex == Some(next.index) && epoch == NextEpoch(old(epoch))
      ensures metrics == old(metrics).(
                fallbackCount := old(metrics).fallbackCount + 1,
                activeBackend := Some(toName),
                epoch := epoch)
      ensures events == old(events) + [Fallback(fromName, toName, epoch)]
    {
      active, activeIndex := Some(next), Some(next.index);
      epoch := NextEpoch(epoch);
      metrics := metrics.(fallbackCount := metrics.fallbackCount + 1, activeBackend := Some(toName), epoch := epoch);
      events := events + [Fallback(fromName, toName, epoch)];
    }

    /** The failed backend is reinitialized once, else replaced by the next candidate that configures. */
    method Replace(backend: Backend, reinitialized: bool, attempt: nat, env: Env) returns (replaced: bool)
      requires active.None?
      modifies this`active, this`activeIndex, this`epoch, this`metrics, this`events
      ensures var failed := old(Abs()).(active := Some(backend));
              var t := Failed(failed, reinitialized, attempt, env);
              Abs() == t.state && (if replaced then t.Retry? else t.GaveUp?)
    {
      hide ActivateNext, NextEpoch;
      metrics := metrics.(encodeFailures := metrics.encodeFailures + 1);
      if !reinitialized {
        var again := env.configures(attempt)(backend.index);
        if again.Some? {
          SwitchTo(Backend(backend.index, again.value), backend.name, backend.name);
          return true;
        }
      }
      var next := TryNext(backend.index + 1, env.configures(attempt));
      if next.None? {
        metrics := metrics.(framesDropped := metrics.framesDropped + 1);
        return false;
      }
      SwitchTo(next.value, backend.name, next.value.name);
      return true;
    }

    /** One round of the retry loop: `None` when a replacement is in place and must be tried. */
    method TryActive(reinitialized: bool, attempt: nat, env: Env, elapsed: nat) returns (outcome: Option<Outcome>)
      requires active.Some? && LatencyCurrent()
      modifies this
      ensures LatencyCurrent() && config == old(config)
      ensures match Attempt(old(Abs()), reinitialized, attempt, env)
              case Done(t) => outcome == Some(Encoded) && Abs() == t
              case GaveUp(t) => outcome == Some(EncodeFailed) && Abs() == t
              case Retry(t) => outcome == None && Abs() == t
    {
      hide LatencyCurrent, ActivateNext, NextEpoch, Failed;
      var backend := active.value;
      active := None;
      UpdateLatency(elapsed);
      if env.encodes(attempt) {
        metrics := metrics.(framesEncoded := metrics.framesEncoded + 1, activeBackend := Some(backend.name));
        active := Some(backend);
        return Some(Encoded);
      }
      var replaced := Replace(backend, reinitialized, attempt, env);
      return if replaced then None else Some(EncodeFailed);
    }

    method Encode(env: Env, elapsed: nat -> nat) returns (outcome: Outcome, ghost visits: seq<nat>)
      requires Valid()
      modifies this
      ensures Valid()
      ensures var r := FallbackSpec.Encode(old(Abs()), env);
              Abs() == r.state && outcome == r.outcome && visits == r.visits
    {
      hide LatencyCurrent, HardwareFirst, Attempt;
      visits := [];
      if config.None? { return NotConfigured, []; }
      if activeIndex.None? { return NotConfigured, []; }
      var reinitialized := false;
      metrics := metrics.(framesSubmitted := metrics.framesSubmitted + 1);
      if active.None? { return NotConfigured, []; }

      ghost var whole := EncodeFrom(Abs(), false, 0, env);
      var attempt := 0;
      assert visits + whole.visits == whole.visits;
      while true
        invariant Valid() && active.Some? && candidates == old(candidates)
        invariant var rest := EncodeFrom(Abs(), reinitialized, attempt, env);
                  whole == rest.(visits := visits + rest.visits)
        decreases |candidates| - active.value.index, !reinitialized
      {
        ghost var s, tried := Abs(), visits;
        AttemptMoves(s, reinitialized, attempt, env);
        EncodeFromWellFormed(s, reinitialized, attempt, env);
        visits := visits + [active.value.index];
        var result := TryActive(reinitialized, attempt, env, elapsed(attempt));
        if result.Some? { return result.value, visits; }
        AttemptWellFormed(s, reinitialized, attempt, env);
        assert tried + ([s.active.value.index] + EncodeFrom(Abs(), true, attempt + 1, env).visits)
            == visits + EncodeFrom(Abs(), true, attempt + 1, env).visits;
        reinitialized := true;
        attempt := attempt + 1;
      }
    }
  }

  lemma AttemptWellFormed(s: Encoder, reinitialized: bool, attempt: nat, env: Env)
    requires WellFormed(s) && s.active.Some? && Attempt(s, reinitialized, attempt, env).Retry?
    ensures WellFormed(Attempt(s, reinitialized, attempt, env).state)
  {
    hide HardwareFirst;
  }
}
