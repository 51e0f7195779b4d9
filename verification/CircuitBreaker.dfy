/** The circuit breaker: its methods in place, and what every sequence of calls to them keeps. */
module CircuitBreaker {
  import opened Wrappers

  datatype Mode = Closed | Open | HalfOpen

  /** Times in nanoseconds. `interval` is stored and never read. */
  datatype Config = Config(maxFailures: int, maxRequests: int, interval: int, timeout: int)

  const SECOND := 1_000_000_000

  const DEFAULT_CONFIG := Config(10, 5, 10 * SECOND, 60 * SECOND)

  datatype State = State(mode: Mode, failures: int, requests: int, lastFailure: int, lastSuccess: int,
                         totalRequests: nat, totalFailures: nat, totalSuccesses: nat, totalRejected: nat)

  const FRESH := State(Closed, 0, 0, 0, 0, 0, 0, 0, 0)

  /** One call to the breaker, with the clock it read. */
  datatype Event = Ask(now: int) | Success(now: int) | Failure(now: int) | Reset

  predicate Admits(cfg: Config, s: State, now: int) {
    match s.mode
    case Closed => true
    case Open => now - s.lastFailure > cfg.timeout
    case HalfOpen => s.requests < cfg.maxRequests
  }

  function Next(cfg: Config, s: State, e: Event): State {
    match e
    case Ask(now) =>
      var t := s.(totalRequests := s.totalRequests + 1);
      if !Admits(cfg, s, now) then t.(totalRejected := s.totalRejected + 1)
      else if s.mode.Open? then t.(mode := HalfOpen, requests := 0)
      else if s.mode.HalfOpen? then t.(requests := s.requests + 1)
      else t
    case Success(now) =>
      var t := s.(totalSuccesses := s.totalSuccesses + 1, lastSuccess := now);
      if s.mode.HalfOpen? && s.requests >= cfg.maxRequests then t.(mode := Closed, failures := 0, requests := 0)
      else if s.mode.Closed? then t.(failures := 0)
      else t
    case Failure(now) =>
      var t := s.(totalFailures := s.totalFailures + 1, failures := s.failures + 1, lastFailure := now);
      if s.mode.Closed? && t.failures >= cfg.maxFailures then t.(mode := Open)
      else if s.mode.HalfOpen? then t.(mode := Open, requests := 0)
      else t
    case Reset => s.(mode := Closed, failures := 0, requests := 0)
  }

  class Breaker {
    const cfg: Config
    var mode: Mode
    var failures: int
    var requests: int
    var lastFailureTime: int
    var lastSuccessTime: int
    var totalRequests: nat
    var totalFailures: nat
    var totalSuccesses: nat
    var totalRejected: nat

    function Abs(): State
      reads this
    {
      State(mode, failures, requests, lastFailureTime, lastSuccessTime,
            totalRequests, totalFailures, totalSuccesses, totalRejected)
    }

    constructor (config: Option<Config>)
      ensures config.Some? ==> cfg == config.value
      ensures config.None? ==> cfg == Config(10, 5, 10_000_000_000, 60_000_000_000)
      ensures Abs() == FRESH && mode == Closed && failures == 0 && requests == 0
    {
      cfg := if config.Some? then config.value else DEFAULT_CONFIG;
      mode, failures, requests, lastFailureTime, lastSuccessTime := Closed, 0, 0, 0, 0;
      totalRequests, totalFailures, totalSuccesses, totalRejected := 0, 0, 0, 0;
    }

    method CanExecute(now: int) returns (ok: bool)
      modifies this
      ensures ok == Admits(cfg, old(Abs()), now) && Abs() == Next(cfg, old(Abs()), Ask(now))
    {
      totalRequests := totalRequests + 1;
      match mode {
        case Closed =>
          return true;
        case Open =>
          if now - lastFailureTime > cfg.timeout {
            mode := HalfOpen;
            requests := 0;
            return true;
          }
          totalRejected := totalRejected + 1;
          return false;
        case HalfOpen =>
          if requests >= cfg.maxRequests {
            totalRejected := totalRejected + 1;
            return false;
          }
          requests := requests + 1;
          return true;
      }
    }

    method RecordSuccess(now: int)
      modifies this
      ensures Abs() == Next(cfg, old(Abs()), Success(now))
    {
      totalSuccesses := totalSuccesses + 1;
      lastSuccessTime := now;
      match mode {
        case HalfOpen =>
          if requests >= cfg.maxRequests {
            mode := Closed;
            failures := 0;
            requests := 0;
          }
        case Closed =>
          failures := 0;
        case Open =>
      }
    }

    method RecordFailure(now: int)
      modifies this
      ensures Abs() == Next(cfg, old(Abs()), Failure(now))
    {
      totalFailures := totalFailures + 1;
      failures := failures + 1;
      lastFailureTime := now;
      match mode {
        case Closed =>
          if failures >= cfg.maxFailures { mode := Open; }
        case HalfOpen =>
          mode := Open;
          requests := 0;
        case Open =>
      }
    }

    method ResetAll()
      modifies this
      ensures Abs() == Next(cfg, old(Abs()), Reset)
    {
      mode, failures, requests := Closed, 0, 0;
    }
  }

  // ----- Runs -----

  function Run(cfg: Config, events: seq<Event>): State {
    if events == [] then FRESH else Next(cfg, Run(cfg, events[..|events| - 1]), events[|events| - 1])
  }

  /** The last call of a run was a request, and it was let through. */
  predicate LastAdmitted(cfg: Config, events: seq<Event>) {
    && events != [] && events[|events| - 1].Ask?
    && Admits(cfg, Run(cfg, events[..|events| - 1]), events[|events| - 1].now)
  }

  function Admitted(cfg: Config, events: seq<Event>): nat {
    if events == [] then 0
    else Admitted(cfg, events[..|events| - 1]) + (if LastAdmitted(cfg, events) then 1 else 0)
  }

  function Successes(events: seq<Event>): nat {
    if events == [] then 0 else Successes(events[..|events| - 1]) + (if events[|events| - 1].Success? then 1 else 0)
  }

  function Failures(events: seq<Event>): nat {
    if events == [] then 0 else Failures(events[..|events| - 1]) + (if events[|events| - 1].Failure? then 1 else 0)
  }

  function Reported(events: seq<Event>): nat {
    Successes(events) + Failures(events)
  }

  /** Every report is the one report of an admitted call. */
  ghost predicate Disciplined(cfg: Config, events: seq<Event>) {
    forall n :: 0 <= n <= |events| ==> Reported(events[..n]) <= Admitted(cfg, events[..n])
  }

  /** Failures since the last success or reset. */
  function TrailingFailures(events: seq<Event>): nat {
    if events == [] then 0
    else
      var before := events[..|events| - 1];
      match events[|events| - 1]
      case Ask(_) => TrailingFailures(before)
      case Failure(_) => TrailingFailures(before) + 1
      case Success(_) => 0
      case Reset => 0
  }

  /** Calls let through since the breaker last became half open. */
  function EpisodeAdmitted(cfg: Config, events: seq<Event>): nat {
    if events == [] || !Run(cfg, events).mode.HalfOpen? then 0
    else if !Run(cfg, events[..|events| - 1]).mode.HalfOpen? then 1
    else EpisodeAdmitted(cfg, events[..|events| - 1]) + (if LastAdmitted(cfg, events) then 1 else 0)
  }

  /** The mode is told by the failure count, and requests are counted in half open only, up to their limit. */
  predicate Consistent(cfg: Config, s: State) {
    && (s.mode.Closed? <==> s.failures < cfg.maxFailures)
    && 0 <= s.requests <= cfg.maxRequests && (!s.mode.HalfOpen? ==> s.requests == 0)
  }

  lemma {:induction false} RunKeeps(cfg: Config, events: seq<Event>)
    requires cfg.maxFailures >= 1 && cfg.maxRequests >= 0
    ensures Consistent(cfg, Run(cfg, events))
  {
    if events != [] { RunKeeps(cfg, events[..|events| - 1]); }
  }

  predicate ConsistentAfter(cfg: Config, events: seq<Event>) {
    Consistent(cfg, Run(cfg, events))
  }

  /** No check is made of the configuration; these are exactly the ones under which every run is consistent. */
  lemma SensibleConfig(cfg: Config)
    ensures (forall events :: ConsistentAfter(cfg, events)) <==> cfg.maxFailures >= 1 && cfg.maxRequests >= 0
  {
    if cfg.maxFailures >= 1 && cfg.maxRequests >= 0 {
      forall events ensures ConsistentAfter(cfg, events) { RunKeeps(cfg, events); }
    } else {
      assert !ConsistentAfter(cfg, []);
    }
  }

  /** The totals: every request is admitted or rejected, and every report is counted on its own side. */
  lemma {:induction false} TotalsAddUp(cfg: Config, events: seq<Event>)
    ensures var s := Run(cfg, events);
            && s.totalRequests == Admitted(cfg, events) + s.totalRejected
            && s.totalSuccesses == Successes(events) && s.totalFailures == Failures(events)
  {
    if events != [] { TotalsAddUp(cfg, events[..|events| - 1]); }
  }

  /** While closed, the breaker counts exactly the failures since the last success or reset. */
  lemma {:induction false} ClosedCountsTrailing(cfg: Config, events: seq<Event>)
    requires cfg.maxFailures >= 1 && cfg.maxRequests >= 0
    ensures var s := Run(cfg, events); s.mode.Closed? ==> s.failures == TrailingFailures(events)
  {
    if events != [] {
      ClosedCountsTrailing(cfg, events[..|events| - 1]);
      RunKeeps(cfg, events[..|events| - 1]);
    }
  }

  /** A closed breaker opens on a call exactly when that call is the failure that makes them `maxFailures` in a row. */
  lemma TripsExactly(cfg: Config, events: seq<Event>, e: Event)
    requires cfg.maxFailures >= 1 && cfg.maxRequests >= 0 && Run(cfg, events).mode.Closed?
    ensures !Run(cfg, events + [e]).mode.Closed? <==> e.Failure? && TrailingFailures(events + [e]) == cfg.maxFailures
  {
    ClosedCountsTrailing(cfg, events);
    RunKeeps(cfg, events);
    assert (events + [e])[..|events|] == events;
  }

  /**
   * An open breaker leaves open only by a request more than `timeout` after the failure it remembers, or by a reset.
   */
  lemma OpenLeavesBy(cfg: Config, events: seq<Event>, e: Event)
    requires Run(cfg, events).mode.Open?
    ensures var t := Run(cfg, events + [e]);
            && (t.mode.HalfOpen? <==> e.Ask? && e.now - Run(cfg, events).lastFailure > cfg.timeout)
            && (t.mode.Closed? <==> e.Reset?)
  {
    assert (events + [e])[..|events|] == events;
  }

  /** A reset closes the breaker with both counters at zero, whatever it was, and forgets nothing else. */
  lemma ResetCloses(cfg: Config, events: seq<Event>)
    ensures var s, t := Run(cfg, events), Run(cfg, events + [Reset]);
            && t.mode.Closed? && t.failures == 0 && t.requests == 0
            && (t.totalRequests, t.totalFailures, t.totalSuccesses, t.totalRejected)
            == (s.totalRequests, s.totalFailures, s.totalSuccesses, s.totalRejected)
            && (t.lastFailure, t.lastSuccess) == (s.lastFailure, s.lastSuccess)
  {
    assert (events + [Reset])[..|events|] == events;
  }

  /** The time of the last success is that of the last reported success, zero before there is one. */
  lemma {:induction false} LastSuccessIs(cfg: Config, events: seq<Event>, i: nat)
    requires i < |events| ==> events[i].Success?
    requires i <= |events| && forall j :: i < j < |events| ==> !events[j].Success?
    requires i == |events| ==> forall j :: 0 <= j < |events| ==> !events[j].Success?
    ensures Run(cfg, events).lastSuccess == if i < |events| then events[i].now else 0
  {
    if events != [] && i != |events| - 1 {
      LastSuccessIs(cfg, events[..|events| - 1], if i == |events| then i - 1 else i);
    }
  }

  /** A half-open spell lets through one call more than it counts, so at most `maxRequests + 1`. */
  lemma {:induction false} EpisodeIsBounded(cfg: Config, events: seq<Event>)
    requires cfg.maxFailures >= 1 && cfg.maxRequests >= 0
    ensures var s := Run(cfg, events);
            s.mode.HalfOpen? ==> EpisodeAdmitted(cfg, events) == s.requests + 1 <= cfg.maxRequests + 1
  {
    RunKeeps(cfg, events);
    if events != [] { EpisodeIsBounded(cfg, events[..|events| - 1]); }
  }

  /**
   * Half open is no dead end. When it lets nothing more through, some admitted call has yet to report, and whichever
   * report comes first ends the spell: a success closes, a failure opens.
   */
  lemma {:induction false} HalfOpenEnds(cfg: Config, events: seq<Event>)
    requires cfg.maxFailures >= 1 && cfg.maxRequests >= 0 && Disciplined(cfg, events)
    ensures var s := Run(cfg, events);
            s.mode.HalfOpen? && s.requests == cfg.maxRequests ==>
              && Reported(events) < Admitted(cfg, events)
              && forall now :: Next(cfg, s, Success(now)).mode.Closed? && Next(cfg, s, Failure(now)).mode.Open?
  {
    if events != [] {
      var before := events[..|events| - 1];
      assert Disciplined(cfg, before) by {
        assert forall n :: 0 <= n <= |before| ==> before[..n] == events[..n];
      }
      assert before[..|before|] == before && events[..|before|] == before;
      assert Reported(before) <= Admitted(cfg, before);
      RunKeeps(cfg, before);
      HalfOpenEnds(cfg, before);
    }
  }

  ghost predicate Monotone(events: seq<Event>) {
    forall i, j :: 0 <= i < j < |events| && !events[i].Reset? && !events[j].Reset? ==> events[i].now <= events[j].now
  }

  lemma {:induction false} LastFailureIsLatest(cfg: Config, events: seq<Event>)
    requires Monotone(events)
    ensures forall i :: 0 <= i < |events| && events[i].Failure? ==> events[i].now <= Run(cfg, events).lastFailure
    ensures (exists i :: 0 <= i < |events| && events[i].Failure?) ==>
              exists i :: 0 <= i < |events| && events[i].Failure? && events[i].now == Run(cfg, events).lastFailure
  {
    if events != [] {
      var n := |events| - 1;
      LastFailureIsLatest(cfg, events[..n]);
      if events[n].Failure? {
        assert events[n].now == Run(cfg, events).lastFailure;
      } else if i :| 0 <= i < |events| && events[i].Failure? {
        assert events[..n][i].Failure?;
        var j :| 0 <= j < n && events[..n][j].Failure? && events[..n][j].now == Run(cfg, events[..n]).lastFailure;
        assert events[j].Failure? && events[j].now == Run(cfg, events).lastFailure;
      }
    }
  }

  lemma {:induction false} OpenHasFailed(cfg: Config, events: seq<Event>)
    requires !Run(cfg, events).mode.Closed?
    ensures exists i :: 0 <= i < |events| && events[i].Failure?
  {
    var n := |events| - 1;
    if !events[n].Failure? {
      OpenHasFailed(cfg, events[..n]);
      var i :| 0 <= i < n && events[..n][i].Failure?;
      assert events[i].Failure?;
    }
  }

  /**
   * An open breaker has seen a failure; it lets a call through exactly when every failure is more than `timeout` past.
   */
  lemma {:induction false} OpenWaitsOut(cfg: Config, events: seq<Event>, now: int)
    requires cfg.maxFailures >= 1 && cfg.maxRequests >= 0 && Monotone(events) && Run(cfg, events).mode.Open?
    ensures Admits(cfg, Run(cfg, events), now)
       <==> forall i :: 0 <= i < |events| && events[i].Failure? ==> now - events[i].now > cfg.timeout
  {
    OpenHasFailed(cfg, events);
    LastFailureIsLatest(cfg, events);
  }

  /** When a success closes: exactly when the spell has let through all it may. */
  lemma ClosesExactly(cfg: Config, events: seq<Event>, now: int)
    requires cfg.maxFailures >= 1 && cfg.maxRequests >= 0 && Run(cfg, events).mode.HalfOpen?
    ensures Next(cfg, Run(cfg, events), Success(now)).mode.Closed?
       <==> EpisodeAdmitted(cfg, events) == cfg.maxRequests + 1
  {
    RunKeeps(cfg, events);
    EpisodeIsBounded(cfg, events);
  }

  // ----- Closing before all probes have succeeded -----

  /** Successes reported since the breaker last became half open. */
  function EpisodeSuccesses(cfg: Config, events: seq<Event>): nat {
    if events == [] || !Run(cfg, events).mode.HalfOpen? then 0
    else if !Run(cfg, events[..|events| - 1]).mode.HalfOpen? then 0
    else EpisodeSuccesses(cfg, events[..|events| - 1]) + (if events[|events| - 1].Success? then 1 else 0)
  }

  /**
   * A success closes the breaker though not every call of the spell has succeeded: in a run with a clock that does not
   * run back, and in which every report is the one report of an admitted call.
   */
  ghost predicate ClosesEarly(cfg: Config, events: seq<Event>, now: int) {
    && Disciplined(cfg, events + [Success(now)]) && Monotone(events + [Success(now)])
    && Run(cfg, events).mode.HalfOpen? && Run(cfg, events + [Success(now)]).mode.Closed?
    && EpisodeSuccesses(cfg, events) + 1 < EpisodeAdmitted(cfg, events)
  }

  function Times(e: Event, n: nat): seq<Event> {
    seq(n, _ => e)
  }

  lemma RunAppend(cfg: Config, events: seq<Event>, e: Event)
    ensures (events + [e])[..|events|] == events
    ensures Run(cfg, events + [e]) == Next(cfg, Run(cfg, events), e)
    ensures Admitted(cfg, events + [e])
         == Admitted(cfg, events) + (if e.Ask? && Admits(cfg, Run(cfg, events), e.now) then 1 else 0)
    ensures Reported(events + [e]) == Reported(events) + (if e.Success? || e.Failure? then 1 else 0)
  {
    assert (events + [e])[..|events|] == events;
  }

  /** One more call with a later clock, and not one report too many. */
  lemma StillInOrder(cfg: Config, events: seq<Event>, e: Event, last: int)
    requires Disciplined(cfg, events) && Monotone(events) && !e.Reset? && last <= e.now
    requires forall i :: 0 <= i < |events| && !events[i].Reset? ==> events[i].now <= last
    requires Reported(events + [e]) <= Admitted(cfg, events + [e])
    ensures Disciplined(cfg, events + [e]) && Monotone(events + [e])
    ensures forall i :: 0 <= i < |events| + 1 && !(events + [e])[i].Reset? ==> (events + [e])[i].now <= e.now
  {
    var all := events + [e];
    forall n | 0 <= n <= |all| ensures Reported(all[..n]) <= Admitted(cfg, all[..n]) {
      if n <= |events| {
        assert all[..n] == events[..n];
      } else {
        assert all[..n] == all;
      }
    }
  }

  /** A well-ordered run up to time `last`, with `admitted` calls let through and `reported` reports. */
  ghost predicate InOrder(cfg: Config, events: seq<Event>, last: int, admitted: nat, reported: nat) {
    && Disciplined(cfg, events) && Monotone(events)
    && (forall i :: 0 <= i < |events| && !events[i].Reset? ==> events[i].now <= last)
    && Admitted(cfg, events) == admitted && Reported(events) == reported
  }

  lemma NoneTooMany(cfg: Config, events: seq<Event>)
    requires Disciplined(cfg, events)
    ensures Reported(events) <= Admitted(cfg, events)
  {
    assert events[..|events|] == events;
  }

  lemma GoesOn(cfg: Config, events: seq<Event>, e: Event, last: int, admitted: nat, reported: nat)
    requires InOrder(cfg, events, last, admitted, reported) && !e.Reset? && last <= e.now
    requires e.Ask? ==> Admits(cfg, Run(cfg, events), e.now)
    requires !e.Ask? ==> reported < admitted
    ensures InOrder(cfg, events + [e], e.now, if e.Ask? then admitted + 1 else admitted,
                    if e.Ask? then reported else reported + 1)
    ensures Run(cfg, events + [e]) == Next(cfg, Run(cfg, events), e) && (events + [e])[..|events|] == events
  {
    hide Next, Run, Admits, Admitted, Reported, Disciplined, Monotone;
    RunAppend(cfg, events, e);
    NoneTooMany(cfg, events);
    StillInOrder(cfg, events, e, last);
  }

  lemma {:induction false} AsksWhileClosed(cfg: Config, n: nat)
    ensures var events := Times(Ask(0), n);
            InOrder(cfg, events, 0, n, 0) && Run(cfg, events).mode.Closed? && Run(cfg, events).failures == 0
  {
    if n == 0 {
      assert Times(Ask(0), 0) == [];
    } else {
      var before := Times(Ask(0), n - 1);
      AsksWhileClosed(cfg, n - 1);
      assert Times(Ask(0), n) == before + [Ask(0)];
      GoesOn(cfg, before, Ask(0), 0, n - 1, 0);
    }
  }

  lemma {:induction false} FailuresOpen(cfg: Config, n: nat)
    requires n <= cfg.maxFailures && cfg.maxFailures >= 1
    ensures var events := Times(Ask(0), cfg.maxFailures) + Times(Failure(0), n);
            var s := Run(cfg, events);
            && InOrder(cfg, events, 0, cfg.maxFailures, n)
            && s.failures == n && (n > 0 ==> s.lastFailure == 0)
            && s.mode == if n == cfg.maxFailures then Open else Closed
  {
    hide InOrder;
    var asks := Times(Ask(0), cfg.maxFailures);
    if n == 0 {
      AsksWhileClosed(cfg, cfg.maxFailures);
      assert asks + Times(Failure(0), 0) == asks;
    } else {
      FailuresOpen(cfg, n - 1);
      GoesOn(cfg, asks + Times(Failure(0), n - 1), Failure(0), 0, cfg.maxFailures, n - 1);
      assert asks + Times(Failure(0), n) == (asks + Times(Failure(0), n - 1)) + [Failure(0)];
    }
  }

  lemma {:induction false} ProbesFill(cfg: Config, open: seq<Event>, last: int, now: int, m: nat, n: nat)
    requires Run(cfg, open).mode.Open? && Admits(cfg, Run(cfg, open), now) && n <= cfg.maxRequests
    requires InOrder(cfg, open, last, m, m) && last <= now
    ensures var events := open + Times(Ask(now), n + 1);
            && InOrder(cfg, events, now, m + n + 1, m)
            && Run(cfg, events).mode.HalfOpen? && Run(cfg, events).requests == n && EpisodeSuccesses(cfg, events) == 0
  {
    hide InOrder;
    var before := open + Times(Ask(now), n);
    assert open + Times(Ask(now), n + 1) == before + [Ask(now)];
    if n == 0 {
      assert before == open;
      GoesOn(cfg, open, Ask(now), last, m, m);
    } else {
      ProbesFill(cfg, open, last, now, m, n - 1);
      GoesOn(cfg, before, Ask(now), now, m + n, m);
    }
  }

  /** As many calls and failures as it takes, then, past the timeout, all the probes, then one success. */
  lemma EarlyClose(cfg: Config) returns (events: seq<Event>, now: int)
    requires cfg.maxFailures >= 1 && cfg.maxRequests >= 1
    ensures ClosesEarly(cfg, events, now)
  {
    hide Run, EpisodeSuccesses, EpisodeAdmitted, Disciplined, Monotone, Times;
    var open := Times(Ask(0), cfg.maxFailures) + Times(Failure(0), cfg.maxFailures);
    now := if cfg.timeout >= 0 then cfg.timeout + 1 else 1;
    FailuresOpen(cfg, cfg.maxFailures);
    ProbesFill(cfg, open, 0, now, cfg.maxFailures, cfg.maxRequests);
    events := open + Times(Ask(now), cfg.maxRequests + 1);
    EpisodeIsBounded(cfg, events);
    GoesOn(cfg, events, Success(now), now, cfg.maxFailures + cfg.maxRequests + 1, cfg.maxFailures);
  }

  /** The breaker can close on fewer successes than it let calls through exactly when it counts any probes at all. */
  lemma ClosesEarlyIff(cfg: Config)
    requires cfg.maxFailures >= 1 && cfg.maxRequests >= 0
    ensures (exists events, now :: ClosesEarly(cfg, events, now)) <==> cfg.maxRequests >= 1
  {
    if cfg.maxRequests >= 1 {
      var events, now := EarlyClose(cfg);
      assert ClosesEarly(cfg, events, now);
    } else {
      forall events, now ensures !ClosesEarly(cfg, events, now) {
        EpisodeIsBounded(cfg, events);
      }
    }
  }
}
