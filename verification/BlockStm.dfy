/** The status word of one transaction in the block executor, changed by compare-and-swap from any number of workers. */
module BlockStm {

  const EXECUTED := 1
  const VALIDATING := 2
  const VALIDATED := 3
  const ABORTED := 4

  datatype Action = Claim | Cascade | Validate | Abort

  function Expects(a: Action): int {
    if a.Claim? then EXECUTED else VALIDATING
  }

  function Writes(a: Action): int {
    match a
    case Claim => VALIDATING
    case Cascade => EXECUTED
    case Validate => VALIDATED
    case Abort => ABORTED
  }

  predicate Final(a: Action) {
    a.Validate? || a.Abort?
  }

  /** The status array, in place. */
  class StatusArray {
    var txStatus: array<int>

    constructor (n: nat)
      ensures fresh(txStatus) && txStatus.Length == n && forall i :: 0 <= i < n ==> txStatus[i] == 0
    {
      txStatus := new int[n](_ => 0);
    }

    method CompareAndSwap(i: nat, was: int, next: int) returns (ok: bool)
      requires i < txStatus.Length
      modifies txStatus
      ensures ok == (old(txStatus[i]) == was)
      ensures txStatus[..] == if ok then old(txStatus[..])[i := next] else old(txStatus[..])
    {
      ok := txStatus[i] == was;
      if ok { txStatus[i] := next; }
    }

    method Try(i: nat, a: Action) returns (ok: bool)
      requires i < txStatus.Length
      modifies txStatus
      ensures ok == (old(txStatus[i]) == Expects(a))
      ensures txStatus[..] == if ok then old(txStatus[..])[i := Writes(a)] else old(txStatus[..])
    {
      ok := CompareAndSwap(i, Expects(a), Writes(a));
    }
  }

  type Worker = nat

  datatype Attempt = Attempt(worker: Worker, action: Action)

  /**
   * `log` holds the swaps that succeeded; `holding` says, of a worker between its claim and its verdict, which claim
   * it made.
   */
  datatype State = State(status: int, log: seq<Attempt>, holding: map<Worker, nat>)

  const INIT := State(EXECUTED, [], map[])

  /**
   * A worker claims; if that succeeds it validates and then tries one verdict, whatever has happened since. Anyone may
   * cascade. An attempt out of turn leaves the state alone, so every sequence of attempts is a run.
   */
  function Next(s: State, a: Attempt): State {
    var ok := s.status == Expects(a.action);
    var swapped := if ok then State(Writes(a.action), s.log + [a], s.holding) else s;
    if a.action.Claim? then
      if a.worker in s.holding || !ok then s else swapped.(holding := s.holding[a.worker := |s.log|])
    else if a.action.Cascade? then swapped
    else if a.worker in s.holding then swapped.(holding := s.holding - {a.worker})
    else s
  }

  function Run(attempts: seq<Attempt>): State {
    if attempts == [] then INIT else Next(Run(attempts[..|attempts| - 1]), attempts[|attempts| - 1])
  }

  // ----- The shape of every run -----

  /** Claims and releases alternate, claim first, and a verdict can only come last. */
  ghost predicate Alternates(log: seq<Attempt>) {
    forall i :: 0 <= i < |log| ==>
      && (log[i].action.Claim? <==> i % 2 == 0)
      && (Final(log[i].action) ==> i == |log| - 1)
  }

  function StatusOf(log: seq<Attempt>): int {
    if log == [] then EXECUTED else Writes(log[|log| - 1].action)
  }

  ghost predicate LogInv(s: State) {
    Alternates(s.log) && s.status == StatusOf(s.log)
  }

  /** A worker that holds a claim made it, and made none since. */
  ghost predicate Holds(s: State, w: Worker)
    requires w in s.holding
  {
    && s.holding[w] < |s.log| && s.log[s.holding[w]] == Attempt(w, Claim)
    && forall j :: s.holding[w] < j < |s.log| ==> s.log[j] != Attempt(w, Claim)
  }

  ghost predicate Inv(s: State) {
    LogInv(s) && forall w :: w in s.holding ==> Holds(s, w)
  }

  lemma NextKeepsLog(s: State, a: Attempt)
    requires LogInv(s)
    ensures LogInv(Next(s, a))
  {
    var n := |s.log| - 1;
    if s.log != [] { assert s.log[n].action.Claim? <==> n % 2 == 0; }
  }

  lemma NextKeepsHolding(s: State, a: Attempt, w: Worker)
    requires w in Next(s, a).holding && (w in s.holding ==> Holds(s, w))
    ensures Holds(Next(s, a), w)
  {
  }

  lemma {:induction false} RunInv(attempts: seq<Attempt>)
    ensures Inv(Run(attempts))
  {
    if attempts != [] {
      var s, a := Run(attempts[..|attempts| - 1]), attempts[|attempts| - 1];
      RunInv(attempts[..|attempts| - 1]);
      NextKeepsLog(s, a);
      forall w | w in Next(s, a).holding ensures Holds(Next(s, a), w) { NextKeepsHolding(s, a, w); }
    }
  }

  // ----- What that gives -----

  function Count(log: seq<Attempt>, action: Action): nat {
    if log == [] then 0
    else Count(log[..|log| - 1], action) + (if log[|log| - 1].action == action then 1 else 0)
  }

  lemma {:induction false} LogBalance(log: seq<Attempt>)
    requires Alternates(log)
    ensures var finals := Count(log, Validate) + Count(log, Abort);
            && Count(log, Claim) - Count(log, Cascade) - finals == (if StatusOf(log) == VALIDATING then 1 else 0)
            && finals == (if log != [] && Final(log[|log| - 1].action) then 1 else 0)
  {
    if log != [] {
      var before := log[..|log| - 1];
      assert Alternates(before) && (before != [] ==> !Final(before[|before| - 1].action));
      LogBalance(before);
    }
  }

  /**
   * Claims less releases less verdicts is one exactly while the word says validating, and else none; at most one
   * verdict.
   */
  lemma ClaimsBalance(attempts: seq<Attempt>)
    ensures var s := Run(attempts);
            var finals := Count(s.log, Validate) + Count(s.log, Abort);
            && Count(s.log, Claim) - Count(s.log, Cascade) - finals == (if s.status == VALIDATING then 1 else 0)
            && finals <= 1
  {
    RunInv(attempts);
    LogBalance(Run(attempts).log);
  }

  /**
   * Which attempts swap: a claim on 1 by a worker without one, a cascade on 2, and a verdict on 2 by one that holds a
   * claim.
   */
  lemma SwapsIff(s: State, a: Attempt)
    ensures Next(s, a).log == s.log + [a]
       <==> || (a.action == Claim && s.status == 1 && a.worker !in s.holding)
            || (a.action == Cascade && s.status == 2)
            || (Final(a.action) && s.status == 2 && a.worker in s.holding)
    ensures Next(s, a).log == s.log + [a] || (Next(s, a).log == s.log && Next(s, a).status == s.status)
  {
    assert |s.log + [a]| != |s.log|;
  }

  /** What the word says, in every run: 3 after a validation, 4 after an abort, 2 after a claim, and otherwise 1. */
  lemma StatusMeans(attempts: seq<Attempt>)
    ensures var s := Run(attempts);
            var last := if s.log == [] then Cascade else s.log[|s.log| - 1].action;
            && (s.status == 3 <==> last == Validate) && (s.status == 4 <==> last == Abort)
            && (s.status == 2 <==> last == Claim) && (s.status == 1 <==> last == Cascade)
  {
    RunInv(attempts);
  }

  /** A verdict is final: no continuation swaps the word again. */
  lemma {:induction false} VerdictStays(attempts: seq<Attempt>, more: seq<Attempt>)
    requires var s := Run(attempts); s.status == VALIDATED || s.status == ABORTED
    ensures Run(attempts + more).status == Run(attempts).status && Run(attempts + more).log == Run(attempts).log
  {
    if more == [] {
      assert attempts + more == attempts;
    } else {
      VerdictStays(attempts, more[..|more| - 1]);
      assert (attempts + more)[..|attempts + more| - 1] == attempts + more[..|more| - 1];
    }
  }

  /** Since the claim at position `own`, someone cascaded and another worker claimed. */
  ghost predicate Overtaken(log: seq<Attempt>, w: Worker, own: nat) {
    exists k, c :: own < k < c < |log| && log[k].action.Cascade? && log[c].action.Claim? && log[c].worker != w
  }

  lemma OvertakenIffNotOwn(s: State, w: Worker)
    requires LogInv(s) && w in s.holding && Holds(s, w) && s.status == VALIDATING
    ensures s.log != [] && s.log[|s.log| - 1].action.Claim?
    ensures s.log[|s.log| - 1].worker != w <==> Overtaken(s.log, w, s.holding[w])
  {
    var own, n := s.holding[w], |s.log| - 1;
    assert own % 2 == 0 && n % 2 == 0;
    if s.log[n].worker != w {
      assert own < own + 1 < n && s.log[own + 1].action.Cascade?;
    } else {
      assert s.log[n] == Attempt(w, Claim) && own == n;
    }
  }

  /**
   * The ABA gap. A verdict by a worker that holds a claim succeeds exactly when the word says validating, whoever put
   * it there; and the claim it then decides is not the worker's own exactly when a cascade and another worker's claim
   * came in between.
   */
  lemma StaleVerdict(attempts: seq<Attempt>, w: Worker, verdict: Action)
    requires Final(verdict) && w in Run(attempts).holding
    ensures var s := Run(attempts);
            var t := Run(attempts + [Attempt(w, verdict)]);
            && (t.log == s.log + [Attempt(w, verdict)] <==> s.status == VALIDATING)
            && (s.status != VALIDATING ==> t.log == s.log)
            && (s.status == VALIDATING ==>
                  && s.log != [] && s.log[|s.log| - 1].action.Claim?
                  && (s.log[|s.log| - 1].worker != w <==> Overtaken(s.log, w, s.holding[w])))
  {
    RunInv(attempts);
    assert (attempts + [Attempt(w, verdict)])[..|attempts|] == attempts;
    if Run(attempts).status == VALIDATING { OvertakenIffNotOwn(Run(attempts), w); }
  }

  /** The schedule the program plays: A claims, C cascades, B claims, A's stale verdict lands and B's abort fails. */
  lemma DemoSchedule(a: Worker, b: Worker, c: Worker)
    requires a != b
    ensures var played := [Attempt(a, Claim), Attempt(c, Cascade), Attempt(b, Claim), Attempt(a, Validate)];
            && Run(played) == State(VALIDATED, played, map[b := 2])
            && Run(played + [Attempt(b, Abort)]) == State(VALIDATED, played, map[])
  {
    var played := [Attempt(a, Claim), Attempt(c, Cascade), Attempt(b, Claim), Attempt(a, Validate)];
    assert played[..3] == [played[0], played[1], played[2]] && played[..3][..2] == [played[0], played[1]];
    assert played[..3][..2][..1] == [played[0]] && [played[0]][..0] == [];
    assert Run([played[0]]) == State(VALIDATING, [played[0]], map[a := 0]);
    assert Run([played[0], played[1]]) == State(EXECUTED, [played[0], played[1]], map[a := 0]);
    assert Run(played[..3]) == State(VALIDATING, [played[0], played[1], played[2]], map[a := 0, b := 2]);
    assert (played + [Attempt(b, Abort)])[..4] == played;
    assert map[a := 0, b := 2] - {a} == map[b := 2] && map[b := 2] - {b} == map[];
  }

  /** The program itself, in the order its timers impose. */
  method Demo() returns (status: int, staleLanded: bool, abortLanded: bool)
    ensures status == VALIDATED && staleLanded && !abortLanded
  {
    var stm := new StatusArray(20);
    stm.txStatus[10] := EXECUTED;
    var claimedByA := stm.Try(10, Claim);
    var cascaded := stm.Try(10, Cascade);
    var claimedByB := stm.Try(10, Claim);
    staleLanded := stm.Try(10, Validate);
    abortLanded := stm.Try(10, Abort);
    status := stm.txStatus[10];
  }
}
