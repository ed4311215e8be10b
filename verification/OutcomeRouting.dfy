/** Where a step goes when its adapter fails: the completeness check of the compiler (validateStepOutcomeCompleteness)
    against the routing of the engine (runStepFromAttempt, applyOutcome). */
module OutcomeRouting {
  import opened Names
  import opened FsmGraph

  // ------------------------------------------------------------- the compiler's check

  const FAILURE: Name := "failure"

  const FAILURE_NAMES: set<Name> := {
    FAILURE, "error", "fail", "failed", "err", "rejected", "timed_out", "timeout", "aborted", "invalid", "unhandled",
    "crash", "cancelled", "canceled"
  }

  /** Lower case as far as it can give an ASCII letter: capital I with a dot and the Kelvin sign do, too. */
  function Lower(c: char): char {
    if 'A' <= c <= 'Z' then (c as int + 32) as char
    else if c == '\U{130}' then 'i'
    else if c == '\U{212A}' then 'k'
    else c
  }

  function Lowered(s: string): string {
    seq(|s|, i requires 0 <= i < |s| => Lower(s[i]))
  }

  const UPPER := "ABCDEFGHIJKLMNOPQRSTUVWXYZ"
  const LOWER := "abcdefghijklmnopqrstuvwxyz"

  /** Capital letters become small ones, and nothing else changes but the two characters named. */
  lemma LowerIs(c: char)
    ensures forall k :: 0 <= k < 26 ==> Lower(UPPER[k]) == LOWER[k]
    ensures Lower('\U{130}') == 'i' && Lower('\U{212A}') == 'k'
    ensures c !in UPPER && c != '\U{130}' && c != '\U{212A}' ==> Lower(c) == c
  {
    if 'A' <= c <= 'Z' {
      assert UPPER[c as int - 'A' as int] == c;
    }
  }

  predicate IsFailureOutcomeName(name: Name) {
    Lowered(name) in FAILURE_NAMES
  }

  ghost predicate HandlesFailure(step: Step) {
    exists n :: n in step.outcomes && (IsFailureOutcomeName(n) || step.outcomes[n].fallback)
  }

  ghost predicate HandlesSuccess(step: Step) {
    exists n :: n in step.outcomes && !IsFailureOutcomeName(n)
  }

  datatype Gap = NoOutcome | NoFailurePath | NoSuccessPath

  /** What the check asks of a step that does not iterate. */
  ghost predicate Complete(step: Step) {
    step.defaultOutcome.Some? || (HandlesFailure(step) && HandlesSuccess(step))
  }

  /** A step passes exactly when it is complete, whatever the order its outcomes are read in; the failure path is
      asked for first. */
  method ValidateStepOutcomeCompleteness(step: Step) returns (gap: Option<Gap>)
    ensures gap.None? <==> Complete(step)
    ensures gap == Some(NoOutcome) <==> step.outcomes == map[] && step.defaultOutcome.None?
    ensures gap == Some(NoFailurePath) ==> !HandlesFailure(step)
    ensures gap == Some(NoSuccessPath) ==> HandlesFailure(step) && !HandlesSuccess(step)
  {
    hide IsFailureOutcomeName;
    if step.outcomes == map[] && step.defaultOutcome.None? {
      return Some(NoOutcome);
    }
    if step.defaultOutcome.Some? {
      return None;
    }
    var rest := step.outcomes.Keys;
    var hasFallback, hasFailure, hasSuccess := false, false, false;
    while rest != {}
      invariant rest <= step.outcomes.Keys
      invariant hasFailure || hasFallback <==>
                exists n :: n in step.outcomes.Keys - rest && (IsFailureOutcomeName(n) || step.outcomes[n].fallback)
      invariant hasSuccess <==> exists n :: n in step.outcomes.Keys - rest && !IsFailureOutcomeName(n)
      decreases rest
    {
      var name :| name in rest;
      assert name in step.outcomes;
      if step.outcomes[name].fallback {
        hasFallback := true;
      }
      if IsFailureOutcomeName(name) {
        hasFailure := true;
      } else {
        hasSuccess := true;
      }
      assert forall n :: n in step.outcomes.Keys - (rest - {name}) <==> n in step.outcomes.Keys - rest || n == name;
      rest := rest - {name};
    }
    if !hasFailure && !hasFallback {
      return Some(NoFailurePath);
    }
    if !hasSuccess {
      return Some(NoSuccessPath);
    }
    return None;
  }

  // -------------------------------------------------------------- the engine's routing

  /** How one attempt to run the adapter ends: with an outcome (its own, or the fallback the host makes up for a step
      that never finished), with an outcome the host rejects, with an error that ends the run, or with any other. */
  datatype Attempt = Answered(outcome: Name) | Rejected | Fatal | Failed

  /** The node an outcome leads to; None is the error that ends the run. */
  function ApplyOutcome(step: Step, outcome: Name): Option<Name> {
    if outcome in step.outcomes then Some(step.outcomes[outcome].next)
    else if step.defaultOutcome.Some? then Some(step.defaultOutcome.value.next)
    else None
  }

  /** Where the attempts of one visit lead. */
  function Routed(step: Step, attempts: seq<Attempt>): Option<Name> {
    if attempts == [] then None
    else
      match attempts[0]
      case Answered(outcome) => ApplyOutcome(step, outcome)
      case Fatal => None
      case Failed =>
        if FAILURE in step.outcomes then ApplyOutcome(step, FAILURE) else Routed(step, attempts[1..])
      case Rejected =>
        if |attempts| == 1 && step.defaultOutcome.Some? then ApplyOutcome(step, step.defaultOutcome.value.name)
        else Routed(step, attempts[1..])
  }

  /** The attempt loop, over the attempts that are left, and the routing of what it returns. */
  method RunStepFromAttempt(step: Step, attempts: seq<Attempt>) returns (next: Option<Name>)
    ensures next == Routed(step, attempts)
  {
    var rejected := false;
    for i := 0 to |attempts|
      invariant i > 0 ==> rejected == attempts[i - 1].Rejected?
      invariant i == 0 ==> !rejected
      invariant i < |attempts| ==> Routed(step, attempts) == Routed(step, attempts[i..])
      invariant i == |attempts| ==>
                  Routed(step, attempts) == if rejected && step.defaultOutcome.Some?
                      then ApplyOutcome(step, step.defaultOutcome.value.name) else None
    {
      assert attempts[i..][1..] == attempts[i + 1..];
      match attempts[i]
      case Answered(outcome) =>
        next := ApplyOutcome(step, outcome);
        return;
      case Rejected =>
        rejected := true;
      case Fatal =>
        return None;
      case Failed =>
        rejected := false;
        if FAILURE in step.outcomes {
          next := ApplyOutcome(step, FAILURE);
          return;
        }
    }
    if rejected && step.defaultOutcome.Some? {
      return ApplyOutcome(step, step.defaultOutcome.value.name);
    }
    return None;
  }

  // ------------------------------------------------ what the check promises, and what it takes

  /** A step whose every attempt fails moves on exactly when it declares an outcome named "failure": another failure
      name or a default outcome does not help. */
  lemma {:induction false} FailureRoutedIff(step: Step, attempts: seq<Attempt>)
    requires attempts != [] && forall a :: a in attempts ==> a.Failed?
    ensures Routed(step, attempts).Some? <==> FAILURE in step.outcomes
  {
    assert attempts[0].Failed?;
    if |attempts| > 1 {
      FailureRoutedIff(step, attempts[1..]);
    }
  }

  /** Nothing the adapter does short of a fatal error leaves the step without a next node. */
  ghost predicate NeverStuck(step: Step) {
    forall attempts :: attempts != [] && Fatal !in attempts ==> Routed(step, attempts).Some?
  }

  lemma {:induction false} RoutedSomewhere(step: Step, attempts: seq<Attempt>)
    requires FAILURE in step.outcomes && step.defaultOutcome.Some? && attempts != [] && Fatal !in attempts
    ensures Routed(step, attempts).Some?
  {
    assert attempts[0] in attempts;
    if attempts[0].Rejected? && |attempts| > 1 {
      RoutedSomewhere(step, attempts[1..]);
    }
  }

  /** That takes an outcome named "failure" and a default outcome, which is more than the check asks. */
  lemma NeverStuckIff(step: Step)
    ensures NeverStuck(step) <==> FAILURE in step.outcomes && step.defaultOutcome.Some?
    ensures NeverStuck(step) ==> Complete(step)
  {
    if NeverStuck(step) {
      FailureRoutedIff(step, [Failed]);
      assert [Rejected][1..] == [] && Routed(step, []).None?;
      assert Fatal !in [Failed] && Fatal !in [Rejected];
      assert Routed(step, [Failed]).Some? && Routed(step, [Rejected]).Some?;
    }
    if FAILURE in step.outcomes && step.defaultOutcome.Some? {
      forall attempts: seq<Attempt> | attempts != [] && Fatal !in attempts
        ensures Routed(step, attempts).Some?
      {
        RoutedSomewhere(step, attempts);
      }
    }
  }

  /** The attempt settles where the step goes; `last` says that no other is left. */
  ghost predicate Settles(step: Step, a: Attempt, last: bool) {
    match a
    case Answered(_) => true
    case Fatal => true
    case Failed => FAILURE in step.outcomes
    case Rejected => last && step.defaultOutcome.Some?
  }

  /** The node the outcome leads to is the one declared for it, or else the default's. */
  ghost predicate LeadsOn(step: Step, outcome: Name, next: Option<Name>) {
    && (outcome in step.outcomes ==> next == Some(step.outcomes[outcome].next))
    && (outcome !in step.outcomes && step.defaultOutcome.Some? ==> next == Some(step.defaultOutcome.value.next))
    && (outcome !in step.outcomes && step.defaultOutcome.None? ==> next == None)
  }

  /** The first attempt that settles it decides: an answer goes where its outcome leads, a failure where `failure`
      leads, a rejection where the default's own name leads, and a fatal error nowhere. */
  lemma {:induction false} FirstToSettle(step: Step, attempts: seq<Attempt>, k: nat)
    requires k < |attempts| && Settles(step, attempts[k], k + 1 == |attempts|)
    requires forall j :: 0 <= j < k ==> !Settles(step, attempts[j], false)
    ensures var next := Routed(step, attempts);
            match attempts[k]
            case Answered(outcome) => LeadsOn(step, outcome, next)
            case Fatal => next == None
            case Failed => next == Some(step.outcomes[FAILURE].next)
            case Rejected => LeadsOn(step, step.defaultOutcome.value.name, next)
    decreases k
  {
    if k > 0 {
      assert !Settles(step, attempts[0], false);
      FirstToSettle(step, attempts[1..], k - 1);
    }
  }

  lemma {:induction false} NoneSettles(step: Step, attempts: seq<Attempt>)
    requires forall j :: 0 <= j < |attempts| ==> !Settles(step, attempts[j], j + 1 == |attempts|)
    ensures Routed(step, attempts) == None
    decreases |attempts|
  {
    if attempts != [] {
      assert !Settles(step, attempts[0], |attempts| == 1);
      NoneSettles(step, attempts[1..]);
    }
  }

  /** The engine moves only along transitions the compiler has checked. */
  lemma {:induction false} RoutedAlongTransitions(g: Graph, u: Name, attempts: seq<Attempt>)
    requires u in g.steps && Routed(g.steps[u], attempts).Some?
    ensures var v := Routed(g.steps[u], attempts).value; v == CONTINUE || Transition(g, u, v)
    decreases |attempts|
  {
    var step := g.steps[u];
    match attempts[0]
    case Answered(_) =>
    case Failed =>
      if FAILURE !in step.outcomes {
        RoutedAlongTransitions(g, u, attempts[1..]);
      }
    case Rejected =>
      if !(|attempts| == 1 && step.defaultOutcome.Some?) {
        RoutedAlongTransitions(g, u, attempts[1..]);
      }
  }

  /** The outcome of a sub-workflow step goes straight to its outcomes. */
  function SubworkflowRouted(step: Step, succeeded: bool): Option<Name> {
    ApplyOutcome(step, if succeeded then "success" else FAILURE)
  }

  /** Which node that is, and when there is one: both results need an outcome of their name, or a default. */
  lemma SubworkflowNeverStuckIff(step: Step)
    ensures LeadsOn(step, "success", SubworkflowRouted(step, true))
    ensures LeadsOn(step, "failure", SubworkflowRouted(step, false))
    ensures (forall succeeded: bool :: SubworkflowRouted(step, succeeded).Some?) <==>
            step.defaultOutcome.Some? || ("success" in step.outcomes && "failure" in step.outcomes)
  {
    assert SubworkflowRouted(step, true).Some? <==> step.defaultOutcome.Some? || "success" in step.outcomes;
    assert SubworkflowRouted(step, false).Some? <==> step.defaultOutcome.Some? || "failure" in step.outcomes;
    assert forall b: bool :: SubworkflowRouted(step, b) == SubworkflowRouted(step, true) ||
                             SubworkflowRouted(step, b) == SubworkflowRouted(step, false);
  }

  /** A step that passes the check and yet ends the run whenever its adapter fails, however often it is retried; a
      sub-workflow step so declared ends it either way. */
  lemma CompleteButStuck(attempts: seq<Attempt>)
    requires attempts != [] && forall a :: a in attempts ==> a.Failed?
    ensures var step := Step(map["done" := Outcome("done", "z", false), "error" := Outcome("error", "b", false)], None,
                             "", 0, None, None, None, false, false);
            && Complete(step) && Routed(step, attempts).None?
            && SubworkflowRouted(step, true).None? && SubworkflowRouted(step, false).None?
  {
    var step := Step(map["done" := Outcome("done", "z", false), "error" := Outcome("error", "b", false)], None, "", 0,
                     None, None, None, false, false);
    assert |"failure"| == 7 && |"done"| == 4 && |"error"| == 5 && |"success"| == 7;
    assert FAILURE !in step.outcomes && "success" !in step.outcomes;
    FailureRoutedIff(step, attempts);
    ErrorIsFailure();
    assert "done" in step.outcomes && "error" in step.outcomes;
  }

  lemma ErrorIsFailure()
    ensures IsFailureOutcomeName("error") && !IsFailureOutcomeName("done")
  {
    assert Lowered("error") == "error";
    assert Lowered("done")[0] == 'd' && |Lowered("done")| == 4;
    assert "fail"[0] == 'f';
  }
}
