/** The opportunity lifecycle as a step relation, and what holds of all its runs. */
module Lifecycle {

  /** The thirteen lifecycle states; any other label has no transition in or out. */
  datatype State =
    | DETECTED | QUALIFYING | QUALIFIED | PURSUIT_OPEN | DECISION_PENDING | APPROVED | IN_EXECUTION
    | SUBMITTED_OR_ACTIVATED | WON_OR_REALIZED | LOST_OR_CLOSED | REJECTED | DECLINED | LEARNING_CAPTURED
    | Unlisted(name: string)

  function Targets(s: State): set<State> {
    match s
    case DETECTED => {QUALIFYING, REJECTED}
    case QUALIFYING => {QUALIFIED, REJECTED}
    case QUALIFIED => {PURSUIT_OPEN, REJECTED}
    case PURSUIT_OPEN => {DECISION_PENDING}
    case DECISION_PENDING => {APPROVED, DECLINED}
    case APPROVED => {IN_EXECUTION, DECLINED}
    case IN_EXECUTION => {DECISION_PENDING, SUBMITTED_OR_ACTIVATED, LOST_OR_CLOSED}
    case SUBMITTED_OR_ACTIVATED => {WON_OR_REALIZED, LOST_OR_CLOSED}
    case WON_OR_REALIZED => {LEARNING_CAPTURED}
    case LOST_OR_CLOSED => {LEARNING_CAPTURED}
    case REJECTED => {LEARNING_CAPTURED}
    case DECLINED => {LEARNING_CAPTURED}
    case LEARNING_CAPTURED => {}
    case Unlisted(_) => {}
  }

  predicate TransitionAllowed(current: State, target: State) {
    target in Targets(current)
  }

  /** The nineteen edges. */
  lemma EdgesExactly(current: State, target: State)
    ensures TransitionAllowed(current, target) <==>
            || (current == DETECTED && target in {QUALIFYING, REJECTED})
            || (current == QUALIFYING && target in {QUALIFIED, REJECTED})
            || (current == QUALIFIED && target in {PURSUIT_OPEN, REJECTED})
            || (current == PURSUIT_OPEN && target == DECISION_PENDING)
            || (current == DECISION_PENDING && target in {APPROVED, DECLINED})
            || (current == APPROVED && target in {IN_EXECUTION, DECLINED})
            || (current == IN_EXECUTION && target in {DECISION_PENDING, SUBMITTED_OR_ACTIVATED, LOST_OR_CLOSED})
            || (current == SUBMITTED_OR_ACTIVATED && target in {WON_OR_REALIZED, LOST_OR_CLOSED})
            || (current in {WON_OR_REALIZED, LOST_OR_CLOSED, REJECTED, DECLINED} && target == LEARNING_CAPTURED)
  {
  }

  predicate IsPath(run: seq<State>) {
    run != [] && forall i | 0 <= i < |run| - 1 :: TransitionAllowed(run[i], run[i + 1])
  }

  predicate IsRun(run: seq<State>) {
    IsPath(run) && run[0] == DETECTED
  }

  /** The number of rework edges, from execution back to a pending decision. */
  function Reworks(run: seq<State>): nat {
    if |run| < 2 then 0
    else Reworks(run[..|run| - 1])
         + (if run[|run| - 2] == IN_EXECUTION && run[|run| - 1] == DECISION_PENDING then 1 else 0)
  }

  /** The most steps that can follow without rework. */
  function Remaining(s: State): nat {
    match s
    case DETECTED => 9
    case QUALIFYING => 8
    case QUALIFIED => 7
    case PURSUIT_OPEN => 6
    case DECISION_PENDING => 5
    case APPROVED => 4
    case IN_EXECUTION => 3
    case SUBMITTED_OR_ACTIVATED => 2
    case WON_OR_REALIZED => 1
    case LOST_OR_CLOSED => 1
    case REJECTED => 1
    case DECLINED => 1
    case LEARNING_CAPTURED => 0
    case Unlisted(_) => 0
  }

  /** A run of n steps with k reworks has n <= 9 + 3k; more precisely, the steps still possible are
      counted off the bound. */
  lemma {:induction false} RunBounded(run: seq<State>)
    requires IsRun(run)
    ensures |run| - 1 + Remaining(run[|run| - 1]) <= 9 + 3 * Reworks(run)
  {
    if |run| > 1 {
      var k := |run| - 1;
      assert TransitionAllowed(run[k - 1], run[k]);
      RunBounded(run[..k]);
    }
  }

  /** A run to execution through k reworks, as long as possible. */
  lemma {:induction false} RunToExecution(k: nat) returns (run: seq<State>)
    ensures IsRun(run) && Reworks(run) == k && |run| == 7 + 3 * k && run[|run| - 1] == IN_EXECUTION
  {
    if k == 0 {
      run := [DETECTED];
      run := Extend(run, QUALIFYING);
      run := Extend(run, QUALIFIED);
      run := Extend(run, PURSUIT_OPEN);
      run := Extend(run, DECISION_PENDING);
    } else {
      run := RunToExecution(k - 1);
      run := Extend(run, DECISION_PENDING);
    }
    run := Extend(run, APPROVED);
    run := Extend(run, IN_EXECUTION);
  }

  lemma Extend(run: seq<State>, s: State) returns (longer: seq<State>)
    requires IsRun(run) && TransitionAllowed(run[|run| - 1], s)
    ensures IsRun(longer) && |longer| == |run| + 1 && longer[|longer| - 1] == s
    ensures Reworks(longer) == Reworks(run) + (if run[|run| - 1] == IN_EXECUTION && s == DECISION_PENDING then 1 else 0)
  {
    longer := run + [s];
  }

  /** The bound is attained for every k. */
  lemma BoundAttained(k: nat) returns (run: seq<State>)
    ensures IsRun(run) && Reworks(run) == k && |run| - 1 == 9 + 3 * k
  {
    run := RunToExecution(k);
    run := Extend(run, SUBMITTED_OR_ACTIVATED);
    run := Extend(run, WON_OR_REALIZED);
    run := Extend(run, LEARNING_CAPTURED);
  }

  /** Nothing is submitted or activated without a decision, its approval and execution right before. */
  lemma SubmissionApproved(run: seq<State>, i: nat)
    requires IsRun(run) && i < |run| && run[i] == SUBMITTED_OR_ACTIVATED
    ensures i >= 3 && run[i - 1] == IN_EXECUTION && run[i - 2] == APPROVED && run[i - 3] == DECISION_PENDING
  {
    assert TransitionAllowed(run[i - 1], run[i]);
  }

  /** Among the listed states only the last is terminal. */
  lemma OnlyLearningIsTerminal(s: State)
    ensures (forall t :: !TransitionAllowed(s, t)) <==> s == LEARNING_CAPTURED || s.Unlisted?
  {
    var next := if s.SUBMITTED_OR_ACTIVATED? then WON_OR_REALIZED
                else if s.IN_EXECUTION? then LOST_OR_CLOSED
                else if s.APPROVED? || s.DECISION_PENDING? then DECLINED
                else if s.PURSUIT_OPEN? then DECISION_PENDING
                else if s.DETECTED? || s.QUALIFYING? || s.QUALIFIED? then REJECTED
                else LEARNING_CAPTURED;
    assert s != LEARNING_CAPTURED && !s.Unlisted? ==> TransitionAllowed(s, next) && Remaining(next) < Remaining(s);
  }

  /** From every listed state learning can still be captured. */
  lemma {:induction false} LearningReachable(s: State) returns (path: seq<State>)
    requires !s.Unlisted?
    ensures IsPath(path) && path[0] == s && path[|path| - 1] == LEARNING_CAPTURED
    decreases Remaining(s)
  {
    path := [s];
    if s != LEARNING_CAPTURED {
      var next := if s.IN_EXECUTION? then LOST_OR_CLOSED else var t :| TransitionAllowed(s, t); t;
      var rest := LearningReachable(next);
      path := [s] + rest;
    }
  }
}
