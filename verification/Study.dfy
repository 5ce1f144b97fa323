/** The controlled-study analysis: which sessions count, how they split by condition, and the rates
    and intervals reported for them. */
module Study {
  import opened Common
  import opened Text
  import opened Ordering
  import opened Timestamps
  import Wilson

  /** A session record; None is an absent field. A missing start time sorts as the empty string. */
  datatype Session = Session(
    id: Option<string>, participant: string, condition: Option<string>, task: Option<string>,
    protocol: Option<string>, study: Option<string>, profile: Option<string>, technicalFailure: bool,
    startedAt: string, outcome: map<string, bool>)

  datatype Manifest = Manifest(profiles: set<string>, tasks: set<string>, protocol: string, study: string)

  datatype Code = UNQUALIFIED_PROFILE | TECHNICAL_PRE_RESPONSE_FAILURE | DUPLICATE_PARTICIPANT_TASK

  datatype Exclusion = Exclusion(id: Option<string>, code: Code)

  datatype Key = Key(participant: string, task: string)

  // ----- what one session is -----

  /** None of the requirements that abort the analysis is violated. A session of another protocol
      version aborts it too; the manifest's rules speak of excluding such a session. */
  predicate Acceptable(m: Manifest, s: Session) {
    && IsSha256(s.participant)
    && s.condition in {Some("AXIGNAL"), Some("CONTROL")}
    && s.task.Some? && s.task.value in m.tasks
    && s.protocol == Some(m.protocol) && s.study == Some(m.study)
  }

  predicate Qualified(m: Manifest, s: Session) {
    s.profile.Some? && s.profile.value in m.profiles
  }

  /** Qualified and not lost to a technical failure. */
  predicate Countable(m: Manifest, s: Session) {
    Qualified(m, s) && !s.technicalFailure
  }

  function KeyOf(s: Session): Key
    requires s.task.Some?
  {
    Key(s.participant, s.task.value)
  }

  predicate AllAcceptable(m: Manifest, sessions: seq<Session>) {
    forall i | 0 <= i < |sessions| :: Acceptable(m, sessions[i])
  }

  function StartTimes(sessions: seq<Session>): seq<string> {
    seq(|sessions|, i requires 0 <= i < |sessions| => sessions[i].startedAt)
  }

  /** Positions in the order of the start strings, which is time order for stamps of one form only. */
  function StartOrder(sessions: seq<Session>): (order: seq<nat>)
    ensures |order| == |sessions| && forall a | 0 <= a < |order| :: order[a] < |sessions|
  {
    StableOrder(StartTimes(sessions), |sessions|)
  }

  // ----- screening -----

  datatype Screening = Screening(picks: seq<nat>, exclusions: seq<Exclusion>)

  predicate Taken(sessions: seq<Session>, picks: seq<nat>, k: Key) {
    exists a | 0 <= a < |picks| ::
      picks[a] < |sessions| && sessions[picks[a]].task.Some? && KeyOf(sessions[picks[a]]) == k
  }

  predicate InRange(sessions: seq<Session>, order: seq<nat>) {
    forall a | 0 <= a < |order| :: order[a] < |sessions|
  }

  /** The sessions at the first n positions of an order, screened one after the other. */
  function Screen(m: Manifest, sessions: seq<Session>, order: seq<nat>, n: nat): (r: Screening)
    requires AllAcceptable(m, sessions) && InRange(sessions, order) && n <= |order|
    ensures InRange(sessions, r.picks)
  {
    if n == 0 then Screening([], [])
    else
      var before := Screen(m, sessions, order, n - 1);
      var s := sessions[order[n - 1]];
      if !Qualified(m, s) then before.(exclusions := before.exclusions + [Exclusion(s.id, UNQUALIFIED_PROFILE)])
      else if s.technicalFailure then
        before.(exclusions := before.exclusions + [Exclusion(s.id, TECHNICAL_PRE_RESPONSE_FAILURE)])
      else if Taken(sessions, before.picks, KeyOf(s)) then
        before.(exclusions := before.exclusions + [Exclusion(s.id, DUPLICATE_PARTICIPANT_TASK)])
      else before.(picks := before.picks + [order[n - 1]])
  }

  /** Positions of the retained sessions, in the order they are retained. */
  function Retained(m: Manifest, sessions: seq<Session>): Screening
    requires AllAcceptable(m, sessions)
  {
    Screen(m, sessions, StartOrder(sessions), |sessions|)
  }

  function Pick(sessions: seq<Session>, picks: seq<nat>): seq<Session>
    requires InRange(sessions, picks)
  {
    seq(|picks|, a requires 0 <= a < |picks| => sessions[picks[a]])
  }

  /** `eligible_sessions`: one pass over the sorted sessions with a dictionary of retained keys. Err is
      a raised ValueError. */
  method EligibleSessions(m: Manifest, sessions: seq<Session>) returns (r: Result<(seq<Session>, seq<Exclusion>), ()>)
    ensures r.Ok? <==> forall i | 0 <= i < |sessions| ::
              var s := sessions[i];
              && IsDigestText(s.participant) && (s.condition == Some("AXIGNAL") || s.condition == Some("CONTROL"))
              && s.task.Some? && s.task.value in m.tasks
              && s.protocol == Some(m.protocol) && s.study == Some(m.study)
    ensures r.Ok? <==> AllAcceptable(m, sessions)
    ensures r.Ok? ==>
            && r.value.0 == Pick(sessions, Retained(m, sessions).picks)
            && r.value.1 == Retained(m, sessions).exclusions
  {
    var order := StartOrder(sessions);
    ghost var all := AllAcceptable(m, sessions);
    AcceptableExactly(m, sessions);
    hide IsDigestText;
    var retained: map<Key, Session> := map[];
    var values: seq<Session> := [];
    var exclusions: seq<Exclusion> := [];
    ghost var picks: seq<nat> := [];
    for n := 0 to |order|
      invariant forall a | 0 <= a < n :: Acceptable(m, sessions[order[a]])
      invariant InRange(sessions, picks) && values == Pick(sessions, picks)
      invariant forall k :: k in retained <==> Taken(sessions, picks, k)
      invariant all ==> Screen(m, sessions, order, n) == Screening(picks, exclusions)
    {
      var s := sessions[order[n]];
      if !Acceptable(m, s) {
        return Err(());
      }
      if !Qualified(m, s) {
        exclusions := exclusions + [Exclusion(s.id, UNQUALIFIED_PROFILE)];
        continue;
      }
      if s.technicalFailure {
        exclusions := exclusions + [Exclusion(s.id, TECHNICAL_PRE_RESPONSE_FAILURE)];
        continue;
      }
      var key := KeyOf(s);
      if key in retained {
        exclusions := exclusions + [Exclusion(s.id, DUPLICATE_PARTICIPANT_TASK)];
        continue;
      }
      retained := retained[key := s];
      values := values + [s];
      TakenExtended(sessions, picks, order[n]);
      picks := picks + [order[n]];
    }
    forall i | 0 <= i < |sessions| ensures Acceptable(m, sessions[i]) {
      StableOrderMembers(StartTimes(sessions), |sessions|);
      assert i in order;
    }
    return Ok((values, exclusions));
  }

  lemma AcceptableExactly(m: Manifest, sessions: seq<Session>)
    ensures AllAcceptable(m, sessions) <==> forall i | 0 <= i < |sessions| ::
              var s := sessions[i];
              && IsDigestText(s.participant) && (s.condition == Some("AXIGNAL") || s.condition == Some("CONTROL"))
              && s.task.Some? && s.task.value in m.tasks
              && s.protocol == Some(m.protocol) && s.study == Some(m.study)
  {
    hide IsSha256, IsDigestText;
    forall i | 0 <= i < |sessions|
      ensures IsSha256(sessions[i].participant) <==> IsDigestText(sessions[i].participant)
    {
      Sha256Exactly(sessions[i].participant);
    }
  }

  lemma TakenExtended(sessions: seq<Session>, picks: seq<nat>, i: nat)
    requires i < |sessions| && sessions[i].task.Some?
    ensures forall k :: Taken(sessions, picks + [i], k) <==> Taken(sessions, picks, k) || k == KeyOf(sessions[i])
  {
    var more := picks + [i];
    forall k ensures Taken(sessions, more, k) <==> Taken(sessions, picks, k) || k == KeyOf(sessions[i]) {
      if Taken(sessions, picks, k) {
        var a :| 0 <= a < |picks| && picks[a] < |sessions|
                 && sessions[picks[a]].task.Some? && KeyOf(sessions[picks[a]]) == k;
        assert more[a] == picks[a];
      }
      if k == KeyOf(sessions[i]) {
        assert more[|picks|] == i;
      }
    }
  }

  // ----- what screening keeps -----

  /** Every session is retained or excluded, and none is both. */
  lemma {:induction false} NothingLost(m: Manifest, sessions: seq<Session>, order: seq<nat>, n: nat)
    requires AllAcceptable(m, sessions) && InRange(sessions, order) && n <= |order|
    ensures |Screen(m, sessions, order, n).picks| + |Screen(m, sessions, order, n).exclusions| == n
  {
    if n > 0 {
      NothingLost(m, sessions, order, n - 1);
    }
  }

  predicate Contends(m: Manifest, sessions: seq<Session>, i: nat, k: Key)
    requires AllAcceptable(m, sessions) && i < |sessions|
  {
    Countable(m, sessions[i]) && KeyOf(sessions[i]) == k
  }

  lemma {:induction false} TakenExactly(m: Manifest, sessions: seq<Session>, order: seq<nat>, n: nat, k: Key)
    requires AllAcceptable(m, sessions) && InRange(sessions, order) && n <= |order|
    ensures Taken(sessions, Screen(m, sessions, order, n).picks, k) <==>
            exists a | 0 <= a < n :: Contends(m, sessions, order[a], k)
  {
    if n > 0 {
      TakenExactly(m, sessions, order, n - 1, k);
      var before := Screen(m, sessions, order, n - 1);
      TakenExtended(sessions, before.picks, order[n - 1]);
    }
  }

  /** The session at position a of the order is the first contender for its key. */
  predicate FirstAt(m: Manifest, sessions: seq<Session>, order: seq<nat>, a: nat)
    requires AllAcceptable(m, sessions) && InRange(sessions, order) && a < |order|
  {
    && Countable(m, sessions[order[a]])
    && forall b | 0 <= b < a :: !Contends(m, sessions, order[b], KeyOf(sessions[order[a]]))
  }

  /** A step retains its session exactly when that is the first contender for its key. */
  lemma ScreenStep(m: Manifest, sessions: seq<Session>, order: seq<nat>, n: nat)
    requires AllAcceptable(m, sessions) && InRange(sessions, order) && 0 < n <= |order|
    ensures var before := Screen(m, sessions, order, n - 1).picks;
      && Screen(m, sessions, order, n).picks ==
         (if FirstAt(m, sessions, order, n - 1) then before + [order[n - 1]] else before)
      && (FirstAt(m, sessions, order, n - 1) ==> !Taken(sessions, before, KeyOf(sessions[order[n - 1]])))
  {
    TakenExactly(m, sessions, order, n - 1, KeyOf(sessions[order[n - 1]]));
  }

  lemma {:induction false} PickPosition(m: Manifest, sessions: seq<Session>, order: seq<nat>, n: nat, i: nat)
    returns (a: nat)
    requires AllAcceptable(m, sessions) && InRange(sessions, order) && n <= |order|
    requires i in Screen(m, sessions, order, n).picks
    ensures a < n && order[a] == i
  {
    if i == order[n - 1] {
      a := n - 1;
    } else {
      a := PickPosition(m, sessions, order, n - 1, i);
    }
  }

  lemma MemberAppended(s: seq<nat>, x: nat, y: nat)
    ensures y in s + [x] <==> y in s || y == x
  {
  }

  lemma {:induction false} PicksAreFirsts(m: Manifest, sessions: seq<Session>, order: seq<nat>, n: nat, a: nat)
    requires AllAcceptable(m, sessions) && InRange(sessions, order) && a < n <= |order|
    requires forall a, b | 0 <= a < b < |order| :: order[a] != order[b]
    ensures order[a] in Screen(m, sessions, order, n).picks <==> FirstAt(m, sessions, order, a)
  {
    ScreenStep(m, sessions, order, n);
    hide Screen, Taken, FirstAt, AllAcceptable, InRange;
    MemberAppended(Screen(m, sessions, order, n - 1).picks, order[n - 1], order[a]);
    if a < n - 1 {
      PicksAreFirsts(m, sessions, order, n - 1, a);
    } else {
      NotYetPicked(m, sessions, order, n - 1);
    }
  }

  lemma NotYetPicked(m: Manifest, sessions: seq<Session>, order: seq<nat>, n: nat)
    requires AllAcceptable(m, sessions) && InRange(sessions, order) && n < |order|
    requires forall a, b | 0 <= a < b < |order| :: order[a] != order[b]
    ensures order[n] !in Screen(m, sessions, order, n).picks
  {
    hide Screen, AllAcceptable, InRange;
    if order[n] in Screen(m, sessions, order, n).picks {
      var a := PickPosition(m, sessions, order, n, order[n]);
      assert false;
    }
  }

  /** Each participant and task keeps exactly the countable session with the least start string, ties
      going to the one that comes first in the input. */
  lemma LeastStartKept(m: Manifest, sessions: seq<Session>, i: nat)
    requires AllAcceptable(m, sessions) && i < |sessions|
    ensures i in Retained(m, sessions).picks <==>
            && Countable(m, sessions[i])
            && forall j: nat | j < |sessions| && j != i && Contends(m, sessions, j, KeyOf(sessions[i])) ::
                 Before(StartTimes(sessions), i, j)
  {
    hide StableOrder, IsSha256, Screen;
    var keys, order := StartTimes(sessions), StartOrder(sessions);
    StableOrderMembers(keys, |sessions|);
    StableOrderSorted(keys, |sessions|);
    SortedDistinct(keys, order);
    assert i in order;
    var a :| 0 <= a < |order| && order[a] == i;
    PicksAreFirsts(m, sessions, order, |sessions|, a);
    var key := KeyOf(sessions[i]);
    if FirstAt(m, sessions, order, a) {
      forall j: nat | j < |sessions| && j != i && Contends(m, sessions, j, key) ensures Before(keys, i, j) {
        assert j in order;
        var b :| 0 <= b < |order| && order[b] == j;
      }
    }
    forall b | 0 <= b < a ensures order[b] != i && !Before(keys, i, order[b]) {
      OrderAgrees(keys, order, a, b);
    }
  }

  /** A retained session has an allowed profile and no technical failure, and every other such session of
      the same participant and task has a greater start string or the same and comes later in the input. */
  lemma RetainedExactly(m: Manifest, sessions: seq<Session>, i: nat)
    requires AllAcceptable(m, sessions) && i < |sessions|
    ensures i in Retained(m, sessions).picks <==>
            var s := sessions[i];
            && s.profile.Some? && s.profile.value in m.profiles && !s.technicalFailure
            && forall j | 0 <= j < |sessions| && j != i ::
                 var t := sessions[j];
                 t.profile.Some? && t.profile.value in m.profiles && !t.technicalFailure
                 && t.participant == s.participant && t.task == s.task
                 ==> Less(s.startedAt, t.startedAt) || (s.startedAt == t.startedAt && i < j)
  {
    hide Retained, Less;
    LeastStartKept(m, sessions, i);
    var s := sessions[i];
    forall j: nat | j < |sessions|
      ensures var t := sessions[j];
        Contends(m, sessions, j, KeyOf(s)) <==>
        t.profile.Some? && t.profile.value in m.profiles && !t.technicalFailure
        && t.participant == s.participant && t.task == s.task
      ensures Before(StartTimes(sessions), i, j) <==>
              Less(s.startedAt, sessions[j].startedAt) || (s.startedAt == sessions[j].startedAt && i < j)
    {
      assert Acceptable(m, sessions[j]) && Acceptable(m, s);
    }
    hide Contends, Before, AllAcceptable;
  }

  /** Why a session that is not retained was excluded. */
  function Reason(m: Manifest, s: Session): Code {
    if s.profile == None || s.profile.value !in m.profiles then UNQUALIFIED_PROFILE
    else if s.technicalFailure then TECHNICAL_PRE_RESPONSE_FAILURE
    else DUPLICATE_PARTICIPANT_TASK
  }

  /** The positions explain the exclusions of the first n sessions: in order, each with its session and
      reason, and together with the retained ones they are all that were processed. */
  predicate Explains(m: Manifest, sessions: seq<Session>, order: seq<nat>, n: nat, rest: seq<nat>)
    requires AllAcceptable(m, sessions) && InRange(sessions, order) && n <= |order|
  {
    var r := Screen(m, sessions, order, n);
    && |rest| == |r.exclusions| && InRange(sessions, rest)
    && (forall a | 0 <= a < |rest| ::
          r.exclusions[a] == Exclusion(sessions[rest[a]].id, Reason(m, sessions[rest[a]])))
    && multiset(rest) + multiset(r.picks) == multiset(order[..n])
  }

  /** The exclusions name, in processing order, exactly the sessions that are not retained, each with its
      reason. */
  lemma {:induction false} ExclusionsExactly(m: Manifest, sessions: seq<Session>, order: seq<nat>, n: nat)
    returns (rest: seq<nat>)
    requires AllAcceptable(m, sessions) && InRange(sessions, order) && n <= |order|
    ensures Explains(m, sessions, order, n, rest)
  {
    if n == 0 {
      rest := [];
    } else {
      rest := ExclusionsExactly(m, sessions, order, n - 1);
      if Screen(m, sessions, order, n).picks == Screen(m, sessions, order, n - 1).picks {
        ExcludedExplained(m, sessions, order, n, rest);
        rest := rest + [order[n - 1]];
      } else {
        RetainedExplained(m, sessions, order, n, rest);
      }
    }
  }

  lemma RetainedExplained(m: Manifest, sessions: seq<Session>, order: seq<nat>, n: nat, rest: seq<nat>)
    requires AllAcceptable(m, sessions) && InRange(sessions, order) && 0 < n <= |order|
    requires Explains(m, sessions, order, n - 1, rest)
    requires Screen(m, sessions, order, n).picks != Screen(m, sessions, order, n - 1).picks
    ensures Explains(m, sessions, order, n, rest)
  {
    ScreenCases(m, sessions, order, n);
    OneMore(order[..n - 1], order[n - 1]);
    OneMore(Screen(m, sessions, order, n - 1).picks, order[n - 1]);
    assert order[..n] == order[..n - 1] + [order[n - 1]];
    hide Screen, Reason, AllAcceptable;
  }

  lemma ExcludedExplained(m: Manifest, sessions: seq<Session>, order: seq<nat>, n: nat, rest: seq<nat>)
    requires AllAcceptable(m, sessions) && InRange(sessions, order) && 0 < n <= |order|
    requires Explains(m, sessions, order, n - 1, rest)
    requires Screen(m, sessions, order, n).picks == Screen(m, sessions, order, n - 1).picks
    ensures Explains(m, sessions, order, n, rest + [order[n - 1]])
  {
    ScreenCases(m, sessions, order, n);
    OneMore(order[..n - 1], order[n - 1]);
    OneMore(rest, order[n - 1]);
    assert order[..n] == order[..n - 1] + [order[n - 1]];
    hide Screen, Reason, AllAcceptable;
  }

  lemma OneMore(s: seq<nat>, x: nat)
    ensures multiset(s + [x]) == multiset(s) + multiset{x}
  {
  }

  /** A step either retains its session or excludes it for its reason. */
  lemma ScreenCases(m: Manifest, sessions: seq<Session>, order: seq<nat>, n: nat)
    requires AllAcceptable(m, sessions) && InRange(sessions, order) && 0 < n <= |order|
    ensures var before, after := Screen(m, sessions, order, n - 1), Screen(m, sessions, order, n);
      var i := order[n - 1];
      || (after.picks == before.picks + [i] && after.exclusions == before.exclusions)
      || (after.picks == before.picks
          && after.exclusions == before.exclusions + [Exclusion(sessions[i].id, Reason(m, sessions[i]))])
  {
  }

  lemma OrderAgrees(keys: seq<string>, order: seq<nat>, a: nat, b: nat)
    requires Positions(keys, order) && Sorted(keys, order) && a < |order| && b < |order| && a != b
    ensures order[a] != order[b] && (Before(keys, order[a], order[b]) <==> a < b)
  {
    BeforeAsymmetric(keys, order[a], order[b]);
  }

  lemma BeforeAsymmetric(keys: seq<string>, i: nat, j: nat)
    requires i < |keys| && j < |keys|
    ensures !(Before(keys, i, j) && Before(keys, j, i))
  {
    LessTotal(keys[i], keys[j]);
  }

  // ----- start strings and time -----

  /** Every countable session has a retained one of its participant and task that starts, by its start
      string, no later. */
  lemma SomeSessionKept(m: Manifest, sessions: seq<Session>, j: nat) returns (i: nat)
    requires AllAcceptable(m, sessions) && j < |sessions| && Countable(m, sessions[j])
    ensures i < |sessions| && i in Retained(m, sessions).picks && KeyOf(sessions[i]) == KeyOf(sessions[j])
    ensures !Less(sessions[j].startedAt, sessions[i].startedAt)
  {
    var order, key := StartOrder(sessions), KeyOf(sessions[j]);
    StableOrderMembers(StartTimes(sessions), |sessions|);
    assert j in order;
    var a :| 0 <= a < |order| && order[a] == j;
    TakenExactly(m, sessions, order, |sessions|, key);
    assert Contends(m, sessions, order[a], key);
    var p :| 0 <= p < |Retained(m, sessions).picks| && KeyOf(sessions[Retained(m, sessions).picks[p]]) == key;
    i := Retained(m, sessions).picks[p];
    LeastStartKept(m, sessions, i);
    LessTotal(sessions[i].startedAt, sessions[j].startedAt);
  }

  /** No retained session starts later than another countable one of its participant and task. */
  predicate KeepsEarliest(m: Manifest, sessions: seq<Session>, time: string -> real)
    requires AllAcceptable(m, sessions)
  {
    forall i: nat, j: nat |
      i < |sessions| && j < |sessions| && i in Retained(m, sessions).picks
      && Contends(m, sessions, j, KeyOf(sessions[i])) ::
      time(sessions[i].startedAt) <= time(sessions[j].startedAt)
  }

  ghost predicate StartsIn(sessions: seq<Session>, stamps: iset<string>) {
    forall i | 0 <= i < |sessions| :: sessions[i].startedAt in stamps
  }

  lemma KeepsEarliestIf(m: Manifest, sessions: seq<Session>, stamps: iset<string>, time: string -> real)
    requires AllAcceptable(m, sessions) && StartsIn(sessions, stamps) && FollowsTime(stamps, time)
    ensures KeepsEarliest(m, sessions, time)
  {
    hide Retained, Countable, Less;
    forall i: nat, j: nat |
      i < |sessions| && j < |sessions| && i in Retained(m, sessions).picks
      && Contends(m, sessions, j, KeyOf(sessions[i]))
      ensures time(sessions[i].startedAt) <= time(sessions[j].startedAt)
    {
      LeastStartKept(m, sessions, i);
    }
  }

  /** One participant and task, started at a and again at b. */
  function TwoStarts(s: Session, a: string, b: string): seq<Session> {
    [s.(startedAt := a), s.(startedAt := b)]
  }

  /** Of two sessions the one with the lesser string is kept, so if its instant is the later one the
      analysis keeps the later session and drops the earlier. */
  lemma LaterSessionKept(m: Manifest, s: Session, a: string, b: string, time: string -> real)
    requires Acceptable(m, s) && Countable(m, s) && Less(a, b)
    ensures var ss := TwoStarts(s, a, b);
      && AllAcceptable(m, ss) && 0 in Retained(m, ss).picks && 1 !in Retained(m, ss).picks
      && (time(b) < time(a) ==> !KeepsEarliest(m, ss, time))
  {
    var ss := TwoStarts(s, a, b);
    hide Retained, Less;
    LessTotal(a, b);
    assert Contends(m, ss, 0, KeyOf(ss[1])) && Contends(m, ss, 1, KeyOf(ss[0]));
    LeastStartKept(m, ss, 0);
    LeastStartKept(m, ss, 1);
  }

  /** Two zones with different offsets give such a data set. */
  lemma OffsetsMislead(m: Manifest, s: Session, x: string, y: string) returns (a: string, b: string)
    requires Acceptable(m, s) && Countable(m, s)
    requires IsZone(x) && IsZone(y) && OffsetMinutes(x) > OffsetMinutes(y)
    ensures IsStamp(a) && IsStamp(b) && PartsOf(a).zone == y && PartsOf(b).zone == x && Instant(b) < Instant(a)
    ensures var ss := TwoStarts(s, a, b);
      AllAcceptable(m, ss) && 0 in Retained(m, ss).picks && 1 !in Retained(m, ss).picks
  {
    hide *;
    a, b := OffsetsReverse(x, y, 0);
    LaterSessionKept(m, s, a, b, Instant);
  }

  /** Whatever instants the start strings denote: every data set keeps the earliest sessions exactly when
      string order never runs against time on the strings that can occur. */
  lemma EarliestKeptExactly(m: Manifest, s: Session, stamps: iset<string>, time: string -> real)
    requires Acceptable(m, s) && Countable(m, s)
    ensures FollowsTime(stamps, time) <==>
            forall ss: seq<Session> | AllAcceptable(m, ss) && StartsIn(ss, stamps) :: KeepsEarliest(m, ss, time)
  {
    hide KeepsEarliest, AllAcceptable, Acceptable, Countable, Less;
    forall ss: seq<Session> | AllAcceptable(m, ss) && StartsIn(ss, stamps) && FollowsTime(stamps, time)
      ensures KeepsEarliest(m, ss, time)
    {
      KeepsEarliestIf(m, ss, stamps, time);
    }
    forall a, b | a in stamps && b in stamps && Less(a, b) && time(b) < time(a)
      ensures exists ss: seq<Session> :: AllAcceptable(m, ss) && StartsIn(ss, stamps) && !KeepsEarliest(m, ss, time)
    {
      LaterSessionKept(m, s, a, b, time);
      assert StartsIn(TwoStarts(s, a, b), stamps);
    }
  }

  /** For date-time strings with the given zones and numbers of fraction digits: every data set keeps the
      earliest sessions exactly when all zones have one offset and, where `Z` is among them, all fractions
      have one length. */
  lemma EarliestKeptForForm(m: Manifest, s: Session, zones: iset<string>, lengths: iset<nat>, n: nat)
    requires Acceptable(m, s) && Countable(m, s)
    requires n in lengths && forall z | z in zones :: IsZone(z)
    ensures (forall ss: seq<Session> | AllAcceptable(m, ss) && StartsIn(ss, Form(zones, lengths)) ::
               KeepsEarliest(m, ss, Instant)) <==>
            OneOffset(zones) && ("Z" in zones ==> OneLength(lengths))
  {
    hide *;
    EarliestKeptExactly(m, s, Form(zones, lengths), Instant);
    FormFollowsTimeExactly(zones, lengths, n);
  }

  /** When all start times have one form, `Z` with a fixed number of fraction digits or a numeric zone
      with fractions of any length, a session is retained exactly when it is the earliest countable one of
      its participant and task, ties going to the one that comes first in the input. */
  lemma EarliestSessionKept(m: Manifest, sessions: seq<Session>, zone: string, length: Option<nat>, i: nat)
    requires AllAcceptable(m, sessions) && i < |sessions|
    requires forall j | 0 <= j < |sessions| :: InForm(sessions[j].startedAt, zone, length)
    ensures i in Retained(m, sessions).picks <==>
            && Countable(m, sessions[i])
            && forall j: nat | j < |sessions| && j != i && Contends(m, sessions, j, KeyOf(sessions[i])) ::
                 var t, u := Instant(sessions[i].startedAt), Instant(sessions[j].startedAt);
                 t < u || (t == u && i < j)
  {
    hide Retained, InForm, Instant, Contends, Countable, AllAcceptable;
    LeastStartKept(m, sessions, i);
    var keys := StartTimes(sessions);
    forall j: nat | j < |sessions|
      ensures var t, u := Instant(sessions[i].startedAt), Instant(sessions[j].startedAt);
        Before(keys, i, j) <==> t < u || (t == u && i < j)
    {
      FormOrder(keys[i], keys[j], zone, length);
    }
  }

  // ----- counting -----

  function KeySet(sessions: seq<Session>): set<Key>
    requires forall i | 0 <= i < |sessions| :: sessions[i].task.Some?
  {
    set i | 0 <= i < |sessions| :: KeyOf(sessions[i])
  }

  function Participants(sessions: seq<Session>): set<string> {
    set i | 0 <= i < |sessions| :: sessions[i].participant
  }

  lemma KeySetExtended(kept: seq<Session>, s: Session)
    requires s.task.Some? && forall i | 0 <= i < |kept| :: kept[i].task.Some?
    ensures KeySet(kept + [s]) == KeySet(kept) + {KeyOf(s)}
  {
    var more := kept + [s];
    assert forall i | 0 <= i < |kept| :: more[i] == kept[i];
    assert more[|kept|] == s;
    forall k ensures k in KeySet(more) <==> k in KeySet(kept) + {KeyOf(s)} {
      if k in KeySet(kept) {
        var i :| 0 <= i < |kept| && KeyOf(kept[i]) == k;
      }
      assert KeyOf(s) in KeySet(more);
    }
  }

  predicate DistinctKeys(kept: seq<Session>)
    requires forall i | 0 <= i < |kept| :: kept[i].task.Some?
  {
    forall i, j | 0 <= i < j < |kept| :: KeyOf(kept[i]) != KeyOf(kept[j])
  }

  lemma {:induction false} DistinctKeysCount(kept: seq<Session>)
    requires (forall i | 0 <= i < |kept| :: kept[i].task.Some?) && DistinctKeys(kept)
    ensures |KeySet(kept)| == |kept|
  {
    if kept != [] {
      var init, last := kept[..|kept| - 1], kept[|kept| - 1];
      DistinctKeysCount(init);
      KeySetExtended(init, last);
      assert init + [last] == kept;
      assert forall i | 0 <= i < |init| :: KeyOf(init[i]) != KeyOf(last);
    }
  }

  /** No two retained sessions share a key. */
  lemma {:induction false} KeysDistinct(m: Manifest, sessions: seq<Session>, order: seq<nat>, n: nat)
    requires AllAcceptable(m, sessions) && InRange(sessions, order) && n <= |order|
    ensures DistinctKeys(Pick(sessions, Screen(m, sessions, order, n).picks))
  {
    if n > 0 {
      KeysDistinct(m, sessions, order, n - 1);
      var before := Screen(m, sessions, order, n - 1).picks;
      var s := sessions[order[n - 1]];
      assert Pick(sessions, before + [order[n - 1]]) == Pick(sessions, before) + [s];
      assert !Taken(sessions, before, KeyOf(s)) ==>
        forall i | 0 <= i < |before| :: KeyOf(Pick(sessions, before)[i]) != KeyOf(s);
    }
  }

  function Pairs(ps: set<string>, ts: set<string>): set<Key> {
    set p, t | p in ps && t in ts :: Key(p, t)
  }

  lemma {:induction false} RowSize(p: string, ts: set<string>)
    ensures |Pairs({p}, ts)| == |ts|
  {
    if ts != {} {
      var t :| t in ts;
      RowSize(p, ts - {t});
      assert Pairs({p}, ts) == Pairs({p}, ts - {t}) + {Key(p, t)};
    }
  }

  lemma ProductStep(a: nat, b: nat)
    requires a > 0
    ensures a * b == (a - 1) * b + b
  {
  }

  lemma PairsSplit(ps: set<string>, ts: set<string>, p: string)
    requires p in ps
    ensures Pairs(ps, ts) == Pairs(ps - {p}, ts) + Pairs({p}, ts)
    ensures Pairs(ps - {p}, ts) !! Pairs({p}, ts)
  {
  }

  lemma {:induction false} PairsSize(ps: set<string>, ts: set<string>)
    ensures |Pairs(ps, ts)| == |ps| * |ts|
  {
    if ps != {} {
      var p :| p in ps;
      PairsSize(ps - {p}, ts);
      RowSize(p, ts);
      PairsSplit(ps, ts, p);
      ProductStep(|ps|, |ts|);
    }
  }

  lemma {:induction false} SubsetSize<T>(a: set<T>, b: set<T>)
    requires a <= b
    ensures |a| <= |b|
  {
    if a != {} {
      var x :| x in a;
      SubsetSize(a - {x}, b - {x});
    }
  }

  /** There are at most as many eligible sessions as participants times tasks. */
  lemma EligibleBounded(m: Manifest, sessions: seq<Session>)
    requires AllAcceptable(m, sessions)
    ensures var kept := Pick(sessions, Retained(m, sessions).picks);
      |kept| <= |Participants(kept)| * |m.tasks|
  {
    var kept := Pick(sessions, Retained(m, sessions).picks);
    KeysDistinct(m, sessions, StartOrder(sessions), |sessions|);
    DistinctKeysCount(kept);
    SubsetSize(KeySet(kept), Pairs(Participants(kept), m.tasks));
    PairsSize(Participants(kept), m.tasks);
  }

  // ----- conditions and metrics -----

  /** The sessions of one condition, in order. */
  function OfCondition(sessions: seq<Session>, condition: string): seq<Session> {
    if sessions == [] then []
    else
      var before := OfCondition(sessions[..|sessions| - 1], condition);
      if sessions[|sessions| - 1].condition == Some(condition) then before + [sessions[|sessions| - 1]] else before
  }

  /** The grouping loop of `evaluate`. */
  method GroupByCondition(sessions: seq<Session>) returns (groups: map<Option<string>, seq<Session>>)
    ensures forall c :: (if Some(c) in groups then groups[Some(c)] else []) == OfCondition(sessions, c)
  {
    groups := map[];
    for i := 0 to |sessions|
      invariant forall c :: (if Some(c) in groups then groups[Some(c)] else []) == OfCondition(sessions[..i], c)
    {
      var s := sessions[i];
      assert sessions[..i + 1][..i] == sessions[..i];
      var group := if s.condition in groups then groups[s.condition] else [];
      groups := groups[s.condition := group + [s]];
    }
    assert sessions[..|sessions|] == sessions;
  }

  /** The two conditions partition the sessions: nothing is in both, and nothing in neither. */
  lemma {:induction false} ConditionsPartition(sessions: seq<Session>)
    requires forall i | 0 <= i < |sessions| :: sessions[i].condition in {Some("AXIGNAL"), Some("CONTROL")}
    ensures multiset(OfCondition(sessions, "AXIGNAL")) + multiset(OfCondition(sessions, "CONTROL")) ==
            multiset(sessions)
    ensures forall s | s in OfCondition(sessions, "AXIGNAL") :: s.condition == Some("AXIGNAL")
    ensures forall s | s in OfCondition(sessions, "CONTROL") :: s.condition == Some("CONTROL")
  {
    if sessions != [] {
      var k := |sessions| - 1;
      ConditionsPartition(sessions[..k]);
      assert sessions == sessions[..k] + [sessions[k]];
      assert "AXIGNAL" != "CONTROL" by { assert "AXIGNAL"[0] != "CONTROL"[0]; }
    }
  }

  function Successes(sessions: seq<Session>, metric: string): (n: nat)
    ensures n <= |sessions|
  {
    if sessions == [] then 0
    else
      var s := sessions[|sessions| - 1];
      Successes(sessions[..|sessions| - 1], metric) + (if metric in s.outcome && s.outcome[metric] then 1 else 0)
  }

  /** The number of sessions whose outcome says that the metric is true. */
  lemma {:induction false} SuccessesExactly(sessions: seq<Session>, metric: string)
    ensures Successes(sessions, metric) ==
            |set i | 0 <= i < |sessions| && metric in sessions[i].outcome && sessions[i].outcome[metric]|
    decreases |sessions|
  {
    if sessions != [] {
      var k := |sessions| - 1;
      var init := sessions[..k];
      SuccessesExactly(init, metric);
      TrueFor(init, sessions, metric);
    }
  }

  lemma TrueFor(init: seq<Session>, sessions: seq<Session>, metric: string)
    requires |sessions| == |init| + 1 && sessions[..|init|] == init
    ensures var last := sessions[|init|];
      |set i | 0 <= i < |sessions| && metric in sessions[i].outcome && sessions[i].outcome[metric]| ==
      |set i | 0 <= i < |init| && metric in init[i].outcome && init[i].outcome[metric]|
      + (if metric in last.outcome && last.outcome[metric] then 1 else 0)
  {
    var k := |init|;
    var before := set i | 0 <= i < k && metric in init[i].outcome && init[i].outcome[metric];
    var all := set i | 0 <= i < |sessions| && metric in sessions[i].outcome && sessions[i].outcome[metric];
    assert forall i | 0 <= i < k :: sessions[i] == init[i];
    assert all == before + (if metric in sessions[k].outcome && sessions[k].outcome[metric] then {k} else {});
  }

  /** The counting loop of `condition_metrics`. */
  method CountSuccesses(sessions: seq<Session>, metric: string) returns (successes: nat)
    ensures successes == Successes(sessions, metric)
  {
    successes := 0;
    for i := 0 to |sessions|
      invariant successes == Successes(sessions[..i], metric)
    {
      assert sessions[..i + 1][..i] == sessions[..i];
      if metric in sessions[i].outcome && sessions[i].outcome[metric] {
        successes := successes + 1;
      }
    }
    assert sessions[..|sessions|] == sessions;
  }

  /** The rate that `condition_metrics` reports; zero for an empty group. */
  function ReportedRate(sessions: seq<Session>, metric: string): real {
    if sessions == [] then 0.0 else Successes(sessions, metric) as real / |sessions| as real
  }

  /** For every group of sessions, empty or not, the reported rate lies inside the reported interval, and
      the interval inside [0, 1]. */
  lemma ReportedRateInInterval(sessions: seq<Session>, metric: string, z: real, root: real)
    requires z >= 0.0
    requires sessions != [] ==> Wilson.IsRoot(root, Wilson.Sample(Successes(sessions, metric), |sessions|, z))
    ensures var i := Wilson.Bounds(Wilson.Sample(Successes(sessions, metric), |sessions|, z), root);
      0.0 <= i.low <= ReportedRate(sessions, metric) <= i.high <= 1.0
  {
    if sessions != [] {
      Wilson.BoundsBracketRate(Wilson.Sample(Successes(sessions, metric), |sessions|, z), root);
    }
  }
}
