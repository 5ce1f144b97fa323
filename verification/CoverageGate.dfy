/** The Gate 7 evaluator: whether a library's coverage evidence is acceptable at an instant, and the
    decision over all libraries. Records are well-typed (the JSON Schema step is not modelled); time
    stamps may still be unparsable, and checks that raise are told apart from checks that fail. */
module CoverageGate {
  import opened Common
  import opened Text

  datatype Stamp = Malformed | Instant(t: int)

  datatype Day = BadDate | Date(n: int)

  datatype Status = PASS | FAIL | MISSING

  datatype SourceState = DISCOVERED | CANDIDATE | PRODUCT_ADMITTED | SUSPENDED | REVOKED | REJECTED_SOURCE

  datatype CanonicalState = BLOCKED | IN_REVIEW | ACCEPTED | REJECTED

  datatype ReviewDecision = APPROVE | REJECT

  datatype ClaimDecision = DENIED | PENDING | APPROVED

  datatype Admission = Admission(legal: Status, technical: Status, quality: Status, rights: Status, human: Status)

  datatype Source = Source(
    id: string, state: SourceState, contributes: bool, admission: Admission,
    rightsExpiry: Option<Stamp>, evidence: seq<Stamp>)

  datatype Journey = Journey(
    language: string, ingestion: Status, normalisation: Status, search: Status, presentation: Status,
    evidence: seq<Stamp>)

  datatype Review = Review(
    authority: string, decision: ReviewDecision, reviewedAt: Stamp, expiresAt: Stamp,
    signature: string, manifestReference: string)

  datatype Block = Block(status: Status, evidence: seq<Stamp>)

  datatype Control = Control(implemented: bool, tested: bool, evidence: seq<Stamp>)

  datatype Synthetic = Synthetic(present: bool, disclosed: bool, contributes: bool, evidence: seq<Stamp>)

  datatype Library = Library(
    id: string, kind: string, name: string, runtimeReference: string, state: CanonicalState,
    countries: seq<string>, sectors: seq<string>, limitations: seq<string>, languages: seq<Journey>,
    active: seq<Source>, suspended: seq<Source>, candidate: seq<Source>,
    depth: Block, earliest: Option<Day>, latest: Option<Day>,
    update: Block, declared: Option<string>, observed: Option<string>,
    rights: Block,
    quality: Block, metrics: seq<Option<real>>,
    lag: Block, p50: Option<int>, p95: Option<int>, maximum: Option<int>,
    reviews: seq<Review>, synthetic: Synthetic, killSwitch: Control, rollback: Control,
    claim: ClaimDecision)

  // ----- verdicts -----

  /** A check either raises or returns a truth value. */
  datatype Verdict = Raised | Returned(value: bool)

  const YES := Returned(true)

  const NO := Returned(false)

  /** Short-circuit conjunction: b is not evaluated unless a returned true. */
  function And(a: Verdict, b: Verdict): Verdict {
    if a == YES then b else a
  }

  /** The built-in `all`: stops at the first item that is not true, and raises if that item does. */
  function All(vs: seq<Verdict>): Verdict {
    if vs == [] then YES else And(vs[0], All(vs[1..]))
  }

  predicate RaisesAt(vs: seq<Verdict>, k: nat)
    requires k < |vs|
  {
    vs[k] == Raised && forall i | 0 <= i < k :: vs[i] == YES
  }

  lemma {:induction false} AllOutcome(vs: seq<Verdict>)
    ensures All(vs) == YES <==> forall i | 0 <= i < |vs| :: vs[i] == YES
    ensures All(vs) == Raised <==> exists k | 0 <= k < |vs| :: RaisesAt(vs, k)
  {
    if vs != [] {
      var rest := vs[1..];
      AllOutcome(rest);
      if All(rest) == Raised && vs[0] == YES {
        var k :| 0 <= k < |rest| && RaisesAt(rest, k);
        assert RaisesAt(vs, k + 1);
      }
      if k :| 0 <= k < |vs| && RaisesAt(vs, k) {
        assert k > 0 ==> RaisesAt(rest, k - 1);
      }
      assert vs[0] == Raised ==> RaisesAt(vs, 0);
    }
  }

  predicate Distinct(xs: seq<string>) {
    forall i, j | 0 <= i < j < |xs| :: xs[i] != xs[j]
  }

  /** `ensure_unique`. */
  function EnsureUnique(xs: seq<string>): Verdict {
    if Distinct(xs) then YES else Raised
  }

  function Members(xs: seq<string>): set<string> {
    set x | x in xs
  }

  function Expires(s: Stamp, now: int): Verdict {
    match s case Malformed => Raised case Instant(t) => Returned(t > now)
  }

  function Expiries(evidence: seq<Stamp>, now: int): seq<Verdict> {
    seq(|evidence|, i requires 0 <= i < |evidence| => Expires(evidence[i], now))
  }

  function EvidenceCurrent(evidence: seq<Stamp>, now: int): Verdict {
    if evidence == [] then NO else All(Expiries(evidence, now))
  }

  // ----- sources -----

  predicate FullyAdmitted(a: Admission) {
    a == Admission(PASS, PASS, PASS, PASS, PASS)
  }

  function SourceIsAdmitted(s: Source, now: int): Verdict {
    if s.state != PRODUCT_ADMITTED || !FullyAdmitted(s.admission) then NO
    else
      And(match s.rightsExpiry case None => YES case Some(e) => Expires(e, now),
          EvidenceCurrent(s.evidence, now))
  }

  function SourceIds(sources: seq<Source>): seq<string> {
    seq(|sources|, i requires 0 <= i < |sources| => sources[i].id)
  }

  /** When `validate_source_boundaries` does not raise. */
  predicate BoundariesHold(l: Library, now: int) {
    && (forall s | s in l.active :: SourceIsAdmitted(s, now) == YES)
    && (forall s | s in l.suspended :: s.state in {SUSPENDED, REVOKED} && !s.contributes)
    && (forall s | s in l.candidate :: s.state in {DISCOVERED, CANDIDATE, REJECTED_SOURCE} && !s.contributes)
    && Distinct(SourceIds(l.active + l.suspended + l.candidate))
  }

  /** `validate_source_boundaries`: three buckets in order, collecting the identifiers. */
  method ValidateSourceBoundaries(l: Library, now: int) returns (ok: bool)
    ensures ok <==> BoundariesHold(l, now)
  {
    var ids: seq<string> := [];
    for i := 0 to |l.active|
      invariant forall s | s in l.active[..i] :: SourceIsAdmitted(s, now) == YES
      invariant ids == SourceIds(l.active[..i])
    {
      var s := l.active[i];
      assert s in l.active;
      ids := ids + [s.id];
      if s.state != PRODUCT_ADMITTED || SourceIsAdmitted(s, now) != YES {
        return false;
      }
      assert l.active[..i + 1] == l.active[..i] + [s];
    }
    assert l.active[..|l.active|] == l.active;
    for i := 0 to |l.suspended|
      invariant forall s | s in l.suspended[..i] :: s.state in {SUSPENDED, REVOKED} && !s.contributes
      invariant ids == SourceIds(l.active + l.suspended[..i])
    {
      var s := l.suspended[i];
      assert s in l.suspended;
      ids := ids + [s.id];
      if s.state !in {SUSPENDED, REVOKED} || s.contributes {
        return false;
      }
      assert l.suspended[..i + 1] == l.suspended[..i] + [s];
    }
    assert l.suspended[..|l.suspended|] == l.suspended;
    for i := 0 to |l.candidate|
      invariant forall s | s in l.candidate[..i] ::
                  s.state in {DISCOVERED, CANDIDATE, REJECTED_SOURCE} && !s.contributes
      invariant ids == SourceIds(l.active + l.suspended + l.candidate[..i])
    {
      var s := l.candidate[i];
      assert s in l.candidate;
      ids := ids + [s.id];
      if s.state !in {DISCOVERED, CANDIDATE, REJECTED_SOURCE} || s.contributes {
        return false;
      }
      assert l.candidate[..i + 1] == l.candidate[..i] + [s];
    }
    assert l.candidate[..|l.candidate|] == l.candidate;
    return Distinct(ids);
  }

  function Admissions(sources: seq<Source>, now: int): seq<Verdict> {
    seq(|sources|, i requires 0 <= i < |sources| => SourceIsAdmitted(sources[i], now))
  }

  function ActiveSourcesPass(sources: seq<Source>, now: int): Verdict {
    And(Returned(sources != []),
        And(All(Admissions(sources, now)), Returned(exists s | s in sources :: s.contributes)))
  }

  // ----- languages, reviews, metric blocks -----

  predicate Complete(j: Journey) {
    j.ingestion == PASS && j.normalisation == PASS && j.search == PASS && j.presentation == PASS
  }

  function JourneyPasses(j: Journey, now: int): Verdict {
    And(Returned(Complete(j)), EvidenceCurrent(j.evidence, now))
  }

  function JourneyVerdicts(js: seq<Journey>, now: int): seq<Verdict> {
    seq(|js|, i requires 0 <= i < |js| => JourneyPasses(js[i], now))
  }

  function LanguagesOf(js: seq<Journey>): seq<string> {
    seq(|js|, i requires 0 <= i < |js| => js[i].language)
  }

  function LanguageJourneysPass(l: Library, required: seq<string>, now: int): Verdict {
    And(EnsureUnique(LanguagesOf(l.languages)),
      And(Returned(Members(LanguagesOf(l.languages)) == Members(required)),
        All(JourneyVerdicts(l.languages, now))))
  }

  function Started(s: Stamp, now: int): Verdict {
    match s case Malformed => Raised case Instant(t) => Returned(t <= now)
  }

  function ReviewPasses(r: Review, now: int): Verdict {
    And(Returned(r.decision == APPROVE),
      And(Started(r.reviewedAt, now),
        And(Expires(r.expiresAt, now), Returned(Trim(r.signature) != "" && Trim(r.manifestReference) != ""))))
  }

  function ReviewVerdicts(rs: seq<Review>, now: int): seq<Verdict> {
    seq(|rs|, i requires 0 <= i < |rs| => ReviewPasses(rs[i], now))
  }

  function AuthoritiesOf(rs: seq<Review>): seq<string> {
    seq(|rs|, i requires 0 <= i < |rs| => rs[i].authority)
  }

  function ReviewsPass(l: Library, required: seq<string>, now: int): Verdict {
    And(EnsureUnique(AuthoritiesOf(l.reviews)),
      And(Returned(Members(AuthoritiesOf(l.reviews)) == Members(required)),
        All(ReviewVerdicts(l.reviews, now))))
  }

  function BlockPasses(b: Block, now: int): Verdict {
    And(Returned(b.status == PASS), EvidenceCurrent(b.evidence, now))
  }

  function DepthPasses(l: Library, now: int): Verdict {
    And(BlockPasses(l.depth, now),
        match (l.earliest, l.latest)
        case (Some(Date(e)), Some(Date(n))) => Returned(e <= n)
        case (Some(_), Some(_)) => Raised
        case _ => NO)
  }

  function UpdatePasses(l: Library, now: int): Verdict {
    And(BlockPasses(l.update, now),
        Returned(l.declared.Some? && l.declared.value != "" && l.observed.Some? && l.observed.value != ""))
  }

  function QualityPasses(l: Library, now: int): Verdict {
    And(BlockPasses(l.quality, now), Returned(forall m | m in l.metrics :: m.Some?))
  }

  function LagPasses(l: Library, now: int): Verdict {
    And(BlockPasses(l.lag, now),
        Returned(l.p50.Some? && l.p95.Some? && l.maximum.Some? && l.p50.value <= l.p95.value <= l.maximum.value))
  }

  function ControlPasses(c: Control, now: int): Verdict {
    And(Returned(c.implemented && c.tested), EvidenceCurrent(c.evidence, now))
  }

  function SyntheticPasses(s: Synthetic, now: int): Verdict {
    if s.contributes then NO
    else if !s.present then Returned(s.disclosed)
    else And(Returned(s.disclosed), EvidenceCurrent(s.evidence, now))
  }

  const CHECKS: nat := 14

  function Check(l: Library, languages: seq<string>, authorities: seq<string>, now: int, i: nat): Verdict
    requires i < CHECKS
  {
    match i
    case 0 => if BoundariesHold(l, now) then YES else Raised
    case 1 => Returned(l.state == ACCEPTED && l.countries != [] && l.sectors != [] && l.limitations != [])
    case 2 => ActiveSourcesPass(l.active, now)
    case 3 => LanguageJourneysPass(l, languages, now)
    case 4 => DepthPasses(l, now)
    case 5 => UpdatePasses(l, now)
    case 6 => BlockPasses(l.rights, now)
    case 7 => QualityPasses(l, now)
    case 8 => LagPasses(l, now)
    case 9 => ReviewsPass(l, authorities, now)
    case 10 => SyntheticPasses(l.synthetic, now)
    case 11 => ControlPasses(l.killSwitch, now)
    case 12 => ControlPasses(l.rollback, now)
    case _ => Returned(l.claim == APPROVED)
  }

  function Checks(l: Library, languages: seq<string>, authorities: seq<string>, now: int): seq<Verdict> {
    seq(CHECKS, i requires 0 <= i < CHECKS => Check(l, languages, authorities, now, i))
  }

  /** `library_passes`: the checks in order, up to the first that does not pass. */
  function LibraryPasses(l: Library, languages: seq<string>, authorities: seq<string>, now: int): Verdict {
    All(Checks(l, languages, authorities, now))
  }

  /** `library_rejected`. */
  predicate LibraryRejected(l: Library) {
    || l.state == REJECTED
    || (exists r | r in l.reviews :: r.decision == REJECT)
    || FAIL in {l.depth.status, l.update.status, l.rights.status, l.quality.status, l.lag.status}
  }

  // ----- the checks in terms of the record -----

  /** What a check asks of the record: when it passes and when it raises. */
  datatype Condition = Condition(met: bool, broken: bool)

  function Outcome(c: Condition): Verdict {
    if c.broken then Raised else Returned(c.met)
  }

  predicate Later(s: Stamp, now: int) {
    s.Instant? && s.t > now
  }

  predicate Current(evidence: seq<Stamp>, now: int) {
    forall i | 0 <= i < |evidence| :: Later(evidence[i], now)
  }

  /** Some item cannot be parsed, and none before it has expired. */
  predicate Unreadable(evidence: seq<Stamp>, now: int) {
    exists k | 0 <= k < |evidence| :: evidence[k] == Malformed && Current(evidence[..k], now)
  }

  predicate Evidenced(evidence: seq<Stamp>, now: int) {
    evidence != [] && Current(evidence, now)
  }

  /** A precondition on the record, and then evidence that has not expired. */
  function WithEvidence(ready: bool, evidence: seq<Stamp>, now: int): Condition {
    Condition(ready && Evidenced(evidence, now), ready && Unreadable(evidence, now))
  }

  function BlockCondition(b: Block, extra: bool, now: int): Condition {
    var c := WithEvidence(b.status == PASS, b.evidence, now);
    Condition(c.met && extra, c.broken)
  }

  predicate JourneyMet(j: Journey, now: int) {
    j.ingestion == j.normalisation == j.search == j.presentation == PASS && Evidenced(j.evidence, now)
  }

  predicate JourneyBroken(js: seq<Journey>, k: nat, now: int)
    requires k < |js|
  {
    && js[k].ingestion == js[k].normalisation == js[k].search == js[k].presentation == PASS
    && Unreadable(js[k].evidence, now) && forall i | 0 <= i < k :: JourneyMet(js[i], now)
  }

  function LanguagesCondition(l: Library, required: seq<string>, now: int): Condition {
    var names := LanguagesOf(l.languages);
    var covered := Distinct(names) && Members(names) == Members(required);
    Condition(covered && forall i | 0 <= i < |l.languages| :: JourneyMet(l.languages[i], now),
              !Distinct(names) || (covered && exists k | 0 <= k < |l.languages| :: JourneyBroken(l.languages, k, now)))
  }

  function DepthCondition(l: Library, now: int): Condition {
    var c := BlockCondition(l.depth, l.earliest.Some? && l.latest.Some?, now);
    var dated := l.earliest != Some(BadDate) && l.latest != Some(BadDate);
    Condition(c.met && dated && l.earliest.value.n <= l.latest.value.n, c.broken || (c.met && !dated))
  }

  predicate ReviewMet(r: Review, now: int) {
    && r.decision == APPROVE && r.reviewedAt.Instant? && r.reviewedAt.t <= now && Later(r.expiresAt, now)
    && Trim(r.signature) != "" && Trim(r.manifestReference) != ""
  }

  /** The review at k approves and one of its times, reached before any reason to fail, cannot be parsed. */
  predicate ReviewBroken(rs: seq<Review>, k: nat, now: int)
    requires k < |rs|
  {
    && rs[k].decision == APPROVE
    && (rs[k].reviewedAt == Malformed || (rs[k].reviewedAt.t <= now && rs[k].expiresAt == Malformed))
    && forall i | 0 <= i < k :: ReviewMet(rs[i], now)
  }

  function ReviewsCondition(l: Library, required: seq<string>, now: int): Condition {
    var names := AuthoritiesOf(l.reviews);
    var covered := Distinct(names) && Members(names) == Members(required);
    Condition(covered && forall i | 0 <= i < |l.reviews| :: ReviewMet(l.reviews[i], now),
              !Distinct(names) || (covered && exists k | 0 <= k < |l.reviews| :: ReviewBroken(l.reviews, k, now)))
  }

  function SyntheticCondition(s: Synthetic, now: int): Condition {
    if s.present then WithEvidence(!s.contributes && s.disclosed, s.evidence, now)
    else Condition(!s.contributes && s.disclosed, false)
  }

  function ControlCondition(c: Control, now: int): Condition {
    WithEvidence(c.implemented && c.tested, c.evidence, now)
  }

  /** What the check at i asks of the record. */
  function ConditionOf(l: Library, languages: seq<string>, authorities: seq<string>, now: int, i: nat): Condition
    requires i < CHECKS
  {
    match i
    case 0 => Condition(BoundariesHold(l, now), !BoundariesHold(l, now))
    case 1 => Condition(l.state == ACCEPTED && l.countries != [] && l.sectors != [] && l.limitations != [], false)
    case 2 => Condition(exists s | s in l.active :: s.contributes, false)
    case 3 => LanguagesCondition(l, languages, now)
    case 4 => DepthCondition(l, now)
    case 5 => BlockCondition(l.update, Reported(l), now)
    case 6 => BlockCondition(l.rights, true, now)
    case 7 => BlockCondition(l.quality, forall m | m in l.metrics :: m.Some?, now)
    case 8 => BlockCondition(l.lag, LagOrdered(l), now)
    case 9 => ReviewsCondition(l, authorities, now)
    case 10 => SyntheticCondition(l.synthetic, now)
    case 11 => ControlCondition(l.killSwitch, now)
    case 12 => ControlCondition(l.rollback, now)
    case _ => Condition(l.claim == APPROVED, false)
  }

  predicate Reported(l: Library) {
    l.declared.Some? && l.declared.value != "" && l.observed.Some? && l.observed.value != ""
  }

  predicate LagOrdered(l: Library) {
    l.p50.Some? && l.p95.Some? && l.maximum.Some? && l.p50.value <= l.p95.value <= l.maximum.value
  }

  predicate Meets(l: Library, languages: seq<string>, authorities: seq<string>, now: int) {
    forall i: nat | i < CHECKS :: ConditionOf(l, languages, authorities, now, i).met
  }

  predicate BreaksAt(l: Library, languages: seq<string>, authorities: seq<string>, now: int, k: nat)
    requires k < CHECKS
  {
    && ConditionOf(l, languages, authorities, now, k).broken
    && forall i: nat | i < k :: ConditionOf(l, languages, authorities, now, i).met
  }

  /** The first check that is not met cannot be evaluated. */
  predicate Breaks(l: Library, languages: seq<string>, authorities: seq<string>, now: int) {
    exists k: nat | k < CHECKS :: BreaksAt(l, languages, authorities, now, k)
  }

  lemma EvidenceOutcome(ready: bool, evidence: seq<Stamp>, now: int)
    ensures And(Returned(ready), EvidenceCurrent(evidence, now)) == Outcome(WithEvidence(ready, evidence, now))
    ensures !(Evidenced(evidence, now) && Unreadable(evidence, now))
  {
    var vs := Expiries(evidence, now);
    AllOutcome(vs);
    assert forall i | 0 <= i < |vs| :: vs[i] == YES <==> Later(evidence[i], now);
    if k :| 0 <= k < |vs| && RaisesAt(vs, k) {
      assert Current(evidence[..k], now);
    }
    if k :| 0 <= k < |evidence| && evidence[k] == Malformed && Current(evidence[..k], now) {
      assert forall i | 0 <= i < k :: evidence[..k][i] == evidence[i];
      assert RaisesAt(vs, k);
    }
  }

  lemma JourneysOutcome(l: Library, required: seq<string>, now: int)
    ensures LanguageJourneysPass(l, required, now) == Outcome(LanguagesCondition(l, required, now))
  {
    hide Evidenced, Unreadable, EvidenceCurrent, Distinct, Members;
    var js, vs := l.languages, JourneyVerdicts(l.languages, now);
    AllOutcome(vs);
    forall i | 0 <= i < |js|
      ensures vs[i] == YES <==> JourneyMet(js[i], now)
      ensures vs[i] == Raised <==> Complete(js[i]) && Unreadable(js[i].evidence, now)
    {
      EvidenceOutcome(Complete(js[i]), js[i].evidence, now);
    }
    assert forall k: nat | k < |js| :: RaisesAt(vs, k) <==> JourneyBroken(js, k, now);
  }

  lemma ReviewsOutcome(l: Library, required: seq<string>, now: int)
    ensures ReviewsPass(l, required, now) == Outcome(ReviewsCondition(l, required, now))
  {
    hide Distinct, Members;
    var rs, vs := l.reviews, ReviewVerdicts(l.reviews, now);
    AllOutcome(vs);
    assert forall i | 0 <= i < |rs| :: vs[i] == YES <==> ReviewMet(rs[i], now);
    assert forall k: nat | k < |rs| :: RaisesAt(vs, k) <==> ReviewBroken(rs, k, now);
  }

  lemma ActiveOutcome(l: Library, now: int)
    requires BoundariesHold(l, now)
    ensures ActiveSourcesPass(l.active, now) == Returned(exists s | s in l.active :: s.contributes)
  {
    AllOutcome(Admissions(l.active, now));
  }

  lemma BlockOutcome(b: Block, extra: bool, now: int)
    ensures And(BlockPasses(b, now), Returned(extra)) == Outcome(BlockCondition(b, extra, now))
    ensures BlockPasses(b, now) == Outcome(BlockCondition(b, true, now))
  {
    EvidenceOutcome(b.status == PASS, b.evidence, now);
  }

  lemma DepthOutcome(l: Library, now: int)
    ensures DepthPasses(l, now) == Outcome(DepthCondition(l, now))
  {
    EvidenceOutcome(l.depth.status == PASS, l.depth.evidence, now);
  }

  lemma ControlOutcome(c: Control, now: int)
    ensures ControlPasses(c, now) == Outcome(ControlCondition(c, now))
  {
    EvidenceOutcome(c.implemented && c.tested, c.evidence, now);
  }

  lemma SyntheticOutcome(s: Synthetic, now: int)
    ensures SyntheticPasses(s, now) == Outcome(SyntheticCondition(s, now))
  {
    EvidenceOutcome(!s.contributes && s.disclosed, s.evidence, now);
  }

  /** Every check of a library within its boundaries does what its condition says. */
  lemma CheckMatchesCondition(l: Library, languages: seq<string>, authorities: seq<string>, now: int, i: nat)
    requires BoundariesHold(l, now) && i < CHECKS
    ensures Check(l, languages, authorities, now, i) == Outcome(ConditionOf(l, languages, authorities, now, i))
  {
    hide BoundariesHold, BlockPasses, BlockCondition, DepthPasses, DepthCondition, ControlPasses, ControlCondition;
    hide ActiveSourcesPass, LanguageJourneysPass, LanguagesCondition, ReviewsPass, ReviewsCondition;
    hide SyntheticPasses, SyntheticCondition;
    match i
    case 2 => ActiveOutcome(l, now);
    case 3 => JourneysOutcome(l, languages, now);
    case 4 => DepthOutcome(l, now);
    case 5 => BlockOutcome(l.update, Reported(l), now);
    case 6 => BlockOutcome(l.rights, true, now);
    case 7 => BlockOutcome(l.quality, forall m | m in l.metrics :: m.Some?, now);
    case 8 => BlockOutcome(l.lag, LagOrdered(l), now);
    case 9 => ReviewsOutcome(l, authorities, now);
    case 10 => SyntheticOutcome(l.synthetic, now);
    case 11 => ControlOutcome(l.killSwitch, now);
    case 12 => ControlOutcome(l.rollback, now);
    case _ =>
  }

  lemma ConditionsConsistent(l: Library, languages: seq<string>, authorities: seq<string>, now: int, i: nat)
    requires i < CHECKS && ConditionOf(l, languages, authorities, now, i).met
    ensures !ConditionOf(l, languages, authorities, now, i).broken
  {
    hide BoundariesHold, Distinct, Members;
  }

  lemma FirstCheck(l: Library, languages: seq<string>, authorities: seq<string>, now: int)
    requires !BoundariesHold(l, now)
    ensures Check(l, languages, authorities, now, 0) == Raised
    ensures ConditionOf(l, languages, authorities, now, 0) == Condition(false, true)
  {
  }

  /** A library passes exactly when its record meets every condition, and raises exactly when the first
      condition that is not met cannot be evaluated: a repeated name, or an unparsable time or date. */
  lemma LibraryOutcome(l: Library, languages: seq<string>, authorities: seq<string>, now: int)
    ensures LibraryPasses(l, languages, authorities, now) == YES <==> Meets(l, languages, authorities, now)
    ensures LibraryPasses(l, languages, authorities, now) == Raised <==> Breaks(l, languages, authorities, now)
  {
    hide Check, ConditionOf;
    var vs := Checks(l, languages, authorities, now);
    AllOutcome(vs);
    if BoundariesHold(l, now) {
      forall i: nat | i < CHECKS
        ensures vs[i] == Outcome(ConditionOf(l, languages, authorities, now, i))
        ensures vs[i] == YES <==> ConditionOf(l, languages, authorities, now, i).met
      {
        CheckMatchesCondition(l, languages, authorities, now, i);
        if ConditionOf(l, languages, authorities, now, i).met {
          ConditionsConsistent(l, languages, authorities, now, i);
        }
      }
      assert forall k: nat | k < CHECKS :: RaisesAt(vs, k) <==> BreaksAt(l, languages, authorities, now, k);
    } else {
      FirstCheck(l, languages, authorities, now);
      assert RaisesAt(vs, 0) && BreaksAt(l, languages, authorities, now, 0);
    }
  }

  /** The conditions that later results use, by name. */
  lemma MeetsMeans(l: Library, languages: seq<string>, authorities: seq<string>, now: int)
    requires Meets(l, languages, authorities, now)
    ensures BoundariesHold(l, now) && l.state == ACCEPTED && exists s | s in l.active :: s.contributes
    ensures LanguagesCondition(l, languages, now).met && ReviewsCondition(l, authorities, now).met
    ensures DepthCondition(l, now).met && BlockCondition(l.update, Reported(l), now).met
    ensures BlockCondition(l.rights, true, now).met && BlockCondition(l.lag, LagOrdered(l), now).met
    ensures BlockCondition(l.quality, forall m | m in l.metrics :: m.Some?, now).met
    ensures SyntheticCondition(l.synthetic, now).met
    ensures ControlCondition(l.killSwitch, now).met && ControlCondition(l.rollback, now).met
  {
    hide BoundariesHold, LanguagesCondition, ReviewsCondition, DepthCondition, BlockCondition;
    hide SyntheticCondition, ControlCondition;
    assert ConditionOf(l, languages, authorities, now, 0).met && ConditionOf(l, languages, authorities, now, 1).met;
    assert ConditionOf(l, languages, authorities, now, 2).met && ConditionOf(l, languages, authorities, now, 3).met;
    assert ConditionOf(l, languages, authorities, now, 4).met && ConditionOf(l, languages, authorities, now, 5).met;
    assert ConditionOf(l, languages, authorities, now, 6).met && ConditionOf(l, languages, authorities, now, 7).met;
    assert ConditionOf(l, languages, authorities, now, 8).met && ConditionOf(l, languages, authorities, now, 9).met;
    assert ConditionOf(l, languages, authorities, now, 10).met && ConditionOf(l, languages, authorities, now, 11).met;
    assert ConditionOf(l, languages, authorities, now, 12).met;
  }

  // ----- acceptance over time -----

  lemma SourceWasAdmitted(s: Source, earlier: int, now: int)
    requires earlier <= now && SourceIsAdmitted(s, now) == YES
    ensures SourceIsAdmitted(s, earlier) == YES
  {
    EvidenceOutcome(true, s.evidence, earlier);
    EvidenceOutcome(true, s.evidence, now);
  }

  lemma BoundariesHeld(l: Library, earlier: int, now: int)
    requires earlier <= now && BoundariesHold(l, now)
    ensures BoundariesHold(l, earlier)
  {
    forall s | s in l.active ensures SourceIsAdmitted(s, earlier) == YES {
      SourceWasAdmitted(s, earlier, now);
    }
  }

  /** The instants at which an unchanged library passes form an interval. */
  lemma AcceptanceIsConvex(l: Library, languages: seq<string>, authorities: seq<string>, t1: int, t2: int, t3: int)
    requires t1 <= t2 <= t3
    requires LibraryPasses(l, languages, authorities, t1) == YES
    requires LibraryPasses(l, languages, authorities, t3) == YES
    ensures LibraryPasses(l, languages, authorities, t2) == YES
  {
    LibraryOutcome(l, languages, authorities, t1);
    LibraryOutcome(l, languages, authorities, t2);
    LibraryOutcome(l, languages, authorities, t3);
    BoundariesHeld(l, t2, t3);
    hide BoundariesHold;
    forall i: nat | i < CHECKS ensures ConditionOf(l, languages, authorities, t2, i).met {
      assert ConditionOf(l, languages, authorities, t1, i).met && ConditionOf(l, languages, authorities, t3, i).met;
    }
  }

  /** A library that has passed and then lapsed never passes again unchanged. */
  lemma LapsedForGood(l: Library, languages: seq<string>, authorities: seq<string>,
                      passed: int, lapsed: int, later: int)
    requires passed <= lapsed <= later
    requires LibraryPasses(l, languages, authorities, passed) == YES
    requires LibraryPasses(l, languages, authorities, lapsed) != YES
    ensures LibraryPasses(l, languages, authorities, later) != YES
  {
    if LibraryPasses(l, languages, authorities, later) == YES {
      AcceptanceIsConvex(l, languages, authorities, passed, lapsed, later);
    }
  }

  // ----- passing and rejection -----

  /** No library passes and is rejected, so testing for rejection first never hides a pass. */
  lemma PassExcludesRejection(l: Library, languages: seq<string>, authorities: seq<string>, now: int)
    requires LibraryPasses(l, languages, authorities, now) == YES
    ensures !LibraryRejected(l)
  {
    LibraryOutcome(l, languages, authorities, now);
    MeetsMeans(l, languages, authorities, now);
  }

  // ----- the report -----

  datatype Entry = Entry(id: string, kind: string, name: string, runtimeReference: string, evidenceFile: string)

  datatype Index = Index(languages: seq<string>, authorities: seq<string>, entries: seq<Entry>)

  /** The files the evaluator finds: runtime references by name, evidence with its content. */
  datatype Files = Files(runtime: set<string>, evidence: map<string, Library>)

  datatype Decision = DecisionRejected | DecisionPass | InProgress

  datatype Claims = Claims(globalCoverage: bool, multilingual: bool, allSourcesAdmitted: bool, text: Option<string>)

  datatype Report = Report(decision: Decision, claims: Claims, libraries: seq<Library>, missing: seq<string>)

  /** Stands for the wording of the public claim. */
  const CLAIM_TEXT := "bounded claim"

  function LibraryId(kind: char, n: nat): string
    requires n < 10
  {
    "AX-LIB-" + [kind, '0', "0123456789"[n]]
  }

  function ExpectedIds(): set<string> {
    (set n: nat | 1 <= n < 8 :: LibraryId('F', n)) + (set n: nat | 1 <= n < 10 :: LibraryId('O', n))
  }

  /** AX-LIB-F01 to AX-LIB-F07, and AX-LIB-O01 to AX-LIB-O09. */
  lemma IdsExactly(id: string)
    ensures id in ExpectedIds() <==>
            && |id| == 10 && id[..7] == "AX-LIB-" && id[8] == '0'
            && ((id[7] == 'F' && '1' <= id[9] <= '7') || (id[7] == 'O' && '1' <= id[9] <= '9'))
  {
    forall kind: char, n: nat | n < 10
      ensures id == LibraryId(kind, n) <==>
              |id| == 10 && id[..7] == "AX-LIB-" && id[7] == kind && id[8] == '0' && id[9] as int == '0' as int + n
    {
      assert "0123456789"[n] as int == '0' as int + n;
      var l := LibraryId(kind, n);
      assert l[..7] == "AX-LIB-" && l[7] == kind && l[8] == '0';
      if |id| == 10 {
        assert id == id[..7] + [id[7], id[8], id[9]];
      }
    }
    hide LibraryId;
    if |id| == 10 && '0' <= id[9] <= '9' {
      var n := id[9] as int - '0' as int;
      assert id[..7] == "AX-LIB-" && id[8] == '0' && id[7] in {'F', 'O'} ==> id == LibraryId(id[7], n);
    }
  }

  function MissingLibrary(e: Entry, languages: seq<string>): Library {
    Library(e.id, e.kind, e.name, e.runtimeReference, BLOCKED, [], [],
      ["no admitted source evidence", "coverage unaccepted", "no contribution to a public claim"],
      seq(|languages|, i requires 0 <= i < |languages| =>
            Journey(languages[i], MISSING, MISSING, MISSING, MISSING, [])),
      [], [], [],
      Block(MISSING, []), None, None,
      Block(MISSING, []), None, None,
      Block(MISSING, []),
      Block(MISSING, []), [None, None, None, None],
      Block(MISSING, []), None, None, None,
      [], Synthetic(false, true, false, []), Control(false, false, []), Control(false, false, []), DENIED)
  }

  /** A placeholder neither passes nor is rejected, at any time. */
  lemma PlaceholderIsNeutral(e: Entry, languages: seq<string>, required: seq<string>, authorities: seq<string>,
                             now: int)
    ensures LibraryPasses(MissingLibrary(e, languages), required, authorities, now) == NO
    ensures !LibraryRejected(MissingLibrary(e, languages))
  {
    var l := MissingLibrary(e, languages);
    LibraryOutcome(l, required, authorities, now);
    assert BoundariesHold(l, now);
    assert ConditionOf(l, required, authorities, now, 1) == Condition(false, false);
  }

  /** A placeholder is within the source boundaries and has no synthetic data; it meets no other condition, as
      long as languages and authorities are required. */
  lemma PlaceholderMeets(e: Entry, languages: seq<string>, authorities: seq<string>, now: int, i: nat)
    requires i < 14
    ensures var l := MissingLibrary(e, languages);
      && !l.killSwitch.implemented && !l.killSwitch.tested && !l.rollback.implemented && !l.rollback.tested
      && (ConditionOf(l, languages, authorities, now, i).met <==>
          i == 0 || i == 10 || (i == 3 && languages == []) || (i == 9 && authorities == []))
  {
    var l := MissingLibrary(e, languages);
    assert languages != [] ==> l.languages[0].ingestion == MISSING;
    assert authorities != [] ==> authorities[0] in Members(authorities);
  }

  function LibraryFor(e: Entry, files: Files, languages: seq<string>): Library {
    if e.evidenceFile in files.evidence then files.evidence[e.evidenceFile] else MissingLibrary(e, languages)
  }

  predicate EntryAccepted(e: Entry, files: Files, languages: seq<string>, now: int) {
    var l := LibraryFor(e, files, languages);
    && e.runtimeReference in files.runtime
    && l.id == e.id && l.kind == e.kind && l.name == e.name && l.runtimeReference == e.runtimeReference
    && BoundariesHold(l, now)
  }

  function Libraries(entries: seq<Entry>, files: Files, languages: seq<string>): seq<Library> {
    seq(|entries|, i requires 0 <= i < |entries| => LibraryFor(entries[i], files, languages))
  }

  function MissingFiles(entries: seq<Entry>, files: Files): seq<string> {
    if entries == [] then []
    else
      var before := MissingFiles(entries[..|entries| - 1], files);
      var e := entries[|entries| - 1];
      if e.evidenceFile in files.evidence then before else before + [e.evidenceFile]
  }

  function LibraryVerdicts(ls: seq<Library>, index: Index, now: int): seq<Verdict> {
    seq(|ls|, i requires 0 <= i < |ls| => LibraryPasses(ls[i], index.languages, index.authorities, now))
  }

  function AllPass(ls: seq<Library>, index: Index, now: int): Verdict {
    All(LibraryVerdicts(ls, index, now))
  }

  function LibraryIds(ls: seq<Library>): seq<string> {
    seq(|ls|, i requires 0 <= i < |ls| => ls[i].id)
  }

  predicate IndexAccepted(index: Index, files: Files, now: int) {
    && (forall e | e in index.entries :: EntryAccepted(e, files, index.languages, now))
    && var ids := LibraryIds(Libraries(index.entries, files, index.languages));
       Distinct(ids) && Members(ids) == ExpectedIds()
  }

  /** `validate_claim_authority` does not raise. */
  predicate ClaimsValid(r: Report) {
    var flags := {r.claims.globalCoverage, r.claims.multilingual, r.claims.allSourcesAdmitted};
    if r.decision == DecisionPass then flags == {true} && r.claims.text.Some? && r.claims.text.value != ""
    else flags == {false} && r.claims.text == None
  }

  function Decide(rejected: bool, allPass: bool): Decision {
    if rejected then DecisionRejected else if allPass then DecisionPass else InProgress
  }

  /** The decision that `build_report` reaches, or None if it raises. The flag says whether the conjunct
      `not missing_files` is there, as it is in the source. */
  function ReportDecision(index: Index, files: Files, now: int, tested: bool): Option<Decision> {
    var ls := Libraries(index.entries, files, index.languages);
    var all := if tested && MissingFiles(index.entries, files) != [] then NO else AllPass(ls, index, now);
    if !IndexAccepted(index, files, now) || all == Raised then None
    else Some(Decide(exists l | l in ls :: LibraryRejected(l), all.value))
  }

  /** The loop of `build_report` over the index entries; None is a raised Gate7ContractError. */
  method LoadLibraries(index: Index, files: Files, now: int) returns (r: Option<(seq<Library>, seq<string>)>)
    ensures r.Some? <==> forall e | e in index.entries :: EntryAccepted(e, files, index.languages, now)
    ensures r.Some? ==>
            && r.value.0 == Libraries(index.entries, files, index.languages)
            && r.value.1 == MissingFiles(index.entries, files)
  {
    hide BoundariesHold, MissingLibrary;
    var libraries: seq<Library> := [];
    var missing: seq<string> := [];
    for i := 0 to |index.entries|
      invariant libraries == Libraries(index.entries[..i], files, index.languages)
      invariant missing == MissingFiles(index.entries[..i], files)
      invariant forall e | e in index.entries[..i] :: EntryAccepted(e, files, index.languages, now)
    {
      var e := index.entries[i];
      assert e in index.entries;
      assert index.entries[..i + 1][..i] == index.entries[..i];
      assert forall x | x in index.entries[..i + 1] :: x in index.entries[..i] || x == e;
      if e.runtimeReference !in files.runtime {
        return None;
      }
      var library;
      if e.evidenceFile in files.evidence {
        library := files.evidence[e.evidenceFile];
      } else {
        missing := missing + [e.evidenceFile];
        library := MissingLibrary(e, index.languages);
      }
      if library.id != e.id || library.kind != e.kind || library.name != e.name
         || library.runtimeReference != e.runtimeReference {
        return None;
      }
      var bounded := ValidateSourceBoundaries(library, now);
      if !bounded {
        return None;
      }
      libraries := libraries + [library];
    }
    assert index.entries[..|index.entries|] == index.entries;
    return Some((libraries, missing));
  }

  predicate AllMeet(ls: seq<Library>, index: Index, now: int) {
    forall l | l in ls :: Meets(l, index.languages, index.authorities, now)
  }

  /** The first library that does not pass cannot be evaluated. */
  predicate BreaksAtLibrary(ls: seq<Library>, k: nat, index: Index, now: int)
    requires k < |ls|
  {
    Breaks(ls[k], index.languages, index.authorities, now) && AllMeet(ls[..k], index, now)
  }

  lemma AllPassOutcome(ls: seq<Library>, index: Index, now: int)
    ensures AllPass(ls, index, now) == YES <==> AllMeet(ls, index, now)
    ensures AllPass(ls, index, now) == Raised <==> exists k | 0 <= k < |ls| :: BreaksAtLibrary(ls, k, index, now)
  {
    hide LibraryPasses, Meets, Breaks;
    var vs := LibraryVerdicts(ls, index, now);
    AllOutcome(vs);
    forall i | 0 <= i < |ls|
      ensures vs[i] == YES <==> Meets(ls[i], index.languages, index.authorities, now)
      ensures vs[i] == Raised <==> Breaks(ls[i], index.languages, index.authorities, now)
    {
      LibraryOutcome(ls[i], index.languages, index.authorities, now);
    }
    forall k: nat | k < |ls| ensures RaisesAt(vs, k) <==> BreaksAtLibrary(ls, k, index, now) {
      assert forall i | 0 <= i < k :: ls[..k][i] == ls[i];
    }
  }

  lemma {:induction false} MissingFilesEmpty(entries: seq<Entry>, files: Files)
    ensures MissingFiles(entries, files) == [] <==> forall e | e in entries :: e.evidenceFile in files.evidence
  {
    if entries != [] {
      var k := |entries| - 1;
      MissingFilesEmpty(entries[..k], files);
    }
  }

  /** PASS means exactly that every library meets every condition; testing for missing files changes
      nothing about that, and neither does testing for rejection first. */
  lemma PassMeansAllMeet(index: Index, files: Files, now: int, tested: bool)
    ensures ReportDecision(index, files, now, tested) == Some(DecisionPass) <==>
            IndexAccepted(index, files, now) && AllMeet(Libraries(index.entries, files, index.languages), index, now)
  {
    hide LibraryPasses, LibraryRejected, MissingLibrary, AllPass, MissingFiles, IndexAccepted, Meets;
    var ls := Libraries(index.entries, files, index.languages);
    AllPassOutcome(ls, index, now);
    MissingFilesEmpty(index.entries, files);
    forall e | e in index.entries && e.evidenceFile !in files.evidence ensures !AllMeet(ls, index, now) {
      PlaceholderIsNeutral(e, index.languages, index.languages, index.authorities, now);
      LibraryOutcome(MissingLibrary(e, index.languages), index.languages, index.authorities, now);
      var i :| 0 <= i < |index.entries| && index.entries[i] == e;
      assert ls[i] == MissingLibrary(e, index.languages) && ls[i] in ls;
    }
    forall l | l in ls && Meets(l, index.languages, index.authorities, now) ensures !LibraryRejected(l) {
      LibraryOutcome(l, index.languages, index.authorities, now);
      PassExcludesRejection(l, index.languages, index.authorities, now);
    }
  }

  /** A record that says FAIL or REJECTED anywhere. */
  predicate HasRejection(l: Library) {
    || l.state == REJECTED
    || (exists i | 0 <= i < |l.reviews| :: l.reviews[i].decision == REJECT)
    || l.depth.status == FAIL || l.update.status == FAIL || l.rights.status == FAIL
    || l.quality.status == FAIL || l.lag.status == FAIL
  }

  /** The report is REJECTED exactly when some library says FAIL or REJECTED, and IN_PROGRESS exactly when
      none does and some library does not meet its conditions. */
  lemma DecisionExactly(index: Index, files: Files, now: int)
    ensures var ls, d := Libraries(index.entries, files, index.languages), ReportDecision(index, files, now, true);
      d.Some? ==>
        && (d.value == DecisionRejected <==> exists l | l in ls :: HasRejection(l))
        && (d.value == InProgress <==> !AllMeet(ls, index, now) && forall l | l in ls :: !HasRejection(l))
  {
    PassMeansAllMeet(index, files, now, true);
    hide IndexAccepted, Libraries, AllPass, MissingFiles, AllMeet;
    forall l ensures HasRejection(l) <==> LibraryRejected(l) {
      assert forall i | 0 <= i < |l.reviews| :: l.reviews[i] in l.reviews;
    }
  }

  /** `build_report`; Err is a raised Gate7ContractError. The claims always pass
      `validate_claim_authority`, and are true exactly when every library meets every condition. */
  method BuildReport(index: Index, files: Files, now: int) returns (r: Result<Report, ()>)
    ensures r.Ok? <==> ReportDecision(index, files, now, true).Some?
    ensures r.Ok? ==>
            && Some(r.value.decision) == ReportDecision(index, files, now, true) && ClaimsValid(r.value)
            && r.value.libraries == Libraries(index.entries, files, index.languages)
            && r.value.missing == MissingFiles(index.entries, files)
            && (r.value.claims.globalCoverage <==> AllMeet(r.value.libraries, index, now))
            && r.value.claims.multilingual == r.value.claims.allSourcesAdmitted == r.value.claims.globalCoverage
            && (r.value.claims.text.Some? <==> r.value.claims.globalCoverage)
    ensures r.Ok? ==>
            && (r.value.decision == DecisionRejected <==> exists l | l in r.value.libraries :: HasRejection(l))
            && (r.value.decision == InProgress <==>
                  !AllMeet(r.value.libraries, index, now) && forall l | l in r.value.libraries :: !HasRejection(l))
  {
    hide LibraryPasses, LibraryRejected, EntryAccepted, Libraries, LibraryIds, MissingFiles, AllPass, ExpectedIds;
    hide AllMeet;
    PassMeansAllMeet(index, files, now, true);
    DecisionExactly(index, files, now);
    hide HasRejection;
    var loaded := LoadLibraries(index, files, now);
    if loaded == None {
      return Err(());
    }
    var (libraries, missing) := loaded.value;
    var ids := LibraryIds(libraries);
    if !Distinct(ids) || Members(ids) != ExpectedIds() {
      return Err(());
    }
    var rejected := exists l | l in libraries :: LibraryRejected(l);
    var all := if missing != [] then NO else AllPass(libraries, index, now);
    if all == Raised {
      return Err(());
    }
    var decision := Decide(rejected, all.value);
    var pass := decision == DecisionPass;
    var text := if pass then Some(CLAIM_TEXT) else None;
    return Ok(Report(decision, Claims(pass, pass, pass, text), libraries, missing));
  }

  /** A PASS is backed by evidence: every active source is admitted, every required language has a
      complete journey with current evidence, and every required authority approved. */
  lemma PassIsEvidenced(l: Library, languages: seq<string>, authorities: seq<string>, now: int)
    requires LibraryPasses(l, languages, authorities, now) == YES
    ensures l.active != [] && forall s | s in l.active :: SourceIsAdmitted(s, now) == YES
    ensures forall n | n in languages :: exists j | j in l.languages :: j.language == n && JourneyMet(j, now)
    ensures forall a | a in authorities :: exists r | r in l.reviews :: r.authority == a && ReviewMet(r, now)
  {
    hide SourceIsAdmitted, JourneyMet, ReviewMet;
    LibraryOutcome(l, languages, authorities, now);
    MeetsMeans(l, languages, authorities, now);
    forall n | n in languages ensures exists j | j in l.languages :: j.language == n && JourneyMet(j, now) {
      assert n in Members(LanguagesOf(l.languages));
      var i :| 0 <= i < |l.languages| && LanguagesOf(l.languages)[i] == n;
    }
    forall a | a in authorities ensures exists r | r in l.reviews :: r.authority == a && ReviewMet(r, now) {
      assert a in Members(AuthoritiesOf(l.reviews));
      var i :| 0 <= i < |l.reviews| && AuthoritiesOf(l.reviews)[i] == a;
    }
  }

  // ----- what the test for missing files is for -----

  /** Without the test the report would differ, by raising, exactly when a file is missing and the first
      library that does not pass has a record that cannot be evaluated. */
  lemma TestRedundantExactly(index: Index, files: Files, now: int)
    ensures var ls := Libraries(index.entries, files, index.languages);
      ReportDecision(index, files, now, false) != ReportDecision(index, files, now, true) <==>
      && IndexAccepted(index, files, now) && MissingFiles(index.entries, files) != []
      && exists k | 0 <= k < |ls| :: BreaksAtLibrary(ls, k, index, now)
    ensures MissingFiles(index.entries, files) != [] && IndexAccepted(index, files, now) ==>
            ReportDecision(index, files, now, true) in {Some(DecisionRejected), Some(InProgress)}
  {
    hide LibraryRejected, AllPass, MissingFiles, IndexAccepted, Libraries, BreaksAtLibrary;
    AllPassOutcome(Libraries(index.entries, files, index.languages), index, now);
    PassMeansAllMeet(index, files, now, true);
    PassMeansAllMeet(index, files, now, false);
  }

  predicate Parsable(evidence: seq<Stamp>) {
    forall i | 0 <= i < |evidence| :: evidence[i] != Malformed
  }

  /** A library without repeated languages or authorities and without unparsable times or dates. */
  predicate Clean(l: Library) {
    && Distinct(LanguagesOf(l.languages)) && Distinct(AuthoritiesOf(l.reviews))
    && (forall j | j in l.languages :: Parsable(j.evidence))
    && (forall r | r in l.reviews :: r.reviewedAt != Malformed && r.expiresAt != Malformed)
    && l.earliest != Some(BadDate) && l.latest != Some(BadDate)
    && Parsable(l.depth.evidence) && Parsable(l.update.evidence) && Parsable(l.rights.evidence)
    && Parsable(l.quality.evidence) && Parsable(l.lag.evidence)
    && Parsable(l.synthetic.evidence) && Parsable(l.killSwitch.evidence) && Parsable(l.rollback.evidence)
  }

  /** Only repeated languages or authorities and unparsable values make a record impossible to evaluate. */
  lemma CleanNeverRaises(l: Library, languages: seq<string>, authorities: seq<string>, now: int)
    requires BoundariesHold(l, now) && Clean(l)
    ensures !Breaks(l, languages, authorities, now)
    ensures LibraryPasses(l, languages, authorities, now) != Raised
  {
    LibraryOutcome(l, languages, authorities, now);
  }

  /** So the test is redundant whenever every library is clean. */
  lemma TestRedundantForClean(index: Index, files: Files, now: int)
    requires forall l | l in Libraries(index.entries, files, index.languages) :: Clean(l)
    ensures ReportDecision(index, files, now, false) == ReportDecision(index, files, now, true)
  {
    hide BoundariesHold, Clean, Breaks, ReportDecision, MissingLibrary;
    TestRedundantExactly(index, files, now);
    var ls := Libraries(index.entries, files, index.languages);
    forall k | 0 <= k < |ls| && IndexAccepted(index, files, now) ensures !BreaksAtLibrary(ls, k, index, now) {
      assert index.entries[k] in index.entries && ls[k] in ls;
      CleanNeverRaises(ls[k], index.languages, index.authorities, now);
    }
  }

  // ----- an index for which the test matters -----

  /** A library that cannot be evaluated: its sources are in order, but a language is listed twice. */
  function DuplicateLanguage(e: Entry, language: string, expiry: int): Library {
    var passed := Admission(PASS, PASS, PASS, PASS, PASS);
    var source := Source("s", PRODUCT_ADMITTED, true, passed, None, [Instant(expiry)]);
    var journey := Journey(language, MISSING, MISSING, MISSING, MISSING, []);
    MissingLibrary(e, []).(state := ACCEPTED, countries := ["DE"], sectors := ["energy"], active := [source],
                           languages := [journey, journey])
  }

  function EvidenceFile(id: string): string {
    "data/acceptance/library-coverage/" + id + ".json"
  }

  function SixteenIds(): seq<string> {
    seq(16, i requires 0 <= i < 16 => if i < 7 then LibraryId('F', i + 1) else LibraryId('O', i - 6))
  }

  function EntryOf(id: string): Entry {
    Entry(id, "OPPORTUNITY", id, "README.md", EvidenceFile(id))
  }

  function CompleteIndex(): Index {
    Index(["de", "en"], ["PRODUCT", "SECURITY", "LEGAL", "SOURCE_QUALITY"],
          seq(16, i requires 0 <= i < 16 => EntryOf(SixteenIds()[i])))
  }

  /** Only the first library has an evidence file. */
  function OneEvidenceFile(expiry: int): Files {
    var first := EntryOf(SixteenIds()[0]);
    Files({"README.md"}, map[first.evidenceFile := DuplicateLanguage(first, "en", expiry)])
  }

  lemma SixteenIdsAreExpected()
    ensures Distinct(SixteenIds()) && Members(SixteenIds()) == ExpectedIds()
  {
    var ids := SixteenIds();
    forall i, j | 0 <= i < j < 16 ensures ids[i] != ids[j] {
      assert ids[i][7] != ids[j][7] || ids[i][9] != ids[j][9];
    }
    forall n: nat | 1 <= n < 8 ensures LibraryId('F', n) in ids {
      assert ids[n - 1] == LibraryId('F', n);
    }
    forall n: nat | 1 <= n < 10 ensures LibraryId('O', n) in ids {
      assert ids[n + 6] == LibraryId('O', n);
    }
  }

  lemma OtherFilesMissing(i: nat, expiry: int)
    requires 0 < i < 16
    ensures EvidenceFile(SixteenIds()[i]) !in OneEvidenceFile(expiry).evidence
  {
    SixteenIdsAreExpected();
    var a, b := SixteenIds()[0], SixteenIds()[i];
    assert EvidenceFile(a)[33..43] == a && EvidenceFile(b)[33..43] == b;
  }

  lemma DuplicateLanguageBreaks(e: Entry, languages: seq<string>, authorities: seq<string>, now: int)
    ensures var l := DuplicateLanguage(e, "en", now + 1);
      BoundariesHold(l, now) && Breaks(l, languages, authorities, now) && !LibraryRejected(l)
  {
    var l := DuplicateLanguage(e, "en", now + 1);
    assert Current([Instant(now + 1)], now);
    EvidenceOutcome(true, [Instant(now + 1)], now);
    assert l.active[0] in l.active;
    assert LanguagesOf(l.languages)[0] == LanguagesOf(l.languages)[1];
    assert BreaksAt(l, languages, authorities, now, 3);
  }

  lemma LibraryAt(i: nat, now: int)
    requires i < 16
    ensures var index, files, e := CompleteIndex(), OneEvidenceFile(now + 1), EntryOf(SixteenIds()[i]);
      && LibraryFor(e, files, index.languages) ==
         (if i == 0 then DuplicateLanguage(e, "en", now + 1) else MissingLibrary(e, index.languages))
      && EntryAccepted(e, files, index.languages, now)
      && !LibraryRejected(LibraryFor(e, files, index.languages))
  {
    var index := CompleteIndex();
    var e := EntryOf(SixteenIds()[i]);
    if i == 0 {
      DuplicateLanguageBreaks(e, index.languages, index.authorities, now);
    } else {
      OtherFilesMissing(i, now + 1);
      PlaceholderIsNeutral(e, index.languages, index.languages, index.authorities, now);
    }
    hide DuplicateLanguage, EvidenceFile, SixteenIds;
  }

  lemma CompleteIndexAccepted(now: int)
    ensures IndexAccepted(CompleteIndex(), OneEvidenceFile(now + 1), now)
    ensures MissingFiles(CompleteIndex().entries, OneEvidenceFile(now + 1)) != []
  {
    hide DuplicateLanguage, MissingLibrary, EvidenceFile, SixteenIds, ExpectedIds, EntryAccepted, LibraryRejected;
    hide OneEvidenceFile, MissingFiles;
    var index, files := CompleteIndex(), OneEvidenceFile(now + 1);
    var ls := Libraries(index.entries, files, index.languages);
    SixteenIdsAreExpected();
    MissingFilesEmpty(index.entries, files);
    OtherFilesMissing(1, now + 1);
    assert index.entries[1] in index.entries;
    forall i: nat | i < 16
      ensures ls[i].id == SixteenIds()[i] && EntryAccepted(index.entries[i], files, index.languages, now)
    {
      LibraryAt(i, now);
      SameId(index.entries[i], files, index.languages, now);
    }
    assert LibraryIds(ls) == SixteenIds();
  }

  lemma SameId(e: Entry, files: Files, languages: seq<string>, now: int)
    requires EntryAccepted(e, files, languages, now)
    ensures LibraryFor(e, files, languages).id == e.id
  {
  }

  /** For a complete index with one evidence file, in which a language is listed twice, the report is
      IN_PROGRESS as the code stands and would be an error without the test. */
  lemma TestForMissingFilesMatters(now: int)
    ensures ReportDecision(CompleteIndex(), OneEvidenceFile(now + 1), now, true) == Some(InProgress)
    ensures ReportDecision(CompleteIndex(), OneEvidenceFile(now + 1), now, false) == None
  {
    hide DuplicateLanguage, MissingLibrary, SixteenIds, OneEvidenceFile, EntryAccepted, LibraryRejected;
    hide IndexAccepted, Breaks, Meets, MissingFiles, AllPass;
    var index, files := CompleteIndex(), OneEvidenceFile(now + 1);
    var ls := Libraries(index.entries, files, index.languages);
    CompleteIndexAccepted(now);
    forall i: nat | i < 16 ensures !LibraryRejected(ls[i]) {
      LibraryAt(i, now);
    }
    LibraryAt(0, now);
    DuplicateLanguageBreaks(index.entries[0], index.languages, index.authorities, now);
    assert BreaksAtLibrary(ls, 0, index, now);
    AllPassOutcome(ls, index, now);
  }
}
