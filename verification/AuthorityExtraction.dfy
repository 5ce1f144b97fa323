/** Extraction of the latest typed authority decision from issue comments. The JSON objects fenced in a
    comment's body are given as its candidates; times are instants. */
module AuthorityExtraction {
  import opened Common
  import opened Text

  /** A fenced object. `exactFields` says that it has the required fields and no other, `wellTyped` that
      the fields not listed here have the types and lengths the decision model asks for. */
  datatype Candidate = Candidate(
    authority: string, exactFields: bool, wellTyped: bool, head: string, digest: string, timestamp: int, expiry: int)

  /** The author is empty when the comment has no user with a login. */
  datatype Comment = Comment(id: int, author: string, candidates: seq<Candidate>)

  datatype Json = Object(comment: Comment) | Array(items: seq<Json>) | Scalar

  const LEGAL := "LEGAL"

  const PRIVACY := "PRIVACY_DATA_RIGHTS"

  // ----- flattening -----

  function Flatten(value: Json): seq<Comment>
    decreases value, 1
  {
    match value
    case Object(c) => [c]
    case Array(items) => FlattenAll(items)
    case Scalar => []
  }

  function FlattenAll(items: seq<Json>): seq<Comment>
    decreases items, 0
  {
    if items == [] then [] else Flatten(items[0]) + FlattenAll(items[1..])
  }

  lemma {:induction false} FlattenConcat(a: seq<Json>, b: seq<Json>)
    ensures FlattenAll(a + b) == FlattenAll(a) + FlattenAll(b)
  {
    if a == [] {
      assert a + b == b;
    } else {
      FlattenConcat(a[1..], b);
      var head, rest := Flatten(a[0]), FlattenAll(a[1..]);
      assert (a + b)[1..] == a[1..] + b;
      assert FlattenAll(a + b) == head + (rest + FlattenAll(b));
      Associates(head, rest, FlattenAll(b));
    }
  }

  /** `flatten_comments`. */
  method FlattenComments(value: Json) returns (result: seq<Comment>)
    ensures result == Flatten(value)
    decreases value
  {
    match value
    case Object(c) => return [c];
    case Scalar => return [];
    case Array(items) =>
      result := [];
      for i := 0 to |items|
        invariant result == FlattenAll(items[..i])
      {
        var more := FlattenComments(items[i]);
        FlattenConcat(items[..i], [items[i]]);
        assert items[..i + 1] == items[..i] + [items[i]];
        assert FlattenAll([items[i]]) == Flatten(items[i]) + FlattenAll([]);
        result := result + more;
      }
      assert items[..|items|] == items;
  }

  /** Wrapping a stretch of an array in an array of its own changes nothing. */
  lemma NestingIgnored(before: seq<Json>, nested: seq<Json>, after: seq<Json>)
    ensures Flatten(Array(before + [Array(nested)] + after)) == Flatten(Array(before + nested + after))
  {
    FlattenConcat(before + [Array(nested)], after);
    FlattenConcat(before, [Array(nested)]);
    FlattenConcat(before + nested, after);
    FlattenConcat(before, nested);
  }

  /** Replacing an item by one that flattens alike changes nothing, so the wrapping can be at any depth. */
  lemma FlattenCongruent(before: seq<Json>, x: Json, y: Json, after: seq<Json>)
    requires Flatten(x) == Flatten(y)
    ensures Flatten(Array(before + [x] + after)) == Flatten(Array(before + [y] + after))
  {
    FlattenConcat(before + [x], after);
    FlattenConcat(before, [x]);
    FlattenConcat(before + [y], after);
    FlattenConcat(before, [y]);
  }

  // ----- which candidates match -----

  predicate IsHead(s: string) {
    |s| == 40 && forall i | 0 <= i < |s| :: IsHexDigit(s[i])
  }

  /** The decision model accepts the object. */
  predicate ModelValid(c: Candidate) {
    && c.wellTyped && (c.authority == LEGAL || c.authority == PRIVACY)
    && IsHead(c.head) && IsSha256(c.digest) && c.timestamp < c.expiry
  }

  datatype Query = Query(authority: string, head: string, digest: string, maximumExpiry: int, now: int)

  predicate Accepted(q: Query, comment: Comment, c: Candidate) {
    && c.authority == q.authority && c.exactFields && ModelValid(c)
    && c.head == q.head && c.digest == q.digest
    && c.timestamp <= q.now && c.expiry <= q.maximumExpiry
    && Trim(comment.author) != ""
  }

  datatype Match = Match(id: int, decision: Candidate, author: string)

  /** The matches among the first k candidates of a comment. */
  function CommentMatches(q: Query, comment: Comment, k: nat): seq<Match>
    requires k <= |comment.candidates|
  {
    if k == 0 then []
    else
      var c := comment.candidates[k - 1];
      if Accepted(q, comment, c) then CommentMatches(q, comment, k - 1) + [Match(comment.id, c, comment.author)]
      else CommentMatches(q, comment, k - 1)
  }

  function MatchesOf(q: Query, comment: Comment): seq<Match> {
    CommentMatches(q, comment, |comment.candidates|)
  }

  function Matches(q: Query, comments: seq<Comment>): seq<Match> {
    if comments == [] then []
    else Matches(q, comments[..|comments| - 1]) + MatchesOf(q, comments[|comments| - 1])
  }

  // ----- sorting and taking the last -----

  function Insert(sorted: seq<Match>, m: Match): (r: seq<Match>)
    ensures multiset(r) == multiset(sorted) + multiset{m} && r != []
    decreases |sorted|
  {
    if sorted == [] || sorted[|sorted| - 1].id <= m.id then sorted + [m]
    else
      assert sorted == sorted[..|sorted| - 1] + [sorted[|sorted| - 1]];
      Insert(sorted[..|sorted| - 1], m) + [sorted[|sorted| - 1]]
  }

  /** The stable sort by comment id. */
  function SortById(ms: seq<Match>): seq<Match> {
    if ms == [] then [] else Insert(SortById(ms[..|ms| - 1]), ms[|ms| - 1])
  }

  /** The match with the greatest id, the last of them when several share it. */
  function Latest(ms: seq<Match>): Option<Match> {
    if ms == [] then None
    else
      var before := Latest(ms[..|ms| - 1]);
      var m := ms[|ms| - 1];
      if before == None || before.value.id <= m.id then Some(m) else before
  }

  predicate Ordered(ms: seq<Match>) {
    forall i, j | 0 <= i < j < |ms| :: ms[i].id <= ms[j].id
  }

  lemma {:induction false} InsertOrdered(sorted: seq<Match>, m: Match)
    requires Ordered(sorted)
    ensures Ordered(Insert(sorted, m))
    decreases |sorted|
  {
    if sorted != [] && sorted[|sorted| - 1].id > m.id {
      var init := sorted[..|sorted| - 1];
      InsertOrdered(init, m);
      InsertBounded(init, m, sorted[|sorted| - 1].id);
    }
  }

  lemma InsertBounded(sorted: seq<Match>, m: Match, bound: int)
    requires m.id <= bound && forall i | 0 <= i < |sorted| :: sorted[i].id <= bound
    ensures forall i | 0 <= i < |Insert(sorted, m)| :: Insert(sorted, m)[i].id <= bound
  {
    var r := Insert(sorted, m);
    hide Insert;
    forall i | 0 <= i < |r| ensures r[i].id <= bound {
      assert r[i] in multiset(r);
    }
  }

  lemma InsertLast(sorted: seq<Match>, m: Match)
    ensures var r := Insert(sorted, m);
      r[|r| - 1] == if sorted == [] || sorted[|sorted| - 1].id <= m.id then m else sorted[|sorted| - 1]
  {
  }

  lemma {:induction false} SortByIdCorrect(ms: seq<Match>)
    ensures Ordered(SortById(ms)) && multiset(SortById(ms)) == multiset(ms)
  {
    if ms != [] {
      hide Insert, Ordered;
      var init, last := ms[..|ms| - 1], ms[|ms| - 1];
      SortByIdCorrect(init);
      InsertOrdered(SortById(init), last);
      LastCounted(ms);
    }
  }

  lemma LastCounted(ms: seq<Match>)
    requires ms != []
    ensures multiset(ms) == multiset(ms[..|ms| - 1]) + multiset{ms[|ms| - 1]}
  {
    assert ms == ms[..|ms| - 1] + [ms[|ms| - 1]];
  }

  lemma {:induction false} SortByIdEndsWithLatest(ms: seq<Match>)
    requires ms != []
    ensures SortById(ms) != [] && Latest(ms) == Some(SortById(ms)[|SortById(ms)| - 1])
  {
    var init := ms[..|ms| - 1];
    if init != [] {
      SortByIdEndsWithLatest(init);
    }
    InsertLast(SortById(init), ms[|ms| - 1]);
  }

  /** `extract_latest_decision`. */
  method ExtractLatestDecision(q: Query, comments: seq<Comment>) returns (r: Option<Match>)
    ensures r == Latest(Matches(q, comments))
  {
    hide Accepted;
    var matches: seq<Match> := [];
    for i := 0 to |comments|
      invariant matches == Matches(q, comments[..i])
    {
      assert comments[..i + 1][..i] == comments[..i];
      var comment := comments[i];
      var found: seq<Match> := [];
      for k := 0 to |comment.candidates|
        invariant found == CommentMatches(q, comment, k)
      {
        if Accepted(q, comment, comment.candidates[k]) {
          found := found + [Match(comment.id, comment.candidates[k], comment.author)];
        }
      }
      matches := matches + found;
    }
    assert comments[..|comments|] == comments;
    if matches == [] {
      return None;
    }
    SortByIdEndsWithLatest(matches);
    matches := SortById(matches);
    return Some(matches[|matches| - 1]);
  }

  // ----- what is extracted -----

  lemma {:induction false} LatestIsGreatest(ms: seq<Match>) returns (k: nat)
    requires ms != []
    ensures k < |ms| && Latest(ms) == Some(ms[k])
    ensures forall j | 0 <= j < |ms| :: ms[j].id <= ms[k].id
    ensures forall j | k < j < |ms| :: ms[j].id < ms[k].id
  {
    var n := |ms| - 1;
    k := n;
    if ms[..n] != [] {
      var before := LatestIsGreatest(ms[..n]);
      if ms[before].id > ms[n].id {
        k := before;
      }
    }
  }

  lemma {:induction false} CommentMatchesExactly(q: Query, comment: Comment, k: nat, m: Match)
    requires k <= |comment.candidates|
    ensures m in CommentMatches(q, comment, k) <==>
            exists i | 0 <= i < k :: Accepted(q, comment, comment.candidates[i])
              && m == Match(comment.id, comment.candidates[i], comment.author)
  {
    if k > 0 {
      CommentMatchesExactly(q, comment, k - 1, m);
    }
  }

  /** A well-typed decision of the authority with just the required fields, for the expected head and
      manifest, that has been taken, ends after that and not after the limit, in a comment with an author. */
  ghost predicate Eligible(q: Query, comment: Comment, c: Candidate) {
    && c.wellTyped && c.exactFields && c.authority == q.authority
    && c.authority in {"LEGAL", "PRIVACY_DATA_RIGHTS"}
    && |c.head| == 40 && IsHexText(c.head) && c.head == q.head
    && IsDigestText(c.digest) && c.digest == q.digest
    && c.timestamp < c.expiry && c.timestamp <= q.now && c.expiry <= q.maximumExpiry
    && !IsBlank(comment.author)
  }

  lemma EligibleExactly(q: Query, comment: Comment, c: Candidate)
    ensures Accepted(q, comment, c) <==> Eligible(q, comment, c)
  {
    Sha256Exactly(c.digest);
    var before, after := TrimExactly(comment.author);
    hide Trim, IsSha256, IsDigestText;
    if Trim(comment.author) != "" {
      assert comment.author[|before|] == Trim(comment.author)[0];
    } else {
      assert comment.author == before + after;
    }
    assert IsHead(c.head) <==> |c.head| == 40 && IsHexText(c.head);
  }

  ghost predicate Offers(q: Query, comment: Comment, m: Match) {
    exists i | 0 <= i < |comment.candidates| ::
      Eligible(q, comment, comment.candidates[i]) && m == Match(comment.id, comment.candidates[i], comment.author)
  }

  lemma {:induction false} MatchesExactly(q: Query, comments: seq<Comment>, m: Match)
    ensures m in Matches(q, comments) <==> exists i | 0 <= i < |comments| :: Offers(q, comments[i], m)
  {
    if comments != [] {
      var n := |comments| - 1;
      MatchesExactly(q, comments[..n], m);
      MatchesOfExactly(q, comments[n], m);
    }
  }

  lemma MatchesOfExactly(q: Query, comment: Comment, m: Match)
    ensures m in MatchesOf(q, comment) <==> Offers(q, comment, m)
  {
    hide Accepted, Eligible;
    CommentMatchesExactly(q, comment, |comment.candidates|, m);
    forall i | 0 <= i < |comment.candidates|
      ensures Accepted(q, comment, comment.candidates[i]) <==> Eligible(q, comment, comment.candidates[i])
    {
      EligibleExactly(q, comment, comment.candidates[i]);
    }
  }

  /** The result is an accepted candidate of some comment, and no comment with a greater id offers one;
      there is no result exactly when no comment offers any. */
  lemma LatestDecisionIsGreatest(q: Query, comments: seq<Comment>)
    ensures var r := Latest(Matches(q, comments));
      && (r == None <==> forall i, m | 0 <= i < |comments| :: !Offers(q, comments[i], m))
      && (r.Some? ==> exists i | 0 <= i < |comments| :: Offers(q, comments[i], r.value))
      && (r.Some? ==> forall i, m | 0 <= i < |comments| && Offers(q, comments[i], m) :: m.id <= r.value.id)
  {
    var ms := Matches(q, comments);
    forall i, m | 0 <= i < |comments| && Offers(q, comments[i], m) ensures m in ms {
      MatchesExactly(q, comments, m);
    }
    if ms != [] {
      var k := LatestIsGreatest(ms);
      MatchesExactly(q, comments, ms[k]);
      assert forall m | m in ms :: m.id <= ms[k].id;
    } else {
      forall i, m | 0 <= i < |comments| ensures !Offers(q, comments[i], m) {
        MatchesExactly(q, comments, m);
      }
    }
  }

  lemma {:induction false} MatchesConcat(q: Query, a: seq<Comment>, b: seq<Comment>)
    ensures Matches(q, a + b) == Matches(q, a) + Matches(q, b)
    decreases |b|
  {
    if b == [] {
      assert a + b == a;
    } else {
      var n := |b| - 1;
      MatchesConcat(q, a, b[..n]);
      assert (a + b)[..|a| + n] == a + b[..n];
    }
  }

  /** Comments without an accepted candidate can be added anywhere. */
  lemma InvalidCommentIgnored(q: Query, a: seq<Comment>, comment: Comment, b: seq<Comment>)
    requires forall i | 0 <= i < |comment.candidates| :: !Eligible(q, comment, comment.candidates[i])
    ensures Latest(Matches(q, a + [comment] + b)) == Latest(Matches(q, a + b))
  {
    NoMatches(q, comment);
    MatchesConcat(q, a + [comment], b);
    MatchesConcat(q, a, b);
    assert Matches(q, a) + [] == Matches(q, a);
  }

  lemma NoMatches(q: Query, comment: Comment)
    requires forall i | 0 <= i < |comment.candidates| :: !Eligible(q, comment, comment.candidates[i])
    ensures MatchesOf(q, comment) == []
  {
    if MatchesOf(q, comment) != [] {
      var m := MatchesOf(q, comment)[0];
      MatchesOfExactly(q, comment, m);
    }
  }

  // ----- reordering -----

  predicate DistinctIds(comments: seq<Comment>) {
    forall i, j | 0 <= i < j < |comments| :: comments[i].id != comments[j].id
  }

  lemma {:induction false} LatestConcat(a: seq<Match>, b: seq<Match>)
    requires b != [] && forall i | 0 <= i < |b| :: b[i].id == b[0].id
    ensures Latest(a + b) ==
            if Latest(a) == None || Latest(a).value.id <= b[0].id then Some(b[|b| - 1]) else Latest(a)
    decreases |b|
  {
    var n := |b| - 1;
    assert (a + b)[..|a| + n] == a + b[..n];
    if n > 0 {
      LatestConcat(a, b[..n]);
    }
  }

  lemma {:induction false} OwnId(q: Query, comment: Comment, k: nat)
    requires k <= |comment.candidates|
    ensures forall i | 0 <= i < |CommentMatches(q, comment, k)| :: CommentMatches(q, comment, k)[i].id == comment.id
  {
    if k > 0 {
      OwnId(q, comment, k - 1);
    }
  }

  /** The result is the last accepted candidate of one comment, the winner; every other comment with
      accepted candidates has an id no greater. */
  lemma {:induction false} Winner(q: Query, comments: seq<Comment>) returns (w: nat)
    requires Matches(q, comments) != []
    ensures w < |comments| && MatchesOf(q, comments[w]) != []
    ensures Latest(Matches(q, comments)) == Some(MatchesOf(q, comments[w])[|MatchesOf(q, comments[w])| - 1])
    ensures forall i | 0 <= i < |comments| && MatchesOf(q, comments[i]) != [] :: comments[i].id <= comments[w].id
  {
    hide Matches, MatchesOf, Latest;
    MatchesStep(q, comments);
    var n := |comments| - 1;
    var init := comments[..n];
    assert forall i | 0 <= i < n :: init[i] == comments[i];
    OneComment(q, comments[n]);
    LatestStep(Matches(q, init), MatchesOf(q, comments[n]), comments[n].id);
    if Matches(q, init) == [] {
      NoMatchesBefore(q, init);
      w := n;
    } else {
      w := Winner(q, init);
      OneComment(q, comments[w]);
      if MatchesOf(q, comments[n]) != [] && comments[w].id <= comments[n].id {
        w := n;
      }
    }
  }

  lemma MatchesStep(q: Query, comments: seq<Comment>)
    ensures comments == [] ==> Matches(q, comments) == []
    ensures var n := |comments| - 1;
      n >= 0 ==> Matches(q, comments) == Matches(q, comments[..n]) + MatchesOf(q, comments[n])
  {
  }

  lemma OneComment(q: Query, comment: Comment)
    ensures forall i | 0 <= i < |MatchesOf(q, comment)| :: MatchesOf(q, comment)[i].id == comment.id
  {
    OwnId(q, comment, |comment.candidates|);
  }

  /** What the matches b of one more comment do to the latest of the matches a. */
  lemma LatestStep(a: seq<Match>, b: seq<Match>, id: int)
    requires forall i | 0 <= i < |b| :: b[i].id == id
    ensures Latest(a) == None <==> a == []
    ensures Latest(a + b) ==
            if b == [] then Latest(a)
            else if a == [] || Latest(a).value.id <= id then Some(b[|b| - 1])
            else Latest(a)
  {
    if b == [] {
      assert a + b == a;
    } else {
      LatestConcat(a, b);
    }
  }

  lemma {:induction false} NoMatchesBefore(q: Query, comments: seq<Comment>)
    requires Matches(q, comments) == []
    ensures forall i | 0 <= i < |comments| :: MatchesOf(q, comments[i]) == []
  {
    if comments != [] {
      var n := |comments| - 1;
      NoMatchesBefore(q, comments[..n]);
    }
  }

  predicate Among(a: seq<Comment>, b: seq<Comment>) {
    forall i | 0 <= i < |a| :: a[i] in b
  }

  lemma SameMembers(a: seq<Comment>, b: seq<Comment>)
    requires multiset(a) == multiset(b)
    ensures Among(a, b)
  {
    forall i | 0 <= i < |a| ensures a[i] in b {
      assert a[i] in multiset(a);
    }
  }

  lemma MatchesNonEmpty(q: Query, comments: seq<Comment>, i: nat)
    requires i < |comments| && MatchesOf(q, comments[i]) != []
    ensures Matches(q, comments) != []
  {
  }

  lemma SameWinner(q: Query, a: seq<Comment>, b: seq<Comment>)
    requires Among(a, b) && Among(b, a) && DistinctIds(a) && Matches(q, a) != []
    ensures Latest(Matches(q, a)) == Latest(Matches(q, b))
  {
    hide MatchesOf, Latest, Matches;
    var v := Winner(q, a);
    var j :| 0 <= j < |b| && b[j] == a[v];
    MatchesNonEmpty(q, b, j);
    var w := Winner(q, b);
    var i :| 0 <= i < |a| && a[i] == b[w];
  }

  /** Reordering comments with distinct ids does not change the result. */
  lemma ReorderingIgnored(q: Query, a: seq<Comment>, b: seq<Comment>)
    requires multiset(a) == multiset(b) && DistinctIds(a)
    ensures Latest(Matches(q, a)) == Latest(Matches(q, b))
  {
    SameMembers(a, b);
    SameMembers(b, a);
    if Matches(q, a) != [] {
      SameWinner(q, a, b);
    } else if Matches(q, b) != [] {
      var w := Winner(q, b);
      var i :| 0 <= i < |a| && a[i] == b[w];
      MatchesNonEmpty(q, a, i);
    }
  }

  // ----- later times -----

  /** As the clock or the latest admissible expiry advances, a decision does not disappear and its id
      never decreases. */
  lemma LaterNeverOlder(q: Query, r: Query, comments: seq<Comment>)
    requires r == q.(now := r.now, maximumExpiry := r.maximumExpiry)
    requires q.now <= r.now && q.maximumExpiry <= r.maximumExpiry
    requires Latest(Matches(q, comments)).Some?
    ensures Latest(Matches(r, comments)).Some?
    ensures Latest(Matches(q, comments)).value.id <= Latest(Matches(r, comments)).value.id
  {
    LatestDecisionIsGreatest(q, comments);
    LatestDecisionIsGreatest(r, comments);
    var m := Latest(Matches(q, comments)).value;
    var i :| 0 <= i < |comments| && Offers(q, comments[i], m);
    assert Offers(r, comments[i], m);
  }

  // ----- the output file -----

  datatype Envelope = Envelope(head: string, digest: string, decisions: seq<Candidate>)

  /** The envelope model accepts it. */
  predicate EnvelopeValid(e: Envelope) {
    && IsHead(e.head) && IsSha256(e.digest)
    && forall i, j | 0 <= i < j < |e.decisions| :: e.decisions[i].authority != e.decisions[j].authority
  }

  datatype Status = MISSING | INCOMPLETE | COMPLETE

  datatype Failure = NotAnArray | InvalidEnvelope

  class OutputFile {
    var content: Option<Envelope>

    constructor (content: Option<Envelope>)
      ensures this.content == content
    {
      this.content := content;
    }

    /** `extract`: afterwards the file exists exactly when both authorities were found, and then holds
        their decisions; a stale file is removed. Building the envelope never raises. */
    method Extract(legal: Json, privacy: Json, head: string, digest: string, maximumExpiry: int, now: int)
      returns (r: Result<Status, Failure>)
      modifies this
      ensures r.Ok? <==> legal.Array? && privacy.Array?
      ensures r.Err? ==> r.error == NotAnArray && content == old(content)
      ensures r.Ok? ==>
              var l := Latest(Matches(Query("LEGAL", head, digest, maximumExpiry, now), Flatten(legal)));
              var p := Latest(Matches(Query("PRIVACY_DATA_RIGHTS", head, digest, maximumExpiry, now),
                                      Flatten(privacy)));
              && (content.Some? <==> l.Some? && p.Some?)
              && (content.Some? ==>
                  && content.value == Envelope(head, digest, [l.value.decision, p.value.decision])
                  && |head| == 40 && IsHexText(head) && IsDigestText(digest)
                  && l.value.decision.authority == "LEGAL"
                  && p.value.decision.authority == "PRIVACY_DATA_RIGHTS")
              && r.value == if l.Some? && p.Some? then COMPLETE else if l.Some? || p.Some? then INCOMPLETE else MISSING
    {
      if !legal.Array? || !privacy.Array? {
        return Err(NotAnArray);
      }
      hide Matches, Latest, Flatten;
      var legalComments := FlattenComments(legal);
      var privacyComments := FlattenComments(privacy);
      var decisions: seq<Candidate> := [];
      var l := ExtractLatestDecision(Query(LEGAL, head, digest, maximumExpiry, now), legalComments);
      if l.Some? {
        decisions := decisions + [l.value.decision];
      }
      var p := ExtractLatestDecision(Query(PRIVACY, head, digest, maximumExpiry, now), privacyComments);
      if p.Some? {
        decisions := decisions + [p.value.decision];
      }
      if l == None || p == None {
        content := None;
        return Ok(if l == None && p == None then MISSING else INCOMPLETE);
      }
      FoundIsAccepted(Query(LEGAL, head, digest, maximumExpiry, now), legalComments);
      FoundIsAccepted(Query(PRIVACY, head, digest, maximumExpiry, now), privacyComments);
      var envelope := Envelope(head, digest, decisions);
      if !EnvelopeValid(envelope) {
        return Err(InvalidEnvelope);
      }
      content := Some(envelope);
      return Ok(COMPLETE);
    }
  }

  lemma FoundIsAccepted(q: Query, comments: seq<Comment>)
    requires Latest(Matches(q, comments)).Some?
    ensures Latest(Matches(q, comments)).value.decision.authority == q.authority
    ensures IsHead(q.head) && IsSha256(q.digest)
    ensures |q.head| == 40 && IsHexText(q.head) && IsDigestText(q.digest)
  {
    LatestDecisionIsGreatest(q, comments);
    Sha256Exactly(q.digest);
  }
}
