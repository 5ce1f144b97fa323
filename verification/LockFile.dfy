/** Auditing of pip lock files: joining continuation lines, normalising package names, and the findings
    that show every requirement to be an exact, hashed pin. */
module LockFile {
  import opened Common
  import opened Text
  import opened AuditFindings

  // ----- logical statements -----

  datatype Statement = Statement(line: nat, text: string)

  predicate Skippable(raw: string) {
    Trim(raw) == "" || StartsWith(Trim(raw), "#")
  }

  predicate Continues(raw: string) {
    EndsWith(Trim(raw), "\\")
  }

  /** The stripped lines from a up to, not including, z. */
  function Trimmed(lines: seq<string>, a: nat, z: nat): seq<string>
    requires a <= z <= |lines|
  {
    seq(z - a, i requires 0 <= i < z - a => Trim(lines[a + i]))
  }

  function Join(parts: seq<string>): string {
    if parts == [] then ""
    else if |parts| == 1 then parts[0]
    else Join(parts[..|parts| - 1]) + " " + parts[|parts| - 1]
  }

  /** Lines first .. end - 1. */
  datatype Span = Span(first: nat, end: nat)

  /** One past the first line from i on that does not continue, or the end of the file. */
  function RunEnd(lines: seq<string>, i: nat): (end: nat)
    requires i < |lines|
    ensures i < end <= |lines|
    ensures forall j | i <= j < end - 1 :: Continues(lines[j])
    ensures end == |lines| || !Continues(lines[end - 1])
    decreases |lines| - i
  {
    if Continues(lines[i]) && i + 1 < |lines| then RunEnd(lines, i + 1) else i + 1
  }

  function Spans(lines: seq<string>, i: nat): seq<Span>
    decreases |lines| - i
  {
    if i >= |lines| then []
    else if Skippable(lines[i]) then Spans(lines, i + 1)
    else [Span(i, RunEnd(lines, i))] + Spans(lines, RunEnd(lines, i))
  }

  function StatementOf(lines: seq<string>, s: Span): Statement
    requires s.first <= s.end <= |lines|
  {
    Statement(s.first + 1, Join(Trimmed(lines, s.first, s.end)))
  }

  /** The statements from line i on. */
  function StatementsFrom(lines: seq<string>, i: nat): seq<Statement>
    decreases |lines| - i
  {
    if i >= |lines| then []
    else if Skippable(lines[i]) then StatementsFrom(lines, i + 1)
    else [StatementOf(lines, Span(i, RunEnd(lines, i)))] + StatementsFrom(lines, RunEnd(lines, i))
  }

  function Statements(lines: seq<string>): seq<Statement> {
    StatementsFrom(lines, 0)
  }

  lemma RunEndIs(lines: seq<string>, i: nat, end: nat)
    requires i < end <= |lines|
    requires forall j | i <= j < end - 1 :: Continues(lines[j])
    requires end == |lines| || !Continues(lines[end - 1])
    ensures RunEnd(lines, i) == end
  {
  }

  lemma {:induction false} JoinStart(parts: seq<string>)
    requires parts != []
    ensures parts[0] <= Join(parts)
  {
    if |parts| > 1 {
      JoinStart(parts[..|parts| - 1]);
    }
  }

  /** The text of a statement is never empty and never a comment: the last guard of the loop discards
      nothing. */
  lemma StatementKept(lines: seq<string>, i: nat, z: nat)
    requires i < z <= |lines| && !Skippable(lines[i])
    ensures var text := Join(Trimmed(lines, i, z)); text != "" && !StartsWith(text, "#")
  {
    JoinStart(Trimmed(lines, i, z));
  }

  lemma SkipOver(lines: seq<string>)
    ensures forall i: nat | i < |lines| && Skippable(lines[i]) ::
              StatementsFrom(lines, i) == StatementsFrom(lines, i + 1)
    ensures StatementsFrom(lines, |lines|) == []
  {
    hide Skippable, StatementOf, RunEnd;
  }

  /** Extending the collected statements by the one that starts at `first`. */
  lemma StepOver(lines: seq<string>, first: nat, end: nat, done: seq<Statement>)
    requires first < end <= |lines| && !Skippable(lines[first]) && RunEnd(lines, first) == end
    ensures done + StatementsFrom(lines, first) ==
            (done + [StatementOf(lines, Span(first, end))]) + StatementsFrom(lines, end)
  {
  }

  /** `logical_lock_statements`. */
  method LogicalLockStatements(lines: seq<string>) returns (statements: seq<Statement>)
    ensures statements == Statements(lines)
  {
    hide Skippable, Continues, Trim, RunEnd, Join, StatementsFrom;
    SkipOver(lines);
    statements := [];
    var current: seq<string> := [];
    var start := 0;
    for i := 0 to |lines|
      invariant current == [] ==> Statements(lines) == statements + StatementsFrom(lines, i)
      invariant current != [] ==>
        && 1 <= start <= i && current == Trimmed(lines, start - 1, i)
        && !Skippable(lines[start - 1]) && (forall j | start - 1 <= j < i :: Continues(lines[j]))
        && Statements(lines) == statements + StatementsFrom(lines, start - 1)
    {
      var stripped := Trim(lines[i]);
      if current == [] && Skippable(lines[i]) {
        continue;
      }
      if current == [] {
        start := i + 1;
      }
      current := current + [stripped];
      assert current == Trimmed(lines, start - 1, i + 1);
      if Continues(lines[i]) {
        continue;
      }
      RunEndIs(lines, start - 1, i + 1);
      StatementKept(lines, start - 1, i + 1);
      StepOver(lines, start - 1, i + 1, statements);
      var statement := Join(current);
      current := [];
      if statement != "" && !StartsWith(statement, "#") {
        statements := statements + [Statement(start, statement)];
      }
    }
    if current != [] {
      RunEndIs(lines, start - 1, |lines|);
      StepOver(lines, start - 1, |lines|, statements);
      statements := statements + [Statement(start, Join(current))];
    }
  }

  // ----- nothing is lost -----

  predicate WellFormedSpan(lines: seq<string>, s: Span) {
    && s.first < s.end <= |lines| && !Skippable(lines[s.first])
    && (forall j | s.first <= j < s.end - 1 :: Continues(lines[j]))
    && (s.end == |lines| || !Continues(lines[s.end - 1]))
  }

  lemma {:induction false} SpanWellFormed(lines: seq<string>, i: nat, s: Span)
    requires s in Spans(lines, i)
    ensures WellFormedSpan(lines, s) && i <= s.first
    decreases |lines| - i
  {
    if Skippable(lines[i]) {
      SpanWellFormed(lines, i + 1, s);
    } else {
      var end := RunEnd(lines, i);
      if s in Spans(lines, end) {
        SpanWellFormed(lines, end, s);
      }
    }
  }

  lemma SpansWellFormed(lines: seq<string>, i: nat)
    ensures forall s | s in Spans(lines, i) :: WellFormedSpan(lines, s) && i <= s.first
  {
    forall s | s in Spans(lines, i) ensures WellFormedSpan(lines, s) && i <= s.first {
      SpanWellFormed(lines, i, s);
    }
  }

  /** Spans follow one another without overlap. */
  lemma {:induction false} SpansOrdered(lines: seq<string>, i: nat)
    ensures forall a, b | 0 <= a < b < |Spans(lines, i)| :: Spans(lines, i)[a].end <= Spans(lines, i)[b].first
    decreases |lines| - i
  {
    if i < |lines| {
      hide Skippable, RunEnd, WellFormedSpan;
      var spans, end := Spans(lines, i), RunEnd(lines, i);
      SpansOrdered(lines, if Skippable(lines[i]) then i + 1 else end);
      if !Skippable(lines[i]) {
        SpansWellFormed(lines, end);
        var rest := Spans(lines, end);
        assert spans == [Span(i, end)] + rest;
        assert forall b | 0 < b < |spans| :: spans[b] in rest;
      }
    }
  }

  predicate Covered(spans: seq<Span>, j: nat) {
    exists s | s in spans :: s.first <= j < s.end
  }

  /** Every line outside the spans is blank or a comment. */
  lemma {:induction false} SpansCover(lines: seq<string>, i: nat, j: nat)
    requires i <= j < |lines| && !Skippable(lines[j])
    ensures Covered(Spans(lines, i), j)
    decreases |lines| - i
  {
    var spans, end := Spans(lines, i), RunEnd(lines, i);
    if Skippable(lines[i]) {
      SpansCover(lines, i + 1, j);
    } else {
      if j >= end {
        SpansCover(lines, end, j);
        var s :| s in Spans(lines, end) && s.first <= j < s.end;
        assert s in spans;
      }
    }
  }

  /** Each statement is the joined text of one span, numbered by the line it starts on, in order. */
  lemma {:induction false} StatementsAreSpans(lines: seq<string>, i: nat)
    ensures var spans := Spans(lines, i);
      && |StatementsFrom(lines, i)| == |spans|
      && forall k | 0 <= k < |spans| ::
           && spans[k].first < spans[k].end <= |lines|
           && StatementsFrom(lines, i)[k] == StatementOf(lines, spans[k])
    decreases |lines| - i
  {
    hide Skippable, RunEnd, StatementOf;
    if i < |lines| {
      if Skippable(lines[i]) {
        StatementsAreSpans(lines, i + 1);
      } else {
        var end := RunEnd(lines, i);
        StatementsAreSpans(lines, end);
        assert Spans(lines, i) == [Span(i, end)] + Spans(lines, end);
        assert StatementsFrom(lines, i) == [StatementOf(lines, Span(i, end))] + StatementsFrom(lines, end);
      }
    }
  }

  /** Every line is either blank or a comment outside all statements, or lies in exactly one of their
      spans; statements are numbered in strictly increasing order. */
  lemma NothingLost(lines: seq<string>)
    ensures var spans := Spans(lines, 0);
      && |Statements(lines)| == |spans|
      && (forall k | 0 <= k < |spans| ::
            WellFormedSpan(lines, spans[k]) && Statements(lines)[k] == StatementOf(lines, spans[k]))
      && (forall j | 0 <= j < |lines| :: Skippable(lines[j]) || Covered(spans, j))
      && (forall a, b | 0 <= a < b < |spans| ::
            spans[a].end <= spans[b].first && Statements(lines)[a].line < Statements(lines)[b].line)
  {
    var spans := Spans(lines, 0);
    SpansWellFormed(lines, 0);
    SpansOrdered(lines, 0);
    StatementsAreSpans(lines, 0);
    forall j | 0 <= j < |lines| && !Skippable(lines[j]) ensures Covered(spans, j) {
      SpansCover(lines, 0, j);
    }
  }

  // ----- what a line is -----

  /** A hash sign after nothing but white space. */
  predicate IsComment(raw: string) {
    exists k | 0 <= k < |raw| :: raw[k] == '#' && IsBlank(raw[..k])
  }

  /** A backslash with nothing but white space after it. */
  predicate EndsInBackslash(raw: string) {
    exists k | 0 <= k < |raw| :: raw[k] == '\\' && IsBlank(raw[k + 1..])
  }

  lemma BlankPrefix(s: string, k: nat)
    requires k <= |s| && IsBlank(s[..k])
    ensures forall i | 0 <= i < k :: IsSpace(s[i])
  {
    assert forall i | 0 <= i < k :: s[i] == s[..k][i];
  }

  lemma SkippableExactly(raw: string)
    ensures Skippable(raw) <==> IsBlank(raw) || IsComment(raw)
  {
    var before, after := TrimExactly(raw);
    var t := Trim(raw);
    hide Trim;
    if t != "" {
      assert raw[|before|] == t[0] && raw[..|before|] == before;
      if k :| 0 <= k < |raw| && raw[k] == '#' && IsBlank(raw[..k]) {
        BlankPrefix(raw, k);
        BlankPrefix(raw, |before|);
      }
    }
  }

  lemma BlankSuffix(s: string, k: nat)
    requires k <= |s| && IsBlank(s[k..])
    ensures forall i | k <= i < |s| :: IsSpace(s[i])
  {
    assert forall i | k <= i < |s| :: s[i] == s[k..][i - k];
  }

  lemma ContinuesExactly(raw: string)
    ensures Continues(raw) <==> EndsInBackslash(raw)
  {
    var before, after := TrimExactly(raw);
    var t := Trim(raw);
    hide Trim;
    if t != "" {
      var last := |before| + |t| - 1;
      assert raw[last] == t[|t| - 1] && raw[last + 1..] == after;
      if k :| 0 <= k < |raw| && raw[k] == '\\' && IsBlank(raw[k + 1..]) {
        BlankSuffix(raw, k + 1);
        BlankSuffix(raw, last + 1);
      }
    }
  }

  /** Joining puts one space between the parts. */
  lemma {:induction false} JoinExactly(a: seq<string>, b: seq<string>)
    requires a != [] && b != []
    ensures Join(a + b) == Join(a) + " " + Join(b)
    ensures |b| == 1 ==> Join(b) == b[0]
    decreases |b|
  {
    var init := b[..|b| - 1];
    assert (a + b)[..|a| + |b| - 1] == a + init;
    if init == [] {
      assert a + init == a;
    } else {
      JoinExactly(a, init);
      assert Join(a) + " " + Join(init) + " " + b[|b| - 1] == Join(a) + " " + (Join(init) + " " + b[|b| - 1]);
    }
  }

  // ----- package names -----

  predicate IsSeparator(c: char) {
    c == '-' || c == '_' || c == '.'
  }

  function Lower(c: char): char {
    if 'A' <= c <= 'Z' then (c as int + 32) as char else c
  }

  function LowerAll(s: string): (r: string)
    ensures |r| == |s| && forall i | 0 <= i < |s| :: r[i] == Lower(s[i])
  {
    if s == "" then "" else [Lower(s[0])] + LowerAll(s[1..])
  }

  function SkipSeparators(s: string): (r: string)
    ensures |r| <= |s| && (r == "" || !IsSeparator(r[0]))
  {
    if s != "" && IsSeparator(s[0]) then SkipSeparators(s[1..]) else s
  }

  /** Every run of separators becomes one hyphen. */
  function Collapse(s: string): string
    decreases |s|
  {
    if s == "" then ""
    else if IsSeparator(s[0]) then "-" + Collapse(SkipSeparators(s[1..]))
    else [s[0]] + Collapse(s[1..])
  }

  /** `normalise_package`. */
  function NormalisePackage(s: string): string {
    LowerAll(Collapse(s))
  }

  /** The normalized form of PEP 503, section Normalized Names: lower case, hyphens only, never two in
      a row. */
  predicate IsNormalised(s: string) {
    && (forall i | 0 <= i < |s| :: s[i] != '_' && s[i] != '.' && !('A' <= s[i] <= 'Z'))
    && (forall i | 0 <= i < |s| - 1 :: !(s[i] == '-' && s[i + 1] == '-'))
  }

  lemma {:induction false} CollapseShape(s: string)
    ensures forall i | 0 <= i < |Collapse(s)| :: Collapse(s)[i] != '_' && Collapse(s)[i] != '.'
    ensures forall i | 0 <= i < |Collapse(s)| - 1 :: !(Collapse(s)[i] == '-' && Collapse(s)[i + 1] == '-')
    ensures s != "" ==> Collapse(s) != "" && (IsSeparator(Collapse(s)[0]) <==> IsSeparator(s[0]))
    decreases |s|
  {
    if s != "" {
      CollapseShape(if IsSeparator(s[0]) then SkipSeparators(s[1..]) else s[1..]);
    }
  }

  lemma NormaliseIsNormalised(s: string)
    ensures IsNormalised(NormalisePackage(s))
  {
    CollapseShape(s);
  }

  lemma {:induction false} CollapseFixed(s: string)
    requires IsNormalised(s)
    ensures Collapse(s) == s
    decreases |s|
  {
    if s != "" {
      CollapseFixed(s[1..]);
    }
  }

  /** Normalising a normalised name changes nothing. */
  lemma NormaliseIdempotent(s: string)
    ensures NormalisePackage(NormalisePackage(s)) == NormalisePackage(s)
  {
    NormaliseIsNormalised(s);
    var r := NormalisePackage(s);
    CollapseFixed(r);
  }

  /** A run of hyphens, underscores and points, as long as it goes, becomes one hyphen, and every other
      character is kept or put in lower case: with the empty name this says what every name becomes. */
  lemma NormaliseParts(run: string, rest: string)
    requires run != "" && rest != "" ==> rest[0] !in {'-', '_', '.'}
    requires forall i | 0 <= i < |run| :: run[i] in {'-', '_', '.'}
    ensures NormalisePackage("") == ""
    ensures run != "" ==> NormalisePackage(run + rest) == "-" + NormalisePackage(rest)
    ensures run == "" && rest != "" && rest[0] !in {'-', '_', '.'} ==>
            NormalisePackage(rest) == [InLowerCase(rest[0])] + NormalisePackage(rest[1..])
  {
    if run != "" {
      SkipRun(run[1..], rest);
      assert (run + rest)[1..] == run[1..] + rest;
    }
  }

  function InLowerCase(c: char): char {
    if 'A' <= c <= 'Z' then "abcdefghijklmnopqrstuvwxyz"[c as int - 'A' as int] else c
  }

  lemma {:induction false} SkipRun(run: string, rest: string)
    requires rest != "" ==> !IsSeparator(rest[0])
    requires forall i | 0 <= i < |run| :: IsSeparator(run[i])
    ensures SkipSeparators(run + rest) == rest
  {
    if run == "" {
      assert run + rest == rest;
    } else {
      assert (run + rest)[1..] == run[1..] + rest;
      SkipRun(run[1..], rest);
    }
  }

  // ----- findings -----

  predicate IsNameChar(c: char) {
    'A' <= c <= 'Z' || 'a' <= c <= 'z' || '0' <= c <= '9' || c == '_' || c == '.' || c == '-'
  }

  function NamePrefix(s: string): (name: string)
    ensures name <= s
  {
    if s != "" && IsNameChar(s[0]) then [s[0]] + NamePrefix(s[1..]) else ""
  }

  /** What follows the first closing bracket; None if there is none or nothing stands before it. */
  function AfterExtras(s: string): Option<string> {
    if s == "" then None
    else if s[0] == ']' then Some(s[1..])
    else AfterExtras(s[1..])
  }

  predicate IsVersionStart(s: string) {
    |s| >= 3 && "==" <= s && !IsSpace(s[2]) && s[2] != ';' && s[2] != '\\'
  }

  /** The package name of an exact pin: a name, optional extras in brackets, `==` and a version. */
  function PinnedName(statement: string): Option<string> {
    var name := NamePrefix(statement);
    if name == "" then None
    else
      var rest := statement[|name|..];
      if rest != "" && rest[0] == '[' then
        if |rest| >= 2 && rest[1] != ']' && AfterExtras(rest[1..]).Some? && IsVersionStart(AfterExtras(rest[1..]).value)
        then Some(name) else None
      else if IsVersionStart(rest) then Some(name) else None
  }

  predicate HasHash(s: string) {
    exists i | 0 <= i <= |s| - 78 :: "--hash=" <= s[i..] && IsSha256(s[i + 7..i + 78])
  }

  predicate NonRegistry(s: string) {
    Contains(s, " @ ") || Contains(s, "git+") || Contains(s, "-e ")
  }

  predicate IsName(name: string) {
    && name != ""
    && forall i | 0 <= i < |name| ::
         'A' <= name[i] <= 'Z' || 'a' <= name[i] <= 'z' || '0' <= name[i] <= '9' || name[i] in {'_', '.', '-'}
  }

  /** Nothing, or a bracketed text without a closing bracket inside. */
  predicate IsExtras(e: string) {
    e == "" || (|e| >= 3 && e[0] == '[' && e[|e| - 1] == ']' && forall i | 0 < i < |e| - 1 :: e[i] != ']')
  }

  predicate IsVersion(v: string) {
    v != "" && !IsSpace(v[0]) && v[0] !in {';', '\\'}
  }

  /** A name, optional extras, two equals signs and a version. */
  ghost predicate Pins(statement: string, name: string) {
    exists extras, version :: statement == name + (extras + ("==" + version))
                              && IsName(name) && IsExtras(extras) && IsVersion(version)
  }

  ghost predicate Hashed(statement: string) {
    exists a, hex, b :: statement == a + ("--hash=sha256:" + hex + b) && |hex| == 64 && IsHexText(hex)
  }

  /** A URL reference, a version-control source or an editable install. */
  ghost predicate FromElsewhere(statement: string) {
    exists a, b :: statement == a + " @ " + b || statement == a + "git+" + b || statement == a + "-e " + b
  }

  /** A requirement that the lock may contain: no option, an exact pin, hashed, from the registry. */
  ghost predicate Sound(statement: string) {
    && !("--" <= statement) && (exists name :: Pins(statement, name)) && Hashed(statement)
    && !FromElsewhere(statement)
  }

  lemma {:induction false} NamePrefixOf(name: string, rest: string)
    requires (forall i | 0 <= i < |name| :: IsNameChar(name[i])) && (rest == "" || !IsNameChar(rest[0]))
    ensures NamePrefix(name + rest) == name
  {
    if name == "" {
      assert name + rest == rest;
    } else {
      assert (name + rest)[1..] == name[1..] + rest;
      NamePrefixOf(name[1..], rest);
    }
  }

  lemma {:induction false} NamePrefixMaximal(s: string)
    ensures var name := NamePrefix(s);
      (forall i | 0 <= i < |name| :: IsNameChar(name[i])) && (|name| < |s| ==> !IsNameChar(s[|name|]))
  {
    if s != "" && IsNameChar(s[0]) {
      NamePrefixMaximal(s[1..]);
    }
  }

  lemma {:induction false} AfterExtrasOf(inner: string, rest: string)
    requires forall i | 0 <= i < |inner| :: inner[i] != ']'
    ensures AfterExtras(inner + ("]" + rest)) == Some(rest)
  {
    if inner == "" {
      assert inner + ("]" + rest) == "]" + rest;
    } else {
      assert (inner + ("]" + rest))[1..] == inner[1..] + ("]" + rest);
      AfterExtrasOf(inner[1..], rest);
    }
  }

  lemma {:induction false} AfterExtrasSplits(s: string) returns (inner: string)
    requires AfterExtras(s).Some?
    ensures s == inner + ("]" + AfterExtras(s).value) && forall i | 0 <= i < |inner| :: inner[i] != ']'
  {
    if s[0] == ']' {
      inner := "";
    } else {
      var rest := AfterExtrasSplits(s[1..]);
      inner := [s[0]] + rest;
    }
  }

  lemma VersionStarts(s: string)
    ensures IsVersionStart(s) <==> |s| >= 2 && s[..2] == "==" && IsVersion(s[2..])
  {
  }

  lemma PinRead(name: string, extras: string, version: string)
    requires IsName(name) && IsExtras(extras) && IsVersion(version)
    ensures PinnedName(name + (extras + ("==" + version))) == Some(name)
  {
    var tail := "==" + version;
    var statement, rest := name + (extras + tail), extras + tail;
    assert forall i | 0 <= i < |name| :: IsNameChar(name[i]);
    NamePrefixOf(name, rest);
    assert statement[|name|..] == rest;
    VersionStarts(tail);
    if extras == "" {
      assert rest == tail;
    } else {
      var inner := extras[1..|extras| - 1];
      assert extras == "[" + inner + "]";
      assert rest[1..] == inner + ("]" + tail);
      AfterExtrasOf(inner, tail);
    }
    hide IsVersionStart, AfterExtras, NamePrefix;
  }

  lemma ReadPin(statement: string) returns (extras: string, version: string)
    requires PinnedName(statement).Some?
    ensures var name := PinnedName(statement).value;
      statement == name + (extras + ("==" + version)) && IsName(name) && IsExtras(extras) && IsVersion(version)
  {
    var name := NamePrefix(statement);
    NamePrefixMaximal(statement);
    var rest := statement[|name|..];
    assert statement == name + rest;
    var tail := rest;
    extras := "";
    if rest[0] == '[' {
      var inner := AfterExtrasSplits(rest[1..]);
      tail := AfterExtras(rest[1..]).value;
      extras := "[" + inner + "]";
      assert rest == extras + tail;
      assert inner != "" by {
        assert rest[1] != ']';
      }
    }
    VersionStarts(tail);
    version := tail[2..];
    assert tail == "==" + version;
  }

  lemma PinnedExactly(statement: string, name: string)
    ensures PinnedName(statement) == Some(name) <==> Pins(statement, name)
  {
    hide PinnedName, IsName, IsExtras, IsVersion;
    if PinnedName(statement).Some? {
      var extras, version := ReadPin(statement);
    }
    if extras, version :| statement == name + (extras + ("==" + version))
                          && IsName(name) && IsExtras(extras) && IsVersion(version) {
      PinRead(name, extras, version);
    }
  }

  lemma HashedExactly(s: string)
    ensures HasHash(s) <==> Hashed(s)
  {
    hide IsSha256, IsHexText;
    if HasHash(s) {
      var i :| 0 <= i <= |s| - 78 && "--hash=" <= s[i..] && IsSha256(s[i + 7..i + 78]);
      Sha256Exactly(s[i + 7..i + 78]);
      var hex :| s[i + 7..i + 78] == "sha256:" + hex && |hex| == 64 && IsHexText(hex);
      HashAt(s, i, hex);
    }
    if a, hex, b :| s == a + ("--hash=sha256:" + hex + b) && |hex| == 64 && IsHexText(hex) {
      Sha256Exactly("sha256:" + hex);
      HashWithin(a, hex, b);
    }
  }

  lemma HashAt(s: string, i: nat, hex: string)
    requires i + 78 <= |s| && "--hash=" <= s[i..] && s[i + 7..i + 78] == "sha256:" + hex
    ensures s == s[..i] + ("--hash=sha256:" + hex + s[i + 78..])
  {
    var t := s[i..];
    Halves(s, i);
    Halves(t, 78);
    Halves(t[..78], 7);
    assert t[78..] == s[i + 78..] && t[..78][..7] == "--hash=" && t[..78][7..] == s[i + 7..i + 78];
    assert "--hash=" + "sha256:" == "--hash=sha256:";
    Associates("--hash=", "sha256:", hex);
  }

  lemma HashWithin(a: string, hex: string, b: string)
    requires |hex| == 64
    ensures var s := a + ("--hash=sha256:" + hex + b);
      "--hash=" <= s[|a|..] && s[|a| + 7..|a| + 78] == "sha256:" + hex
  {
    var s := a + ("--hash=sha256:" + hex + b);
    assert s[|a|..] == "--hash=" + ("sha256:" + hex + b);
    assert s[|a| + 7..] == "sha256:" + hex + b;
  }

  lemma FromElsewhereExactly(s: string)
    ensures NonRegistry(s) <==> FromElsewhere(s)
  {
    ContainsExactly(s, " @ ");
    ContainsExactly(s, "git+");
    ContainsExactly(s, "-e ");
    hide Contains;
  }

  lemma SoundExactly(s: string)
    ensures Sound(s) <==>
            !StartsWith(s, "--") && PinnedName(s).Some? && HasHash(s) && !NonRegistry(s)
  {
    hide PinnedName, Pins, HasHash, Hashed, NonRegistry, FromElsewhere;
    forall name ensures PinnedName(s) == Some(name) <==> Pins(s, name) {
      PinnedExactly(s, name);
    }
    HashedExactly(s);
    FromElsewhereExactly(s);
  }

  function StatementFindings(path: string, s: Statement): seq<Finding> {
    if StartsWith(s.text, "--") then [Finding(path, s.line, GlobalOption)]
    else match PinnedName(s.text)
      case None => [Finding(path, s.line, NotExactPin)]
      case Some(name) =>
        (if HasHash(s.text) then [] else [Finding(path, s.line, NoHash(NormalisePackage(name)))])
        + (if NonRegistry(s.text) then [Finding(path, s.line, NonRegistrySource(NormalisePackage(name)))] else [])
  }

  function AllStatementFindings(path: string, ss: seq<Statement>): seq<Finding> {
    if ss == [] then [] else AllStatementFindings(path, ss[..|ss| - 1]) + StatementFindings(path, ss[|ss| - 1])
  }

  /** The normalised name of an exact pin. */
  function PackageOf(s: Statement): set<string> {
    if !StartsWith(s.text, "--") && PinnedName(s.text).Some? then {NormalisePackage(PinnedName(s.text).value)} else {}
  }

  function Packages(ss: seq<Statement>): set<string> {
    if ss == [] then {} else Packages(ss[..|ss| - 1]) + PackageOf(ss[|ss| - 1])
  }

  function LockFindings(path: string, lines: seq<string>): seq<Finding> {
    AllStatementFindings(path, Statements(lines))
    + (if Packages(Statements(lines)) == {} then [Finding(path, 1, EmptyLock)] else [])
  }

  /** The loop body of `inspect_lock`: the findings of one statement, and its package if it is a pin. */
  method InspectStatement(path: string, s: Statement, findings: Findings) returns (package: set<string>)
    modifies findings
    ensures package == PackageOf(s)
    ensures findings.entries == old(findings.entries) + StatementFindings(path, s)
  {
    hide PinnedName, HasHash, NonRegistry, NormalisePackage;
    if StartsWith(s.text, "--") {
      findings.Record(path, s.line, GlobalOption);
      return {};
    }
    var pin := PinnedName(s.text);
    if pin == None {
      findings.Record(path, s.line, NotExactPin);
      return {};
    }
    var name := NormalisePackage(pin.value);
    if !HasHash(s.text) {
      findings.Record(path, s.line, NoHash(name));
    }
    if NonRegistry(s.text) {
      findings.Record(path, s.line, NonRegistrySource(name));
    }
    return {name};
  }

  /** `inspect_lock`. */
  method InspectLock(path: string, lines: seq<string>, findings: Findings) returns (packages: set<string>)
    modifies findings
    ensures packages == Packages(Statements(lines))
    ensures findings.entries == old(findings.entries) + LockFindings(path, lines)
  {
    hide PackageOf, StatementFindings, StatementsFrom;
    packages := {};
    var statements := LogicalLockStatements(lines);
    ghost var before := findings.entries;
    for i := 0 to |statements|
      invariant packages == Packages(statements[..i])
      invariant findings.entries == before + AllStatementFindings(path, statements[..i])
    {
      assert statements[..i + 1][..i] == statements[..i];
      var package := InspectStatement(path, statements[i], findings);
      packages := packages + package;
      Associates(before, AllStatementFindings(path, statements[..i]), StatementFindings(path, statements[i]));
    }
    assert statements[..|statements|] == statements;
    if packages == {} {
      findings.Record(path, 1, EmptyLock);
    }
    Associates(before, AllStatementFindings(path, statements),
               if packages == {} then [Finding(path, 1, EmptyLock)] else []);
  }

  lemma StatementFindingsExactly(path: string, s: Statement)
    ensures StatementFindings(path, s) == [] <==> Sound(s.text)
    ensures Sound(s.text) ==> PackageOf(s) != {}
  {
    SoundExactly(s.text);
    hide Sound, PinnedName, HasHash, NonRegistry;
  }

  lemma {:induction false} NoStatementFindings(path: string, ss: seq<Statement>)
    ensures AllStatementFindings(path, ss) == [] <==> forall i | 0 <= i < |ss| :: Sound(ss[i].text)
  {
    hide StatementFindings, Sound;
    if ss != [] {
      var k := |ss| - 1;
      NoStatementFindings(path, ss[..k]);
      StatementFindingsExactly(path, ss[k]);
    }
  }

  lemma {:induction false} PackagesAreNames(ss: seq<Statement>, p: string)
    ensures p in Packages(ss) <==> exists i | 0 <= i < |ss| :: p in PackageOf(ss[i])
  {
    hide PackageOf;
    if ss != [] {
      var k := |ss| - 1;
      PackagesAreNames(ss[..k], p);
    }
  }

  /** A lock adds no finding exactly when it has a statement and every statement is an exact pin from
      the registry with a SHA-256 hash. */
  lemma CleanLockExactly(path: string, lines: seq<string>)
    ensures LockFindings(path, lines) == [] <==>
            Statements(lines) != [] && forall i | 0 <= i < |Statements(lines)| :: Sound(Statements(lines)[i].text)
  {
    hide Sound, StatementsFrom, PackageOf;
    var ss := Statements(lines);
    NoStatementFindings(path, ss);
    if ss != [] {
      StatementFindingsExactly(path, ss[0]);
      if Sound(ss[0].text) {
        var p :| p in PackageOf(ss[0]);
        PackagesAreNames(ss, p);
      }
    }
  }

  // ----- declared requirements -----

  /** `direct_requirement_name`; None is a raised ValueError. */
  function RequirementName(requirement: string): Option<string> {
    var name := NamePrefix(TrimLeft(requirement));
    if name == "" then None else Some(NormalisePackage(name))
  }

  /** The dependency lists of the project file. */
  datatype Project = Project(runtime: seq<string>, development: seq<string>, build: seq<string>)

  /** One requirement against the two locks: the runtime lock is consulted for runtime requirements
      only, and exactness is asked of build requirements only. */
  function RequirementFindings(path: string, requirement: string, name: string, runtime: bool, build: bool,
                               runtimeLock: set<string>, devLock: set<string>): seq<Finding> {
    (if build && !Contains(requirement, "==") then [Finding(path, 1, BuildRequirementNotExact(requirement))] else [])
    + (if runtime && name !in runtimeLock then [Finding(path, 1, AbsentFromRuntimeLock(name))] else [])
    + (if name !in devLock then [Finding(path, 1, AbsentFromDevLock(name))] else [])
  }

  predicate AllNamed(requirements: seq<string>) {
    forall i | 0 <= i < |requirements| :: RequirementName(requirements[i]).Some?
  }

  function ListFindings(path: string, requirements: seq<string>, runtime: bool, build: bool,
                        runtimeLock: set<string>, devLock: set<string>): seq<Finding>
    requires AllNamed(requirements)
  {
    if requirements == [] then []
    else
      var k := |requirements| - 1;
      ListFindings(path, requirements[..k], runtime, build, runtimeLock, devLock)
      + RequirementFindings(path, requirements[k], RequirementName(requirements[k]).value, runtime, build,
                            runtimeLock, devLock)
  }

  /** The body of the loops of `inspect_pyproject`; false is a raised ValueError. */
  method InspectRequirement(path: string, requirement: string, runtime: bool, build: bool,
                            runtimeLock: set<string>, devLock: set<string>, findings: Findings) returns (ok: bool)
    modifies findings
    ensures ok <==> RequirementName(requirement).Some?
    ensures ok ==>
            findings.entries == old(findings.entries)
              + RequirementFindings(path, requirement, RequirementName(requirement).value, runtime, build,
                                    runtimeLock, devLock)
  {
    hide RequirementName, Contains;
    if build && !Contains(requirement, "==") {
      findings.Record(path, 1, BuildRequirementNotExact(requirement));
    }
    var name := RequirementName(requirement);
    if name == None {
      return false;
    }
    if runtime && name.value !in runtimeLock {
      findings.Record(path, 1, AbsentFromRuntimeLock(name.value));
    }
    if name.value !in devLock {
      findings.Record(path, 1, AbsentFromDevLock(name.value));
    }
    return true;
  }

  /** One of the three loops of `inspect_pyproject`. */
  method InspectRequirements(path: string, requirements: seq<string>, runtime: bool, build: bool,
                             runtimeLock: set<string>, devLock: set<string>, findings: Findings) returns (ok: bool)
    modifies findings
    ensures ok <==> AllNamed(requirements)
    ensures ok ==> findings.entries ==
                   old(findings.entries) + ListFindings(path, requirements, runtime, build, runtimeLock, devLock)
  {
    hide RequirementName, RequirementFindings;
    ghost var before := findings.entries;
    for i := 0 to |requirements|
      invariant AllNamed(requirements[..i])
      invariant findings.entries == before + ListFindings(path, requirements[..i], runtime, build, runtimeLock, devLock)
    {
      assert requirements[..i + 1][..i] == requirements[..i];
      ok := InspectRequirement(path, requirements[i], runtime, build, runtimeLock, devLock, findings);
      if !ok {
        return;
      }
      Associates(before, ListFindings(path, requirements[..i], runtime, build, runtimeLock, devLock),
                 RequirementFindings(path, requirements[i], RequirementName(requirements[i]).value, runtime, build,
                                     runtimeLock, devLock));
    }
    assert requirements[..|requirements|] == requirements;
    return true;
  }

  predicate AllListsNamed(project: Project) {
    AllNamed(project.runtime) && AllNamed(project.development) && AllNamed(project.build)
  }

  function ProjectFindings(path: string, project: Project, runtimeLock: set<string>, devLock: set<string>): seq<Finding>
    requires AllListsNamed(project)
  {
    ListFindings(path, project.runtime, true, false, runtimeLock, devLock)
    + (ListFindings(path, project.development, false, false, runtimeLock, devLock)
       + ListFindings(path, project.build, false, true, runtimeLock, devLock))
  }

  /** `inspect_pyproject`; false is a raised ValueError. */
  method InspectProject(path: string, project: Project, runtimeLock: set<string>, devLock: set<string>,
                        findings: Findings) returns (ok: bool)
    modifies findings
    ensures ok <==> AllListsNamed(project)
    ensures ok ==> findings.entries == old(findings.entries) + ProjectFindings(path, project, runtimeLock, devLock)
  {
    hide AllNamed, ListFindings;
    ok := InspectRequirements(path, project.runtime, true, false, runtimeLock, devLock, findings);
    if ok {
      ok := InspectRequirements(path, project.development, false, false, runtimeLock, devLock, findings);
    }
    if ok {
      ok := InspectRequirements(path, project.build, false, true, runtimeLock, devLock, findings);
    }
  }

  /** What a requirement owes to the two locks. */
  predicate Satisfied(requirement: string, runtime: bool, build: bool, runtimeLock: set<string>, devLock: set<string>)
    requires RequirementName(requirement).Some?
  {
    var name := RequirementName(requirement).value;
    name in devLock && (runtime ==> name in runtimeLock) && (build ==> Contains(requirement, "=="))
  }

  lemma {:induction false} NoListFindings(path: string, requirements: seq<string>, runtime: bool, build: bool,
                                          runtimeLock: set<string>, devLock: set<string>)
    requires AllNamed(requirements)
    ensures ListFindings(path, requirements, runtime, build, runtimeLock, devLock) == [] <==>
            forall i | 0 <= i < |requirements| :: Satisfied(requirements[i], runtime, build, runtimeLock, devLock)
  {
    hide RequirementName, Contains;
    if requirements != [] {
      var k := |requirements| - 1;
      NoListFindings(path, requirements[..k], runtime, build, runtimeLock, devLock);
      assert forall i | 0 <= i < k :: requirements[..k][i] == requirements[i];
    }
  }

  /** The requirement starts, after white space, with the name, as long as it goes. */
  ghost predicate Names(requirement: string, name: string) {
    exists lead, rest :: requirement == lead + (name + rest) && IsBlank(lead) && IsName(name)
                         && (rest == "" || !IsName([rest[0]]))
  }

  lemma RequirementExactly(requirement: string, package: string)
    ensures RequirementName(requirement) == Some(package) <==>
            exists name :: Names(requirement, name) && package == NormalisePackage(name)
  {
    hide NormalisePackage, Names, NamePrefix, TrimLeft;
    if NamePrefix(TrimLeft(requirement)) != "" {
      OwnName(requirement);
    }
    forall name | Names(requirement, name) ensures name == NamePrefix(TrimLeft(requirement)) != "" {
      OnlyName(requirement, name);
    }
  }

  lemma OwnName(requirement: string)
    requires NamePrefix(TrimLeft(requirement)) != ""
    ensures Names(requirement, NamePrefix(TrimLeft(requirement)))
  {
    var t := TrimLeft(requirement);
    var name := NamePrefix(t);
    TrimLeftExactly(requirement);
    NamePrefixMaximal(t);
    hide TrimLeft, NamePrefix;
    var lead, rest := requirement[..|requirement| - |t|], t[|name|..];
    assert t == name + rest && requirement == lead + t;
    assert rest != "" ==> !IsName([rest[0]]) by {
      assert rest != "" ==> [rest[0]][0] == rest[0];
    }
    assert requirement == lead + (name + rest) && IsName(name);
  }

  lemma OnlyName(requirement: string, name: string)
    requires Names(requirement, name)
    ensures name == NamePrefix(TrimLeft(requirement)) != ""
  {
    var lead, rest :| requirement == lead + (name + rest) && IsBlank(lead) && IsName(name)
                      && (rest == "" || !IsName([rest[0]]));
    NameNotBlank(name);
    TrimLeftOf(lead, name + rest);
    NamePrefixOf(name, rest);
  }

  lemma NameNotBlank(name: string)
    requires IsName(name)
    ensures !IsSpace(name[0]) && forall i | 0 <= i < |name| :: IsNameChar(name[i])
  {
  }

  lemma {:induction false} TrimLeftOf(lead: string, s: string)
    requires IsBlank(lead) && s != "" && !IsSpace(s[0])
    ensures TrimLeft(lead + s) == s
  {
    if lead == "" {
      assert lead + s == s;
    } else {
      assert (lead + s)[1..] == lead[1..] + s;
      TrimLeftOf(lead[1..], s);
    }
  }

  /** Some statement of the lock is an exact, hashed registry pin of the requirement's package: the two
      names are normalised alike. */
  ghost predicate PinnedIn(lines: seq<string>, requirement: string) {
    exists k, name, own ::
      0 <= k < |Statements(lines)| && Sound(Statements(lines)[k].text) && Pins(Statements(lines)[k].text, name)
      && Names(requirement, own) && NormalisePackage(name) == NormalisePackage(own)
  }

  lemma PackageExactly(s: Statement, package: string)
    ensures Sound(s.text) ==>
            (package in PackageOf(s) <==> exists name :: Pins(s.text, name) && package == NormalisePackage(name))
  {
    hide NormalisePackage, PinnedName, Pins;
    forall name ensures PinnedName(s.text) == Some(name) <==> Pins(s.text, name) {
      PinnedExactly(s.text, name);
    }
  }

  lemma CleanLockPins(path: string, lines: seq<string>, requirement: string)
    requires LockFindings(path, lines) == [] && RequirementName(requirement).Some?
    ensures RequirementName(requirement).value in Packages(Statements(lines)) <==> PinnedIn(lines, requirement)
  {
    hide LockFindings, Sound, RequirementName, Statements, PackageOf, Packages, Pins, Names, NormalisePackage;
    var package := RequirementName(requirement).value;
    CleanLockExactly(path, lines);
    PackagesAreNames(Statements(lines), package);
    RequirementExactly(requirement, package);
    forall k | 0 <= k < |Statements(lines)|
      ensures package in PackageOf(Statements(lines)[k]) <==>
              exists name :: Pins(Statements(lines)[k].text, name) && package == NormalisePackage(name)
    {
      PackageExactly(Statements(lines)[k], package);
    }
    forall own | Names(requirement, own) ensures NormalisePackage(own) == package {
      RequirementExactly(requirement, NormalisePackage(own));
    }
  }

  /** Locks and project file together: when both locks are clean, the project adds no finding exactly
      when every runtime requirement is pinned in both locks, every development and build requirement in
      the development lock, and every build requirement is exact. */
  lemma ProjectPinnedExactly(path: string, project: Project, runtimeLines: seq<string>, devLines: seq<string>)
    requires AllListsNamed(project)
    requires LockFindings(path, runtimeLines) == [] && LockFindings(path, devLines) == []
    ensures var runtimeLock, devLock := Packages(Statements(runtimeLines)), Packages(Statements(devLines));
      ProjectFindings(path, project, runtimeLock, devLock) == [] <==>
            && (forall r | r in project.runtime :: PinnedIn(runtimeLines, r) && PinnedIn(devLines, r))
            && (forall r | r in project.development :: PinnedIn(devLines, r))
            && (forall r | r in project.build :: Contains(r, "==") && PinnedIn(devLines, r))
  {
    hide PinnedIn, LockFindings, RequirementName, Packages, Statements, Contains, ListFindings;
    var runtimeLock, devLock := Packages(Statements(runtimeLines)), Packages(Statements(devLines));
    NoListFindings(path, project.runtime, true, false, runtimeLock, devLock);
    NoListFindings(path, project.development, false, false, runtimeLock, devLock);
    NoListFindings(path, project.build, false, true, runtimeLock, devLock);
    forall r: string | RequirementName(r).Some?
      ensures RequirementName(r).value in runtimeLock <==> PinnedIn(runtimeLines, r)
      ensures RequirementName(r).value in devLock <==> PinnedIn(devLines, r)
    {
      CleanLockPins(path, runtimeLines, r);
      CleanLockPins(path, devLines, r);
    }
  }
}
