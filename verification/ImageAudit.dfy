/** Auditing of container images: the image lock, the reference rules, and the FROM lines of all
    Dockerfiles. */
module ImageAudit {
  import opened Common
  import opened Text
  import opened AuditFindings
  import opened FromLines

  // ----- the image lock -----

  /** A lock entry; None is a missing or non-string field. */
  datatype Image = Image(reference: Option<string>, digest: Option<string>)

  datatype Lock = Lock(toolchain: map<string, string>, images: seq<Image>)

  const LOCK_PATH := "data/supply-chain/image-lock.v1.json"

  function ExpectedToolchain(): seq<(string, string)> {
    [("schema", "axignal.g6-supply-chain-lock.v1"), ("python", "3.13.14"), ("pip", "26.1.2"),
     ("pip_tools", "7.6.0")]
  }

  predicate HasTool(lock: Lock, tool: (string, string)) {
    tool.0 in lock.toolchain && lock.toolchain[tool.0] == tool.1
  }

  function ToolFindings(lock: Lock, tools: seq<(string, string)>): seq<Finding> {
    if tools == [] then []
    else
      var last := tools[|tools| - 1];
      ToolFindings(lock, tools[..|tools| - 1])
      + (if HasTool(lock, last) then [] else [Finding(LOCK_PATH, 1, UnexpectedTool(last.0))])
  }

  /** Reference to digest, later entries replacing earlier ones. */
  function ImageMap(images: seq<Image>): map<string, string> {
    if images == [] then map[]
    else
      var i := images[|images| - 1];
      var before := ImageMap(images[..|images| - 1]);
      if i.reference == None || i.digest == None then before else before[i.reference.value := i.digest.value]
  }

  function ImageFindings(i: Image, line: nat, before: map<string, string>): seq<Finding> {
    if i.reference == None || i.digest == None then [Finding(LOCK_PATH, line, NotAPair)]
    else
      (if i.reference.value in before then [Finding(LOCK_PATH, line, DuplicateReference(i.reference.value))] else [])
      + (if IsSha256(i.digest.value) then [] else [Finding(LOCK_PATH, line, InvalidLockDigest(i.reference.value))])
  }

  function AllImageFindings(images: seq<Image>): seq<Finding> {
    if images == [] then []
    else
      var k := |images| - 1;
      AllImageFindings(images[..k]) + ImageFindings(images[k], k + 1, ImageMap(images[..k]))
  }

  function LockFindings(payload: Option<Lock>): seq<Finding> {
    match payload
    case None => [Finding(LOCK_PATH, 1, LockUnreadable)]
    case Some(lock) => ToolFindings(lock, ExpectedToolchain()) + AllImageFindings(lock.images)
  }

  function LoadedMap(payload: Option<Lock>): map<string, string> {
    match payload case None => map[] case Some(lock) => ImageMap(lock.images)
  }

  method InspectToolchain(lock: Lock, tools: seq<(string, string)>, findings: Findings)
    modifies findings
    ensures findings.entries == old(findings.entries) + ToolFindings(lock, tools)
  {
    ghost var before := findings.entries;
    for i := 0 to |tools|
      invariant findings.entries == before + ToolFindings(lock, tools[..i])
    {
      assert tools[..i + 1][..i] == tools[..i];
      if !HasTool(lock, tools[i]) {
        findings.Record(LOCK_PATH, 1, UnexpectedTool(tools[i].0));
      }
    }
    assert tools[..|tools|] == tools;
  }

  method InspectImage(i: Image, line: nat, result: map<string, string>, findings: Findings)
    returns (next: map<string, string>)
    modifies findings
    ensures findings.entries == old(findings.entries) + ImageFindings(i, line, result)
    ensures next == if i.reference == None || i.digest == None then result
                    else result[i.reference.value := i.digest.value]
  {
    hide IsSha256;
    if i.reference == None || i.digest == None {
      findings.Record(LOCK_PATH, line, NotAPair);
      return result;
    }
    var reference, digest := i.reference.value, i.digest.value;
    if reference in result {
      findings.Record(LOCK_PATH, line, DuplicateReference(reference));
    }
    if !IsSha256(digest) {
      findings.Record(LOCK_PATH, line, InvalidLockDigest(reference));
    }
    return result[reference := digest];
  }

  /** `load_image_lock`; None stands for a file that cannot be read or parsed. */
  method LoadImageLock(payload: Option<Lock>, findings: Findings) returns (result: map<string, string>)
    modifies findings
    ensures result == LoadedMap(payload)
    ensures findings.entries == old(findings.entries) + LockFindings(payload)
  {
    hide ExpectedToolchain, ToolFindings, ImageFindings;
    if payload == None {
      findings.Record(LOCK_PATH, 1, LockUnreadable);
      return map[];
    }
    var lock := payload.value;
    ghost var start := findings.entries;
    InspectToolchain(lock, ExpectedToolchain(), findings);
    result := map[];
    ghost var before := findings.entries;
    for i := 0 to |lock.images|
      invariant result == ImageMap(lock.images[..i])
      invariant findings.entries == before + AllImageFindings(lock.images[..i])
    {
      assert lock.images[..i + 1][..i] == lock.images[..i];
      ghost var more := ImageFindings(lock.images[i], i + 1, result);
      result := InspectImage(lock.images[i], i + 1, result, findings);
      Associates(before, AllImageFindings(lock.images[..i]), more);
    }
    assert lock.images[..|lock.images|] == lock.images;
    Associates(start, ToolFindings(lock, ExpectedToolchain()), AllImageFindings(lock.images));
  }

  /** Every entry is a pair with a valid digest, and no reference occurs twice. */
  predicate SoundImages(images: seq<Image>) {
    && (forall i | 0 <= i < |images| :: SoundImage(images[i]))
    && (forall i, j | 0 <= i < j < |images| :: images[i].reference != images[j].reference)
  }

  lemma {:induction false} MapDomain(images: seq<Image>, r: string)
    ensures r in ImageMap(images) <==>
            exists i | 0 <= i < |images| :: images[i].reference == Some(r) && images[i].digest.Some?
  {
    if images != [] {
      var k := |images| - 1;
      MapDomain(images[..k], r);
    }
  }

  predicate SoundImage(i: Image) {
    i.reference.Some? && i.digest.Some? && IsSha256(i.digest.value)
  }

  lemma ImageFindingsExactly(i: Image, line: nat, before: map<string, string>)
    ensures ImageFindings(i, line, before) == [] <==> SoundImage(i) && i.reference.value !in before
    ensures SoundImage(i) ==> i.reference.Some?
  {
  }

  lemma {:induction false} NoImageFindings(images: seq<Image>)
    ensures AllImageFindings(images) == [] <==> SoundImages(images)
  {
    hide SoundImage, ImageFindings, ImageMap;
    if images != [] {
      var k := |images| - 1;
      var init := images[..k];
      NoImageFindings(init);
      ImageFindingsExactly(images[k], k + 1, ImageMap(init));
      assert forall i | 0 <= i < k :: init[i] == images[i];
      if SoundImages(init) {
        DomainOfSound(init, images[k].reference);
      }
    }
  }

  lemma {:induction false} DomainOfSound(images: seq<Image>, r: Option<string>)
    requires SoundImages(images)
    ensures r.Some? && r.value in ImageMap(images) <==>
            r.Some? && exists i | 0 <= i < |images| :: images[i].reference == r
  {
    if r.Some? {
      MapDomain(images, r.value);
    }
  }

  lemma {:induction false} NoToolFindings(lock: Lock, tools: seq<(string, string)>)
    ensures ToolFindings(lock, tools) == [] <==> forall i | 0 <= i < |tools| :: HasTool(lock, tools[i])
  {
    if tools != [] {
      var k := |tools| - 1;
      NoToolFindings(lock, tools[..k]);
    }
  }

  ghost predicate NamesToolchain(tools: map<string, string>) {
    && "schema" in tools && tools["schema"] == "axignal.g6-supply-chain-lock.v1"
    && "python" in tools && tools["python"] == "3.13.14"
    && "pip" in tools && tools["pip"] == "26.1.2"
    && "pip_tools" in tools && tools["pip_tools"] == "7.6.0"
  }

  lemma ToolchainExactly(lock: Lock)
    ensures ToolFindings(lock, ExpectedToolchain()) == [] <==> NamesToolchain(lock.toolchain)
  {
    NoToolFindings(lock, ExpectedToolchain());
    var tools := ExpectedToolchain();
    assert tools[0].0 == "schema" && tools[1].0 == "python" && tools[2].0 == "pip" && tools[3].0 == "pip_tools";
  }

  /** A lock adds no finding exactly when it was read, names the expected toolchain, and maps distinct
      references to valid digests; then the loaded map holds every entry. */
  lemma CleanImageLock(payload: Option<Lock>)
    ensures LockFindings(payload) == [] <==>
            payload.Some? && SoundImages(payload.value.images) && NamesToolchain(payload.value.toolchain)
    ensures LockFindings(payload) == [] ==>
            forall r :: r in LoadedMap(payload) ==>
              IsSha256(LoadedMap(payload)[r]) && Image(Some(r), Some(LoadedMap(payload)[r])) in payload.value.images
    ensures LockFindings(payload) == [] ==>
            forall e | e in payload.value.images :: SoundImage(e) &&
              e.reference.value in LoadedMap(payload) && LoadedMap(payload)[e.reference.value] == e.digest.value
  {
    if payload.Some? {
      ToolchainExactly(payload.value);
      hide NamesToolchain, ExpectedToolchain, ToolFindings;
      NoImageFindings(payload.value.images);
      if SoundImages(payload.value.images) {
        MapEntries(payload.value.images);
      }
    }
  }

  lemma {:induction false} MapEntries(images: seq<Image>)
    requires SoundImages(images)
    ensures forall r :: r in ImageMap(images) ==>
              IsSha256(ImageMap(images)[r]) && Image(Some(r), Some(ImageMap(images)[r])) in images
    ensures forall i | 0 <= i < |images| :: SoundImage(images[i]) &&
              images[i].reference.value in ImageMap(images)
              && ImageMap(images)[images[i].reference.value] == images[i].digest.value
  {
    hide IsSha256;
    if images != [] {
      var k := |images| - 1;
      MapEntries(images[..k]);
      assert forall i | 0 <= i < k :: images[..k][i] == images[i];
    }
  }

  // ----- image references -----

  predicate IsReleaseNameChar(c: char) {
    'A' <= c <= 'Z' || '0' <= c <= '9' || c == '_'
  }

  /** The release form, whose three parts repeat one variable prefix. */
  function DynamicReference(name: string): string {
    "${" + name + "_IMAGE_REPOSITORY:?required}:${" + name + "_IMAGE_TAG:?required}@sha256:${" + name
    + "_IMAGE_DIGEST:?required}"
  }

  predicate IsDynamic(reference: string) {
    exists z | 3 <= z <= |reference| ::
      (forall i | 2 <= i < z :: IsReleaseNameChar(reference[i])) && reference == DynamicReference(reference[2..z])
  }

  const LANDING_COMPOSE := "infra/landing/compose.yaml"

  const LANDING_REFERENCE := "${AXIGNAL_LANDING_IMAGE:?required}"

  /** Position of the last c in s, or |s| if there is none. */
  function LastIndex(s: string, c: char): (k: nat)
    ensures k <= |s| && (k < |s| ==> s[k] == c)
    ensures forall i | 0 <= i < |s| && (k == |s| || i > k) :: s[i] != c
  {
    if s == "" then 0
    else if s[|s| - 1] == c then |s| - 1
    else
      var k := LastIndex(s[..|s| - 1], c);
      if k == |s| - 1 then |s| else k
  }

  /** A colon after the last slash: a human-readable tag. */
  predicate HasTag(name: string) {
    var k := LastIndex(name, '/');
    ':' in (if k < |name| then name[k + 1..] else name)
  }

  predicate Exempt(path: string, reference: string) {
    reference == "scratch" || IsDynamic(reference) || (path == LANDING_COMPOSE && reference == LANDING_REFERENCE)
  }

  function ReferenceFindings(path: string, line: nat, reference: string, lock: map<string, string>): seq<Finding> {
    if Exempt(path, reference) then []
    else
      var k := LastIndex(reference, '@');
      if k == |reference| then [Finding(path, line, MutableReference(reference))]
      else
        var name, digest := reference[..k], reference[k + 1..];
        (if HasTag(name) then [] else [Finding(path, line, NoTag(reference))])
        + (if !IsSha256(digest) then [Finding(path, line, InvalidDigest(reference))]
           else if name !in lock then [Finding(path, line, Ungoverned(name))]
           else if lock[name] != digest then [Finding(path, line, DigestDiffers(name))]
           else [])
  }

  /** `verify_image_reference`; the result says whether the reference has the release form. */
  method VerifyImageReference(path: string, line: nat, reference: string, lock: map<string, string>, findings: Findings)
    returns (dynamic: bool)
    modifies findings
    ensures findings.entries == old(findings.entries) + ReferenceFindings(path, line, reference, lock)
    ensures dynamic <==> reference != "scratch"
                         && (IsDynamic(reference) || (path == LANDING_COMPOSE && reference == LANDING_REFERENCE))
  {
    hide IsDynamic, IsSha256, HasTag;
    if reference == "scratch" {
      return false;
    }
    if IsDynamic(reference) {
      return true;
    }
    if path == LANDING_COMPOSE && reference == LANDING_REFERENCE {
      return true;
    }
    var k := LastIndex(reference, '@');
    if k == |reference| {
      findings.Record(path, line, MutableReference(reference));
      return false;
    }
    var name, digest := reference[..k], reference[k + 1..];
    if !HasTag(name) {
      findings.Record(path, line, NoTag(reference));
    }
    if !IsSha256(digest) {
      findings.Record(path, line, InvalidDigest(reference));
      return false;
    }
    if name !in lock {
      findings.Record(path, line, Ungoverned(name));
    } else if lock[name] != digest {
      findings.Record(path, line, DigestDiffers(name));
    }
    return false;
  }

  /** A colon, and no slash after it. */
  predicate IsTagged(name: string) {
    exists i | 0 <= i < |name| :: name[i] == ':' && forall j | i < j < |name| :: name[j] != '/'
  }

  /** The three release variables of one name in capitals, digits and underscores. */
  ghost predicate IsReleaseForm(reference: string) {
    exists name :: IsReleaseName(name) && reference ==
      "${" + name + "_IMAGE_REPOSITORY:?required}:${" + name + "_IMAGE_TAG:?required}@sha256:${" + name
      + "_IMAGE_DIGEST:?required}"
  }

  predicate IsReleaseName(name: string) {
    name != "" && forall i | 0 <= i < |name| :: 'A' <= name[i] <= 'Z' || '0' <= name[i] <= '9' || name[i] == '_'
  }

  /** The references that an audit may accept, stated without splitting: scratch, an allowed variable
      form, or a tagged name joined to the digest the lock gives it. */
  ghost predicate Governed(path: string, reference: string, lock: map<string, string>) {
    || reference == "scratch"
    || IsReleaseForm(reference)
    || (path == "infra/landing/compose.yaml" && reference == "${AXIGNAL_LANDING_IMAGE:?required}")
    || Locked(reference, lock)
  }

  ghost predicate Locked(reference: string, lock: map<string, string>) {
    exists name | name in lock :: IsTagged(name) && IsDigestText(lock[name]) && reference == name + "@" + lock[name]
  }

  lemma ReleaseFormExactly(reference: string)
    ensures IsDynamic(reference) <==> IsReleaseForm(reference)
  {
    if IsDynamic(reference) {
      var z :| 3 <= z <= |reference| && (forall i | 2 <= i < z :: IsReleaseNameChar(reference[i]))
               && reference == DynamicReference(reference[2..z]);
      assert IsReleaseName(reference[2..z]);
    }
    if IsReleaseForm(reference) {
      var name :| IsReleaseName(name) && reference ==
        "${" + name + "_IMAGE_REPOSITORY:?required}:${" + name + "_IMAGE_TAG:?required}@sha256:${" + name
        + "_IMAGE_DIGEST:?required}";
      NameWithin(name);
    }
  }

  lemma NameWithin(name: string)
    ensures var r := DynamicReference(name); |r| >= |name| + 2 && r[2..|name| + 2] == name
  {
    var s := "_IMAGE_REPOSITORY:?required}:${" + name + "_IMAGE_TAG:?required}@sha256:${" + name
             + "_IMAGE_DIGEST:?required}";
    assert DynamicReference(name) == ("${" + name) + s;
  }

  lemma TaggedExactly(name: string)
    ensures HasTag(name) <==> IsTagged(name)
  {
    var k := LastIndex(name, '/');
    var last := if k < |name| then name[k + 1..] else name;
    if HasTag(name) {
      var i :| 0 <= i < |last| && last[i] == ':';
      assert name[i + |name| - |last|] == ':';
    }
    if i :| 0 <= i < |name| && name[i] == ':' && forall j | i < j < |name| :: name[j] != '/' {
      assert last[i - (|name| - |last|)] == ':';
    }
  }

  lemma LastIndexIs(s: string, c: char, k: nat)
    requires k < |s| && s[k] == c && forall i | k < i < |s| :: s[i] != c
    ensures LastIndex(s, c) == k
  {
  }

  lemma NoAtInDigest(digest: string)
    requires IsSha256(digest)
    ensures forall i | 0 <= i < |digest| :: digest[i] != '@'
  {
  }

  lemma SplitAtDigest(name: string, digest: string)
    requires IsSha256(digest)
    ensures LastIndex(name + "@" + digest, '@') == |name|
  {
    NoAtInDigest(digest);
    hide IsSha256, LastIndex;
    LastIndexIs(name + "@" + digest, '@', |name|);
  }

  predicate LockedName(reference: string, lock: map<string, string>) {
    exists name | name in lock :: HasTag(name) && IsSha256(lock[name]) && reference == name + "@" + lock[name]
  }

  lemma LockedExactly(reference: string, lock: map<string, string>)
    ensures Locked(reference, lock) <==> LockedName(reference, lock)
  {
    hide HasTag, IsTagged, IsSha256, IsDigestText;
    forall name | name in lock
      ensures HasTag(name) <==> IsTagged(name)
      ensures IsSha256(lock[name]) <==> IsDigestText(lock[name])
    {
      TaggedExactly(name);
      Sha256Exactly(lock[name]);
    }
  }

  /** The split at the last @ finds the name and digest of a locked reference, if there are any. */
  lemma LockedBySplit(reference: string, lock: map<string, string>)
    ensures var k := LastIndex(reference, '@');
      LockedName(reference, lock) <==>
      k < |reference| && HasTag(reference[..k]) && IsSha256(reference[k + 1..])
      && reference[..k] in lock && lock[reference[..k]] == reference[k + 1..]
  {
    hide IsSha256, HasTag, LastIndex;
    var k := LastIndex(reference, '@');
    if LockedName(reference, lock) {
      var name :| name in lock && HasTag(name) && IsSha256(lock[name]) && reference == name + "@" + lock[name];
      SplitAtDigest(name, lock[name]);
      assert reference[..k] == name && reference[k + 1..] == lock[name];
    }
    if k < |reference| {
      Halves(reference, k);
      Halves(reference[k..], 1);
      Associates(reference[..k], "@", reference[k + 1..]);
      assert reference[k..][..1] == "@" && reference[k..][1..] == reference[k + 1..];
    }
  }

  /** A reference adds no finding exactly when it is governed. */
  lemma ReferenceCleanExactly(path: string, line: nat, reference: string, lock: map<string, string>)
    ensures ReferenceFindings(path, line, reference, lock) == [] <==> Governed(path, reference, lock)
  {
    ReleaseFormExactly(reference);
    LockedExactly(reference, lock);
    LockedBySplit(reference, lock);
    hide IsDynamic, IsReleaseForm, Locked, LockedName, HasTag, IsSha256;
  }

  // ----- Dockerfiles -----

  datatype File = File(path: string, lines: seq<string>)

  /** The aliases declared by the first n lines. */
  function AliasesBefore(lines: seq<string>, n: nat): set<string>
    requires n <= |lines|
  {
    set i | 0 <= i < n && ParseFrom(lines[i]).Some? && ParseFrom(lines[i]).value.alias.Some? ::
      ParseFrom(lines[i]).value.alias.value
  }

  /** Line n is a FROM line whose image is no earlier alias, so its reference is verified. */
  predicate Verified(f: File, n: nat)
    requires n < |f.lines|
  {
    ParseFrom(f.lines[n]).Some? && ParseFrom(f.lines[n]).value.image !in AliasesBefore(f.lines, n)
  }

  /** The verified lines among the first n. */
  function VerifiedLines(f: File, n: nat): set<nat>
    requires n <= |f.lines|
  {
    set i: nat | i < n && Verified(f, i)
  }

  function VerifiedCount(files: seq<File>): nat {
    if files == [] then 0
    else
      var last := files[|files| - 1];
      VerifiedCount(files[..|files| - 1]) + |VerifiedLines(last, |last.lines|)|
  }

  function LineFindings(f: File, n: nat, lock: map<string, string>): seq<Finding>
    requires n < |f.lines|
  {
    match ParseFrom(f.lines[n])
    case None => []
    case Some(from) =>
      if from.image in AliasesBefore(f.lines, n) then [] else ReferenceFindings(f.path, n + 1, from.image, lock)
  }

  function FileFindings(f: File, n: nat, lock: map<string, string>): seq<Finding>
    requires n <= |f.lines|
  {
    if n == 0 then [] else FileFindings(f, n - 1, lock) + LineFindings(f, n - 1, lock)
  }

  function DockerFindings(files: seq<File>, lock: map<string, string>): seq<Finding> {
    if files == [] then []
    else
      var last := files[|files| - 1];
      DockerFindings(files[..|files| - 1], lock) + FileFindings(last, |last.lines|, lock)
  }

  /** The inner loop of `inspect_dockerfiles`: aliases accumulate line by line. */
  method InspectDockerfile(f: File, lock: map<string, string>, findings: Findings) returns (count: nat)
    modifies findings
    ensures findings.entries == old(findings.entries) + FileFindings(f, |f.lines|, lock)
    ensures count == |VerifiedLines(f, |f.lines|)|
  {
    hide ParseFrom, ReferenceFindings, VerifiedLines, AliasesBefore;
    count := 0;
    var aliases: set<string> := {};
    ghost var before := findings.entries;
    NothingBefore(f);
    for n := 0 to |f.lines|
      invariant aliases == AliasesBefore(f.lines, n)
      invariant findings.entries == before + FileFindings(f, n, lock)
      invariant count == |VerifiedLines(f, n)|
    {
      var from := ParseFrom(f.lines[n]);
      AliasesStep(f.lines, n);
      VerifiedStep(f, n);
      Associates(before, FileFindings(f, n, lock), LineFindings(f, n, lock));
      if from == None {
        continue;
      }
      if from.value.image !in aliases {
        var _ := VerifyImageReference(f.path, n + 1, from.value.image, lock, findings);
        count := count + 1;
      }
      if from.value.alias.Some? {
        aliases := aliases + {from.value.alias.value};
      }
    }
  }

  lemma AliasesStep(lines: seq<string>, n: nat)
    requires n < |lines|
    ensures AliasesBefore(lines, n + 1) == AliasesBefore(lines, n)
      + (match ParseFrom(lines[n]) case Some(From(_, Some(alias))) => {alias} case _ => {})
  {
  }

  lemma NothingBefore(f: File)
    ensures AliasesBefore(f.lines, 0) == {} && VerifiedLines(f, 0) == {}
  {
  }

  lemma VerifiedStep(f: File, n: nat)
    requires n < |f.lines|
    ensures VerifiedLines(f, 0) == {}
    ensures |VerifiedLines(f, n + 1)| == |VerifiedLines(f, n)| + (if Verified(f, n) then 1 else 0)
  {
    hide Verified;
    assert VerifiedLines(f, n + 1) == VerifiedLines(f, n) + (if Verified(f, n) then {n} else {});
  }

  /** `inspect_dockerfiles`; it returns how many references were verified. */
  method InspectDockerfiles(files: seq<File>, lock: map<string, string>, findings: Findings) returns (count: nat)
    modifies findings
    ensures findings.entries == old(findings.entries) + DockerFindings(files, lock)
    ensures count == VerifiedCount(files)
  {
    hide FileFindings, VerifiedLines;
    count := 0;
    ghost var before := findings.entries;
    for i := 0 to |files|
      invariant findings.entries == before + DockerFindings(files[..i], lock)
      invariant count == VerifiedCount(files[..i])
    {
      assert files[..i + 1][..i] == files[..i];
      var more := InspectDockerfile(files[i], lock, findings);
      count := count + more;
      Associates(before, DockerFindings(files[..i], lock), FileFindings(files[i], |files[i].lines|, lock));
    }
    assert files[..|files|] == files;
  }

  /** An earlier line of the file is a FROM line that declares the alias. */
  ghost predicate AliasAbove(f: File, n: nat, alias: string)
    requires n <= |f.lines|
  {
    exists i: nat | i < n :: DeclaresAlias(f.lines[i], alias)
  }

  ghost predicate DeclaresAlias(line: string, alias: string) {
    exists gaps, l: FromLine :: IsFromLine(line, gaps, l) && l.Parsed().alias == Some(alias)
  }

  /** Line n, if it is a FROM line, names an alias declared above it in the same file or a governed
      image. */
  ghost predicate LineGoverned(f: File, n: nat, lock: map<string, string>)
    requires n < |f.lines|
  {
    forall gaps, l | IsFromLine(f.lines[n], gaps, l) :: AliasAbove(f, n, l.image) || Governed(f.path, l.image, lock)
  }

  lemma DeclaredExactly(line: string, alias: string)
    ensures DeclaresAlias(line, alias) <==> ParseFrom(line).Some? && ParseFrom(line).value.alias == Some(alias)
  {
    hide ParseFrom, IsFromLine;
    if ParseFrom(line).Some? {
      var gaps, l := ReadIsFromLine(line);
    }
    forall gaps, l | IsFromLine(line, gaps, l) ensures ParseFrom(line) == Some(l.Parsed()) {
      ReadAsWritten(line, gaps, l);
    }
  }

  lemma ReadAsWritten(line: string, gaps: seq<string>, l: FromLine)
    requires IsFromLine(line, gaps, l)
    ensures ParseFrom(line) == Some(l.Parsed())
  {
    FromRead(gaps, l);
  }

  lemma AliasesExactly(f: File, n: nat, alias: string)
    requires n <= |f.lines|
    ensures alias in AliasesBefore(f.lines, n) <==> AliasAbove(f, n, alias)
  {
    hide ParseFrom, DeclaresAlias;
    forall i | 0 <= i < n
      ensures DeclaresAlias(f.lines[i], alias) <==>
              ParseFrom(f.lines[i]).Some? && ParseFrom(f.lines[i]).value.alias == Some(alias)
    {
      DeclaredExactly(f.lines[i], alias);
    }
  }

  lemma LineCleanExactly(f: File, n: nat, lock: map<string, string>)
    requires n < |f.lines|
    ensures LineFindings(f, n, lock) == [] <==> LineGoverned(f, n, lock)
  {
    hide ParseFrom, IsFromLine, AliasesBefore, AliasAbove, ReferenceFindings, Governed;
    forall gaps, l | IsFromLine(f.lines[n], gaps, l) ensures ParseFrom(f.lines[n]) == Some(l.Parsed()) {
      ReadAsWritten(f.lines[n], gaps, l);
    }
    match ParseFrom(f.lines[n])
    case None =>
    case Some(from) =>
      var gaps, l := ReadIsFromLine(f.lines[n]);
      AliasesExactly(f, n, from.image);
      ReferenceCleanExactly(f.path, n + 1, from.image, lock);
  }

  lemma {:induction false} FileCleanExactly(f: File, n: nat, lock: map<string, string>)
    requires n <= |f.lines|
    ensures FileFindings(f, n, lock) == [] <==> forall i | 0 <= i < n :: LineGoverned(f, i, lock)
  {
    hide LineFindings, LineGoverned;
    if n > 0 {
      FileCleanExactly(f, n - 1, lock);
      LineCleanExactly(f, n - 1, lock);
    }
  }

  /** The audit of all Dockerfiles adds no finding exactly when every line of every file is governed:
      nothing else gets through, and nothing governed is reported. */
  lemma {:induction false} DockerCleanExactly(files: seq<File>, lock: map<string, string>)
    ensures DockerFindings(files, lock) == [] <==>
            forall k, n | 0 <= k < |files| && 0 <= n < |files[k].lines| :: LineGoverned(files[k], n, lock)
  {
    hide FileFindings, LineGoverned;
    if files != [] {
      var k := |files| - 1;
      DockerCleanExactly(files[..k], lock);
      FileCleanExactly(files[k], |files[k].lines|, lock);
    }
  }

  /** A lock entry that pins the image: a tagged reference joined to a SHA-256 digest. */
  ghost predicate Pins(e: Image, image: string) {
    && e.reference.Some? && e.digest.Some? && IsTagged(e.reference.value) && IsDigestText(e.digest.value)
    && image == e.reference.value + "@" + e.digest.value
  }

  /** However a FROM line is written, its image in a fully clean audit is an alias declared above it in the
      same file, scratch, an allowed variable form, or pinned by an entry of the lock file. */
  lemma AuditSound(payload: Option<Lock>, files: seq<File>, k: nat, n: nat, gaps: seq<string>, l: FromLine)
    requires LockFindings(payload) == [] && DockerFindings(files, LoadedMap(payload)) == []
    requires k < |files| && n < |files[k].lines| && IsFromLine(files[k].lines[n], gaps, l)
    ensures
      || AliasAbove(files[k], n, l.image)
      || l.image == "scratch"
      || IsReleaseForm(l.image)
      || (files[k].path == "infra/landing/compose.yaml" && l.image == "${AXIGNAL_LANDING_IMAGE:?required}")
      || exists e | payload.Some? && e in payload.value.images :: Pins(e, l.image)
  {
    hide IsFromLine, AliasAbove, IsReleaseForm, LockFindings, LoadedMap, IsDigestText, IsTagged;
    var lock := LoadedMap(payload);
    DockerCleanExactly(files, lock);
    CleanImageLock(payload);
    assert LineGoverned(files[k], n, lock);
    if Locked(l.image, lock) {
      var name :| name in lock && IsTagged(name) && IsDigestText(lock[name]) && l.image == name + "@" + lock[name];
      assert Pins(Image(Some(name), Some(lock[name])), l.image);
    }
  }
}
