/** The three rollback checks: P02 rebuilds a candidate tree and compares whole trees, P21 and P13 roll
    the worktree itself back and compare declared paths. A tree maps a path to its file content; the
    worktree is clean at the start and the baseline is an ancestor of HEAD. */
module Rollback {
  import opened Common

  type Path = string

  type Content = string

  type Tree = map<Path, Content>

  datatype Failure =
    | ChangedPathsDiffer | RemovedAtBaseline(path: Path) | Absent(path: Path) | NotAtBaseline(path: Path)
    | AuthorityDrift(path: Path) | TreesDiffer | MutationsDiffer | ScopeDiffers

  // ----- what git and the file system report -----

  predicate Agree(a: Tree, b: Tree, p: Path) {
    if p in a then p in b && a[p] == b[p] else p !in b
  }

  /** `git diff --name-only a b`. */
  function Changed(a: Tree, b: Tree): set<Path> {
    set p | p in a.Keys + b.Keys && !Agree(a, b, p)
  }

  /** `git diff --name-only a` against the worktree: only paths in the index are read from disk, so an
      untracked file is not reported, and a path of `a` outside the index counts as deleted. */
  function ChangedTracked(a: Tree, index: set<Path>, disk: Tree): set<Path> {
    Changed(a, map p | p in index && p in disk :: disk[p])
  }

  function Manifest(t: Tree, digest: Content -> string): map<Path, string> {
    map p | p in t :: digest(t[p])
  }

  function Elements(ps: seq<Path>): set<Path> {
    set p | p in ps
  }

  predicate Distinct(ps: seq<Path>) {
    forall i, j | 0 <= i < j < |ps| :: ps[i] != ps[j]
  }

  /** No two different files of the two trees have the same digest. */
  predicate CollisionFree(digest: Content -> string, a: Tree, b: Tree) {
    forall x, y | x in a.Values + b.Values && y in a.Values + b.Values :: digest(x) == digest(y) ==> x == y
  }

  /** The tree a rollback has to leave behind: removed paths gone, restored paths as at the baseline,
      everything else as at HEAD. */
  function RolledBack(head: Tree, baseline: Tree, removed: set<Path>, restored: set<Path>): Tree
    requires restored <= baseline.Keys
  {
    map p | p in (head.Keys - removed) + restored :: if p in restored then baseline[p] else head[p]
  }

  /** A directory tree on disk, changed in place. */
  class Worktree {
    var files: Tree

    constructor (files: Tree)
      ensures this.files == files
    {
      this.files := files;
    }

    method Unlink(p: Path)
      requires p in files
      modifies this
      ensures files == old(files) - {p}
    {
      files := files - {p};
    }

    method Write(p: Path, c: Content)
      modifies this
      ensures files == old(files)[p := c]
    {
      files := files[p := c];
    }

    /** The remove loop: every listed path has to be present when its turn comes. */
    method RemoveAll(ps: seq<Path>) returns (failure: Option<Failure>)
      modifies this
      ensures failure == None <==> Distinct(ps) && Elements(ps) <= old(files).Keys
      ensures failure == None ==> files == old(files) - Elements(ps)
    {
      for i := 0 to |ps|
        invariant Distinct(ps[..i]) && Elements(ps[..i]) <= old(files).Keys
        invariant files == old(files) - Elements(ps[..i])
      {
        ghost var done := ps[..i];
        assert ps[..i + 1] == done + [ps[i]];
        if ps[i] !in files {
          assert ps[i] in Elements(ps);
          assert Distinct(ps) ==> ps[i] !in done;
          return Some(Absent(ps[i]));
        }
        Unlink(ps[i]);
        assert Elements(ps[..i + 1]) == Elements(done) + {ps[i]};
      }
      assert ps[..|ps|] == ps;
      return None;
    }

    /** The restore loop: every listed path is read from the baseline. */
    method RestoreAll(ps: seq<Path>, baseline: Tree) returns (failure: Option<Failure>)
      modifies this
      ensures failure == None <==> Elements(ps) <= baseline.Keys
      ensures failure == None ==> files == RolledBack(old(files), baseline, {}, Elements(ps))
    {
      assert old(files) == RolledBack(old(files), baseline, {}, Elements(ps[..0]));
      for i := 0 to |ps|
        invariant Elements(ps[..i]) <= baseline.Keys
        invariant files == RolledBack(old(files), baseline, {}, Elements(ps[..i]))
      {
        if ps[i] !in baseline {
          assert ps[i] in Elements(ps);
          return Some(NotAtBaseline(ps[i]));
        }
        assert Elements(ps[..i + 1]) == Elements(ps[..i]) + {ps[i]};
        Write(ps[i], baseline[ps[i]]);
      }
      assert ps[..|ps|] == ps;
      return None;
    }
  }

  lemma RemoveThenRestore(head: Tree, baseline: Tree, removed: set<Path>, restored: set<Path>)
    requires restored <= baseline.Keys
    ensures RolledBack(head - removed, baseline, {}, restored) == RolledBack(head, baseline, removed, restored)
  {
  }

  /** With disjoint lists the two loops commute: the removals that can be made before restoring are
      those that can be made after it, and the resulting tree is the same. */
  lemma LoopOrderIrrelevant(head: Tree, baseline: Tree, removed: set<Path>, restored: set<Path>)
    requires restored <= baseline.Keys && removed !! restored
    ensures removed <= head.Keys <==> removed <= RolledBack(head, baseline, {}, restored).Keys
    ensures RolledBack(head, baseline, {}, restored) - removed == RolledBack(head - removed, baseline, {}, restored)
  {
  }

  // ----- P02: the whole tree -----

  datatype TreePlan = TreePlan(expectedChanged: set<Path>, remove: seq<Path>, restore: seq<Path>, preserved: seq<Path>)

  /** The checks made before anything is touched. */
  predicate TreePlanChecks(plan: TreePlan, baseline: Tree, head: Tree) {
    && Changed(baseline, head) == plan.expectedChanged
    && (forall p | p in plan.remove :: p !in baseline && p in head)
    && (forall p | p in plan.restore :: p in baseline && p in head)
    && (forall p | p in plan.preserved :: p in baseline && p in head && baseline[p] == head[p])
  }

  method CheckTreePlan(plan: TreePlan, baseline: Tree, head: Tree) returns (failure: Option<Failure>)
    ensures failure == None <==> TreePlanChecks(plan, baseline, head)
  {
    if Changed(baseline, head) != plan.expectedChanged {
      return Some(ChangedPathsDiffer);
    }
    for i := 0 to |plan.remove|
      invariant forall p | p in plan.remove[..i] :: p !in baseline && p in head
    {
      var p := plan.remove[i];
      if p in baseline {
        return Some(RemovedAtBaseline(p));
      }
      if p !in head {
        return Some(Absent(p));
      }
    }
    for i := 0 to |plan.restore|
      invariant forall p | p in plan.restore[..i] :: p in baseline && p in head
    {
      var p := plan.restore[i];
      if p !in baseline {
        return Some(NotAtBaseline(p));
      }
      if p !in head {
        return Some(Absent(p));
      }
    }
    for i := 0 to |plan.preserved|
      invariant forall p | p in plan.preserved[..i] :: p in baseline && p in head && baseline[p] == head[p]
    {
      var p := plan.preserved[i];
      if p !in baseline || p !in head || baseline[p] != head[p] {
        return Some(AuthorityDrift(p));
      }
    }
    assert plan.remove[..|plan.remove|] == plan.remove;
    assert plan.restore[..|plan.restore|] == plan.restore;
    assert plan.preserved[..|plan.preserved|] == plan.preserved;
    return None;
  }

  predicate TreePlanPasses(plan: TreePlan, baseline: Tree, head: Tree, digest: Content -> string) {
    && TreePlanChecks(plan, baseline, head)
    && Distinct(plan.remove)
    && var t := RolledBack(head, baseline, Elements(plan.remove), Elements(plan.restore));
       Manifest(t, digest) == Manifest(baseline, digest)
  }

  /** The P02 script: check, copy HEAD, remove, restore, compare whole-tree manifests. */
  method VerifyTreeRollback(plan: TreePlan, baseline: Tree, head: Tree, digest: Content -> string)
    returns (failure: Option<Failure>)
    ensures failure == None <==> TreePlanPasses(plan, baseline, head, digest)
  {
    failure := CheckTreePlan(plan, baseline, head);
    if failure.Some? {
      return;
    }
    var candidate := new Worktree(head);
    failure := candidate.RemoveAll(plan.remove);
    if failure.Some? {
      return;
    }
    failure := candidate.RestoreAll(plan.restore, baseline);
    RemoveThenRestore(head, baseline, Elements(plan.remove), Elements(plan.restore));
    if failure == None && Manifest(candidate.files, digest) != Manifest(baseline, digest) {
      failure := Some(TreesDiffer);
    }
  }

  /** For a plan that passes its path checks, the rolled-back tree is the baseline exactly when every
      changed path is listed; the two lists cannot overlap. */
  lemma RollbackReachesBaseline(plan: TreePlan, baseline: Tree, head: Tree)
    requires TreePlanChecks(plan, baseline, head)
    ensures Elements(plan.remove) !! Elements(plan.restore)
    ensures RolledBack(head, baseline, Elements(plan.remove), Elements(plan.restore)) == baseline
       <==> plan.expectedChanged <= Elements(plan.remove) + Elements(plan.restore)
  {
  }

  lemma AgreeEverywhere(a: Tree, b: Tree)
    requires forall p | p in a.Keys + b.Keys :: Agree(a, b, p)
    ensures a == b
  {
    assert forall p | p in a :: Agree(a, b, p);
    assert forall p | p in b :: Agree(a, b, p);
  }

  lemma ManifestsDecide(t: Tree, a: Tree, b: Tree, digest: Content -> string)
    requires CollisionFree(digest, a, b) && t.Values <= a.Values + b.Values
    ensures Manifest(t, digest) == Manifest(a, digest) <==> t == a
  {
    if Manifest(t, digest) == Manifest(a, digest) {
      assert t.Keys == Manifest(t, digest).Keys && a.Keys == Manifest(a, digest).Keys;
      assert forall p | p in t :: Manifest(t, digest)[p] == Manifest(a, digest)[p];
    }
  }

  /** The P02 script passes exactly on the plans that check, list no removal twice and cover every
      changed path. */
  lemma TreePlanPassesExactly(plan: TreePlan, baseline: Tree, head: Tree, digest: Content -> string)
    requires CollisionFree(digest, baseline, head)
    ensures TreePlanPasses(plan, baseline, head, digest) <==>
            TreePlanChecks(plan, baseline, head) && Distinct(plan.remove)
            && plan.expectedChanged <= Elements(plan.remove) + Elements(plan.restore)
  {
    if TreePlanChecks(plan, baseline, head) {
      RollbackReachesBaseline(plan, baseline, head);
      var t := RolledBack(head, baseline, Elements(plan.remove), Elements(plan.restore));
      assert forall p | p in t :: (p in baseline && t[p] == baseline[p] && t[p] in baseline.Values) ||
                                  (p in head && t[p] == head[p] && t[p] in head.Values);
      ManifestsDecide(t, baseline, head, digest);
    }
  }

  /** A path deleted since the baseline can be neither removed nor restored, so no plan passes. */
  lemma DeletedPathBlocks(plan: TreePlan, baseline: Tree, head: Tree, digest: Content -> string, p: Path)
    requires p in baseline && p !in head
    ensures !TreePlanPasses(plan, baseline, head, digest)
  {
    if TreePlanChecks(plan, baseline, head) {
      var t := RolledBack(head, baseline, Elements(plan.remove), Elements(plan.restore));
      assert Manifest(t, digest).Keys == t.Keys && Manifest(baseline, digest).Keys == baseline.Keys;
    }
  }

  /** The elements of a set in some order. */
  lemma {:induction false} Listed(s: set<Path>) returns (ps: seq<Path>)
    ensures Distinct(ps) && Elements(ps) == s && forall p :: p in ps <==> p in s
  {
    ps := [];
    if s != {} {
      var p :| p in s;
      var rest := Listed(s - {p});
      ps := [p] + rest;
      assert forall q :: q in ps <==> q == p || q in Elements(rest);
    }
  }

  /** Some plan passes exactly when no file was deleted since the baseline. */
  lemma PassingPlanExists(baseline: Tree, head: Tree, digest: Content -> string)
    ensures (exists plan :: TreePlanPasses(plan, baseline, head, digest)) <==> baseline.Keys <= head.Keys
  {
    if baseline.Keys <= head.Keys {
      var added, changed := head.Keys - baseline.Keys, Changed(baseline, head) * baseline.Keys;
      var remove := Listed(added);
      var restore := Listed(changed);
      var plan := TreePlan(Changed(baseline, head), remove, restore, []);
      RollbackReachesBaseline(plan, baseline, head);
      assert TreePlanPasses(plan, baseline, head, digest);
    } else {
      var p :| p in baseline && p !in head;
      forall plan ensures !TreePlanPasses(plan, baseline, head, digest) {
        DeletedPathBlocks(plan, baseline, head, digest, p);
      }
    }
  }

  // ----- P21: the worktree, path by path -----

  datatype PathPlan = PathPlan(
    expectedChanged: seq<Path>, onlyArtifacts: seq<Path>, restored: seq<Path>, preserved: seq<Path>)

  /** Everything the P21 script asserts before it computes the residual. */
  predicate PathPlanChecks(plan: PathPlan, baseline: Tree, head: Tree, digest: Content -> string) {
    && Distinct(plan.expectedChanged) && Elements(plan.expectedChanged) == Changed(baseline, head)
    && (forall p | p in plan.preserved :: p in head)
    && Distinct(plan.onlyArtifacts)
    && (forall p | p in plan.onlyArtifacts :: p in head && p !in baseline)
    && Elements(plan.restored) <= baseline.Keys
    && var t := RolledBack(head, baseline, Elements(plan.onlyArtifacts), Elements(plan.restored));
       forall p | p in plan.preserved :: p in t && digest(t[p]) == digest(head[p])
  }

  /** The listed paths on which two trees disagree, in list order. */
  function Residuals(ps: seq<Path>, t: Tree, baseline: Tree): seq<Path> {
    if ps == [] then []
    else
      var before := Residuals(ps[..|ps| - 1], t, baseline);
      if Agree(baseline, t, ps[|ps| - 1]) then before else before + [ps[|ps| - 1]]
  }

  method CollectResidual(ps: seq<Path>, disk: Worktree, baseline: Tree) returns (residual: seq<Path>)
    ensures residual == Residuals(ps, disk.files, baseline)
  {
    residual := [];
    for i := 0 to |ps|
      invariant residual == Residuals(ps[..i], disk.files, baseline)
    {
      assert ps[..i + 1][..i] == ps[..i];
      var p := ps[i];
      if p in baseline {
        if p !in disk.files || disk.files[p] != baseline[p] {
          residual := residual + [p];
        }
      } else if p in disk.files {
        residual := residual + [p];
      }
    }
    assert ps[..|ps|] == ps;
  }

  /** Compares preserved files by digest with how they were at HEAD. */
  method CheckPreserved(ps: seq<Path>, head: Tree, disk: Worktree, digest: Content -> string)
    returns (failure: Option<Failure>)
    requires forall p | p in ps :: p in head
    ensures failure == None <==> forall p | p in ps :: p in disk.files && digest(disk.files[p]) == digest(head[p])
  {
    for i := 0 to |ps|
      invariant forall p | p in ps[..i] :: p in disk.files && digest(disk.files[p]) == digest(head[p])
    {
      if ps[i] !in disk.files || digest(disk.files[ps[i]]) != digest(head[ps[i]]) {
        return Some(AuthorityDrift(ps[i]));
      }
    }
    return None;
  }

  method FirstAbsent(ps: seq<Path>, t: Tree) returns (failure: Option<Failure>)
    ensures failure == None <==> forall p | p in ps :: p in t
  {
    for i := 0 to |ps|
      invariant forall p | p in ps[..i] :: p in t
    {
      if ps[i] !in t {
        return Some(Absent(ps[i]));
      }
    }
    return None;
  }

  /** The P21 removal loop checks each artifact against the baseline just before unlinking it. */
  method RemoveArtifacts(ps: seq<Path>, baseline: Tree, disk: Worktree) returns (failure: Option<Failure>)
    modifies disk
    ensures failure == None <==>
            Distinct(ps) && forall p | p in ps :: p in old(disk.files) && p !in baseline
    ensures failure == None ==> disk.files == old(disk.files) - Elements(ps)
  {
    for i := 0 to |ps|
      invariant Distinct(ps[..i]) && forall p | p in ps[..i] :: p in old(disk.files) && p !in baseline
      invariant disk.files == old(disk.files) - Elements(ps[..i])
    {
      ghost var done := ps[..i];
      assert ps[..i + 1] == done + [ps[i]];
      if ps[i] !in disk.files {
        assert Distinct(ps) ==> ps[i] !in done;
        return Some(Absent(ps[i]));
      }
      if ps[i] in baseline {
        return Some(RemovedAtBaseline(ps[i]));
      }
      disk.Unlink(ps[i]);
      assert Elements(ps[..i + 1]) == Elements(done) + {ps[i]};
    }
    assert ps[..|ps|] == ps;
    return None;
  }

  /** The P21 script up to its last assertion: an error when a check fails, otherwise the residual it
      then requires to be empty. The worktree is rolled back in place. */
  method VerifyPathRollback(plan: PathPlan, baseline: Tree, disk: Worktree, digest: Content -> string)
    returns (r: Result<seq<Path>, Failure>)
    modifies disk
    ensures r.Ok? <==> PathPlanChecks(plan, baseline, old(disk.files), digest)
    ensures r.Ok? ==>
            && disk.files ==
               RolledBack(old(disk.files), baseline, Elements(plan.onlyArtifacts), Elements(plan.restored))
            && r.value == Residuals(plan.expectedChanged, disk.files, baseline)
  {
    var head := disk.files;
    if !Distinct(plan.expectedChanged) || Elements(plan.expectedChanged) != Changed(baseline, head) {
      return Err(ChangedPathsDiffer);
    }
    var failure := FirstAbsent(plan.preserved, head);
    if failure.Some? {
      return Err(failure.value);
    }
    failure := RemoveArtifacts(plan.onlyArtifacts, baseline, disk);
    if failure.Some? {
      return Err(failure.value);
    }
    failure := disk.RestoreAll(plan.restored, baseline);
    if failure.Some? {
      return Err(failure.value);
    }
    RemoveThenRestore(head, baseline, Elements(plan.onlyArtifacts), Elements(plan.restored));
    failure := CheckPreserved(plan.preserved, head, disk, digest);
    if failure.Some? {
      return Err(failure.value);
    }
    var residual := CollectResidual(plan.expectedChanged, disk, baseline);
    return Ok(residual);
  }

  lemma {:induction false} ResidualsComplete(ps: seq<Path>, t: Tree, baseline: Tree)
    ensures Residuals(ps, t, baseline) == [] <==> forall p | p in ps :: Agree(baseline, t, p)
  {
    if ps != [] {
      var k := |ps| - 1;
      ResidualsComplete(ps[..k], t, baseline);
    }
  }

  /** Once the P21 checks hold, an empty residual over the declared paths already means that the whole
      tree equals the baseline, and it is empty exactly when every changed path is listed. */
  lemma EmptyResidualIsWholeTree(plan: PathPlan, baseline: Tree, head: Tree, digest: Content -> string)
    requires PathPlanChecks(plan, baseline, head, digest)
    ensures var removed, restored := Elements(plan.onlyArtifacts), Elements(plan.restored);
      var t := RolledBack(head, baseline, removed, restored);
      && (Residuals(plan.expectedChanged, t, baseline) == [] <==> t == baseline)
      && (t == baseline <==> Changed(baseline, head) <= removed + restored)
  {
    var removed, restored := Elements(plan.onlyArtifacts), Elements(plan.restored);
    var t := RolledBack(head, baseline, removed, restored);
    var changed := Changed(baseline, head);
    ResidualsComplete(plan.expectedChanged, t, baseline);
    assert forall p :: p in plan.expectedChanged <==> p in Elements(plan.expectedChanged);
    forall p
      ensures p !in changed ==> Agree(t, baseline, p)
      ensures p in changed ==> (Agree(baseline, t, p) <==> p in removed + restored)
    {
      assert p in removed ==> p in changed;
    }
    if forall p | p in changed :: p in removed + restored {
      AgreeEverywhere(t, baseline);
    }
    assert t == baseline ==> forall p :: Agree(baseline, t, p);
  }

  predicate PathPlanRestores(plan: PathPlan, baseline: Tree, head: Tree, digest: Content -> string) {
    && PathPlanChecks(plan, baseline, head, digest)
    && RolledBack(head, baseline, Elements(plan.onlyArtifacts), Elements(plan.restored)) == baseline
  }

  /** Unlike P02, P21 can roll back any HEAD to any baseline, deleted files included. */
  lemma RestoringPlanExists(baseline: Tree, head: Tree, digest: Content -> string)
    ensures exists plan :: PathPlanRestores(plan, baseline, head, digest)
  {
    var changed := Listed(Changed(baseline, head));
    var added := Listed(head.Keys - baseline.Keys);
    var restored := Listed(baseline.Keys * Changed(baseline, head));
    var plan := PathPlan(changed, added, restored, []);
    assert PathPlanChecks(plan, baseline, head, digest);
    EmptyResidualIsWholeTree(plan, baseline, head, digest);
    assert PathPlanRestores(plan, baseline, head, digest);
  }

  // ----- P13: the worktree, within a declared scope -----

  datatype ScopePlan = ScopePlan(
    expected: set<Path>, onlyArtifacts: seq<Path>, restored: seq<Path>, preserved: seq<Path>)

  /** With no path to restrict it, the scope comparison covers the whole tree. */
  predicate ScopeMatches(expected: set<Path>, baseline: Tree, index: set<Path>, disk: Tree) {
    var differing := ChangedTracked(baseline, index, disk);
    if expected == {} then differing == {} else differing !! expected
  }

  predicate ScopePlanPasses(plan: ScopePlan, baseline: Tree, head: Tree, digest: Content -> string) {
    && plan.expected <= Changed(baseline, head)
    && (forall p | p in plan.preserved :: p in head)
    && Distinct(plan.onlyArtifacts) && Elements(plan.onlyArtifacts) <= head.Keys
    && Elements(plan.restored) <= baseline.Keys
    && var t := RolledBack(head, baseline, Elements(plan.onlyArtifacts), Elements(plan.restored));
       && (forall p | p in plan.preserved :: p in t && digest(t[p]) == digest(head[p]))
       && ChangedTracked(head, head.Keys, t) == plan.expected
       && ScopeMatches(plan.expected, baseline, head.Keys, t)
  }

  /** The P13 script. */
  method VerifyScopedRollback(plan: ScopePlan, baseline: Tree, disk: Worktree, digest: Content -> string)
    returns (failure: Option<Failure>)
    modifies disk
    ensures failure == None <==> ScopePlanPasses(plan, baseline, old(disk.files), digest)
    ensures failure == None ==>
            disk.files == RolledBack(old(disk.files), baseline, Elements(plan.onlyArtifacts), Elements(plan.restored))
  {
    var head := disk.files;
    if !(plan.expected <= Changed(baseline, head)) {
      return Some(ChangedPathsDiffer);
    }
    failure := FirstAbsent(plan.preserved, head);
    if failure.Some? {
      return;
    }
    failure := disk.RemoveAll(plan.onlyArtifacts);
    if failure.Some? {
      return;
    }
    failure := disk.RestoreAll(plan.restored, baseline);
    if failure.Some? {
      return;
    }
    RemoveThenRestore(head, baseline, Elements(plan.onlyArtifacts), Elements(plan.restored));
    failure := CheckPreserved(plan.preserved, head, disk, digest);
    if failure.Some? {
      return;
    }
    if ChangedTracked(head, head.Keys, disk.files) != plan.expected {
      return Some(MutationsDiffer);
    }
    if !ScopeMatches(plan.expected, baseline, head.Keys, disk.files) {
      return Some(ScopeDiffers);
    }
  }

  /** A passing P13 run has changed, among tracked paths, exactly the declared scope, and has brought it
      back to the baseline; outside it every tracked file is as at HEAD. */
  lemma ScopedRollbackFrame(plan: ScopePlan, baseline: Tree, head: Tree, digest: Content -> string, p: Path)
    requires ScopePlanPasses(plan, baseline, head, digest)
    ensures var t := RolledBack(head, baseline, Elements(plan.onlyArtifacts), Elements(plan.restored));
      && (p in plan.expected ==> p in head && Agree(baseline, t, p) && !Agree(head, t, p))
      && (p in head && p !in plan.expected ==> Agree(head, t, p))
  {
  }

  /** The two git comparisons do not see untracked files: the whole tree differs from HEAD on exactly
      the scope if and only if every restored path is tracked at HEAD. */
  lemma FrameNeedsTrackedPaths(plan: ScopePlan, baseline: Tree, head: Tree, digest: Content -> string)
    requires ScopePlanPasses(plan, baseline, head, digest)
    ensures var t := RolledBack(head, baseline, Elements(plan.onlyArtifacts), Elements(plan.restored));
      Changed(head, t) == plan.expected <==> Elements(plan.restored) <= head.Keys
  {
    var t := RolledBack(head, baseline, Elements(plan.onlyArtifacts), Elements(plan.restored));
    forall p ensures p in plan.expected ==> p in head && p in Changed(head, t)
             ensures p in head && p in Changed(head, t) ==> p in plan.expected
             ensures p !in head ==> (p in Changed(head, t) <==> p in Elements(plan.restored))
    {
    }
  }

  /** A run that passes and leaves an untracked file behind: one file was deleted since the baseline
      and another changed, the scope names only the second, and both are restored. */
  lemma UntrackedFileGoesUnnoticed(gone: Path, kept: Path, deleted: Content, before: Content, after: Content,
                                   digest: Content -> string)
    requires gone != kept && before != after
    ensures var baseline: Tree := map[gone := deleted, kept := before];
      var head: Tree := map[kept := after];
      var plan := ScopePlan({kept}, [], [gone, kept], []);
      && ScopePlanPasses(plan, baseline, head, digest)
      && gone in Changed(head, RolledBack(head, baseline, {}, Elements(plan.restored)))
  {
    assert Elements([gone, kept]) == {gone, kept} && Elements([]) == {};
  }

  /** The tracked paths that a plan changes: those removed and not restored, and those restored to
      different content. */
  function Mutated(removed: set<Path>, restored: set<Path>, baseline: Tree, head: Tree): set<Path> {
    (removed - restored) + restored * head.Keys * Changed(baseline, head)
  }

  lemma MutatedExactly(baseline: Tree, head: Tree, removed: set<Path>, restored: set<Path>, p: Path)
    requires removed <= head.Keys && restored <= baseline.Keys
    ensures var t := RolledBack(head, baseline, removed, restored);
      p in ChangedTracked(head, head.Keys, t) <==> p in Mutated(removed, restored, baseline, head)
  {
  }

  lemma PreservedExactly(baseline: Tree, head: Tree, removed: set<Path>, restored: set<Path>,
                         digest: Content -> string, p: Path)
    requires CollisionFree(digest, baseline, head)
    requires removed <= head.Keys && restored <= baseline.Keys && p in head
    ensures var t := RolledBack(head, baseline, removed, restored);
      p in t && digest(t[p]) == digest(head[p]) <==> p !in Mutated(removed, restored, baseline, head)
  {
    var t := RolledBack(head, baseline, removed, restored);
    if p in restored {
      assert t[p] == baseline[p] && baseline[p] in baseline.Values && head[p] in head.Values;
    }
  }

  lemma ScopeMatchesExactly(baseline: Tree, head: Tree, removed: set<Path>, restored: set<Path>)
    requires removed <= head.Keys && restored <= baseline.Keys
    ensures var t := RolledBack(head, baseline, removed, restored);
      var mutated := Mutated(removed, restored, baseline, head);
      ScopeMatches(mutated, baseline, head.Keys, t) <==>
      (removed - restored) !! baseline.Keys && (mutated == {} ==> Changed(baseline, head) == {})
  {
    var t := RolledBack(head, baseline, removed, restored);
    var mutated := Mutated(removed, restored, baseline, head);
    var differing := ChangedTracked(baseline, head.Keys, t);
    forall p | p in mutated ensures p in differing <==> p in removed - restored && p in baseline {
      StillDiffers(baseline, head, removed, restored, p);
    }
    forall p | p !in mutated ensures p in differing <==> p in Changed(baseline, head) {
      StillDiffers(baseline, head, removed, restored, p);
    }
  }

  lemma StillDiffers(baseline: Tree, head: Tree, removed: set<Path>, restored: set<Path>, p: Path)
    requires removed <= head.Keys && restored <= baseline.Keys
    ensures var t := RolledBack(head, baseline, removed, restored);
      p in ChangedTracked(baseline, head.Keys, t) <==>
      if p in Mutated(removed, restored, baseline, head) then p in removed - restored && p in baseline
      else p in Changed(baseline, head)
  {
  }

  /** P13 passes on exactly these plans: no removal is listed twice, all are tracked, every restored path
      is in the baseline; the scope consists of changed paths and is just what the plan mutates; nothing
      removed for good was in the baseline; preserved paths are tracked and outside the scope; and an empty
      scope needs an unchanged tree. */
  lemma ScopePlanPassesExactly(plan: ScopePlan, baseline: Tree, head: Tree, digest: Content -> string)
    requires CollisionFree(digest, baseline, head)
    ensures var removed, restored := Elements(plan.onlyArtifacts), Elements(plan.restored);
      ScopePlanPasses(plan, baseline, head, digest) <==>
      && Distinct(plan.onlyArtifacts) && removed <= head.Keys && restored <= baseline.Keys
      && plan.expected <= Changed(baseline, head)
      && plan.expected == Mutated(removed, restored, baseline, head)
      && (removed - restored) !! baseline.Keys
      && Elements(plan.preserved) <= head.Keys && Elements(plan.preserved) !! plan.expected
      && (plan.expected == {} ==> Changed(baseline, head) == {})
  {
    var removed, restored := Elements(plan.onlyArtifacts), Elements(plan.restored);
    if removed <= head.Keys && restored <= baseline.Keys && Elements(plan.preserved) <= head.Keys {
      var t := RolledBack(head, baseline, removed, restored);
      var mutated := Mutated(removed, restored, baseline, head);
      forall p ensures p in ChangedTracked(head, head.Keys, t) <==> p in mutated {
        MutatedExactly(baseline, head, removed, restored, p);
      }
      assert ChangedTracked(head, head.Keys, t) == mutated;
      forall p | p in plan.preserved
        ensures p in head && (p in t && digest(t[p]) == digest(head[p]) <==> p !in mutated)
      {
        assert p in Elements(plan.preserved);
        PreservedExactly(baseline, head, removed, restored, digest, p);
      }
      assert Elements(plan.preserved) !! mutated <==> forall p | p in plan.preserved :: p !in mutated by {
        assert forall p :: p in Elements(plan.preserved) <==> p in plan.preserved;
      }
      ScopeMatchesExactly(baseline, head, removed, restored);
    }
    hide Mutated, ChangedTracked, RolledBack, ScopeMatches, Changed;
    assert forall p :: p in Elements(plan.preserved) <==> p in plan.preserved;
  }

  /** Conversely a plan of the intended form passes: artifacts new since the baseline and restored
      tracked files that together are exactly the scope, and preserved files outside it. The one
      exception is the empty scope, whose comparison covers the whole tree. */
  lemma IntendedScopePlanPasses(plan: ScopePlan, baseline: Tree, head: Tree, digest: Content -> string)
    requires Distinct(plan.onlyArtifacts)
    requires forall p | p in plan.onlyArtifacts :: p in head && p !in baseline
    requires forall p | p in plan.restored :: p in head && p in baseline
    requires Elements(plan.onlyArtifacts) + Elements(plan.restored) == plan.expected
    requires plan.expected <= Changed(baseline, head)
    requires forall p | p in plan.preserved :: p in head && p !in plan.expected
    ensures ScopePlanPasses(plan, baseline, head, digest) <==> plan.expected != {} || Changed(baseline, head) == {}
  {
  }
}
