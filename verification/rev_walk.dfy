/** The server's history walk: a revision walk whose `next` can be capped at a number
    of calls, which only surfaces submodule errors for the first commit it yields, and
    which turns the current commit into modification data (its changes and parents). */
module RevWalk {
  import opened Wrappers
  import opened Exceptions
  import opened CommitChanges
  import GitRoot
  import Context

  /** The name of jgit's zero object id. */
  const ZeroId: string := "0000000000000000000000000000000000000000"

  /** `myNumberOfCommitsToVisit` when no limit was set. */
  const NoLimit: int := -1

  datatype Commit = Commit(id: string, parents: seq<string>)

  /** The walk: the commits jgit's walk will still yield, in its order, and the fields of
      the subclass. */
  datatype Walk = Walk(
    pending: seq<Commit>,
    nextCallCount: nat,
    current: Option<Commit>,
    numberOfCommitsToVisit: int)

  function NewWalk(pending: seq<Commit>): (w: Walk)
    ensures w.nextCallCount == 0 && w.current.None? && !ShouldLimitByNumberOfCommits(w)
  {
    Walk(pending, 0, None, NoLimit)
  }

  /** `limitByNumberOfCommits`. */
  function LimitByNumberOfCommits(w: Walk, n: int): (w': Walk)
    ensures w'.numberOfCommitsToVisit == n && w'.(numberOfCommitsToVisit := w.numberOfCommitsToVisit) == w
  {
    w.(numberOfCommitsToVisit := n)
  }

  predicate ShouldLimitByNumberOfCommits(w: Walk) {
    w.numberOfCommitsToVisit != NoLimit
  }

  /** `next`: takes jgit's next commit and counts the call; once the count passes a set
      limit, the commit taken is hidden. */
  function Next(w: Walk): (r: (Walk, Option<Commit>))
    ensures r.0.nextCallCount == w.nextCallCount + 1 && r.0.current == r.1
    ensures r.0.numberOfCommitsToVisit == w.numberOfCommitsToVisit
    ensures r.0.pending == if w.pending == [] then [] else w.pending[1..]
    ensures r.1.Some? <==> (w.pending != []
                          && (!ShouldLimitByNumberOfCommits(w) || w.nextCallCount + 1 <= w.numberOfCommitsToVisit))
    ensures r.1.Some? ==> r.1.value == w.pending[0]
  {
    var taken := if w.pending == [] then None else Some(w.pending[0]);
    var rest := if w.pending == [] then [] else w.pending[1..];
    var count := w.nextCallCount + 1;
    var current :=
      if taken.Some? && ShouldLimitByNumberOfCommits(w) && count > w.numberOfCommitsToVisit then None else taken;
    (w.(pending := rest, nextCallCount := count, current := current), current)
  }

  /** `n` calls of `next`, with what each returned. */
  function Calls(w: Walk, n: nat): (r: (Walk, seq<Option<Commit>>))
    ensures |r.1| == n && r.0.nextCallCount == w.nextCallCount + n
    ensures r.0.numberOfCommitsToVisit == w.numberOfCommitsToVisit
    decreases n
  {
    if n == 0 then (w, [])
    else
      var (w1, c) := Next(w);
      var (w2, cs) := Calls(w1, n - 1);
      (w2, [c] + cs)
  }

  /** The commits among the results, in order. */
  function Yielded(cs: seq<Option<Commit>>): seq<Commit> {
    if cs == [] then [] else (if cs[0].Some? then [cs[0].value] else []) + Yielded(cs[1..])
  }

  function Min(a: int, b: int): int {
    if a < b then a else b
  }

  /** With a limit set, the walk yields at most as many commits as calls remain under the
      limit: a walk limited to `N` from the start yields at most `N` commits. */
  lemma {:induction false} LimitBoundsYield(w: Walk, n: nat)
    requires ShouldLimitByNumberOfCommits(w)
    ensures |Yielded(Calls(w, n).1)| <= if w.numberOfCommitsToVisit <= w.nextCallCount then 0
                                       else w.numberOfCommitsToVisit - w.nextCallCount
    decreases n
  {
    if n > 0 {
      var (w1, c) := Next(w);
      LimitBoundsYield(w1, n - 1);
      assert Calls(w, n).1 == [c] + Calls(w1, n - 1).1;
      assert Calls(w, n).1[1..] == Calls(w1, n - 1).1;
    }
  }

  lemma YieldedCons(c: Option<Commit>, cs: seq<Option<Commit>>)
    ensures Yielded([c] + cs) == (if c.Some? then [c.value] else []) + Yielded(cs)
  {
    assert ([c] + cs)[1..] == cs;
  }

  /** Without a limit, the walk yields exactly jgit's commits, in jgit's order. */
  lemma {:induction false} NoLimitYieldsAll(w: Walk, n: nat)
    requires !ShouldLimitByNumberOfCommits(w)
    ensures Yielded(Calls(w, n).1) == w.pending[..Min(n, |w.pending|)]
    decreases n
  {
    if n > 0 {
      var (w1, c) := Next(w);
      NoLimitYieldsAll(w1, n - 1);
      var rest := Calls(w1, n - 1).1;
      assert Calls(w, n).1 == [c] + rest;
      YieldedCons(c, rest);
      if w.pending != [] {
        assert w.pending[..Min(n, |w.pending|)] == [w.pending[0]] + w1.pending[..Min(n - 1, |w1.pending|)];
      }
    }
  }

  /** `shouldIgnoreSubmodulesErrors`: every commit but the first yielded ignores submodule
      errors. */
  predicate ShouldIgnoreSubmodulesErrors(w: Walk) {
    w.nextCallCount > 1
  }

  /** On a fresh walk, the first call's commit surfaces submodule errors, and every later
      call's commit ignores them. */
  lemma OnlyFirstCommitSurfacesErrors(pending: seq<Commit>, limit: int, n: nat)
    requires n >= 1
    ensures var w := Calls(LimitByNumberOfCommits(NewWalk(pending), limit), n).0;
            ShouldIgnoreSubmodulesErrors(w) <==> n > 1
  {
  }

  /** `getFirstParentVersion`. */
  function FirstParentVersion(c: Commit): (v: string)
    ensures c.parents != [] ==> v == c.parents[0]
    ensures c.parents == [] ==> v == ZeroId
  {
    if c.parents == [] then ZeroId else c.parents[0]
  }

  /** The parent revisions recorded in the modification data. */
  function ParentRevisions(c: Commit): (ps: seq<string>)
    ensures c.parents != [] ==> ps == c.parents
    ensures c.parents == [] ==> ps == [ZeroId]
  {
    if c.parents == [] then [ZeroId] else c.parents
  }

  /** The first recorded parent revision is always the first-parent version. */
  lemma FirstParentIsFirstRecorded(c: Commit)
    ensures ParentRevisions(c) != [] && ParentRevisions(c)[0] == FirstParentVersion(c)
  {
  }

  /** A tree added to the change walk, and whether its submodule errors are ignored. */
  datatype Tree = Tree(commit: string, ignoreSubmoduleErrors: bool)

  /** The trees `getCommitChanges` adds: the commit's own, then each parent's with errors
      ignored. */
  function ChangeTrees(w: Walk, c: Commit): (ts: seq<Tree>)
    ensures |ts| == |c.parents| + 1
    ensures ts[0] == Tree(c.id, ShouldIgnoreSubmodulesErrors(w))
    ensures forall i :: 1 <= i < |ts| ==> ts[i] == Tree(c.parents[i - 1], true)
  {
    [Tree(c.id, ShouldIgnoreSubmodulesErrors(w))]
      + seq(|c.parents|, i requires 0 <= i < |c.parents| => Tree(c.parents[i], true))
  }

  /** What `createModificationData` reports. */
  datatype ModificationData = ModificationData(
    version: string,
    changes: seq<VcsChange>,
    parentRevisions: seq<string>)

  /** The repository and settings behind the walk. jgit's reading of objects is given:
      each part says what it yields, or which exception it throws. */
  datatype Repository = Repository(
    history: History,
    parseBody: string -> Option<Exception>,       // the IOException of parsing a commit's body, or none
    submoduleError: string -> Option<Exception>,  // what the submodule-aware iterator of a commit's tree throws
                                                  // when its submodule errors are not ignored, or none
    walkEntries: seq<Tree> -> Result<seq<WalkEntry>, Exception>,  // the filtered change walk over those trees
    searchError: string -> Option<Exception>,     // the IOException of the fix-up search from a commit, or none
    policy: GitRoot.SubmodulesCheckoutPolicy,    // the root's submodule checkout policy
    searchDepth: int)

  predicate CheckoutSubmodules(repo: Repository) {
    GitRoot.IsCheckoutSubmodules(repo.policy)
  }

  const NoCurrentCommit := Exception(IllegalState, Some("Current commit is null"), None)

  /** Whether `addTree` throws for this tree: its iterator runs with the root's policy, made
      error-ignoring when the tree ignores errors, and throws when that policy surfaces
      errors and the commit has an unresolvable submodule. */
  predicate TreeThrows(repo: Repository, t: Tree) {
    Context.SurfacesSubmoduleErrors(Context.PolicyWithErrorsIgnored(repo.policy, t.ignoreSubmoduleErrors))
    && repo.submoduleError(t.commit).Some?
  }

  /** `addTree` for each tree in turn: only a tree whose submodule errors are not ignored, of
      a root whose policy is CHECKOUT or NON_RECURSIVE_CHECKOUT, throws, and it throws the
      error of its commit's submodules. */
  function AddTreesFailure(repo: Repository, ts: seq<Tree>): (r: Option<Exception>)
    ensures r.Some? ==> exists i :: 0 <= i < |ts| && !ts[i].ignoreSubmoduleErrors
                                    && Context.SurfacesSubmoduleErrors(repo.policy)
                                    && repo.submoduleError(ts[i].commit) == r
    ensures r.None? <==> forall i :: 0 <= i < |ts| ==> !TreeThrows(repo, ts[i])
    decreases |ts|
  {
    if ts == [] then None
    else if TreeThrows(repo, ts[0]) then repo.submoduleError(ts[0].commit)
    else
      var rest := AddTreesFailure(repo, ts[1..]);
      assert forall i :: 1 <= i < |ts| ==> ts[i] == ts[1..][i - 1];
      rest
  }

  /** The first exception among `parseBody` of the given commits, in order. */
  function ParseFailure(repo: Repository, ids: seq<string>): (r: Option<Exception>)
    ensures r.None? <==> forall i :: 0 <= i < |ids| ==> repo.parseBody(ids[i]).None?
    ensures r.Some? ==> exists i :: 0 <= i < |ids| && repo.parseBody(ids[i]) == r
    decreases |ids|
  {
    if ids == [] then None
    else if repo.parseBody(ids[0]).Some? then repo.parseBody(ids[0])
    else
      var rest := ParseFailure(repo, ids[1..]);
      assert forall i :: 1 <= i < |ids| ==> ids[i] == ids[1..][i - 1];
      rest
  }

  lemma {:induction false} ParseFailureReadsParseBody(repo: Repository, repo': Repository, ids: seq<string>)
    requires repo'.parseBody == repo.parseBody
    ensures ParseFailure(repo, ids) == ParseFailure(repo', ids)
    decreases |ids|
  {
    if ids != [] {
      ParseFailureReadsParseBody(repo, repo', ids[1..]);
    }
  }

  predicate HasBrokenEntry(es: seq<WalkEntry>) {
    exists i :: 0 <= i < |es| && es[i].kind.Broken?
  }

  /** The change walk of a commit: against its first parent, with the root's settings. */
  function ChangeWalkOf(repo: Repository, c: Commit): ChangeWalk {
    ChangeWalk(repo.history, c.id, c.id, FirstParentVersion(c), CheckoutSubmodules(repo), repo.searchDepth)
  }

  /** Whether the fix-up search fails: it runs only for a broken submodule entry of a root
      that checks out submodules, and does not read the history when the depth is zero. */
  predicate SearchFails(repo: Repository, c: Commit, es: seq<WalkEntry>) {
    CheckoutSubmodules(repo) && HasBrokenEntry(es) && repo.searchDepth != 0 && repo.searchError(c.id).Some?
  }

  /** `getCommitChanges`: the trees are added, walked and routed; the first failure ends it. */
  function CommitChangesOf(w: Walk, repo: Repository, c: Commit): (r: Result<seq<VcsChange>, Exception>)
    ensures r.Ok? ==> AddTreesFailure(repo, ChangeTrees(w, c)).None? && repo.walkEntries(ChangeTrees(w, c)).Ok?
  {
    var trees := ChangeTrees(w, c);
    var added := AddTreesFailure(repo, trees);
    if added.Some? then Err(added.value)
    else
      var es :- repo.walkEntries(trees);
      if SearchFails(repo, c, es) then Err(repo.searchError(c.id).value)
      else GetCommitChanges(ChangeWalkOf(repo, c), es)
  }

  /** `createModificationData`: the first parent is parsed, the changes are collected, and
      every parent is parsed and recorded; any of them may throw. */
  function CreateModificationData(w: Walk, repo: Repository): (r: Result<ModificationData, Exception>)
    ensures w.current.None? ==> r == Err(NoCurrentCommit)
    ensures r.Ok? ==> w.current.Some?
                      && r.value.version == w.current.value.id
                      && r.value.parentRevisions == ParentRevisions(w.current.value)
                      && ParseFailure(repo, w.current.value.parents).None?
  {
    if w.current.None? then Err(NoCurrentCommit)
    else
      var c := w.current.value;
      var first := if c.parents == [] then None else repo.parseBody(c.parents[0]);
      if first.Some? then Err(first.value)
      else
        var changes :- CommitChangesOf(w, repo, c);
        var parsed := ParseFailure(repo, c.parents);
        if parsed.Some? then Err(parsed.value)
        else Ok(ModificationData(c.id, changes, ParentRevisions(c)))
  }

  /** The data is produced exactly when there is a current commit, every parent parses,
      adding the trees throws no submodule error, the change walk succeeds, the fix-up
      search, when it runs, succeeds, and so does every second walk against a fix-up commit. */
  lemma ModificationDataOkIff(w: Walk, repo: Repository)
    requires w.current.Some?
    ensures var c := w.current.value;
            var trees := ChangeTrees(w, c);
            CreateModificationData(w, repo).Ok?
            <==> (ParseFailure(repo, c.parents).None?
                  && AddTreesFailure(repo, trees).None?
                  && repo.walkEntries(trees).Ok?
                  && !SearchFails(repo, c, repo.walkEntries(trees).value)
                  && DiffsSucceed(ChangeWalkOf(repo, c), repo.walkEntries(trees).value))
  {
  }

  /** After the first commit, submodule errors never surface: the commit's data is the same
      whatever its submodules' errors are. */
  lemma LaterCommitsIgnoreSubmoduleErrors(w: Walk, repo: Repository, errors: string -> Option<Exception>)
    requires ShouldIgnoreSubmodulesErrors(w)
    ensures CreateModificationData(w, repo) == CreateModificationData(w, repo.(submoduleError := errors))
  {
    if w.current.Some? {
      var c := w.current.value;
      var repo' := repo.(submoduleError := errors);
      var trees := ChangeTrees(w, c);
      assert AddTreesFailure(repo, trees).None? && AddTreesFailure(repo', trees).None?;
      assert CommitChangesOf(w, repo, c) == CommitChangesOf(w, repo', c);
      ParseFailureReadsParseBody(repo, repo', c.parents);
    }
  }

  /** A root whose policy ignores submodule errors (CHECKOUT_IGNORING_ERRORS,
      NON_RECURSIVE_CHECKOUT_IGNORING_ERRORS, or IGNORE) never surfaces them, not even on the
      first commit: the data is the same whatever its submodules' errors are. */
  lemma IgnoringPolicyIgnoresSubmoduleErrors(w: Walk, repo: Repository, errors: string -> Option<Exception>)
    requires !Context.SurfacesSubmoduleErrors(repo.policy)
    ensures CreateModificationData(w, repo) == CreateModificationData(w, repo.(submoduleError := errors))
  {
    if w.current.Some? {
      var c := w.current.value;
      var repo' := repo.(submoduleError := errors);
      var trees := ChangeTrees(w, c);
      assert AddTreesFailure(repo, trees).None? && AddTreesFailure(repo', trees).None?;
      assert CommitChangesOf(w, repo, c) == CommitChangesOf(w, repo', c);
      ParseFailureReadsParseBody(repo, repo', c.parents);
    }
  }

  /** On the first commit, for a root whose policy is CHECKOUT or NON_RECURSIVE_CHECKOUT, an
      unresolvable submodule of the commit's tree fails the data with that error once the
      first parent parses. */
  lemma FirstCommitSurfacesSubmoduleError(w: Walk, repo: Repository)
    requires w.current.Some? && !ShouldIgnoreSubmodulesErrors(w) && Context.SurfacesSubmoduleErrors(repo.policy)
    requires repo.submoduleError(w.current.value.id).Some?
    requires w.current.value.parents == [] || repo.parseBody(w.current.value.parents[0]).None?
    ensures CreateModificationData(w, repo) == Err(repo.submoduleError(w.current.value.id).value)
  {
    assert TreeThrows(repo, ChangeTrees(w, w.current.value)[0]);
  }

  /** Every change of the modification data is at the commit's version, against its first
      parent (the zero id for a root commit) or a commit the fix-up search found. */
  lemma ModificationDataChanges(w: Walk, repo: Repository)
    requires w.current.Some?
    ensures var c := w.current.value;
            var r := CreateModificationData(w, repo);
            r.Ok? ==> forall ch :: ch in r.value.changes ==>
                        ch.version == c.id
                        && (ch.beforeVersion == FirstParentVersion(c) || FoundBySearch(ChangeWalkOf(repo, c), ch.beforeVersion))
  {
    var c := w.current.value;
    var trees := ChangeTrees(w, c);
    if CreateModificationData(w, repo).Ok? {
      ChangesAreAgainstParentOrFix(ChangeWalkOf(repo, c), repo.walkEntries(trees).value, map[]);
    }
  }
}
