/** The agent's local mirror cache: before a checkout, the bare mirror of the
    repository is (re)created when needed and fetched only when it lacks what the
    build needs, each fetch retried once on a freshly created mirror; the working
    directory is pointed at the mirror; in shallow mode the build commit is fetched
    through a temporary branch; and each submodule gets a mirror of its own. */
module MirrorUpdate {
  import opened Wrappers
  import opened Text
  import opened Exceptions
  import SubmoduleList

  /** A mirror directory: missing, present but not a git repository, or a bare repository
      with its `origin` URL, refs (name to commit id) and commits. */
  datatype Mirror =
    | Missing
    | Invalid
    | Repo(origin: Option<string>, refs: map<string, string>, objects: set<string>)

  /** What the updater does to directories, in order. */
  datatype Action =
    | Delete(dir: string)
    | MakeDirs(dir: string)
    | InitBare(dir: string)
    | AddRemote(dir: string, name: string, url: string)
    | RemoveOutdatedRefs(dir: string)
    | RemoveRefLocks(dir: string)
    | Fetch(dir: string, refspec: Option<string>, shallow: bool)
    | CreateBranch(dir: string, name: string, startPoint: string)
    | DeleteBranch(dir: string, name: string)
    | SetConfig(dir: string, property: string, value: string)
    | SubmoduleInit(dir: string)
    | SubmoduleSync(dir: string)
    | SubmoduleUpdate(dir: string)
    | DefaultEnsureCommitLoaded

  /** The git operations the updater relies on but that are not part of this model. */
  datatype Git = Git(
    expandRef: string -> string,                                  // GitUtils.expandRef
    createRemoteRef: string -> string,                            // GitUtils.createRemoteRef
    removeOutdatedRefs: Mirror -> (Mirror, bool),                  // the cleaned mirror, and whether any ref was removed
    fetch: (Mirror, Option<string>, bool) -> Result<Mirror, Exception>,
    fetchInto: (string, Option<string>, bool) -> Option<Exception>,   // a fetch into a working directory
    mirrorDirOf: string -> string,                                 // MirrorManager.getMirrorDir
    localMirrorUrl: string -> string)                              // the file URI of a directory

  /** The remote every mirror fetches from. */
  const Origin := "origin"

  /** The refspec of the fallback fetch: every branch. */
  const AllHeads := "+refs/heads/*:refs/heads/*"

  /** A mirror just created: a bare repository whose only remote is `origin`. */
  function Created(fetchUrl: string): Mirror {
    Repo(Some(fetchUrl), map[], {})
  }

  function CreateActions(dir: string, fetchUrl: string): seq<Action> {
    [MakeDirs(dir), InitBare(dir), AddRemote(dir, Origin, fetchUrl)]
  }

  /** `getRef`: the commit a ref points at, if the mirror has that ref. */
  function RefOf(m: Mirror, name: string): Option<string> {
    if m.Repo? && name in m.refs then Some(m.refs[name]) else None
  }

  /** `hasRevision`. */
  predicate HasRevision(m: Mirror, revision: string) {
    m.Repo? && revision in m.objects
  }

  /** What a fetch of the mirror leaves: the mirror, the actions taken, and the failure
      that reaches the caller, if any. */
  datatype Step = Step(mirror: Mirror, actions: seq<Action>, error: Option<Exception>)

  /** `fetchMirror`: clears ref locks, fetches; when the fetch fails with a VcsException,
      deletes the mirror, creates it afresh and fetches once more, and a second failure
      reaches the caller. */
  function FetchMirror(git: Git, dir: string, m: Mirror, refspec: Option<string>, fetchUrl: string, shallow: bool)
    : (s: Step)
    ensures |s.actions| >= 2 && s.actions[0] == RemoveRefLocks(dir) && s.actions[1] == Fetch(dir, refspec, shallow)
    ensures git.fetch(m, refspec, shallow).Ok? ==>
              s == Step(git.fetch(m, refspec, shallow).value, [RemoveRefLocks(dir), Fetch(dir, refspec, shallow)], None)
    ensures git.fetch(m, refspec, shallow).Err? && !IsVcs(git.fetch(m, refspec, shallow).error) ==>
              s == Step(m, [RemoveRefLocks(dir), Fetch(dir, refspec, shallow)], Some(git.fetch(m, refspec, shallow).error))
  {
    var first := [RemoveRefLocks(dir), Fetch(dir, refspec, shallow)];
    match git.fetch(m, refspec, shallow)
    case Ok(m1) => Step(m1, first, None)
    case Err(e) =>
      if !IsVcs(e) then Step(m, first, Some(e))
      else
        var retry := first + [Delete(dir)] + CreateActions(dir, fetchUrl) + [Fetch(dir, refspec, shallow)];
        match git.fetch(Created(fetchUrl), refspec, shallow)
        case Ok(m2) => Step(m2, retry, None)
        case Err(e2) => Step(Created(fetchUrl), retry, Some(e2))
  }

  function ErrorOf(r: Result<Mirror, Exception>): Option<Exception> {
    if r.Err? then Some(r.error) else None
  }

  /** The number of fetches among the actions. */
  function FetchCount(acts: seq<Action>): (n: nat)
    ensures n <= |acts|
  {
    if acts == [] then 0 else (if acts[0].Fetch? then 1 else 0) + FetchCount(acts[1..])
  }

  /** The number of `fetchMirror` calls among the actions: each begins by clearing locks. */
  function FetchMirrorCalls(acts: seq<Action>): (n: nat)
    ensures n <= |acts|
  {
    if acts == [] then 0 else (if acts[0].RemoveRefLocks? then 1 else 0) + FetchMirrorCalls(acts[1..])
  }

  lemma {:induction false} CountsAdd(a: seq<Action>, b: seq<Action>)
    ensures FetchCount(a + b) == FetchCount(a) + FetchCount(b)
    ensures FetchMirrorCalls(a + b) == FetchMirrorCalls(a) + FetchMirrorCalls(b)
    decreases |a|
  {
    if a == [] {
      assert a + b == b;
    } else {
      CountsAdd(a[1..], b);
      assert (a + b)[1..] == a[1..] + b;
    }
  }

  lemma CountsCons(x: Action, rest: seq<Action>)
    ensures FetchCount([x] + rest) == (if x.Fetch? then 1 else 0) + FetchCount(rest)
    ensures FetchMirrorCalls([x] + rest) == (if x.RemoveRefLocks? then 1 else 0) + FetchMirrorCalls(rest)
  {
    assert ([x] + rest)[1..] == rest;
  }

  /** The actions of a `fetchMirror` call whose first fetch succeeds or fails for good. */
  lemma FirstAttemptActions(dir: string, refspec: Option<string>, shallow: bool)
    ensures var acts := [RemoveRefLocks(dir), Fetch(dir, refspec, shallow)];
            FetchMirrorCalls(acts) == 1 && FetchCount(acts) == 1
  {
    CountsCons(Fetch(dir, refspec, shallow), []);
    CountsCons(RemoveRefLocks(dir), [Fetch(dir, refspec, shallow)]);
  }

  /** The actions of a `fetchMirror` call that retries. */
  lemma RetryActions(dir: string, refspec: Option<string>, shallow: bool, fetchUrl: string)
    ensures var acts := [RemoveRefLocks(dir), Fetch(dir, refspec, shallow)] + [Delete(dir)]
                        + CreateActions(dir, fetchUrl) + [Fetch(dir, refspec, shallow)];
            FetchMirrorCalls(acts) == 1 && FetchCount(acts) == 2
            && acts[2..6] == [Delete(dir), MakeDirs(dir), InitBare(dir), AddRemote(dir, Origin, fetchUrl)]
  {
    var f := Fetch(dir, refspec, shallow);
    var tail := [Delete(dir), MakeDirs(dir), InitBare(dir), AddRemote(dir, Origin, fetchUrl), f];
    CountsCons(f, []);
    CountsCons(AddRemote(dir, Origin, fetchUrl), [f]);
    CountsCons(InitBare(dir), tail[3..]);
    CountsCons(MakeDirs(dir), tail[2..]);
    CountsCons(Delete(dir), tail[1..]);
    CountsCons(f, tail);
    CountsCons(RemoveRefLocks(dir), [f] + tail);
    assert [RemoveRefLocks(dir), f] + [Delete(dir)] + CreateActions(dir, fetchUrl) + [f] == [RemoveRefLocks(dir)] + ([f] + tail);
  }

  /** One `fetchMirror` call fetches once, or twice when the first fetch fails with a
      VcsException; both fetches use the same refspec and shallow flag, and the retry
      runs on a mirror recreated with `origin` set to the fetch URL. */
  lemma FetchMirrorRetriesOnce(git: Git, dir: string, m: Mirror, refspec: Option<string>, fetchUrl: string, shallow: bool)
    ensures var s := FetchMirror(git, dir, m, refspec, fetchUrl, shallow);
            FetchMirrorCalls(s.actions) == 1
            && (FetchCount(s.actions) == 2 <==> git.fetch(m, refspec, shallow).Err? && IsVcs(git.fetch(m, refspec, shallow).error))
            && FetchCount(s.actions) <= 2
            && (forall i :: 0 <= i < |s.actions| && s.actions[i].Fetch? ==> s.actions[i] == Fetch(dir, refspec, shallow))
            && (FetchCount(s.actions) == 2 ==>
                  s.actions[2..6] == [Delete(dir), MakeDirs(dir), InitBare(dir), AddRemote(dir, Origin, fetchUrl)]
                  && s.error == ErrorOf(git.fetch(Created(fetchUrl), refspec, shallow)))
  {
    var e := git.fetch(m, refspec, shallow);
    if e.Err? && IsVcs(e.error) {
      RetryActions(dir, refspec, shallow, fetchUrl);
    } else {
      FirstAttemptActions(dir, refspec, shallow);
    }
  }

  /** The refspec of the first fetch: none (the remote's default) without a branch name,
      else the branch forced onto its expanded name. */
  function FirstRefspec(git: Git, branchName: Option<string>): Option<string> {
    if branchName.None? then None else Some("+" + branchName.value + ":" + git.expandRef(branchName.value))
  }

  /** The mirror before the first fetch, the actions that got it there, and whether the
      first fetch is required. */
  datatype Prepared = Prepared(mirror: Mirror, actions: seq<Action>, fetchRequired: bool)

  /** The checks of `updateLocalMirror` before any fetch: a directory that is not a git
      repository is deleted; a missing one is created bare with `origin`; an existing one
      loses its outdated refs and needs no fetch when none were outdated and the root's
      branch already points at the revision; a branch the mirror lacks forces the fetch. */
  function Prepare(git: Git, dir: string, m: Mirror, rootRef: string, fetchUrl: string,
                   branchName: Option<string>, revision: string): (p: Prepared)
    ensures !m.Repo? ==> p.mirror == Created(fetchUrl) && p.fetchRequired
                         && p.actions == [Delete(dir)] + CreateActions(dir, fetchUrl)
    ensures m.Repo? ==> p.mirror == git.removeOutdatedRefs(m).0 && p.actions == [RemoveOutdatedRefs(dir)]
  {
    var deleted := if m.Repo? then m else Missing;
    var before := if m.Repo? then [] else [Delete(dir)];
    var (m1, acts, required) :=
      if deleted.Missing? then (Created(fetchUrl), CreateActions(dir, fetchUrl), true)
      else
        var (cleaned, outdatedFound) := git.removeOutdatedRefs(deleted);
        var current := !outdatedFound && RefOf(cleaned, git.expandRef(rootRef)) == Some(revision);
        (cleaned, [RemoveOutdatedRefs(dir)], !current);
    var required' := required || (branchName.Some? && RefOf(m1, branchName.value).None?);
    Prepared(m1, before + acts, required')
  }

  /** The reference for skipping the first fetch: the mirror is a repository, no ref of it
      was outdated, the root's branch (`getRef` of the root, for submodule mirrors too)
      already points at the revision, and the requested branch, if any, is there. */
  predicate UpToDate(git: Git, m: Mirror, rootRef: string, branchName: Option<string>, revision: string) {
    m.Repo?
    && var (cleaned, outdatedFound) := git.removeOutdatedRefs(m);
       !outdatedFound && RefOf(cleaned, git.expandRef(rootRef)) == Some(revision)
       && (branchName.None? || RefOf(cleaned, branchName.value).Some?)
  }

  lemma FetchRequiredUnlessUpToDate(git: Git, dir: string, m: Mirror, rootRef: string, fetchUrl: string,
                                    branchName: Option<string>, revision: string)
    ensures Prepare(git, dir, m, rootRef, fetchUrl, branchName, revision).fetchRequired
            <==> !UpToDate(git, m, rootRef, branchName, revision)
  {
    if !m.Repo? && branchName.Some? {
      assert RefOf(Created(fetchUrl), branchName.value).None?;
    }
  }

  /** The first stage: the first fetch when required. */
  function FirstStage(git: Git, dir: string, p: Prepared, fetchUrl: string, branchName: Option<string>): (s: Step)
    ensures !p.fetchRequired ==> s == Step(p.mirror, [], None)
    ensures p.fetchRequired ==> s == FetchMirror(git, dir, p.mirror, FirstRefspec(git, branchName), fetchUrl, false)
  {
    if p.fetchRequired then FetchMirror(git, dir, p.mirror, FirstRefspec(git, branchName), fetchUrl, false)
    else Step(p.mirror, [], None)
  }

  /** `updateLocalMirror(dir, name, fetchUrl, branchName, revision)` with the root's branch
      `rootRef`: the checks, the first fetch when required, and, unless the revision is then
      present, one fetch of every branch. No check follows that last fetch. */
  function UpdateLocalMirror(git: Git, dir: string, m: Mirror, rootRef: string, fetchUrl: string,
                             branchName: Option<string>, revision: string): (s: Step)
    ensures var p := Prepare(git, dir, m, rootRef, fetchUrl, branchName, revision);
            |p.actions| <= |s.actions| && s.actions[..|p.actions|] == p.actions
    ensures FetchMirrorCalls(s.actions) <= 2 && FetchCount(s.actions) <= 4
    ensures s.error.Some? ==> FetchMirrorCalls(s.actions) >= 1
  {
    var p := Prepare(git, dir, m, rootRef, fetchUrl, branchName, revision);
    var s1 := FirstStage(git, dir, p, fetchUrl, branchName);
    PrepareFetchesNothing(git, dir, m, rootRef, fetchUrl, branchName, revision);
    FirstStageCalls(git, dir, p, fetchUrl, branchName);
    CountsAdd(p.actions, s1.actions);
    if s1.error.Some? then Step(s1.mirror, p.actions + s1.actions, s1.error)
    else if HasRevision(s1.mirror, revision) then Step(s1.mirror, p.actions + s1.actions, None)
    else
      var s2 := FetchMirror(git, dir, s1.mirror, Some(AllHeads), fetchUrl, false);
      FetchMirrorRetriesOnce(git, dir, s1.mirror, Some(AllHeads), fetchUrl, false);
      CountsAdd(p.actions + s1.actions, s2.actions);
      assert (p.actions + s1.actions + s2.actions)[..|p.actions|] == p.actions;
      Step(s2.mirror, p.actions + s1.actions + s2.actions, s2.error)
  }

  /** The checks before the first fetch call `fetchMirror` nowhere. */
  lemma PrepareFetchesNothing(git: Git, dir: string, m: Mirror, rootRef: string, fetchUrl: string,
                              branchName: Option<string>, revision: string)
    ensures var p := Prepare(git, dir, m, rootRef, fetchUrl, branchName, revision);
            FetchMirrorCalls(p.actions) == 0 && FetchCount(p.actions) == 0
  {
    var p := Prepare(git, dir, m, rootRef, fetchUrl, branchName, revision);
    if m.Repo? {
      CountsCons(RemoveOutdatedRefs(dir), []);
    } else {
      CountsCons(AddRemote(dir, Origin, fetchUrl), []);
      CountsCons(InitBare(dir), [AddRemote(dir, Origin, fetchUrl)]);
      CountsCons(MakeDirs(dir), [InitBare(dir), AddRemote(dir, Origin, fetchUrl)]);
      CountsCons(Delete(dir), CreateActions(dir, fetchUrl));
    }
  }

  lemma FirstStageCalls(git: Git, dir: string, p: Prepared, fetchUrl: string, branchName: Option<string>)
    ensures var s1 := FirstStage(git, dir, p, fetchUrl, branchName);
            FetchMirrorCalls(s1.actions) == (if p.fetchRequired then 1 else 0)
            && FetchCount(s1.actions) <= 2
  {
    if p.fetchRequired {
      FetchMirrorRetriesOnce(git, dir, p.mirror, FirstRefspec(git, branchName), fetchUrl, false);
    }
  }

  /** An update calls `fetchMirror` at most twice, so it fetches at most four times; the
      second call happens exactly when the first stage succeeded and left the revision
      missing. */
  lemma AtMostTwoFetchMirrorCalls(git: Git, dir: string, m: Mirror, rootRef: string, fetchUrl: string,
                                  branchName: Option<string>, revision: string)
    ensures var s := UpdateLocalMirror(git, dir, m, rootRef, fetchUrl, branchName, revision);
            var p := Prepare(git, dir, m, rootRef, fetchUrl, branchName, revision);
            var s1 := FirstStage(git, dir, p, fetchUrl, branchName);
            FetchMirrorCalls(s.actions) <= 2 && FetchCount(s.actions) <= 4
            && (FetchMirrorCalls(s.actions) == (if p.fetchRequired then 1 else 0) + 1
                <==> s1.error.None? && !HasRevision(s1.mirror, revision))
  {
    var p := Prepare(git, dir, m, rootRef, fetchUrl, branchName, revision);
    var s1 := FirstStage(git, dir, p, fetchUrl, branchName);
    PrepareFetchesNothing(git, dir, m, rootRef, fetchUrl, branchName, revision);
    FirstStageCalls(git, dir, p, fetchUrl, branchName);
    CountsAdd(p.actions, s1.actions);
    if s1.error.None? && !HasRevision(s1.mirror, revision) {
      var s2 := FetchMirror(git, dir, s1.mirror, Some(AllHeads), fetchUrl, false);
      FetchMirrorRetriesOnce(git, dir, s1.mirror, Some(AllHeads), fetchUrl, false);
      CountsAdd(p.actions + s1.actions, s2.actions);
    }
  }

  /** A directory that is not a git repository is deleted first, then created bare with
      the single remote `origin` at the fetch URL, and the first fetch follows. */
  lemma InvalidMirrorRecreated(git: Git, dir: string, m: Mirror, rootRef: string, fetchUrl: string,
                               branchName: Option<string>, revision: string)
    requires !m.Repo?
    ensures var acts := UpdateLocalMirror(git, dir, m, rootRef, fetchUrl, branchName, revision).actions;
            |acts| >= 6
            && acts[..4] == [Delete(dir), MakeDirs(dir), InitBare(dir), AddRemote(dir, Origin, fetchUrl)]
            && acts[4] == RemoveRefLocks(dir) && acts[5] == Fetch(dir, FirstRefspec(git, branchName), false)
  {
    var p := Prepare(git, dir, m, rootRef, fetchUrl, branchName, revision);
    var s1 := FirstStage(git, dir, p, fetchUrl, branchName);
    var acts := UpdateLocalMirror(git, dir, m, rootRef, fetchUrl, branchName, revision).actions;
    assert acts[..|p.actions| + |s1.actions|] == p.actions + s1.actions;
  }

  /** An up-to-date mirror that already has the revision is only cleaned of outdated refs. */
  lemma UpToDateMirrorOnlyCleaned(git: Git, dir: string, m: Mirror, rootRef: string, fetchUrl: string,
                                  branchName: Option<string>, revision: string)
    requires UpToDate(git, m, rootRef, branchName, revision)
    requires HasRevision(git.removeOutdatedRefs(m).0, revision)
    ensures UpdateLocalMirror(git, dir, m, rootRef, fetchUrl, branchName, revision)
            == Step(git.removeOutdatedRefs(m).0, [RemoveOutdatedRefs(dir)], None)
  {
    FetchRequiredUnlessUpToDate(git, dir, m, rootRef, fetchUrl, branchName, revision);
  }

  /** When the first stage leaves the revision missing, the fallback fetches every branch,
      and a successful fallback ends the update without checking the revision again. */
  lemma FallbackFetchesAllBranches(git: Git, dir: string, m: Mirror, rootRef: string, fetchUrl: string,
                                   branchName: Option<string>, revision: string)
    requires var p := Prepare(git, dir, m, rootRef, fetchUrl, branchName, revision);
             var s1 := FirstStage(git, dir, p, fetchUrl, branchName);
             s1.error.None? && !HasRevision(s1.mirror, revision)
    ensures var p := Prepare(git, dir, m, rootRef, fetchUrl, branchName, revision);
            var s1 := FirstStage(git, dir, p, fetchUrl, branchName);
            var s := UpdateLocalMirror(git, dir, m, rootRef, fetchUrl, branchName, revision);
            var k := |p.actions| + |s1.actions|;
            |s.actions| >= k + 2
            && s.actions[k] == RemoveRefLocks(dir) && s.actions[k + 1] == Fetch(dir, Some(AllHeads), false)
            && (git.fetch(s1.mirror, Some(AllHeads), false).Ok? ==> s.error.None?)
  {
  }

  /** Without a branch name, every fetch of an update uses the remote's default refspec or
      the fallback that fetches every branch. */
  lemma {:induction false} NoBranchFetchesDefaultOrAll(git: Git, dir: string, m: Mirror, rootRef: string,
                                                       fetchUrl: string, revision: string)
    ensures var acts := UpdateLocalMirror(git, dir, m, rootRef, fetchUrl, None, revision).actions;
            forall i :: 0 <= i < |acts| && acts[i].Fetch? ==>
              acts[i].dir == dir && !acts[i].shallow && (acts[i].refspec.None? || acts[i].refspec == Some(AllHeads))
  {
    var p := Prepare(git, dir, m, rootRef, fetchUrl, None, revision);
    var s1 := FirstStage(git, dir, p, fetchUrl, None);
    PrepareFetchesNothing(git, dir, m, rootRef, fetchUrl, None, revision);
    if p.fetchRequired {
      FetchMirrorRetriesOnce(git, dir, p.mirror, None, fetchUrl, false);
    }
    NoFetchAmong(p.actions);
    if s1.error.None? && !HasRevision(s1.mirror, revision) {
      FetchMirrorRetriesOnce(git, dir, s1.mirror, Some(AllHeads), fetchUrl, false);
    }
  }

  /** Actions without fetches have no fetch at any position. */
  lemma {:induction false} NoFetchAmong(acts: seq<Action>)
    requires FetchCount(acts) == 0
    ensures forall i :: 0 <= i < |acts| ==> !acts[i].Fetch?
    decreases |acts|
  {
    if acts != [] {
      NoFetchAmong(acts[1..]);
      assert forall i :: 1 <= i < |acts| ==> acts[i] == acts[1..][i - 1];
    }
  }

  /** The first name `getUnusedBranchName` tries. */
  const TmpBranchName := "tmp_branch_for_build"

  function HeadRef(name: string): string {
    "refs/heads/" + name
  }

  /** The `k`-th name tried: the plain name, then the name followed by 0, 1, 2, ... */
  function Candidate(k: nat): string {
    if k == 0 then TmpBranchName else TmpBranchName + NatToString(k - 1)
  }

  /** Distinct attempts try distinct branches. */
  lemma CandidateInjective(a: nat, b: nat)
    ensures HeadRef(Candidate(a)) == HeadRef(Candidate(b)) ==> a == b
  {
    if HeadRef(Candidate(a)) == HeadRef(Candidate(b)) {
      assert HeadRef(Candidate(a))[11..] == Candidate(a);
      assert HeadRef(Candidate(b))[11..] == Candidate(b);
      if a > 0 && b > 0 {
        assert Candidate(a)[|TmpBranchName|..] == NatToString(a - 1);
        assert Candidate(b)[|TmpBranchName|..] == NatToString(b - 1);
        NatToStringInjective(a - 1, b - 1);
      }
    }
  }

  /** The branches of the first `n` attempts. */
  function CandidateRefs(n: nat): set<string> {
    if n == 0 then {} else CandidateRefs(n - 1) + {HeadRef(Candidate(n - 1))}
  }

  lemma {:induction false} CandidateRefsCount(n: nat)
    ensures |CandidateRefs(n)| == n
    ensures forall j :: 0 <= j < n ==> HeadRef(Candidate(j)) in CandidateRefs(n)
    ensures forall j :: n <= j ==> HeadRef(Candidate(j)) !in CandidateRefs(n)
  {
    if n > 0 {
      CandidateRefsCount(n - 1);
      forall j | n <= j
        ensures HeadRef(Candidate(j)) != HeadRef(Candidate(n - 1))
      {
        CandidateInjective(j, n - 1);
      }
    }
  }

  /** A subset is no larger. */
  lemma {:induction false} SubsetNoLarger(a: set<string>, b: set<string>)
    requires a <= b
    ensures |a| <= |b|
    decreases |a|
  {
    if a != {} {
      var x :| x in a;
      SubsetNoLarger(a - {x}, b - {x});
    }
  }

  /** `getUnusedBranchName`: the first attempt whose branch the mirror lacks; every
      earlier attempt names an existing branch. */
  method GetUnusedBranchName(existingRefs: set<string>) returns (name: string)
    ensures HeadRef(name) !in existingRefs
    ensures exists k: nat :: name == Candidate(k) && forall j :: 0 <= j < k ==> HeadRef(Candidate(j)) in existingRefs
  {
    name := TmpBranchName;
    var i: nat := 0;
    while HeadRef(name) in existingRefs
      invariant name == Candidate(i)
      invariant CandidateRefs(i) <= existingRefs
      decreases |existingRefs| - |CandidateRefs(i)|
    {
      CandidateRefsCount(i);
      CandidateRefsCount(i + 1);
      SubsetNoLarger(CandidateRefs(i + 1), existingRefs);
      name := TmpBranchName + NatToString(i);
      i := i + 1;
    }
    CandidateRefsCount(i);
  }

  /** The refs of a mirror. */
  function Refs(m: Mirror): set<string> {
    if m.Repo? then m.refs.Keys else {}
  }

  /** `ensureCommitLoaded` in shallow mode: a branch the mirror lacks is created at the
      revision, fetched shallowly into the working directory onto the remote ref of the
      build's branch, and deleted; without shallow mode, the updater's default. */
  method EnsureCommitLoaded(git: Git, useShallowClone: bool, mirrorDir: string, m: Mirror,
                            targetDir: string, revision: string, fullBranchName: string)
    returns (s: Step)
    ensures !useShallowClone ==> s == Step(m, [DefaultEnsureCommitLoaded], None)
    ensures useShallowClone ==>
              |s.actions| >= 2 && s.actions[0].CreateBranch?
              && s.actions[0].dir == mirrorDir && s.actions[0].startPoint == revision
              && HeadRef(s.actions[0].name) !in Refs(m)
              && (exists k: nat :: s.actions[0].name == Candidate(k)
                                   && forall j :: 0 <= j < k ==> HeadRef(Candidate(j)) in Refs(m))
              && s.actions[1] == Fetch(targetDir, Some("+" + HeadRef(s.actions[0].name) + ":" + git.createRemoteRef(fullBranchName)), true)
              && s.error == git.fetchInto(targetDir, s.actions[1].refspec, true)
    ensures useShallowClone && s.error.None? ==>
              s.actions == s.actions[..2] + [DeleteBranch(mirrorDir, s.actions[0].name)] && s.mirror == m
    ensures useShallowClone && s.error.Some? ==>
              |s.actions| == 2 && (m.Repo? ==> RefOf(s.mirror, HeadRef(s.actions[0].name)) == Some(revision))
  {
    if !useShallowClone {
      return Step(m, [DefaultEnsureCommitLoaded], None);
    }
    var tmp := GetUnusedBranchName(Refs(m));
    var withBranch := if m.Repo? then m.(refs := m.refs[HeadRef(tmp) := revision]) else m;
    var refspec := "+" + HeadRef(tmp) + ":" + git.createRemoteRef(fullBranchName);
    var created := [CreateBranch(mirrorDir, tmp, revision), Fetch(targetDir, Some(refspec), true)];
    var fetched := git.fetchInto(targetDir, Some(refspec), true);
    if fetched.Some? {
      return Step(withBranch, created, fetched);
    }
    var restored := if withBranch.Repo? then withBranch.(refs := withBranch.refs - {HeadRef(tmp)}) else withBranch;
    if m.Repo? {
      assert restored.refs == m.refs;
    }
    s := Step(restored, created + [DeleteBranch(mirrorDir, tmp)], None);
  }

  /** `setUseLocalMirror(remoteUrl, localMirrorUrl, targetDirectory)`. */
  function SetUseLocalMirror(targetDir: string, remoteUrl: string, localMirrorUrl: string): (r: seq<Action>)
    ensures |r| == 2 && forall a :: a in r ==> a.SetConfig? && a.dir == targetDir
    ensures RuleBase(r[0].property, InsteadOf) == Some(localMirrorUrl) && r[0].value == remoteUrl
    ensures RuleBase(r[1].property, PushInsteadOf) == Some(remoteUrl) && r[1].value == remoteUrl
  {
    RuleBaseOf(localMirrorUrl, InsteadOf);
    RuleBaseOf(remoteUrl, PushInsteadOf);
    [SetConfig(targetDir, "url." + localMirrorUrl + InsteadOf, remoteUrl),
     SetConfig(targetDir, "url." + remoteUrl + PushInsteadOf, remoteUrl)]
  }

  const InsteadOf := ".insteadOf"
  const PushInsteadOf := ".pushInsteadOf"

  /** The base URL of a `url.<base><kind>` property. */
  function RuleBase(property: string, kind: string): Option<string> {
    if 4 + |kind| <= |property| && StartsWith(property, "url.") && EndsWith(property, kind)
    then Some(property[4..|property| - |kind|])
    else None
  }

  /** git's rewriting of a URL by the first `url.<base><kind>` rule of a directory's
      configuration whose value starts the URL: that prefix is replaced by the base. */
  function RewriteUrl(config: seq<Action>, dir: string, kind: string, url: string): string {
    if config == [] then url
    else
      var a := config[0];
      if a.SetConfig? && a.dir == dir && RuleBase(a.property, kind).Some? && StartsWith(url, a.value)
      then RuleBase(a.property, kind).value + url[|a.value|..]
      else RewriteUrl(config[1..], dir, kind, url)
  }

  lemma RuleBaseOf(base: string, kind: string)
    ensures RuleBase("url." + base + kind, kind) == Some(base)
  {
    var p := "url." + base + kind;
    assert p[..4] == "url.";
    assert p[|p| - |kind|..] == kind;
    assert p[4..|p| - |kind|] == base;
  }

  lemma InsteadOfIsNoPushRule(base: string)
    ensures RuleBase("url." + base + InsteadOf, PushInsteadOf).None?
  {
    var p := "url." + base + InsteadOf;
    if 4 + |PushInsteadOf| <= |p| {
      assert p[|p| - 10] == '.';
      assert PushInsteadOf[4] == 'h';
      assert p[|p| - |PushInsteadOf|..][4] == p[|p| - 10];
    }
  }

  /** After `setUseLocalMirror`, fetches of the remote (or any URL under it) go to the local
      mirror, while pushes still go to the remote. */
  lemma LocalMirrorForFetchOnly(targetDir: string, remoteUrl: string, localMirrorUrl: string, url: string)
    requires StartsWith(url, remoteUrl)
    ensures var config := SetUseLocalMirror(targetDir, remoteUrl, localMirrorUrl);
            RewriteUrl(config, targetDir, InsteadOf, url) == localMirrorUrl + url[|remoteUrl|..]
            && RewriteUrl(config, targetDir, PushInsteadOf, url) == url
  {
    var config := SetUseLocalMirror(targetDir, remoteUrl, localMirrorUrl);
    RuleBaseOf(localMirrorUrl, InsteadOf);
    RuleBaseOf(remoteUrl, PushInsteadOf);
    InsteadOfIsNoPushRule(localMirrorUrl);
    assert config[1..] == [SetConfig(targetDir, "url." + remoteUrl + PushInsteadOf, remoteUrl)];
    assert remoteUrl + url[|remoteUrl|..] == url;
  }

  /** A submodule declared in `.gitmodules`. */
  datatype SubmoduleDecl = SubmoduleDecl(name: string, path: string, url: string)

  /** The `.gitmodules` of the working directory: absent, unreadable, unparsable, or its
      submodules. */
  datatype Gitmodules =
    | NoGitmodules
    | Unreadable(error: Exception)
    | Unparsable(error: Exception)
    | Declared(submodules: seq<SubmoduleDecl>)

  /** The mirrors by directory, the actions, and the failure reaching the caller. */
  datatype Checkout = Checkout(mirrors: map<string, Mirror>, actions: seq<Action>, error: Option<Exception>)

  function MirrorAt(mirrors: map<string, Mirror>, dir: string): Mirror {
    if dir in mirrors then mirrors[dir] else Missing
  }

  function NoRevisionError(d: SubmoduleDecl): Exception {
    VcsError("Error while find submodule revision for " + d.name)
  }

  /** Whether `dir` is the mirror directory of one of the submodules. */
  predicate IsMirrorOf(git: Git, decls: seq<SubmoduleDecl>, dir: string) {
    exists k :: 0 <= k < |decls| && git.mirrorDirOf(decls[k].url) == dir
  }

  function SubmoduleUrlConfig(git: Git, repositoryDir: string, d: SubmoduleDecl): Action {
    SetConfig(repositoryDir, "submodule." + d.name + ".url", git.localMirrorUrl(git.mirrorDirOf(d.url)))
  }

  /** The loop of `checkoutSubmodules`: each submodule's mirror is updated to its listed
      revision (with the root's branch, and no branch of its own), then the submodule's URL
      is pointed at the mirror; a submodule without a listed revision, or a failing update,
      stops the loop. */
  function UpdateSubmoduleMirrors(git: Git, rootRef: string, repositoryDir: string, decls: seq<SubmoduleDecl>,
                                  revisions: map<string, string>, mirrors: map<string, Mirror>): (c: Checkout)
    ensures mirrors.Keys <= c.mirrors.Keys
    ensures forall dir :: dir in mirrors && !IsMirrorOf(git, decls, dir) ==> c.mirrors[dir] == mirrors[dir]
    decreases |decls|
  {
    if decls == [] then Checkout(mirrors, [], None)
    else
      var d := decls[0];
      if d.path !in revisions then Checkout(mirrors, [], Some(NoRevisionError(d)))
      else
        var dir := git.mirrorDirOf(d.url);
        var s := UpdateLocalMirror(git, dir, MirrorAt(mirrors, dir), rootRef, d.url, None, revisions[d.path]);
        var mirrors' := mirrors[dir := s.mirror];
        if s.error.Some? then Checkout(mirrors', s.actions, s.error)
        else
          var rest := UpdateSubmoduleMirrors(git, rootRef, repositoryDir, decls[1..], revisions, mirrors');
          Checkout(rest.mirrors, s.actions + [SubmoduleUrlConfig(git, repositoryDir, d)] + rest.actions, rest.error)
  }

  function GitmodulesPath(repositoryDir: string): string {
    repositoryDir + "/.gitmodules"
  }

  /** `checkoutSubmodules(repositoryDir)`, one level deep: `listOutput` is what running
      `git submodule status` gives. */
  function CheckoutSubmodules(git: Git, rootRef: string, repositoryDir: string, gitmodules: Gitmodules,
                              listOutput: Result<string, Exception>, mirrors: map<string, Mirror>): (c: Checkout)
    ensures gitmodules.NoGitmodules? ==> c == Checkout(mirrors, [], None)
    ensures !gitmodules.NoGitmodules? ==>
              |c.actions| >= 2 && c.actions[..2] == [SubmoduleInit(repositoryDir), SubmoduleSync(repositoryDir)]
    ensures gitmodules.Unreadable? && SubmoduleList.Call(listOutput).Ok? ==>
              c.error == Some(Exception(Vcs, Some("Error while reading " + GitmodulesPath(repositoryDir)), Some(gitmodules.error)))
    ensures gitmodules.Unparsable? && SubmoduleList.Call(listOutput).Ok? ==>
              c.error == Some(Exception(Vcs, Some("Error while parsing " + GitmodulesPath(repositoryDir)), Some(gitmodules.error)))
  {
    if gitmodules.NoGitmodules? then Checkout(mirrors, [], None)
    else
      var init := [SubmoduleInit(repositoryDir), SubmoduleSync(repositoryDir)];
      match SubmoduleList.Call(listOutput)
      case Err(e) => Checkout(mirrors, init, Some(e))
      case Ok(revisions) =>
        match gitmodules
        case Unreadable(e) =>
          Checkout(mirrors, init, Some(Exception(Vcs, Some("Error while reading " + GitmodulesPath(repositoryDir)), Some(e))))
        case Unparsable(e) =>
          Checkout(mirrors, init, Some(Exception(Vcs, Some("Error while parsing " + GitmodulesPath(repositoryDir)), Some(e))))
        case Declared(decls) =>
          var u := UpdateSubmoduleMirrors(git, rootRef, repositoryDir, decls, revisions, mirrors);
          if u.error.Some? then Checkout(u.mirrors, init + u.actions, u.error)
          else Checkout(u.mirrors, init + u.actions + [SubmoduleUpdate(repositoryDir)], None)
  }

  /** Every submodule must have a listed revision: the loop succeeds only if each declared
      path is listed, and then every submodule's URL points at its mirror. */
  lemma {:induction false} SubmoduleLoopSucceedsOnlyIfAllListed(git: Git, rootRef: string, repositoryDir: string,
                                                                decls: seq<SubmoduleDecl>, revisions: map<string, string>,
                                                                mirrors: map<string, Mirror>)
    ensures var c := UpdateSubmoduleMirrors(git, rootRef, repositoryDir, decls, revisions, mirrors);
            c.error.None? ==>
              forall i :: 0 <= i < |decls| ==>
                decls[i].path in revisions && SubmoduleUrlConfig(git, repositoryDir, decls[i]) in c.actions
    ensures decls != [] && decls[0].path !in revisions ==>
              UpdateSubmoduleMirrors(git, rootRef, repositoryDir, decls, revisions, mirrors)
              == Checkout(mirrors, [], Some(NoRevisionError(decls[0])))
    decreases |decls|
  {
    if decls != [] && decls[0].path in revisions {
      var d := decls[0];
      var dir := git.mirrorDirOf(d.url);
      var s := UpdateLocalMirror(git, dir, MirrorAt(mirrors, dir), rootRef, d.url, None, revisions[d.path]);
      if s.error.None? {
        var mirrors' := mirrors[dir := s.mirror];
        SubmoduleLoopSucceedsOnlyIfAllListed(git, rootRef, repositoryDir, decls[1..], revisions, mirrors');
        var rest := UpdateSubmoduleMirrors(git, rootRef, repositoryDir, decls[1..], revisions, mirrors');
        if rest.error.None? {
          forall i | 0 <= i < |decls|
            ensures decls[i].path in revisions
          {
            if i > 0 { assert decls[i] == decls[1..][i - 1]; }
          }
          forall i | 1 <= i < |decls|
            ensures SubmoduleUrlConfig(git, repositoryDir, decls[i]) in rest.actions
          {
            assert decls[i] == decls[1..][i - 1];
          }
        }
      }
    }
  }

  /** A declared submodule without a listed revision stops the loop with its error, right
      after the submodules before it, and before its own mirror is touched: the outcome is
      that of the submodules before it, or, when those all succeed, their mirrors and
      actions with the missing-revision error. */
  lemma {:induction false} StopsAtUnlistedSubmodule(git: Git, rootRef: string, repositoryDir: string,
                                                    decls: seq<SubmoduleDecl>, revisions: map<string, string>,
                                                    mirrors: map<string, Mirror>, k: nat)
    requires k < |decls| && decls[k].path !in revisions
    ensures var p := UpdateSubmoduleMirrors(git, rootRef, repositoryDir, decls[..k], revisions, mirrors);
            UpdateSubmoduleMirrors(git, rootRef, repositoryDir, decls, revisions, mirrors)
            == if p.error.Some? then p else Checkout(p.mirrors, p.actions, Some(NoRevisionError(decls[k])))
    decreases k
  {
    if k > 0 {
      var d := decls[0];
      assert decls[..k][0] == d && decls[..k] != [];
      if d.path in revisions {
        var dir := git.mirrorDirOf(d.url);
        var s := UpdateLocalMirror(git, dir, MirrorAt(mirrors, dir), rootRef, d.url, None, revisions[d.path]);
        if s.error.None? {
          var mirrors' := mirrors[dir := s.mirror];
          assert decls[..k][1..] == decls[1..][..k - 1];
          assert decls[1..][k - 1] == decls[k];
          StopsAtUnlistedSubmodule(git, rootRef, repositoryDir, decls[1..], revisions, mirrors', k - 1);
        }
      }
    }
  }

  /** The mirror directories of the submodules, in declaration order. */
  function MirrorDirs(git: Git, decls: seq<SubmoduleDecl>): (dirs: seq<string>)
    ensures |dirs| == |decls|
    ensures forall k :: 0 <= k < |decls| ==> dirs[k] == git.mirrorDirOf(decls[k].url)
  {
    if decls == [] then [] else [git.mirrorDirOf(decls[0].url)] + MirrorDirs(git, decls[1..])
  }

  /** Every fetch among the actions is a full (not shallow) fetch of the remote's default
      refspec or of every branch, into one of the directories. */
  predicate PlainFetchesInto(acts: seq<Action>, dirs: seq<string>) {
    forall i :: 0 <= i < |acts| && acts[i].Fetch? ==>
      !acts[i].shallow && (acts[i].refspec.None? || acts[i].refspec == Some(AllHeads)) && acts[i].dir in dirs
  }

  lemma PlainFetchesJoin(a: seq<Action>, x: Action, b: seq<Action>, dir: string, dirs: seq<string>)
    requires PlainFetchesInto(a, [dir]) && !x.Fetch? && PlainFetchesInto(b, dirs)
    ensures PlainFetchesInto(a + [x] + b, [dir] + dirs)
  {
    var acts := a + [x] + b;
    forall i | 0 <= i < |acts| && acts[i].Fetch?
      ensures !acts[i].shallow && (acts[i].refspec.None? || acts[i].refspec == Some(AllHeads)) && acts[i].dir in [dir] + dirs
    {
      if i < |a| {
        assert acts[i] == a[i];
      } else if i > |a| {
        assert acts[i] == b[i - |a| - 1];
      }
    }
  }

  lemma PlainFetchesWiden(a: seq<Action>, dir: string, dirs: seq<string>)
    requires PlainFetchesInto(a, [dir])
    ensures PlainFetchesInto(a, [dir] + dirs)
  {
  }

  /** Submodule mirrors are only ever fetched with the remote's default refspec or with
      every branch, never shallowly, and each into a declared submodule's mirror directory. */
  lemma {:induction false} SubmoduleFetchesDefaultOrAll(git: Git, rootRef: string, repositoryDir: string,
                                                        decls: seq<SubmoduleDecl>, revisions: map<string, string>,
                                                        mirrors: map<string, Mirror>)
    ensures PlainFetchesInto(UpdateSubmoduleMirrors(git, rootRef, repositoryDir, decls, revisions, mirrors).actions,
                             MirrorDirs(git, decls))
    decreases |decls|
  {
    if decls != [] && decls[0].path in revisions {
      var d := decls[0];
      var dir := git.mirrorDirOf(d.url);
      var s := UpdateLocalMirror(git, dir, MirrorAt(mirrors, dir), rootRef, d.url, None, revisions[d.path]);
      NoBranchFetchesDefaultOrAll(git, dir, MirrorAt(mirrors, dir), rootRef, d.url, revisions[d.path]);
      assert PlainFetchesInto(s.actions, [dir]);
      assert MirrorDirs(git, decls) == [dir] + MirrorDirs(git, decls[1..]);
      if s.error.None? {
        var mirrors' := mirrors[dir := s.mirror];
        SubmoduleFetchesDefaultOrAll(git, rootRef, repositoryDir, decls[1..], revisions, mirrors');
        var rest := UpdateSubmoduleMirrors(git, rootRef, repositoryDir, decls[1..], revisions, mirrors');
        PlainFetchesJoin(s.actions, SubmoduleUrlConfig(git, repositoryDir, d), rest.actions, dir, MirrorDirs(git, decls[1..]));
      } else {
        PlainFetchesWiden(s.actions, dir, MirrorDirs(git, decls[1..]));
      }
    }
  }
}
