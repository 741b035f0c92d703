# TeamCity git plugin: mirrors, history walk, submodules and content retrieval in Dafny

This project models the decision logic of the TeamCity git VCS plugin and proves
properties about it. The logic sits around the agent's local mirror cache and the
server's submodule-aware history walk. It covers:

- **The agent's mirror updater** (`MirrorUpdate`, mirror.dfy):
  - when a bare mirror is deleted, created or fetched, and with which refspec;
  - the "clear ref locks, fetch, recreate and retry once" wrapper around every fetch;
  - the temporary branch of shallow checkouts;
  - pointing the working directory at the mirror;
  - one level of submodule checkout through per-submodule mirrors.
- **The server's history walk** (`RevWalk`, rev_walk.dfy, and `CommitChanges`, commit_changes.dfy):
  - the call counter that caps `next()`;
  - the rule that only the first commit surfaces submodule errors;
  - parent linkage, with the all-zero id for root commits;
  - the depth-bounded nearest-first search for a commit whose submodule resolves;
  - routing each changed path against the parent or against that fix-up commit.
- **Submodule commit resolution** (`Resolver`, submodule_resolver.dfy): the ordered chain of checks, each failure with its own error.
- **The per-operation repository cache** (`Context`, operation_context.dfy):
  - each directory is opened once;
  - every repository is closed even when some closes throw;
  - exceptions are wrapped into VcsExceptions.
- **Root settings** (`GitRoot`, vcs_root.dfy):
  - the default branch;
  - the submodule policy and user name style;
  - the repository directory;
  - the `Name <email>` parser;
  - the push URL defaulting;
  - the URL scheme tests.
- **Content retrieval** (`Content`, content.dfy):
  - choosing the revision;
  - file-not-found;
  - the repository a blob is read from;
  - the CRLF flag;
  - releasing the walk and the context on every path.
- **Small text functions**:
  - the `git submodule status` parser (`SubmoduleList`);
  - the command failure message (`CommandLine`);
  - the fetch progress monitor (`Progress`).

Shared helpers:

- `Wrappers` holds `Option` and `Result`.
- `Text` holds Java's `trim`, `indexOf`, `Integer.toString`, padding and whitespace splitting over `seq<char>`.
- `JavaInt` holds 32-bit wrap-around and truncating division.
- `Exceptions` holds the Java exception classes the code distinguishes.

Every stateful class is modelled as pure functions over an immutable record. Each function returns the new record together with what the class did: the log of git actions, the printed lines, or the released resources.

git, jgit, the file system, the repository manager and the clock are parameters of these functions. They appear as arrow-typed fields of records: `Git`, `Manager`, `Server`, `History` and `Backend`.

Two behaviours of the code worth knowing:

- **Fix-up commit.** When a fix-up commit is found for a broken submodule, the code passes its id as the *before* revision of the change (ModificationDataRevWalk.java:163-173). `CommitChanges.BrokenEntryUsesFix` states the code's behaviour.
- **Fallback fetch.** After the fallback fetch of every branch, `updateLocalMirror` does not check for the revision again (UpdaterWithMirror.java:109-111). The update therefore succeeds even when the revision is still missing. `MirrorUpdate.FallbackFetchesAllBranches` states this.

## Model

| member | source | states |
|---|---|---|
| MirrorUpdate.FetchMirror | git-agent/src/jetbrains/buildServer/buildTriggers/vcs/git/agent/UpdaterWithMirror.java:115-127 | ref locks are cleared before the first fetch; a first fetch that succeeds is the whole call, and the mirror is what it fetched; a first fetch failing with anything but a VcsException propagates at once, with the mirror untouched |
| MirrorUpdate.FetchMirrorRetriesOnce | git-agent/src/jetbrains/buildServer/buildTriggers/vcs/git/agent/UpdaterWithMirror.java:115-127 | one `fetchMirror` call clears locks once and fetches at most twice; the second fetch happens exactly when the first fails with a VcsException; it follows delete, mkdirs, bare init and `origin` = fetch URL; both fetches use the same refspec and shallow flag; the retry's failure is what propagates |
| MirrorUpdate.Prepare | git-agent/src/jetbrains/buildServer/buildTriggers/vcs/git/agent/UpdaterWithMirror.java:76-100 | a directory that is not a repository is deleted and recreated bare with the single remote `origin` at the fetch URL, and a fetch stays required; an existing mirror is only cleaned of outdated refs |
| MirrorUpdate.FetchRequiredUnlessUpToDate | git-agent/src/jetbrains/buildServer/buildTriggers/vcs/git/agent/UpdaterWithMirror.java:76-100 | the first fetch is skipped if and only if the mirror existed, no outdated ref was removed, the root's branch ref already equals the revision, and a requested branch exists locally |
| MirrorUpdate.FirstStage | git-agent/src/jetbrains/buildServer/buildTriggers/vcs/git/agent/UpdaterWithMirror.java:101-108 | the first stage does nothing unless a fetch is required; otherwise it is one `fetchMirror` with refspec null without a branch, or `+branch:expandRef(branch)`, never shallow |
| MirrorUpdate.AtMostTwoFetchMirrorCalls | git-agent/src/jetbrains/buildServer/buildTriggers/vcs/git/agent/UpdaterWithMirror.java:73-112 | an update makes at most two `fetchMirror` calls and at most four fetches; the second call happens exactly when the first stage succeeded and the revision is still missing |
| MirrorUpdate.UpdateLocalMirror | git-agent/src/jetbrains/buildServer/buildTriggers/vcs/git/agent/UpdaterWithMirror.java:73-112 | the update begins with the checks' actions, calls `fetchMirror` at most twice and fetches at most four times, and fails only after some `fetchMirror` call |
| MirrorUpdate.InvalidMirrorRecreated | git-agent/src/jetbrains/buildServer/buildTriggers/vcs/git/agent/UpdaterWithMirror.java:76-84 | for an invalid or missing mirror, the actions begin with delete, mkdirs, bare init and add `origin`, followed by the first fetch with the first refspec |
| MirrorUpdate.UpToDateMirrorOnlyCleaned | git-agent/src/jetbrains/buildServer/buildTriggers/vcs/git/agent/UpdaterWithMirror.java:85-111 | an up-to-date mirror that has the revision is only cleaned of outdated refs: no fetch, no error |
| MirrorUpdate.FallbackFetchesAllBranches | git-agent/src/jetbrains/buildServer/buildTriggers/vcs/git/agent/UpdaterWithMirror.java:109-111 | when the first stage leaves the revision missing, the next `fetchMirror` fetches `+refs/heads/*:refs/heads/*`; if that fetch succeeds, the update succeeds without checking the revision again |
| MirrorUpdate.NoBranchFetchesDefaultOrAll | git-agent/src/jetbrains/buildServer/buildTriggers/vcs/git/agent/UpdaterWithMirror.java:101-111 | without a branch name, every fetch of an update goes to the mirror directory, is not shallow, and uses the default refspec or the all-branches refspec |
| MirrorUpdate.CandidateInjective | git-agent/src/jetbrains/buildServer/buildTriggers/vcs/git/agent/UpdaterWithMirror.java:200-210 | the names tried (`tmp_branch_for_build`, then the same name followed by 0, 1, ...) name pairwise distinct branches |
| MirrorUpdate.GetUnusedBranchName | git-agent/src/jetbrains/buildServer/buildTriggers/vcs/git/agent/UpdaterWithMirror.java:200-210 | the name returned is the first candidate, in order, whose `refs/heads/` form is not an existing ref; every earlier candidate exists; the loop terminates |
| MirrorUpdate.EnsureCommitLoaded | git-agent/src/jetbrains/buildServer/buildTriggers/vcs/git/agent/UpdaterWithMirror.java:152-210 | without shallow clones, the inherited default runs. In shallow mode: a temporary branch is created at the revision, named by the first candidate (`tmp_branch_for_build`, then `…0`, `…1`, …) the mirror lacks, every earlier candidate being present; it is fetched shallowly into the working directory onto the remote ref of the full branch name; it is then deleted, leaving the mirror as it was. A failing fetch leaves the temporary branch behind and propagates |
| MirrorUpdate.LocalMirrorForFetchOnly | git-agent/src/jetbrains/buildServer/buildTriggers/vcs/git/agent/UpdaterWithMirror.java:169-180 | after the two `url.*` settings, git rewrites fetches of the remote URL (and of URLs under it) to the local mirror, and leaves pushes on the remote URL |
| MirrorUpdate.SetUseLocalMirror | git-agent/src/jetbrains/buildServer/buildTriggers/vcs/git/agent/UpdaterWithMirror.java:169-180 | two settings of the target directory: an `insteadOf` rule whose base is the local mirror URL and whose value is the remote URL, and a `pushInsteadOf` rule whose base and value are the remote URL |
| MirrorUpdate.CheckoutSubmodules | git-agent/src/jetbrains/buildServer/buildTriggers/vcs/git/agent/UpdaterWithMirror.java:212-265 | without `.gitmodules`, nothing happens; otherwise submodule init and sync come first; an unreadable or unparsable `.gitmodules` is a VcsException naming the file, caused by the original error |
| MirrorUpdate.SubmoduleLoopSucceedsOnlyIfAllListed | git-agent/src/jetbrains/buildServer/buildTriggers/vcs/git/agent/UpdaterWithMirror.java:226-245 | a loop that succeeds had a revision for every submodule and pointed each submodule's URL at its mirror; a first submodule without a listed revision stops the loop at once, with nothing done |
| MirrorUpdate.UpdateSubmoduleMirrors | git-agent/src/jetbrains/buildServer/buildTriggers/vcs/git/agent/UpdaterWithMirror.java:226-245 | the loop keeps every known mirror, and leaves unchanged every mirror that is not the mirror directory of one of the submodules |
| MirrorUpdate.StopsAtUnlistedSubmodule | git-agent/src/jetbrains/buildServer/buildTriggers/vcs/git/agent/UpdaterWithMirror.java:226-245 | for any declared submodule without a listed revision, the loop ends as the loop over the submodules before it does if that fails; otherwise it ends with their mirrors and actions and "Error while find submodule revision for <name>", before that submodule's mirror is touched |
| MirrorUpdate.SubmoduleFetchesDefaultOrAll | git-agent/src/jetbrains/buildServer/buildTriggers/vcs/git/agent/UpdaterWithMirror.java:226-245 | submodule mirrors are updated with no branch name: each of their fetches is not shallow, uses the default or the all-branches refspec, and goes into a declared submodule's mirror directory |
| RevWalk.NewWalk | git-server/src/jetbrains/buildServer/buildTriggers/vcs/git/ModificationDataRevWalk.java:54-56 | a fresh walk has counted no calls, has no current commit and no limit |
| RevWalk.LimitByNumberOfCommits | git-server/src/jetbrains/buildServer/buildTriggers/vcs/git/ModificationDataRevWalk.java:80-82 | sets the limit to the given number and changes nothing else |
| RevWalk.Next | git-server/src/jetbrains/buildServer/buildTriggers/vcs/git/ModificationDataRevWalk.java:70-82 | every call counts; the call yields jgit's next commit if and only if there is one and either there is no limit or the call's number is within it; the yielded commit becomes the current one |
| RevWalk.LimitBoundsYield | git-server/src/jetbrains/buildServer/buildTriggers/vcs/git/ModificationDataRevWalk.java:70-113 | with a limit N set, any number of calls yields at most N minus the calls already made |
| RevWalk.NoLimitYieldsAll | git-server/src/jetbrains/buildServer/buildTriggers/vcs/git/ModificationDataRevWalk.java:70-113 | with the limit -1, n calls yield exactly jgit's first n commits, in order |
| RevWalk.OnlyFirstCommitSurfacesErrors | git-server/src/jetbrains/buildServer/buildTriggers/vcs/git/ModificationDataRevWalk.java:116-118 | after n calls on a fresh walk, submodule errors are ignored if and only if n > 1 |
| RevWalk.ChangeTrees | git-server/src/jetbrains/buildServer/buildTriggers/vcs/git/ModificationDataRevWalk.java:151-154 | the commit's tree comes first, with errors ignored unless it is the first commit; then every parent's tree, in order, with errors ignored |
| RevWalk.FirstParentIsFirstRecorded | git-server/src/jetbrains/buildServer/buildTriggers/vcs/git/ModificationDataRevWalk.java:99-130 | the recorded parents are never empty and begin with the first-parent version (the all-zero id for a root commit) |
| RevWalk.FirstParentVersion | git-server/src/jetbrains/buildServer/buildTriggers/vcs/git/ModificationDataRevWalk.java:122-130 | the first parent's id, or the all-zero id for a root commit |
| RevWalk.ParentRevisions | git-server/src/jetbrains/buildServer/buildTriggers/vcs/git/ModificationDataRevWalk.java:99-106 | the parents in order, or the single all-zero id for a root commit |
| RevWalk.AddTreesFailure | git-server/src/jetbrains/buildServer/buildTriggers/vcs/git/ModificationDataRevWalk.java:151-154 | adding the trees throws only for a tree whose submodule errors are not ignored, of a root whose policy is CHECKOUT or NON_RECURSIVE_CHECKOUT, and then throws that commit's submodule error; it throws nothing if and only if no tree's iterator, running with the policy made error-ignoring where asked, meets such an error |
| RevWalk.ParseFailure | git-server/src/jetbrains/buildServer/buildTriggers/vcs/git/ModificationDataRevWalk.java:99-103 | parsing the parents throws nothing if and only if every parent parses; otherwise it throws the exception of one of them |
| RevWalk.CommitChangesOf | git-server/src/jetbrains/buildServer/buildTriggers/vcs/git/ModificationDataRevWalk.java:141-213 | the changes are collected only when adding the trees throws nothing and the change walk succeeds |
| RevWalk.CreateModificationData | git-server/src/jetbrains/buildServer/buildTriggers/vcs/git/ModificationDataRevWalk.java:85-108 | fails with IllegalStateException "Current commit is null" when there is no current commit; data it produces is at the commit's id, with every parent recorded in order (or the single zero id), and every parent parsed |
| RevWalk.ModificationDataOkIff | git-server/src/jetbrains/buildServer/buildTriggers/vcs/git/ModificationDataRevWalk.java:85-108 | for a current commit, the data is produced if and only if every parent parses, adding the trees throws no submodule error, the change walk succeeds, the fix-up search, when it runs, succeeds, and every second walk against a fix-up commit succeeds |
| RevWalk.LaterCommitsIgnoreSubmoduleErrors | git-server/src/jetbrains/buildServer/buildTriggers/vcs/git/ModificationDataRevWalk.java:116-118 | after the first call of `next`, the outcome is the same whatever the submodule errors of any commit are |
| RevWalk.FirstCommitSurfacesSubmoduleError | git-server/src/jetbrains/buildServer/buildTriggers/vcs/git/ModificationDataRevWalk.java:121-154 | on the first commit, for a root whose policy is CHECKOUT or NON_RECURSIVE_CHECKOUT, an unresolvable submodule of the commit's tree fails the data with that error once the first parent parses |
| RevWalk.IgnoringPolicyIgnoresSubmoduleErrors | git-server/src/jetbrains/buildServer/buildTriggers/vcs/git/OperationContext.java:173-176 | for a root whose policy is IGNORE or one of the `*_IGNORING_ERRORS` policies, the data is the same whatever the submodule errors of any commit are, the first commit's included |
| RevWalk.ModificationDataChanges | git-server/src/jetbrains/buildServer/buildTriggers/vcs/git/ModificationDataRevWalk.java:85-213 | when the data is produced, every change is at the commit's version, against the first parent or against a commit the fix-up search found |
| CommitChanges.SearchEnd | git-server/src/jetbrains/buildServer/buildTriggers/vcs/git/ModificationDataRevWalk.java:222-263 | the last position the search examines is within the depth and the history, and is 0 when the depth is 0 |
| CommitChanges.NearestFixedSpec | git-server/src/jetbrains/buildServer/buildTriggers/vcs/git/ModificationDataRevWalk.java:222-263 | with depth 0 nothing is found. Otherwise the start commit is skipped and at most `depth` ancestors are examined in topological order. The result is the first of them where a path under `path + "/"` sits on an error-free submodule, and none before it qualifies; when nothing is found, none within the depth qualifies |
| CommitChanges.FindCommitWithFixedSubmodule | git-server/src/jetbrains/buildServer/buildTriggers/vcs/git/ModificationDataRevWalk.java:222-263 | the loop returns the id of the nearest qualifying ancestor, and null exactly when the reference search finds none |
| CommitChanges.NoCheckoutIsDirect | git-server/src/jetbrains/buildServer/buildTriggers/vcs/git/ModificationDataRevWalk.java:205-219 | without submodule checkout, every walked path that changed yields one change against the parent version, in walk order; unchanged paths yield none |
| CommitChanges.Route | git-server/src/jetbrains/buildServer/buildTriggers/vcs/git/ModificationDataRevWalk.java:157-207 | without checkout, changes are direct and the fix-up map is untouched; with checkout, the entry fails exactly when it has a fix-up commit and the second walk against it fails, with that walk's exception; a broken submodule entry records its search result under its path; every other entry leaves the map as it was |
| CommitChanges.GetCommitChanges | git-server/src/jetbrains/buildServer/buildTriggers/vcs/git/ModificationDataRevWalk.java:141-210 | the walk succeeds if and only if every second walk it needs succeeds, as the reference `DiffsSucceed` computes from the entries alone (a broken submodule's own search result, or, inside a broken submodule, that submodule's result when it came earlier); every change is at the commit's version, against the parent or a commit the search found |
| CommitChanges.SearchFix | git-server/src/jetbrains/buildServer/buildTriggers/vcs/git/ModificationDataRevWalk.java:161 | a fix-up commit found is among the `searchDepth` commits after this one, the submodule resolves there and at no commit between; when none is found, it resolves at none of them |
| CommitChanges.BrokenEntryUsesFix | git-server/src/jetbrains/buildServer/buildTriggers/vcs/git/ModificationDataRevWalk.java:160-180 | for a broken submodule whose fix-up commit was found, every change recorded by a successful second walk is at the current version with that commit as its before-revision |
| CommitChanges.ChildReusesFix | git-server/src/jetbrains/buildServer/buildTriggers/vcs/git/ModificationDataRevWalk.java:181-201 | a path inside a broken submodule reuses the fix-up stored for that submodule, or is a direct change when none was found; a step that succeeds never changes the map |
| CommitChanges.ChangesAreAgainstParentOrFix | git-server/src/jetbrains/buildServer/buildTriggers/vcs/git/ModificationDataRevWalk.java:141-219 | when the walk succeeds, every change is at the current version, for a walked path, against the parent version or a commit the search found |
| CommitChanges.NoDepthNoFix | git-server/src/jetbrains/buildServer/buildTriggers/vcs/git/ModificationDataRevWalk.java:222-226 | with search depth 0, no fix-up commit is ever found |
| Resolver.EnsureConfigLoaded | git-server/src/jetbrains/buildServer/buildTriggers/vcs/git/submodules/SubmoduleResolver.java:155-165 | a loaded configuration is never replaced; a missing one is loaded exactly when loading succeeds; a missing file or a failing load leaves it null; nothing else changes |
| Resolver.EnsureConfigLoadedIdempotent | git-server/src/jetbrains/buildServer/buildTriggers/vcs/git/submodules/SubmoduleResolver.java:155-165 | loading twice is the same as loading once |
| Resolver.GetSubmoduleCommit | git-server/src/jetbrains/buildServer/buildTriggers/vcs/git/submodules/SubmoduleResolver.java:62-83 | with no configuration, or no entry for the path, its own error is raised before any repository is resolved; otherwise the repository is resolved first; at most one fetch is made; success returns the requested commit |
| Resolver.FetchOnlyWhenCommitMissing | git-server/src/jetbrains/buildServer/buildTriggers/vcs/git/submodules/SubmoduleResolver.java:74-76 | a fetch happens if and only if the entry exists, its repository resolves and lacks the commit; it goes to that submodule's path and URL |
| Resolver.ResolvedIffChecksPass | git-server/src/jetbrains/buildServer/buildTriggers/vcs/git/submodules/SubmoduleResolver.java:62-83 | resolution succeeds if and only if the entry exists, the repository resolves, and the commit is there or arrives with the one fetch |
| Resolver.CommitNotFoundNamesUrlAndCommit | git-server/src/jetbrains/buildServer/buildTriggers/vcs/git/submodules/SubmoduleResolver.java:77-82 | the error for a commit still missing after the fetch contains the commit id and the submodule URL |
| Resolver.ContainsSubmodule | git-server/src/jetbrains/buildServer/buildTriggers/vcs/git/submodules/SubmoduleResolver.java:124-127 | false without a configuration; otherwise whether the path is a prefix of a submodule path |
| Resolver.GetSubmoduleUrl | git-server/src/jetbrains/buildServer/buildTriggers/vcs/git/submodules/SubmoduleResolver.java:142-150 | null without a configuration or an entry; otherwise the entry's URL |
| Resolver.ConfigNeverReplaced | git-server/src/jetbrains/buildServer/buildTriggers/vcs/git/submodules/SubmoduleResolver.java:155-165 | once a configuration is loaded, no query changes the resolver |
| Context.GetRepository | git-server/src/jetbrains/buildServer/buildTriggers/vcs/git/OperationContext.java:83-90 | a cached directory returns its handle and changes nothing; otherwise the manager opens it, and only a successful open is cached; the cache invariant is kept |
| Context.GetRepositoryFor | git-server/src/jetbrains/buildServer/buildTriggers/vcs/git/OperationContext.java:93-99 | a URI whose mirror directory is cached returns that repository and changes nothing; the cache invariant is kept |
| Context.RepeatedLookupCached | git-server/src/jetbrains/buildServer/buildTriggers/vcs/git/OperationContext.java:83-90 | a second lookup of a directory returns the handle of the first, whatever URL it passes |
| Context.GetRepositoryForIsByMirrorDir | git-server/src/jetbrains/buildServer/buildTriggers/vcs/git/OperationContext.java:93-99 | a lookup by URI is a lookup of the URI's mirror directory through the same cache |
| Context.LookupsOpenEachDirOnce | git-server/src/jetbrains/buildServer/buildTriggers/vcs/git/OperationContext.java:83-90 | after any sequence of lookups, each directory was opened at most once, cached handles are kept, and every cached directory was asked for |
| Context.Close | git-server/src/jetbrains/buildServer/buildTriggers/vcs/git/OperationContext.java:140-153 | every cached repository is closed, once each, in iteration order, even when some closes throw; what is rethrown is the last exception thrown, and nothing is rethrown exactly when no close threw |
| Context.LastFailureNoneIff | git-server/src/jetbrains/buildServer/buildTriggers/vcs/git/OperationContext.java:140-153 | closing rethrows nothing if and only if no attempt threw |
| Context.WrapException | git-server/src/jetbrains/buildServer/buildTriggers/vcs/git/OperationContext.java:113-135 | the result is always a VcsException; a VcsException is returned unchanged; any other exception becomes a VcsException caused by it, whose message starts with the capitalised operation and " failed: " |
| Context.WrapIdempotent | git-server/src/jetbrains/buildServer/buildTriggers/vcs/git/OperationContext.java:113-135 | wrapping twice is wrapping once, and the result is the exception or caused by it |
| Context.WrapTransportFileNotFound | git-server/src/jetbrains/buildServer/buildTriggers/vcs/git/OperationContext.java:121-127 | a transport exception caused by a missing file reads "<Operation> failed: File not found: <cause message>" |
| Context.WrapOtherDetails | git-server/src/jetbrains/buildServer/buildTriggers/vcs/git/OperationContext.java:121-134 | a transport exception caused by an unknown host reads "<Operation> failed: Unknown host: <cause message>"; any other transport cause contributes its string; a failure that is not a transport exception with a cause contributes its own string |
| Context.WrapInjectiveOnOthers | git-server/src/jetbrains/buildServer/buildTriggers/vcs/git/OperationContext.java:121-134 | distinct non-VCS exceptions wrap to distinct VcsExceptions |
| Context.AddTree | git-server/src/jetbrains/buildServer/buildTriggers/vcs/git/OperationContext.java:167-180 | the tree is submodule-aware if and only if the root checks out submodules; it then runs with a checkout policy that surfaces submodule errors if and only if the root's does and errors are not to be ignored, and carries the fetch URL and the logging flag; otherwise it is the raw commit tree |
| Context.PolicyWithErrorsIgnored | git-server/src/jetbrains/buildServer/buildTriggers/vcs/git/OperationContext.java:175 | the policy stays a checkout policy exactly when the root's is one; it surfaces submodule errors if and only if the root's does and errors are not to be ignored; without ignoring, the root's policy is kept |
| Context.PolicyWithErrorsIgnoredIdempotent | git-server/src/jetbrains/buildServer/buildTriggers/vcs/git/OperationContext.java:175 | asking for the error-ignoring policy twice is asking once, and a policy that already ignores errors is kept |
| Context.FindCommit | git-server/src/jetbrains/buildServer/buildTriggers/vcs/git/OperationContext.java:182-189 | a lookup that throws gives null; a successful one gives its commit |
| GitRoot.GetRef | git-common/src/jetbrains/buildServer/buildTriggers/vcs/git/GitVcsRoot.java:172-174 | `master` when the branch is unset, empty or whitespace; the branch unchanged otherwise; never blank |
| GitRoot.GetRefIdempotent | git-common/src/jetbrains/buildServer/buildTriggers/vcs/git/GitVcsRoot.java:172-174 | setting the branch to its derived ref changes nothing |
| GitRoot.ReadSubmodulesPolicy | git-common/src/jetbrains/buildServer/buildTriggers/vcs/git/GitVcsRoot.java:104-111 | unset means IGNORE; a value is accepted if and only if it names a policy, and then the policy named; anything else is an IllegalArgumentException |
| GitRoot.PolicyNameRoundTrip | git-common/src/jetbrains/buildServer/buildTriggers/vcs/git/GitVcsRoot.java:104-111 | reading a policy's name gives the policy back |
| GitRoot.ReadUserNameStyle | git-common/src/jetbrains/buildServer/buildTriggers/vcs/git/GitVcsRoot.java:95-102 | unset means USERID; a value is accepted if and only if it names a style; anything else is an IllegalArgumentException |
| GitRoot.StyleNameRoundTrip | git-common/src/jetbrains/buildServer/buildTriggers/vcs/git/GitVcsRoot.java:95-102 | reading a style's name gives the style back |
| GitRoot.IsCheckoutSubmodules | git-common/src/jetbrains/buildServer/buildTriggers/vcs/git/GitVcsRoot.java:116-121 | true exactly for the four checkout policies, that is, every policy but IGNORE |
| GitRoot.FromProperties | git-common/src/jetbrains/buildServer/buildTriggers/vcs/git/GitVcsRoot.java:55-72 | construction succeeds if and only if the style, the policy and each URL, both with and without error fixing, can be read; an empty push URL falls back to the fetch URLs |
| GitRoot.RepositoryDir | git-common/src/jetbrains/buildServer/buildTriggers/vcs/git/GitVcsRoot.java:131-139 | an absolute custom directory as is; a relative one under the base mirrors directory; otherwise the mirror directory of the fetch URL |
| GitRoot.RootForBranchSharesDirectory | git-common/src/jetbrains/buildServer/buildTriggers/vcs/git/GitVcsRoot.java:74-139 | the root for another branch builds whenever the root does and has the same repository directory; without a custom path that directory is the mirror directory of the error-fixed fetch URL |
| GitRoot.ParseIdent | git-common/src/jetbrains/buildServer/buildTriggers/vcs/git/GitVcsRoot.java:221-231 | with no `<` the whole string is the name and the email is empty; an email is only found between `<` and `>` |
| GitRoot.ParseIdentSplit | git-common/src/jetbrains/buildServer/buildTriggers/vcs/git/GitVcsRoot.java:221-231 | `before<email>after` parses to the trimmed `before` and `email` |
| GitRoot.ParseIdentUnclosed | git-common/src/jetbrains/buildServer/buildTriggers/vcs/git/GitVcsRoot.java:221-231 | with no `>` after the `<`, the whole string is the name |
| GitRoot.ParseFormatIdent | git-common/src/jetbrains/buildServer/buildTriggers/vcs/git/GitVcsRoot.java:221-231 | parsing `name <email>` gives back a trimmed name free of `<`, and its email |
| GitRoot.GetTagger | git-common/src/jetbrains/buildServer/buildTriggers/vcs/git/GitVcsRoot.java:84-88 | the repository's ident when no tag user name is set; else that name parsed |
| GitRoot.IsSsh | git-common/src/jetbrains/buildServer/buildTriggers/vcs/git/GitVcsRoot.java:292-300 | true if and only if the scheme is missing or `ssh`; never together with `isHttp` |
| GitRoot.IsHttp | git-common/src/jetbrains/buildServer/buildTriggers/vcs/git/GitVcsRoot.java:297-300 | holds only for a URL with a scheme (http or https), so never for scp-like syntax |
| Content.Version | git-server/src/jetbrains/buildServer/buildTriggers/vcs/git/GitVcsFileContentProvider.java:57-66 | BEFORE_CHANGE selects the before-revision, any other type the after-revision |
| Content.ChangeContentReadsChosenRevision | git-server/src/jetbrains/buildServer/buildTriggers/vcs/git/GitVcsFileContentProvider.java:57-66 | the change overload reads the relative file name at the chosen revision |
| Content.BlobRepository | git-server/src/jetbrains/buildServer/buildTriggers/vcs/git/GitVcsFileContentProvider.java:164-173 | the submodule's repository for a submodule-aware entry, the root repository otherwise |
| Content.LoadObject | git-server/src/jetbrains/buildServer/buildTriggers/vcs/git/GitVcsFileContentProvider.java:128-154 | succeeds if and only if the blob opens and its copy succeeds; a missing blob is an IOException naming `AnyObjectId[<id>]`, the path and `Repository[<dir>]`; a failing copy fails the load with its own exception; the bytes are CRLF-converted if and only if the root asks for it, otherwise verbatim |
| Content.GetContent | git-server/src/jetbrains/buildServer/buildTriggers/vcs/git/GitVcsFileContentProvider.java:69-98 | on every path the context is closed, and last |
| Content.Lookup | git-server/src/jetbrains/buildServer/buildTriggers/vcs/git/GitVcsFileContentProvider.java:79-86 | a failed commit load, a failed tree walk (adding the tree or its first `next`) or a failed blob load ends the lookup with that exception; a walk that finds nothing is a file-not-found VcsException naming the path and the revision; a found entry gives its loaded blob |
| Content.WalkFailureWrapped | git-server/src/jetbrains/buildServer/buildTriggers/vcs/git/GitVcsFileContentProvider.java:82-97 | an exception of the tree walk reaches the caller wrapped as a VcsException, unless closing throws |
| Content.GetChangeContent | git-server/src/jetbrains/buildServer/buildTriggers/vcs/git/GitVcsFileContentProvider.java:57-66 | the change overload reads the change's relative file name at the before-revision for BEFORE_CHANGE and at the after-revision for AFTER_CHANGE |
| Content.ResourcesReleased | git-server/src/jetbrains/buildServer/buildTriggers/vcs/git/GitVcsFileContentProvider.java:76-97 | the tree walk is released if and only if it was created, and the context is closed exactly once, at the end |
| Content.MissingFileReported | git-server/src/jetbrains/buildServer/buildTriggers/vcs/git/GitVcsFileContentProvider.java:83-94 | a path missing from the commit's tree is a file-not-found VcsException naming the path and the revision, and reaches the caller unwrapped |
| Content.FoundFileContent | git-server/src/jetbrains/buildServer/buildTriggers/vcs/git/GitVcsFileContentProvider.java:76-98 | a found file's content is the loaded blob; a blob that fails to load reaches the caller wrapped as a VcsException |
| Content.FailuresAreVcsExceptions | git-server/src/jetbrains/buildServer/buildTriggers/vcs/git/GitVcsFileContentProvider.java:89-97 | unless closing throws, every failure reaches the caller as a VcsException; a close that throws replaces the outcome |
| Content.ContentTreeIgnoresSubmoduleErrors | git-server/src/jetbrains/buildServer/buildTriggers/vcs/git/GitVcsFileContentProvider.java:82 | the tree the file is looked up in ignores submodule errors |
| SubmoduleList.ParseLine | git-agent/src/jetbrains/buildServer/buildTriggers/vcs/git/agent/command/impl/SubmoduleListCommandImpl.java:34-41 | a line contributes nothing if and only if it is shorter than 41 characters |
| SubmoduleList.ShortLineIgnored | git-agent/src/jetbrains/buildServer/buildTriggers/vcs/git/agent/command/impl/SubmoduleListCommandImpl.java:34-35 | appending a line shorter than 41 characters does not change the result |
| SubmoduleList.ParseLineOfWords | git-agent/src/jetbrains/buildServer/buildTriggers/vcs/git/agent/command/impl/SubmoduleListCommandImpl.java:36-41 | a kept line maps its second word to its first, the first losing its first character exactly when it is 41 long |
| SubmoduleList.GitLineParsed | git-agent/src/jetbrains/buildServer/buildTriggers/vcs/git/agent/command/impl/SubmoduleListCommandImpl.java:34-41 | a `git submodule status` line (status character, 40-character id, path, optional describe) maps the path to the id, whatever the status |
| SubmoduleList.CollectFails | git-agent/src/jetbrains/buildServer/buildTriggers/vcs/git/agent/command/impl/SubmoduleListCommandImpl.java:31-44 | parsing fails if and only if some kept line has fewer than two words |
| SubmoduleList.CollectLastWins | git-agent/src/jetbrains/buildServer/buildTriggers/vcs/git/agent/command/impl/SubmoduleListCommandImpl.java:33-43 | every parsed path is a key; every key comes from a line, whose commit it holds, with no later line for the same path |
| SubmoduleList.Call | git-agent/src/jetbrains/buildServer/buildTriggers/vcs/git/agent/command/impl/SubmoduleListCommandImpl.java:21-29 | a failing command gives the empty map; any other exception propagates; output is parsed |
| SubmoduleList.Parse | git-agent/src/jetbrains/buildServer/buildTriggers/vcs/git/agent/command/impl/SubmoduleListCommandImpl.java:31-44 | parsing fails, with the index error of a missing path, if and only if some line of the output is long enough but has fewer than two words |
| Text.SplitLines | git-agent/src/jetbrains/buildServer/buildTriggers/vcs/git/agent/command/impl/SubmoduleListCommandImpl.java:33 | `StringUtil.splitByLines`: every line is non-empty and holds no line break; the spaces next to a line break are stripped, so no line after the first starts with a space and no line before the last ends with one |
| Text.SplitLinesOfJoined | git-agent/src/jetbrains/buildServer/buildTriggers/vcs/git/agent/command/impl/SubmoduleListCommandImpl.java:33 | lines that are non-empty, hold no line break and have no space at either end come back unchanged from splitting their `\n`-joined text |
| CommandLine.CommandLineError | git-common/src/jetbrains/buildServer/buildTriggers/vcs/git/CommandLineUtil.java:34-48 | null exactly when the exit code is 0 and there is no exception; otherwise a VcsException whose message starts with `'<cmd>' command failed.` |
| CommandLine.StderrSectionFirst | git-common/src/jetbrains/buildServer/buildTriggers/vcs/git/CommandLineUtil.java:40-43 | a non-empty stderr follows the header directly, trimmed |
| CommandLine.StdoutSectionAfterHeader | git-common/src/jetbrains/buildServer/buildTriggers/vcs/git/CommandLineUtil.java:40-43 | with empty stderr, a non-empty stdout follows the header directly, trimmed |
| CommandLine.ExceptionSectionLast | git-common/src/jetbrains/buildServer/buildTriggers/vcs/git/CommandLineUtil.java:41-43 | an exception's section always ends the message |
| CommandLine.StdoutSectionLast | git-common/src/jetbrains/buildServer/buildTriggers/vcs/git/CommandLineUtil.java:41-43 | without an exception, a non-empty stdout section ends the message |
| CommandLine.BareFailure | git-common/src/jetbrains/buildServer/buildTriggers/vcs/git/CommandLineUtil.java:37-47 | a failure with no output and no exception is the header alone |
| Progress.Update | git-server/src/jetbrains/buildServer/buildTriggers/vcs/git/FetchProgressMonitor.java:60-80 | a no-op without a task, or before anything was shown within 500 ms of the start; otherwise the count advances by `completed` (32-bit), output becomes true, and at most the one line for the new count is printed |
| Progress.UpdatePrintsWhenPercentChanges | git-server/src/jetbrains/buildServer/buildTriggers/vcs/git/FetchProgressMonitor.java:71-79 | once showing, a line is printed if and only if the total is unknown or the integer percentage changed |
| Progress.Display | git-server/src/jetbrains/buildServer/buildTriggers/vcs/git/FetchProgressMonitor.java:82-112 | a line starts with `\r`, the title and `": "`, padded past 25 characters |
| Progress.PercentFieldIsPadded | git-server/src/jetbrains/buildServer/buildTriggers/vcs/git/FetchProgressMonitor.java:92-108 | the percentage is right-aligned to width 3 |
| Progress.CompletedFieldWidth | git-server/src/jetbrains/buildServer/buildTriggers/vcs/git/FetchProgressMonitor.java:92-108 | the completed count is padded to the digit width of the total |
| Progress.EndTaskShowsHundredPercent | git-server/src/jetbrains/buildServer/buildTriggers/vcs/git/FetchProgressMonitor.java:118-127 | ending a shown task with a known total prints `100% (total/total)`, then a line break |
| Progress.EndTask | git-server/src/jetbrains/buildServer/buildTriggers/vcs/git/FetchProgressMonitor.java:118-127 | always leaves no task and output false; prints a final line only when something was shown |
| Progress.BeginTask | git-server/src/jetbrains/buildServer/buildTriggers/vcs/git/FetchProgressMonitor.java:53-58 | ends the previous task first, then sets the title, zero work done and the total |
| Progress.IsCancelled | git-server/src/jetbrains/buildServer/buildTriggers/vcs/git/FetchProgressMonitor.java:114-116 | never cancelled |
| Progress.StartKeepsTask | git-server/src/jetbrains/buildServer/buildTriggers/vcs/git/FetchProgressMonitor.java:48-51 | `start` only resets the clock reading |
| Progress.Init | git-server/src/jetbrains/buildServer/buildTriggers/vcs/git/FetchProgressMonitor.java:43-46 | a new monitor has no task, has printed nothing and satisfies the monitor invariant |
| Progress.Start | git-server/src/jetbrains/buildServer/buildTriggers/vcs/git/FetchProgressMonitor.java:48-51 | the clock reading becomes `now`; every other field is unchanged, and the invariant is kept |

## Left out

- The git process, jgit and the file system are parameters:
  - `removeOutdatedRefs`, `removeRefLocks`, `hasRevision`, `getRef` and the fetches act on an abstract mirror;
  - `expandRef` and `createRemoteRef` are given functions, as are the mirror manager's directory of a URL and a directory's file URI;
  - a repository's opening and closing, the tree walks and the blob loader are given too. What they return is a given value, and so is each exception they throw: adding a tree, a walk's `next`, a blob's `copyTo`, and a second walk against a fix-up commit.
- Failures of `mkdirs`, `init`, `addRemote`, `createBranch`, `deleteBranch`, `setConfig`, `submoduleInit`, `submoduleSync` and `submoduleUpdate` are not modelled: each is taken to succeed. Only the fetches and the `git submodule status` command can fail.
- The URISyntaxException of `getLocalMirrorUrl` is not modelled: building a file URI is taken to succeed.
- MirrorUpdate.CheckoutSubmodules: only one level is modelled. The recursive checkout of nested submodules (UpdaterWithMirror.java:253-258) is left out, because it needs a file tree of nested `.gitmodules`.
- MirrorUpdate.CheckoutSubmodules: `.gitmodules` arrives already parsed into its submodules, in iteration order. jgit's `Config` parsing is not part of this model. A missing `path` or `url` entry (null in Java) is not modelled.
- Resolver: `getSubResolver`, `getRepository` and the `isCommitExist` lookup are left out. A submodule repository is its set of commits. `SubmodulesConfig` parsing is given as a map of URLs and a set of path prefixes.
- `setupMirrors` and `postInit` only decide whether to call `setUseLocalMirror`, based on an unseen check, and are left out.
- CommitChanges: jgit's topological walk and the filtered change walk are given sequences. `getVcsChange` is modelled by its changed flag. `SubmoduleAwareTreeIterator` errors are flags on tree entries.
- RevWalk.CreateModificationData: the exception of an unresolvable submodule in a tree whose errors are not ignored is raised when the tree is added; where inside jgit's walk it is thrown is not modelled. The change walk's IOExceptions are a given result, and the fix-up search fails as a whole per commit, not per submodule path. A search failure is therefore reported before any second walk's failure, even where the code would first fail the second walk of an earlier entry. When several steps would fail, the model reports the first in the order of the code.
- Content: logging and performance timing are left out. `ensureCommitLoaded` is a given function that opens no further repositories. The CRLF-converting stream is a given byte transform.
- Context: `getGitRoot`/`createGitRoot` are left out, because they are only settings construction (GitRoot.FromProperties). Closing exceptions are treated as runtime exceptions, and the logging of close failures is left out.
- Progress: the print stream is a list of printed lines, and the clock is a parameter. Each line is also printed to `System.out`, and both streams are flushed (FetchProgressMonitor.java:110-111, 122-123); that copy and the flushes are not modelled.
- Progress.Update: Java's 32-bit int arithmetic is modelled with explicit wrap-around, but the percentage of counts above `MaxInt / 100` is not claimed to be meaningful, because Java overflows there too.
- RevWalk.Next: jgit's `RevWalk.next` is taken never to fail; its IOException and MissingObjectException are not modelled, because jgit's walk is a given sequence of commits.
- RevWalk.CreateModificationData: the data records only the version, the changes and the parent revisions. The author date, the full message, the user (`GitServerUtil.getUser` with the root's user name style) and the original root that ModificationDataRevWalk.java:96-98 also record are not modelled; they are read from jgit's commit as they are.
- Context.PolicyWithErrorsIgnored: `getPolicyWithErrorsIgnored` is not part of this model's source; it is modelled from its name and the policy constants, mapping CHECKOUT and NON_RECURSIVE_CHECKOUT to their error-ignoring variants when errors are to be ignored.
- RevWalk.LimitBoundsYield: `myNextCallCount` is an unbounded counter. The Java `int` counter would wrap after 2^31 calls, which the model does not reproduce.
- GitRoot.RepositoryDir: a relative custom directory is joined to the base mirrors directory with `/`. java.io.File's normalisation of separators, of `.` and `..`, and of a trailing separator is not modelled.
- Text.SplitLines: the empty strings `Pattern.split` leaves (before a leading line break, or between breaks separated only by spaces) are dropped. `parse` skips them as lines shorter than 41 characters.
- SubmoduleList: the ArrayIndexOutOfBoundsException for a kept line with fewer than two words is modelled as an error value; its message text is not.
- Text: strings are sequences of UTF-16 code units as characters. No Unicode normalisation or case folding beyond ASCII capitalisation is modelled.
- TransportFactoryImpl, GitDetectorImpl, BaseCommand, CheckoutCommandImpl, VersionCommandImpl and GitFacade are not part of this model. They are authentication, process and environment plumbing, or interfaces only. GitFacade's vocabulary appears as `MirrorUpdate.Action`.
- Filesystem locking between concurrent fetches of one mirror is not modelled.
