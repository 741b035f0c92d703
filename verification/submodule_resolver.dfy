/** Resolving the commit a submodule entry points at: the `.gitmodules` configuration
    of the commit is loaded once, then a chain of checks runs in a fixed order (config
    present, entry present, commit present, else one fetch and a re-check), each
    failure with its own error. */
module Resolver {
  import opened Wrappers
  import opened Exceptions

  /** The parsed `.gitmodules` of a commit, reduced to its two queries: the URL of the
      submodule at a path, and the paths that are proper prefixes of some submodule path. */
  datatype SubmodulesConfig = SubmodulesConfig(urls: map<string, string>, prefixes: set<string>)

  /** What constructing the configuration of a commit gives. */
  datatype ConfigLoad =
    | Loaded(config: SubmodulesConfig)
    | MissingFile                          // FileNotFoundException: silently ignored
    | LoadFailed(error: Exception)         // any other exception: logged

  /** The resolver's fields: the main repository's `teamcity.remote` URL (possibly unset),
      the commit whose submodules are resolved, the configuration once loaded, and what
      loading it gives. */
  datatype SubmoduleResolver = SubmoduleResolver(
    mainRepositoryUrl: Option<string>,
    commitId: string,
    config: Option<SubmodulesConfig>,
    load: ConfigLoad)

  /** A submodule repository, by the commits it holds. */
  datatype SubRepository = SubRepository(url: string, commits: set<string>)

  /** The abstract operations of a concrete resolver: resolving the repository of a
      submodule, and fetching into it. */
  datatype Backend = Backend(
    resolveRepository: (string, string) -> Result<SubRepository, Exception>,
    fetch: (SubRepository, string, string) -> Result<SubRepository, Exception>)

  /** The calls made into the backend, in order. */
  datatype Step = Resolve(path: string, url: string) | Fetch(path: string, url: string)

  /** `ensureConfigLoaded`: a missing configuration is loaded; a failing load leaves it
      missing; a loaded one is never replaced. */
  function EnsureConfigLoaded(r: SubmoduleResolver): (r': SubmoduleResolver)
    ensures r'.(config := r.config) == r
    ensures r.config.Some? ==> r'.config == r.config
    ensures r.config.None? ==> (r'.config.Some? <==> r.load.Loaded?)
    ensures r.config.None? && r.load.Loaded? ==> r'.config == Some(r.load.config)
  {
    if r.config.Some? then r
    else
      match r.load
      case Loaded(c) => r.(config := Some(c))
      case _ => r
  }

  /** Loading twice is loading once. */
  lemma EnsureConfigLoadedIdempotent(r: SubmoduleResolver)
    ensures EnsureConfigLoaded(EnsureConfigLoaded(r)) == EnsureConfigLoaded(r)
  {
  }

  function MainUrl(r: SubmoduleResolver): string {
    r.mainRepositoryUrl.GetOr("null")
  }

  function Situation(r: SubmoduleResolver, path: string): string {
    "Repository '" + MainUrl(r) + "' has submodule in commit '" + r.commitId + "' at path '" + path + "', but "
  }

  function NoConfigError(r: SubmoduleResolver, path: string): Exception {
    Exception(CorruptObject, Some(Situation(r, path) + "has no .gitmodules configuration at the root directory."), None)
  }

  function NoEntryError(r: SubmoduleResolver, path: string): Exception {
    Exception(CorruptObject, Some(Situation(r, path) + "has no entry for this path in .gitmodules configuration."), None)
  }

  function CommitNotFoundText(r: SubmoduleResolver, path: string, commit: string, url: string): string {
    Situation(r, path) + "tracked submodule commit '" + commit + "' is not found in repository '" + url + "'. Forget to push it?"
  }

  function CommitNotFoundError(r: SubmoduleResolver, path: string, commit: string, url: string): Exception {
    Exception(CorruptObject, Some(CommitNotFoundText(r, path, commit, url)), None)
  }

  datatype Resolution = Resolution(
    resolver: SubmoduleResolver,
    steps: seq<Step>,
    result: Result<string, Exception>)

  /** The fetches among the steps. */
  function FetchCount(steps: seq<Step>): (n: nat)
    ensures n <= |steps|
  {
    if steps == [] then 0 else (if steps[0].Fetch? then 1 else 0) + FetchCount(steps[1..])
  }

  /** `getSubmoduleCommit(path, commit)`. */
  function GetSubmoduleCommit(r: SubmoduleResolver, b: Backend, path: string, commit: string): (res: Resolution)
    ensures res.resolver == EnsureConfigLoaded(r)
    ensures res.resolver.config.None? ==> res.steps == [] && res.result == Err(NoConfigError(res.resolver, path))
    ensures res.resolver.config.Some? && path !in res.resolver.config.value.urls ==>
              res.steps == [] && res.result == Err(NoEntryError(res.resolver, path))
    ensures res.steps != [] ==> res.steps[0] == Resolve(path, res.resolver.config.value.urls[path])
    ensures FetchCount(res.steps) <= 1
    ensures res.result.Ok? ==> res.result.value == commit
  {
    var r' := EnsureConfigLoaded(r);
    if r'.config.None? then Resolution(r', [], Err(NoConfigError(r', path)))
    else if path !in r'.config.value.urls then Resolution(r', [], Err(NoEntryError(r', path)))
    else
      var url := r'.config.value.urls[path];
      match b.resolveRepository(path, url)
      case Err(e) => Resolution(r', [Resolve(path, url)], Err(e))
      case Ok(repo) =>
        if commit in repo.commits then Resolution(r', [Resolve(path, url)], Ok(commit))
        else
          match b.fetch(repo, path, url)
          case Err(e) => Resolution(r', [Resolve(path, url), Fetch(path, url)], Err(e))
          case Ok(repo') =>
            if commit in repo'.commits then Resolution(r', [Resolve(path, url), Fetch(path, url)], Ok(commit))
            else Resolution(r', [Resolve(path, url), Fetch(path, url)], Err(CommitNotFoundError(r', path, commit, url)))
  }

  /** The submodule's URL in the loaded configuration, if it has an entry for the path. */
  function EntryUrl(r: SubmoduleResolver, path: string): Option<string> {
    var r' := EnsureConfigLoaded(r);
    if r'.config.Some? && path in r'.config.value.urls then Some(r'.config.value.urls[path]) else None
  }

  /** A fetch happens exactly when the entry exists, its repository resolves and lacks
      the commit; it goes to that submodule's path and URL. */
  lemma FetchOnlyWhenCommitMissing(r: SubmoduleResolver, b: Backend, path: string, commit: string)
    ensures var res := GetSubmoduleCommit(r, b, path, commit);
            (FetchCount(res.steps) == 1) <==>
              (EntryUrl(r, path).Some?
               && b.resolveRepository(path, EntryUrl(r, path).value).Ok?
               && commit !in b.resolveRepository(path, EntryUrl(r, path).value).value.commits)
    ensures var res := GetSubmoduleCommit(r, b, path, commit);
            forall i :: 0 <= i < |res.steps| && res.steps[i].Fetch? ==> res.steps[i] == Fetch(path, EntryUrl(r, path).value)
  {
  }

  /** The resolution succeeds exactly when every check passes: the entry exists, its
      repository resolves, and the commit is there or arrives with the one fetch. */
  lemma ResolvedIffChecksPass(r: SubmoduleResolver, b: Backend, path: string, commit: string)
    ensures GetSubmoduleCommit(r, b, path, commit).result.Ok? <==>
              (EntryUrl(r, path).Some?
               && var url := EntryUrl(r, path).value;
                  b.resolveRepository(path, url).Ok?
                  && var repo := b.resolveRepository(path, url).value;
                     (commit in repo.commits
                      || (b.fetch(repo, path, url).Ok? && commit in b.fetch(repo, path, url).value.commits)))
  {
  }

  /** `s` occurs in `t` at position `i`. */
  predicate OccursAt(s: string, t: string, i: nat) {
    i + |s| <= |t| && t[i..i + |s|] == s
  }

  /** `a + s + c` holds `s` right after `a`. */
  lemma OccursAfter(a: string, s: string, c: string)
    ensures OccursAt(s, a + s + c, |a|)
  {
    assert (a + s + c)[|a|..|a| + |s|] == s;
  }

  /** When the commit is still missing after the fetch, the error names the submodule's
      URL and the commit id. */
  lemma CommitNotFoundNamesUrlAndCommit(r: SubmoduleResolver, path: string, commit: string, url: string)
    ensures var msg := CommitNotFoundText(r, path, commit, url);
            (exists i :: OccursAt(commit, msg, i)) && (exists j :: OccursAt(url, msg, j))
  {
    var front := Situation(r, path) + "tracked submodule commit '";
    var msg := CommitNotFoundText(r, path, commit, url);
    OccursAfter(front, commit, "' is not found in repository '" + url + "'. Forget to push it?");
    assert msg == front + commit + ("' is not found in repository '" + url + "'. Forget to push it?");
    var front2 := front + commit + "' is not found in repository '";
    OccursAfter(front2, url, "'. Forget to push it?");
    assert msg == front2 + url + "'. Forget to push it?";
  }

  /** `containsSubmodule(path)`: false without a configuration. */
  function ContainsSubmodule(r: SubmoduleResolver, path: string): (res: (SubmoduleResolver, bool))
    ensures res.0 == EnsureConfigLoaded(r)
    ensures res.1 <==> res.0.config.Some? && path in res.0.config.value.prefixes
  {
    var r' := EnsureConfigLoaded(r);
    (r', r'.config.Some? && path in r'.config.value.prefixes)
  }

  /** `getSubmoduleUrl(path)`: the entry's URL, or nothing without a configuration or entry. */
  function GetSubmoduleUrl(r: SubmoduleResolver, path: string): (res: (SubmoduleResolver, Option<string>))
    ensures res.0 == EnsureConfigLoaded(r)
    ensures res.0.config.None? ==> res.1.None?
    ensures res.1.Some? <==> res.0.config.Some? && path in res.0.config.value.urls
    ensures res.1.Some? ==> res.1.value == res.0.config.value.urls[path]
  {
    var r' := EnsureConfigLoaded(r);
    if r'.config.Some? then
      (r', if path in r'.config.value.urls then Some(r'.config.value.urls[path]) else None)
    else (r', None)
  }

  /** Any sequence of queries leaves the first successfully loaded configuration in place. */
  lemma ConfigNeverReplaced(r: SubmoduleResolver, b: Backend, path: string, commit: string, other: string)
    requires r.config.Some?
    ensures GetSubmoduleCommit(r, b, path, commit).resolver == r
    ensures ContainsSubmodule(r, other).0 == r && GetSubmoduleUrl(r, other).0 == r
  {
  }
}
