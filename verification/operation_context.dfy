/** The per-operation context on the server: a cache of repositories opened during
    one VCS operation (each directory opened at most once, all of them closed at the
    end), the translation of any failure into a VcsException, and the choice of tree
    iterator for a commit. */
module Context {
  import opened Wrappers
  import opened Text
  import opened Exceptions
  import opened GitRoot

  /** An open repository as the repository manager hands it out. */
  datatype Repository = Repository(dir: string, serial: nat)

  /** The repository manager: opening a directory for a fetch URL (which may fail),
      closing a repository (which may throw a runtime exception), and the mirror
      directory of a URL. */
  datatype Manager = Manager(
    open: (string, Uri) -> Result<Repository, Exception>,
    close: Repository -> Option<Exception>,
    mirrorDirOf: string -> string)

  /** `myOperation` and `myRepositories`, plus the directories opened so far, in order. */
  datatype OperationContext = OperationContext(
    operation: string,
    repositories: map<string, Repository>,
    openOrder: seq<string>)

  predicate Distinct(s: seq<string>) {
    forall i, j :: 0 <= i < j < |s| ==> s[i] != s[j]
  }

  /** Every cached directory was opened exactly once, and nothing else was opened. */
  predicate Valid(c: OperationContext) {
    Distinct(c.openOrder) && (forall d :: d in c.openOrder ==> d in c.repositories)
    && (forall d :: d in c.repositories ==> d in c.openOrder)
  }

  function NewContext(operation: string): (c: OperationContext)
    ensures Valid(c) && c.repositories == map[]
  {
    OperationContext(operation, map[], [])
  }

  /** `getRepository(dir, fetchUrl)`: the cached repository of `dir`, or a newly opened one
      that is cached from then on; a failing open caches nothing. */
  function GetRepository(c: OperationContext, mgr: Manager, dir: string, fetchUrl: Uri)
    : (r: (OperationContext, Result<Repository, Exception>))
    requires Valid(c)
    ensures Valid(r.0) && r.0.operation == c.operation
    ensures dir in c.repositories ==> r == (c, Ok(c.repositories[dir]))
    ensures dir !in c.repositories ==> r.1 == mgr.open(dir, fetchUrl)
    ensures dir !in c.repositories && r.1.Ok? ==>
              r.0.repositories == c.repositories[dir := r.1.value] && r.0.openOrder == c.openOrder + [dir]
    ensures dir !in c.repositories && r.1.Err? ==> r.0 == c
  {
    if dir in c.repositories then (c, Ok(c.repositories[dir]))
    else
      match mgr.open(dir, fetchUrl)
      case Err(e) => (c, Err(e))
      case Ok(repo) =>
        var c' := c.(repositories := c.repositories[dir := repo], openOrder := c.openOrder + [dir]);
        (c', Ok(repo))
  }

  /** `getRepositoryFor(uri)`: the repository of the URI's mirror directory. */
  function GetRepositoryFor(c: OperationContext, mgr: Manager, uri: Uri)
    : (r: (OperationContext, Result<Repository, Exception>))
    requires Valid(c)
    ensures Valid(r.0)
    ensures mgr.mirrorDirOf(uri.text) in c.repositories ==> r == (c, Ok(c.repositories[mgr.mirrorDirOf(uri.text)]))
  {
    var dir := mgr.mirrorDirOf(uri.text);
    if dir in c.repositories then (c, Ok(c.repositories[dir]))
    else GetRepository(c, mgr, dir, uri)
  }

  /** Looking a URI up is looking its mirror directory up with that URI. */
  lemma GetRepositoryForIsByMirrorDir(c: OperationContext, mgr: Manager, uri: Uri)
    requires Valid(c)
    ensures GetRepositoryFor(c, mgr, uri) == GetRepository(c, mgr, mgr.mirrorDirOf(uri.text), uri)
  {
  }

  /** A repeated lookup of a directory that opened returns the same repository and
      changes nothing. */
  lemma RepeatedLookupCached(c: OperationContext, mgr: Manager, dir: string, url1: Uri, url2: Uri)
    requires Valid(c)
    requires GetRepository(c, mgr, dir, url1).1.Ok?
    ensures var (c1, r1) := GetRepository(c, mgr, dir, url1);
            GetRepository(c1, mgr, dir, url2) == (c1, r1)
  {
  }

  /** A sequence of lookups, stopping at the first failure. */
  datatype Lookup = Lookup(dir: string, url: Uri)

  function Lookups(c: OperationContext, mgr: Manager, ls: seq<Lookup>): (r: (OperationContext, Option<Exception>))
    requires Valid(c)
    ensures Valid(r.0)
    decreases |ls|
  {
    if ls == [] then (c, None)
    else
      var (c1, res) := GetRepository(c, mgr, ls[0].dir, ls[0].url);
      if res.Err? then (c1, Some(res.error)) else Lookups(c1, mgr, ls[1..])
  }

  /** Whatever lookups an operation makes, no directory is opened twice, every open
      directory was asked for, and what was cached before stays cached unchanged. */
  lemma {:induction false} LookupsOpenEachDirOnce(c: OperationContext, mgr: Manager, ls: seq<Lookup>)
    requires Valid(c)
    ensures var r := Lookups(c, mgr, ls).0;
            Distinct(r.openOrder) && |r.openOrder| == |r.repositories.Keys|
            && (forall d :: d in c.repositories ==> d in r.repositories && r.repositories[d] == c.repositories[d])
            && (forall d :: d in r.repositories && d !in c.repositories ==> exists i :: 0 <= i < |ls| && ls[i].dir == d)
    decreases |ls|
  {
    var r := Lookups(c, mgr, ls).0;
    DistinctCount(r.openOrder);
    assert (set d | d in r.openOrder) == r.repositories.Keys;
    if ls != [] {
      var (c1, res) := GetRepository(c, mgr, ls[0].dir, ls[0].url);
      if res.Ok? {
        LookupsOpenEachDirOnce(c1, mgr, ls[1..]);
        forall d | d in r.repositories && d !in c.repositories
          ensures exists i :: 0 <= i < |ls| && ls[i].dir == d
        {
          if d in c1.repositories {
            assert ls[0].dir == d;
          } else {
            var i :| 0 <= i < |ls[1..]| && ls[1..][i].dir == d;
            assert ls[i + 1].dir == d;
          }
        }
      }
    }
  }

  /** A sequence without repetitions has as many elements as its set of elements. */
  lemma {:induction false} DistinctCount(s: seq<string>)
    requires Distinct(s)
    ensures |set d | d in s| == |s|
    decreases |s|
  {
    if s != [] {
      var init := s[..|s| - 1];
      DistinctCount(init);
      var a := set d | d in init;
      var b := set d | d in s;
      assert s == init + [s[|s| - 1]];
      assert b == a + {s[|s| - 1]};
      assert s[|s| - 1] !in a;
    }
  }

  /** The last exception among the close attempts of `repos`, if any threw. */
  function LastFailure(mgr: Manager, repos: seq<Repository>): Option<Exception>
    decreases |repos|
  {
    if repos == [] then None
    else if mgr.close(repos[|repos| - 1]).Some? then mgr.close(repos[|repos| - 1])
    else LastFailure(mgr, repos[..|repos| - 1])
  }

  /** The repositories of the context in the order `order` lists their directories. */
  function InOrder(c: OperationContext, order: seq<string>): (rs: seq<Repository>)
    requires forall d :: d in order ==> d in c.repositories
    ensures |rs| == |order| && forall i :: 0 <= i < |order| ==> rs[i] == c.repositories[order[i]]
  {
    seq(|order|, i requires 0 <= i < |order| => c.repositories[order[i]])
  }

  /** Closing a single repository throws what its close throws. */
  lemma LastFailureOfOne(mgr: Manager, r: Repository)
    ensures LastFailure(mgr, [r]) == mgr.close(r)
  {
    assert [r][..0] == [];
  }

  /** No close throws exactly when no attempt threw. */
  lemma {:induction false} LastFailureNoneIff(mgr: Manager, repos: seq<Repository>)
    ensures LastFailure(mgr, repos).None? <==> forall i :: 0 <= i < |repos| ==> mgr.close(repos[i]).None?
    decreases |repos|
  {
    if repos != [] {
      var init := repos[..|repos| - 1];
      LastFailureNoneIff(mgr, init);
      assert forall i :: 0 <= i < |init| ==> init[i] == repos[i];
    }
  }

  /** One more attempt: its exception, if it throws, is now the last. */
  lemma LastFailureSnoc(mgr: Manager, repos: seq<Repository>, r: Repository)
    ensures LastFailure(mgr, repos + [r]) == if mgr.close(r).Some? then mgr.close(r) else LastFailure(mgr, repos)
  {
    assert (repos + [r])[..|repos|] == repos;
  }

  /** `close`: attempts to close every cached repository, in the map's iteration order
      `order`, and afterwards rethrows the last exception a close threw. */
  method Close(c: OperationContext, mgr: Manager, order: seq<string>)
    returns (attempted: seq<Repository>, thrown: Option<Exception>)
    requires Distinct(order) && (forall d :: d in order ==> d in c.repositories)
    requires forall d :: d in c.repositories ==> d in order
    ensures |attempted| == |order|
    ensures forall i :: 0 <= i < |order| ==> attempted[i] == c.repositories[order[i]]
    ensures forall d :: d in c.repositories ==> c.repositories[d] in attempted
    ensures thrown == LastFailure(mgr, attempted)
    ensures thrown.None? <==> forall i :: 0 <= i < |attempted| ==> mgr.close(attempted[i]).None?
  {
    attempted := [];
    thrown := None;
    var k := 0;
    while k < |order|
      invariant 0 <= k <= |order| && |attempted| == k
      invariant forall i :: 0 <= i < k ==> attempted[i] == c.repositories[order[i]]
      invariant thrown == LastFailure(mgr, attempted)
    {
      assert order[k] in order;
      var repo := c.repositories[order[k]];
      var failure := mgr.close(repo);
      LastFailureSnoc(mgr, attempted, repo);
      if failure.Some? {
        thrown := failure;
      }
      attempted := attempted + [repo];
      k := k + 1;
    }
    LastFailureNoneIff(mgr, attempted);
    forall d | d in c.repositories ensures c.repositories[d] in attempted {
      var i :| 0 <= i < |order| && order[i] == d;
      assert attempted[i] == c.repositories[d];
    }
  }

  /** `wrapException`: a VcsException unchanged; anything else a VcsException
      `"<Operation> failed: <detail>"` caused by it, the detail naming a missing file or
      unknown host behind a transport failure, else the transport failure's cause, else
      the exception itself. */
  function WrapException(operation: string, ex: Exception): (r: Exception)
    ensures IsVcs(r)
    ensures IsVcs(ex) ==> r == ex
    ensures !IsVcs(ex) ==> r.kind == Vcs && r.cause == Some(ex) && r.message.Some?
                           && StartsWith(r.message.value, Capitalize(operation) + " failed: ")
  {
    if IsVcs(ex) then ex
    else
      var detail :=
        if ex.kind == Transport && ex.cause.Some? then
          var t := ex.cause.value;
          if t.kind == FileNotFound then "File not found: " + MessageText(t)
          else if t.kind == UnknownHost then "Unknown host: " + MessageText(t)
          else ToString(t)
        else ToString(ex);
      var prefix := Capitalize(operation) + " failed: ";
      assert (prefix + detail)[..|prefix|] == prefix;
      Exception(Vcs, Some(prefix + detail), Some(ex))
  }

  /** Wrapping twice is wrapping once, and wrapping never loses the original failure. */
  lemma WrapIdempotent(operation: string, ex: Exception)
    ensures WrapException(operation, WrapException(operation, ex)) == WrapException(operation, ex)
    ensures var r := WrapException(operation, ex); r == ex || r.cause == Some(ex)
  {
  }

  /** A transport failure caused by a missing file reports that file's message. */
  lemma WrapTransportFileNotFound(operation: string, cause: Exception, msg: Option<string>)
    requires cause.kind == FileNotFound
    ensures WrapException(operation, Exception(Transport, msg, Some(cause))).message
            == Some((Capitalize(operation) + " failed: ") + ("File not found: " + MessageText(cause)))
  {
  }

  /** The other details: an unknown host's message, another transport cause's string, or
      the failure's own string when it is no transport failure with a cause. */
  lemma WrapOtherDetails(operation: string, ex: Exception)
    requires !IsVcs(ex)
    ensures var prefix := Capitalize(operation) + " failed: ";
            var m := WrapException(operation, ex).message;
            (ex.kind == Transport && ex.cause.Some? && ex.cause.value.kind == UnknownHost ==>
               m == Some(prefix + ("Unknown host: " + MessageText(ex.cause.value))))
            && (ex.kind == Transport && ex.cause.Some? && ex.cause.value.kind !in {FileNotFound, UnknownHost} ==>
                  m == Some(prefix + ToString(ex.cause.value)))
            && (ex.kind != Transport || ex.cause.None? ==> m == Some(prefix + ToString(ex)))
  {
  }

  /** Two different non-VCS failures never wrap to the same exception, because each
      becomes the cause of its wrapper. */
  lemma WrapInjectiveOnOthers(operation: string, a: Exception, b: Exception)
    requires !IsVcs(a) && !IsVcs(b) && a != b
    ensures WrapException(operation, a) != WrapException(operation, b)
  {
  }

  /** Whether a submodule-aware iterator running with this policy throws on a submodule it
      cannot resolve. */
  predicate SurfacesSubmoduleErrors(p: SubmodulesCheckoutPolicy) {
    p == Checkout || p == NonRecursiveCheckout
  }

  /** `getPolicyWithErrorsIgnored`: when errors are to be ignored, each checkout policy runs
      as its error-ignoring variant; otherwise the root's policy is kept. */
  function PolicyWithErrorsIgnored(p: SubmodulesCheckoutPolicy, ignoreSubmoduleErrors: bool): (q: SubmodulesCheckoutPolicy)
    ensures IsCheckoutSubmodules(q) <==> IsCheckoutSubmodules(p)
    ensures SurfacesSubmoduleErrors(q) <==> SurfacesSubmoduleErrors(p) && !ignoreSubmoduleErrors
    ensures !ignoreSubmoduleErrors ==> q == p
  {
    if !ignoreSubmoduleErrors then p
    else
      match p
      case Checkout => CheckoutIgnoringErrors
      case NonRecursiveCheckout => NonRecursiveCheckoutIgnoringErrors
      case _ => p
  }

  /** What `addTree` adds to the tree walk for a commit. */
  datatype TreeSource =
    | SubmoduleAware(commit: string, policy: SubmodulesCheckoutPolicy, fetchUrl: string, logSubmoduleErrors: bool)
    | PlainTree(commit: string)

  /** `addTree`: a submodule-aware iterator exactly when the root checks out submodules,
      running with the root's policy made error-ignoring when asked; otherwise the commit's
      own tree. */
  function AddTree(root: GitVcsRoot, commit: string, ignoreSubmoduleErrors: bool, logSubmoduleErrors: bool)
    : (t: TreeSource)
    ensures t.SubmoduleAware? <==> root.submodulePolicy != Ignore
    ensures t.commit == commit
    ensures t.SubmoduleAware? ==> IsCheckoutSubmodules(t.policy)
                                  && (SurfacesSubmoduleErrors(t.policy) <==> SurfacesSubmoduleErrors(root.submodulePolicy) && !ignoreSubmoduleErrors)
                                  && t.fetchUrl == root.fetchUrl.text && t.logSubmoduleErrors == logSubmoduleErrors
  {
    if IsCheckoutSubmodules(root.submodulePolicy) then
      SubmoduleAware(commit, PolicyWithErrorsIgnored(root.submodulePolicy, ignoreSubmoduleErrors),
                     root.fetchUrl.text, logSubmoduleErrors)
    else PlainTree(commit)
  }

  /** The error-ignoring policies are fixed points, and asking twice is asking once. */
  lemma PolicyWithErrorsIgnoredIdempotent(p: SubmodulesCheckoutPolicy, ignore: bool)
    ensures PolicyWithErrorsIgnored(PolicyWithErrorsIgnored(p, ignore), ignore) == PolicyWithErrorsIgnored(p, ignore)
    ensures !SurfacesSubmoduleErrors(p) ==> PolicyWithErrorsIgnored(p, ignore) == p
  {
  }

  /** `findCommit`: the commit, or None when looking it up throws anything. */
  function FindCommit<C>(lookup: Result<C, Exception>): (r: Option<C>)
    ensures r.Some? <==> lookup.Ok?
    ensures r.Some? ==> r.value == lookup.value
  {
    match lookup
    case Ok(commit) => Some(commit)
    case Err(_) => None
  }
}
