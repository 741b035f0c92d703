/** Retrieving a file's content at a revision on the server: the revision is chosen
    from the change, the file is looked up in the commit's tree (submodules included
    when the root checks them out), its blob is read from the repository that holds
    it, line endings are converted when the root asks for it, every failure is
    reported as a VcsException, and the tree walk and the context are always released. */
module Content {
  import opened Wrappers
  import opened Text
  import opened Exceptions
  import opened GitRoot
  import opened Context

  type Byte = b: int | 0 <= b < 256

  /** The operation name of the context, used in wrapped error messages. */
  const Operation := "retrieving content"

  datatype ContentType = BeforeChange | AfterChange

  /** The parts of a change the content lookup reads. */
  datatype ChangeInfo = ChangeInfo(relativeFileName: string, beforeRevision: string, afterRevision: string)

  /** The revision whose content is wanted: the before-revision for `BEFORE_CHANGE`, the
      after-revision otherwise. */
  function Version(change: ChangeInfo, contentType: ContentType): (v: string)
    ensures contentType == BeforeChange ==> v == change.beforeRevision
    ensures contentType != BeforeChange ==> v == change.afterRevision
  {
    if contentType == BeforeChange then change.beforeRevision else change.afterRevision
  }

  /** The entry the path-filtered tree walk stops at: its blob id, its path, and the
      repository of its iterator when that iterator is submodule-aware. */
  datatype Entry = Entry(objectId: string, path: string, submoduleRepository: Option<Repository>)

  /** An object loader: what `copyTo` gives, the blob's bytes or the IOException of
      reading them. */
  datatype Loader = Loader(copy: Result<seq<Byte>, Exception>)

  /** The parts of jgit and the server the lookup relies on, given. */
  datatype Server = Server(
    manager: Manager,
    env: Environment,
    versionRevision: string -> string,                          // the commit id of a version
    ensureCommitLoaded: (Repository, string) -> Result<string, Exception>,
    firstEntry: (TreeSource, string) -> Result<Option<Entry>, Exception>,
                                                                // adding the tree and the first `next` of the
                                                                // walk filtered by path: its entry, none, or
                                                                // what either throws
    open: (Repository, string) -> Option<Loader>,               // the loader of a blob, or null
    autoCrlf: seq<Byte> -> seq<Byte>,                           // the CRLF-converting stream
    debugInfo: GitVcsRoot -> string)

  /** What happened to the resources the lookup holds. */
  datatype Event = WalkCreated | WalkReleased | ContextClosed

  datatype Outcome = Outcome(events: seq<Event>, result: Result<seq<Byte>, Exception>)

  /** The blob's repository: the submodule's when the entry's iterator is submodule-aware,
      the root repository otherwise (`getRepository`). */
  function BlobRepository(root: Repository, e: Entry): (r: Repository)
    ensures e.submoduleRepository.Some? ==> r == e.submoduleRepository.value
    ensures e.submoduleRepository.None? ==> r == root
  {
    e.submoduleRepository.GetOr(root)
  }

  /** The message of a blob the repository cannot open, with jgit's `toString` of the
      object id (`AnyObjectId[<id>]`) and of the repository (`Repository[<dir>]`). */
  function MissingBlob(repo: Repository, e: Entry): Exception {
    Exception(IO, Some("Unable to find blob AnyObjectId[" + e.objectId + "](" + e.path + ") in repository Repository["
                       + repo.dir + "]"), None)
  }

  function FileNotFoundMessage(s: Server, root: GitVcsRoot, filePath: string, rev: string): string {
    "The file " + filePath + " could not be found in " + rev + s.debugInfo(root)
  }

  /** `loadObject`: the blob's bytes, converted when the root asks for automatic CRLF,
      verbatim otherwise; a blob the repository cannot open is an IOException, and a copy
      that fails fails the load with its exception. */
  function LoadObject(s: Server, root: GitVcsRoot, repo: Repository, e: Entry): (r: Result<seq<Byte>, Exception>)
    ensures var blobRepo := BlobRepository(repo, e);
            var loader := s.open(blobRepo, e.objectId);
            (r.Ok? <==> loader.Some? && loader.value.copy.Ok?)
            && (loader.None? ==> r == Err(MissingBlob(blobRepo, e)) && r.error.kind == IO && !IsVcs(r.error))
            && (loader.Some? && loader.value.copy.Err? ==> r == Err(loader.value.copy.error))
            && (r.Ok? && root.autoCrlf ==> r.value == s.autoCrlf(loader.value.copy.value))
            && (r.Ok? && !root.autoCrlf ==> r.value == loader.value.copy.value)
  {
    var blobRepo := BlobRepository(repo, e);
    match s.open(blobRepo, e.objectId)
    case None => Err(MissingBlob(blobRepo, e))
    case Some(loader) =>
      var data :- loader.copy;
      Ok(if root.autoCrlf then s.autoCrlf(data) else data)
  }

  /** The part of `getContent` inside the tree walk's `try`, once the repository is open:
      the commit is loaded, its tree is walked for the path with submodule errors ignored,
      and the entry found is loaded; the first failure ends it. */
  function Lookup(s: Server, root: GitVcsRoot, repo: Repository, filePath: string, version: string)
    : (r: Result<seq<Byte>, Exception>)
    ensures var rev := s.versionRevision(version);
            var loaded := s.ensureCommitLoaded(repo, rev);
            (loaded.Err? ==> r == Err(loaded.error))
            && (loaded.Ok? ==>
                  var found := s.firstEntry(AddTree(root, loaded.value, true, true), filePath);
                  (found.Err? ==> r == Err(found.error))
                  && (found == Ok(None) ==>
                        r == Err(Exception(VcsFileNotFound, Some(FileNotFoundMessage(s, root, filePath, rev)), None)))
                  && (found.Ok? && found.value.Some? ==> r == LoadObject(s, root, repo, found.value.value)))
  {
    var rev := s.versionRevision(version);
    var commit :- s.ensureCommitLoaded(repo, rev);
    var tree := AddTree(root, commit, true, true);
    var found :- s.firstEntry(tree, filePath);
    match found
    case None => Err(Exception(VcsFileNotFound, Some(FileNotFoundMessage(s, root, filePath, rev)), None))
    case Some(e) => LoadObject(s, root, repo, e)
  }

  /** `getContent(filePath, root, version)`. */
  function GetContent(s: Server, root: GitVcsRoot, filePath: string, version: string): (o: Outcome)
    ensures o.events != [] && o.events[|o.events| - 1] == ContextClosed
  {
    var ctx := NewContext(Operation);
    var (ctx1, repoResult) := GetRepository(ctx, s.manager, RepositoryDir(root, s.env), root.fetchUrl);
    var (events, body) :=
      match repoResult
      case Err(e) => ([], Err(e))
      case Ok(repo) => ([WalkCreated, WalkReleased], Lookup(s, root, repo, filePath, version));
    var wrapped := if body.Err? then Err(WrapException(Operation, body.error)) else body;
    var closing := LastFailure(s.manager, InOrder(ctx1, ctx1.openOrder));
    Outcome(events + [ContextClosed], if closing.Some? then Err(closing.value) else wrapped)
  }

  /** `getContent(modification, change, contentType, root)`. */
  function GetChangeContent(s: Server, root: GitVcsRoot, change: ChangeInfo, contentType: ContentType): (o: Outcome)
    ensures contentType == BeforeChange ==> o == GetContent(s, root, change.relativeFileName, change.beforeRevision)
    ensures contentType == AfterChange ==> o == GetContent(s, root, change.relativeFileName, change.afterRevision)
  {
    GetContent(s, root, change.relativeFileName, Version(change, contentType))
  }

  /** The change overload reads the relative file name at the chosen revision. */
  lemma ChangeContentReadsChosenRevision(s: Server, root: GitVcsRoot, change: ChangeInfo)
    ensures GetChangeContent(s, root, change, BeforeChange) == GetContent(s, root, change.relativeFileName, change.beforeRevision)
    ensures GetChangeContent(s, root, change, AfterChange) == GetContent(s, root, change.relativeFileName, change.afterRevision)
  {
  }

  /** Whatever happens, the tree walk is released if it was created, and the context is
      closed last, exactly once. */
  lemma ResourcesReleased(s: Server, root: GitVcsRoot, filePath: string, version: string)
    ensures var ev := GetContent(s, root, filePath, version).events;
            (WalkCreated in ev <==> WalkReleased in ev)
            && (forall i :: 0 <= i < |ev| && ev[i] == ContextClosed ==> i == |ev| - 1)
  {
  }

  /** The repository the lookup opens, when it opens. */
  function Opened(s: Server, root: GitVcsRoot): Result<Repository, Exception> {
    s.manager.open(RepositoryDir(root, s.env), root.fetchUrl)
  }

  /** Closing the context throws exactly what closing the one repository it opened throws. */
  lemma Closing(s: Server, root: GitVcsRoot)
    ensures var ctx1 := GetRepository(NewContext(Operation), s.manager, RepositoryDir(root, s.env), root.fetchUrl).0;
            LastFailure(s.manager, InOrder(ctx1, ctx1.openOrder))
            == if Opened(s, root).Ok? then s.manager.close(Opened(s, root).value) else None
  {
    var ctx1 := GetRepository(NewContext(Operation), s.manager, RepositoryDir(root, s.env), root.fetchUrl).0;
    if Opened(s, root).Ok? {
      var repo := Opened(s, root).value;
      assert InOrder(ctx1, ctx1.openOrder) == [repo];
      LastFailureOfOne(s.manager, repo);
    } else {
      assert InOrder(ctx1, ctx1.openOrder) == [];
    }
  }

  /** When the repository opens, its commit loads and closing succeeds, a path missing from
      the commit's tree is a file-not-found VcsException naming the path and revision; it
      reaches the caller unchanged. */
  lemma MissingFileReported(s: Server, root: GitVcsRoot, filePath: string, version: string)
    requires Opened(s, root).Ok?
    requires var repo := Opened(s, root).value;
             s.manager.close(repo).None?
             && s.ensureCommitLoaded(repo, s.versionRevision(version)).Ok?
             && s.firstEntry(AddTree(root, s.ensureCommitLoaded(repo, s.versionRevision(version)).value, true, true),
                             filePath) == Ok(None)
    ensures GetContent(s, root, filePath, version).result
            == Err(Exception(VcsFileNotFound,
                             Some(FileNotFoundMessage(s, root, filePath, s.versionRevision(version))), None))
  {
    Closing(s, root);
  }

  /** When the repository opens and closes cleanly and the file is found, the content is
      the blob from the repository holding it, converted exactly when the root asks for
      automatic CRLF; a blob that cannot be opened fails wrapped as a VcsException. */
  lemma FoundFileContent(s: Server, root: GitVcsRoot, filePath: string, version: string)
    requires Opened(s, root).Ok?
    requires var repo := Opened(s, root).value;
             s.manager.close(repo).None?
             && s.ensureCommitLoaded(repo, s.versionRevision(version)).Ok?
             && s.firstEntry(AddTree(root, s.ensureCommitLoaded(repo, s.versionRevision(version)).value, true, true),
                             filePath).Ok?
             && s.firstEntry(AddTree(root, s.ensureCommitLoaded(repo, s.versionRevision(version)).value, true, true),
                             filePath).value.Some?
    ensures var repo := Opened(s, root).value;
            var e := s.firstEntry(AddTree(root, s.ensureCommitLoaded(repo, s.versionRevision(version)).value, true, true),
                                  filePath).value.value;
            var loaded := LoadObject(s, root, repo, e);
            Lookup(s, root, repo, filePath, version) == loaded
            && (loaded.Ok? ==> GetContent(s, root, filePath, version).result == loaded)
            && (loaded.Err? ==> GetContent(s, root, filePath, version).result == Err(WrapException(Operation, loaded.error)))
  {
    Closing(s, root);
  }

  /** When the tree walk for the path throws (adding the tree or its first `next`), the
      caller gets that exception wrapped as a VcsException, unless closing throws. */
  lemma WalkFailureWrapped(s: Server, root: GitVcsRoot, filePath: string, version: string)
    requires Opened(s, root).Ok?
    requires var repo := Opened(s, root).value;
             s.manager.close(repo).None?
             && s.ensureCommitLoaded(repo, s.versionRevision(version)).Ok?
             && s.firstEntry(AddTree(root, s.ensureCommitLoaded(repo, s.versionRevision(version)).value, true, true),
                             filePath).Err?
    ensures var repo := Opened(s, root).value;
            var found := s.firstEntry(AddTree(root, s.ensureCommitLoaded(repo, s.versionRevision(version)).value, true, true),
                                      filePath);
            GetContent(s, root, filePath, version).result == Err(WrapException(Operation, found.error))
            && IsVcs(WrapException(Operation, found.error))
  {
    Closing(s, root);
  }

  /** Unless closing the repository throws, every failure reaches the caller as a
      VcsException; a close that throws replaces the outcome with its exception. */
  lemma FailuresAreVcsExceptions(s: Server, root: GitVcsRoot, filePath: string, version: string)
    ensures var o := GetContent(s, root, filePath, version);
            ((Opened(s, root).Err? || s.manager.close(Opened(s, root).value).None?) && o.result.Err?
             ==> IsVcs(o.result.error))
    ensures Opened(s, root).Ok? && s.manager.close(Opened(s, root).value).Some? ==>
              GetContent(s, root, filePath, version).result == Err(s.manager.close(Opened(s, root).value).value)
  {
    Closing(s, root);
  }

  /** The tree the file is looked up in always ignores submodule errors. */
  lemma ContentTreeIgnoresSubmoduleErrors(root: GitVcsRoot, commit: string)
    ensures AddTree(root, commit, true, true).SubmoduleAware? ==> !SurfacesSubmoduleErrors(AddTree(root, commit, true, true).policy)
  {
  }
}
