/** The changes of one commit as the server's history walk reports them. With
    submodules checked out, an entry whose submodule commit cannot be resolved
    ("broken") is compared against the nearest earlier commit in which that
    submodule resolves, found by a depth-bounded search over the history. */
module CommitChanges {
  import opened Wrappers
  import opened Text
  import opened Exceptions

  /** A path of a commit's tree, with what the submodule-aware iterator knows about it. */
  datatype TreeEntry = TreeEntry(
    path: string,
    submoduleError: bool,       // the iterator could not resolve its submodule
    parentOnSubmodule: bool)    // the parent iterator exists and sits on a submodule

  /** A commit of the history, with the entries of its full tree. */
  datatype Revision = Revision(id: string, entries: seq<TreeEntry>)

  /** How the error-ignoring filter classifies a walked path. */
  datatype EntryKind = Plain | Broken | ChildOfBroken(submodulePath: string)

  /** A path the change walk yields; `changed` says whether `getVcsChange` gives a change
      for it (rather than null). */
  datatype WalkEntry = WalkEntry(path: string, kind: EntryKind, changed: bool)

  /** A path of the direct comparison between a commit and a fix-up commit. */
  datatype DiffEntry = DiffEntry(path: string, changed: bool)

  /** A reported change: the path, the commit's version and the version it is compared with. */
  datatype VcsChange = VcsChange(path: string, version: string, beforeVersion: string)

  /** The repository as the walk sees it. Tree walking and topological ordering are jgit's;
      they are given. */
  datatype History = History(
    topoFrom: string -> seq<Revision>,        // the topological walk from a commit, that commit first
    diff: (string, string) -> Result<seq<DiffEntry>, Exception>)
                                              // the tree walk of a commit against another, any
                                              // difference, or what adding its trees or walking throws

  /** The search's test on one tree: some path below the submodule sits inside a submodule
      that resolved. */
  predicate IsFixedAt(rev: Revision, submodulePath: string) {
    exists k :: 0 <= k < |rev.entries| && FixesSubmodule(rev.entries[k], submodulePath)
  }

  predicate FixesSubmodule(e: TreeEntry, submodulePath: string) {
    StartsWith(e.path, submodulePath + "/") && !e.submoduleError && e.parentOnSubmodule
  }

  /** The last position the search may examine: `depth` commits after the start, within
      the walk. */
  function SearchEnd(topo: seq<Revision>, depth: int): (n: int)
    ensures 0 <= n && (n < |topo| || n == 0) && (depth <= 0 ==> n == 0) && (depth > 0 ==> n <= depth)
  {
    if depth <= 0 || |topo| == 0 then 0 else if depth < |topo| then depth else |topo| - 1
  }

  /** The reference definition of the fix-up search: the first commit after the start, among
      the first `depth`, at which the submodule resolves. */
  function NearestFixedFrom(topo: seq<Revision>, end: int, path: string, i: nat): (r: Option<nat>)
    requires 1 <= i && (end < |topo| || end == 0)
    ensures r.Some? ==> i <= r.value <= end && IsFixedAt(topo[r.value], path)
    decreases |topo| - i
  {
    if i > end then None
    else if IsFixedAt(topo[i], path) then Some(i)
    else NearestFixedFrom(topo, end, path, i + 1)
  }

  function NearestFixed(topo: seq<Revision>, depth: int, path: string): (r: Option<nat>) {
    NearestFixedFrom(topo, SearchEnd(topo, depth), path, 1)
  }

  /** The search finds the nearest commit after the start, within the depth, at which the
      submodule resolves, and nothing when there is none. */
  lemma {:induction false} NearestFixedFromIsNearest(topo: seq<Revision>, end: int, path: string, i: nat)
    requires 1 <= i && (end < |topo| || end == 0)
    ensures var r := NearestFixedFrom(topo, end, path, i);
            (r.Some? ==> forall j :: i <= j < r.value ==> !IsFixedAt(topo[j], path))
            && (r.None? ==> forall j :: i <= j <= end ==> !IsFixedAt(topo[j], path))
    decreases |topo| - i
  {
    if i <= end && !IsFixedAt(topo[i], path) {
      NearestFixedFromIsNearest(topo, end, path, i + 1);
    }
  }

  lemma NearestFixedSpec(topo: seq<Revision>, depth: int, path: string)
    ensures var r := NearestFixed(topo, depth, path);
            (depth <= 0 ==> r.None?)
            && (r.Some? ==> 1 <= r.value <= depth && r.value < |topo| && IsFixedAt(topo[r.value], path)
                            && forall j :: 1 <= j < r.value ==> !IsFixedAt(topo[j], path))
            && (r.None? ==> forall j :: 1 <= j <= depth && j < |topo| ==> !IsFixedAt(topo[j], path))
  {
    NearestFixedFromIsNearest(topo, SearchEnd(topo, depth), path, 1);
  }

  /** `getPreviousCommitWithFixedSubmodule`: walks the history from the start commit in
      topological order, skips the start commit, and examines at most `depth` commits,
      stopping at the first whose tree has a path below `path + "/"` inside a submodule
      that resolved. */
  method FindCommitWithFixedSubmodule(topo: seq<Revision>, depth: int, path: string) returns (r: Option<string>)
    ensures var k := NearestFixed(topo, depth, path);
            (r.Some? <==> k.Some?) && (r.Some? ==> r.value == topo[k.value].id)
  {
    if depth == 0 {
      return None;
    }
    var prefix := path + "/";
    r := None;
    var steps := 0;
    var i := 1;
    while r.None? && steps < depth && i < |topo|
      invariant i == steps + 1 && 0 <= steps
      invariant r.None? ==> NearestFixed(topo, depth, path) == NearestFixedFrom(topo, SearchEnd(topo, depth), path, i)
      invariant r.Some? ==> 1 <= i - 1 && NearestFixed(topo, depth, path) == Some(i - 1) && r.value == topo[i - 1].id
    {
      var rev := topo[i];
      steps := steps + 1;
      var k := 0;
      var found := false;
      while k < |rev.entries| && !found
        invariant 0 <= k <= |rev.entries|
        invariant found <==> k > 0 && FixesSubmodule(rev.entries[k - 1], path)
        invariant forall j :: 0 <= j < k - 1 ==> !FixesSubmodule(rev.entries[j], path)
        invariant !found ==> forall j :: 0 <= j < k ==> !FixesSubmodule(rev.entries[j], path)
      {
        var e := rev.entries[k];
        if StartsWith(e.path, prefix) && !e.submoduleError && e.parentOnSubmodule {
          found := true;
        }
        k := k + 1;
      }
      assert found <==> IsFixedAt(rev, path);
      if found {
        r := Some(rev.id);
      }
      i := i + 1;
    }
  }

  /** The fix-up commits found so far, by submodule path; a search that found nothing
      records null. */
  type FixMap = map<string, Option<string>>

  function FixFor(fixes: FixMap, path: string): Option<string> {
    if path in fixes then fixes[path] else None
  }

  /** `addVcsChange` against `(version, before)`: a null change is dropped. */
  function Direct(e: WalkEntry, version: string, before: string): (cs: seq<VcsChange>)
    ensures |cs| <= 1 && (cs != [] <==> e.changed)
    ensures forall c :: c in cs ==> c == VcsChange(e.path, version, before)
  {
    if e.changed then [VcsChange(e.path, version, before)] else []
  }

  /** The changes of the second walk between the commit and its fix-up commit, on `path` only. */
  function FromFix(ds: seq<DiffEntry>, path: string, version: string, fix: string): (cs: seq<VcsChange>)
    ensures forall c :: c in cs ==> c == VcsChange(path, version, fix)
    ensures |cs| <= |ds|
  {
    if ds == [] then []
    else (if ds[0].path == path && ds[0].changed then [VcsChange(path, version, fix)] else [])
         + FromFix(ds[1..], path, version, fix)
  }

  /** What is needed to route the entries of one commit. */
  datatype ChangeWalk = ChangeWalk(
    history: History,
    commitId: string,
    version: string,          // the commit's version
    parentVersion: string,    // its first parent's version
    checkoutSubmodules: bool,
    searchDepth: int)

  /** The fix-up commit for a broken submodule at `path`: the nearest of the `searchDepth`
      commits after this one, in topological order, at which the submodule resolves. */
  function SearchFix(w: ChangeWalk, path: string): (r: Option<string>)
    ensures var topo := w.history.topoFrom(w.commitId);
            (r.Some? ==> exists k :: 1 <= k <= w.searchDepth && k < |topo| && topo[k].id == r.value
                                     && IsFixedAt(topo[k], path)
                                     && forall j :: 1 <= j < k ==> !IsFixedAt(topo[j], path))
            && (r.None? ==> forall j :: 1 <= j <= w.searchDepth && j < |topo| ==> !IsFixedAt(topo[j], path))
  {
    var topo := w.history.topoFrom(w.commitId);
    NearestFixedSpec(topo, w.searchDepth, path);
    var k := NearestFixed(topo, w.searchDepth, path);
    if k.Some? then Some(topo[k.value].id) else None
  }

  /** The fix-up commit an entry is compared with when submodules are checked out: a broken
      submodule searches for its own, a path inside one reuses the one recorded for its
      submodule, any other path has none. */
  function FixUsed(w: ChangeWalk, e: WalkEntry, fixes: FixMap): Option<string> {
    match e.kind
    case Broken => SearchFix(w, e.path)
    case ChildOfBroken(sp) => FixFor(fixes, sp)
    case Plain => None
  }

  /** The changes of one entry against its fix-up commit when there is one (a second tree
      walk, which may throw), against the first parent otherwise. */
  function AgainstFix(w: ChangeWalk, e: WalkEntry, fix: Option<string>): Result<seq<VcsChange>, Exception> {
    if fix.None? then Ok(Direct(e, w.version, w.parentVersion))
    else
      var ds :- w.history.diff(w.commitId, fix.value);
      Ok(FromFix(ds, e.path, w.version, fix.value))
  }

  /** The loop body of `getCommitChanges` for one walked path. */
  function Route(w: ChangeWalk, e: WalkEntry, fixes: FixMap): (r: Result<(seq<VcsChange>, FixMap), Exception>)
    ensures !w.checkoutSubmodules ==> r == Ok((Direct(e, w.version, w.parentVersion), fixes))
    ensures w.checkoutSubmodules ==>
              (r.Err? <==> FixUsed(w, e, fixes).Some? && w.history.diff(w.commitId, FixUsed(w, e, fixes).value).Err?)
    ensures r.Err? ==> r.error == w.history.diff(w.commitId, FixUsed(w, e, fixes).value).error
    ensures r.Ok? && w.checkoutSubmodules && e.kind.Broken? ==> r.value.1 == fixes[e.path := SearchFix(w, e.path)]
    ensures r.Ok? && !(w.checkoutSubmodules && e.kind.Broken?) ==> r.value.1 == fixes
  {
    if !w.checkoutSubmodules then Ok((Direct(e, w.version, w.parentVersion), fixes))
    else
      match e.kind
      case Broken =>
        var fix := SearchFix(w, e.path);
        var cs :- AgainstFix(w, e, fix);
        Ok((cs, fixes[e.path := fix]))
      case ChildOfBroken(sp) =>
        var cs :- AgainstFix(w, e, FixFor(fixes, sp));
        Ok((cs, fixes))
      case Plain => Ok((Direct(e, w.version, w.parentVersion), fixes))
  }

  /** `getCommitChanges`: every walked path routed in order; the first failing second walk
      ends it. */
  function Changes(w: ChangeWalk, es: seq<WalkEntry>, fixes: FixMap): Result<seq<VcsChange>, Exception>
    decreases |es|
  {
    if es == [] then Ok([])
    else
      var step :- Route(w, es[0], fixes);
      var rest :- Changes(w, es[1..], step.1);
      Ok(step.0 + rest)
  }

  /** `getCommitChanges` starts with no fix-up commit recorded. Its changes are reported at
      the commit's version against the parent or a found fix-up commit, and it fails exactly
      when a second walk it needs fails. */
  function GetCommitChanges(w: ChangeWalk, es: seq<WalkEntry>): (r: Result<seq<VcsChange>, Exception>)
    ensures r.Ok? <==> DiffsSucceed(w, es)
    ensures r.Ok? ==> forall c :: c in r.value ==>
                        c.version == w.version && (c.beforeVersion == w.parentVersion || FoundBySearch(w, c.beforeVersion))
  {
    ChangesOkIff(w, es, 0, map[]);
    assert es[0..] == es;
    ChangesAreAgainstParentOrFix(w, es, map[]);
    Changes(w, es, map[])
  }

  /** Whether some entry before position `i` is a broken submodule at `path`. */
  predicate BrokenBefore(es: seq<WalkEntry>, i: int, path: string) {
    exists j :: 0 <= j < i && j < |es| && es[j].kind.Broken? && es[j].path == path
  }

  /** The reference for the fix-up commit of the entry at `i`, from the entries alone: a
      broken submodule's own search result; for a path inside a broken submodule, that
      submodule's search result when the submodule came earlier in the walk. */
  function FixOfEntry(w: ChangeWalk, es: seq<WalkEntry>, i: nat): Option<string>
    requires i < |es|
  {
    match es[i].kind
    case Broken => SearchFix(w, es[i].path)
    case ChildOfBroken(sp) => if BrokenBefore(es, i, sp) then SearchFix(w, sp) else None
    case Plain => None
  }

  /** Every second walk the commit needs succeeds. */
  predicate DiffsSucceed(w: ChangeWalk, es: seq<WalkEntry>) {
    !w.checkoutSubmodules
    || forall i :: 0 <= i < |es| && FixOfEntry(w, es, i).Some? ==> w.history.diff(w.commitId, FixOfEntry(w, es, i).value).Ok?
  }

  /** After the first `k` entries, the map holds each earlier broken submodule's search result. */
  ghost predicate FixesMatch(w: ChangeWalk, es: seq<WalkEntry>, k: int, fixes: FixMap) {
    forall p :: FixFor(fixes, p) == (if BrokenBefore(es, k, p) then SearchFix(w, p) else None)
  }

  lemma FixesMatchStep(w: ChangeWalk, es: seq<WalkEntry>, k: nat, fixes: FixMap)
    requires k < |es| && w.checkoutSubmodules && FixesMatch(w, es, k, fixes)
    ensures FixUsed(w, es[k], fixes) == FixOfEntry(w, es, k)
    ensures Route(w, es[k], fixes).Ok? ==> FixesMatch(w, es, k + 1, Route(w, es[k], fixes).value.1)
  {
    var r := Route(w, es[k], fixes);
    if r.Ok? {
      var fixes' := r.value.1;
      forall p
        ensures FixFor(fixes', p) == (if BrokenBefore(es, k + 1, p) then SearchFix(w, p) else None)
      {
        if es[k].kind.Broken? && es[k].path == p {
          assert BrokenBefore(es, k + 1, p) by { assert 0 <= k < k + 1; }
        } else {
          assert BrokenBefore(es, k + 1, p) == BrokenBefore(es, k, p) by {
            if BrokenBefore(es, k + 1, p) {
              var j :| 0 <= j < k + 1 && j < |es| && es[j].kind.Broken? && es[j].path == p;
              assert j < k;
            }
          }
        }
      }
    }
  }

  lemma {:induction false} ChangesOkIff(w: ChangeWalk, es: seq<WalkEntry>, k: nat, fixes: FixMap)
    requires k <= |es|
    requires w.checkoutSubmodules ==> FixesMatch(w, es, k, fixes)
    ensures Changes(w, es[k..], fixes).Ok?
            <==> (!w.checkoutSubmodules
                  || forall i :: k <= i < |es| && FixOfEntry(w, es, i).Some? ==>
                       w.history.diff(w.commitId, FixOfEntry(w, es, i).value).Ok?)
    decreases |es| - k
  {
    if k < |es| {
      assert es[k..][0] == es[k] && es[k..][1..] == es[k + 1..];
      if w.checkoutSubmodules {
        FixesMatchStep(w, es, k, fixes);
        var r := Route(w, es[k], fixes);
        if r.Ok? {
          ChangesOkIff(w, es, k + 1, r.value.1);
        }
      } else {
        ChangesOkIff(w, es, k + 1, fixes);
      }
    }
  }

  /** The reference for a walk without submodules: each path with a change, against the
      first parent. */
  function DirectChanges(es: seq<WalkEntry>, version: string, parentVersion: string): seq<VcsChange>
    decreases |es|
  {
    if es == [] then [] else Direct(es[0], version, parentVersion) + DirectChanges(es[1..], version, parentVersion)
  }

  /** Without submodule checkout, every walked path with a change is reported against the
      first parent, in walk order, and nothing else is. */
  lemma {:induction false} NoCheckoutIsDirect(w: ChangeWalk, es: seq<WalkEntry>, fixes: FixMap)
    requires !w.checkoutSubmodules
    ensures Changes(w, es, fixes) == Ok(DirectChanges(es, w.version, w.parentVersion))
    decreases |es|
  {
    if es != [] {
      NoCheckoutIsDirect(w, es[1..], fixes);
    }
  }

  /** A fix-up commit recorded in the map was found by the search within its depth. */
  predicate FoundBySearch(w: ChangeWalk, id: string) {
    var topo := w.history.topoFrom(w.commitId);
    exists k :: 1 <= k <= w.searchDepth && k < |topo| && topo[k].id == id
  }

  predicate FixesFound(w: ChangeWalk, fixes: FixMap) {
    forall p :: p in fixes && fixes[p].Some? ==> FoundBySearch(w, fixes[p].value)
  }

  lemma SearchFixFound(w: ChangeWalk, path: string)
    ensures SearchFix(w, path).Some? ==> FoundBySearch(w, SearchFix(w, path).value)
  {
    var topo := w.history.topoFrom(w.commitId);
    NearestFixedSpec(topo, w.searchDepth, path);
  }

  /** Every change of a commit is reported at the commit's own version, on a walked path,
      against either the first parent or a commit the fix-up search found among the
      `searchDepth` commits before it. */
  lemma {:induction false} ChangesAreAgainstParentOrFix(w: ChangeWalk, es: seq<WalkEntry>, fixes: FixMap)
    requires FixesFound(w, fixes)
    ensures Changes(w, es, fixes).Ok? ==> forall c :: c in Changes(w, es, fixes).value ==>
              c.version == w.version
              && (exists i :: 0 <= i < |es| && es[i].path == c.path)
              && (c.beforeVersion == w.parentVersion || FoundBySearch(w, c.beforeVersion))
    decreases |es|
  {
    if es != [] && Changes(w, es, fixes).Ok? {
      var (cs, fixes') := Route(w, es[0], fixes).value;
      SearchFixFound(w, es[0].path);
      assert FixesFound(w, fixes');
      ChangesAreAgainstParentOrFix(w, es[1..], fixes');
      forall c | c in Changes(w, es, fixes).value
        ensures c.version == w.version
                && (exists i :: 0 <= i < |es| && es[i].path == c.path)
                && (c.beforeVersion == w.parentVersion || FoundBySearch(w, c.beforeVersion))
      {
        if c in cs {
          assert es[0].path == c.path;
        } else {
          assert c in Changes(w, es[1..], fixes').value;
          var i :| 0 <= i < |es[1..]| && es[1..][i].path == c.path;
          assert es[i + 1].path == c.path;
        }
      }
    }
  }

  /** A broken submodule entry whose fix-up commit is found is compared with that commit,
      not with the parent: the fix-up commit becomes the before-version. */
  lemma BrokenEntryUsesFix(w: ChangeWalk, e: WalkEntry, fixes: FixMap)
    requires w.checkoutSubmodules && e.kind.Broken? && SearchFix(w, e.path).Some?
    ensures var fix := SearchFix(w, e.path).value;
            Route(w, e, fixes).Ok? ==> forall c :: c in Route(w, e, fixes).value.0 ==> c == VcsChange(e.path, w.version, fix)
  {
  }

  /** A path inside a broken submodule reuses the fix-up commit recorded for its submodule
      and searches nothing itself. */
  lemma ChildReusesFix(w: ChangeWalk, e: WalkEntry, fixes: FixMap)
    requires w.checkoutSubmodules && e.kind.ChildOfBroken?
    ensures Route(w, e, fixes).Ok? ==> Route(w, e, fixes).value.1 == fixes
    ensures FixFor(fixes, e.kind.submodulePath).Some? && Route(w, e, fixes).Ok? ==>
              forall c :: c in Route(w, e, fixes).value.0 ==>
                c == VcsChange(e.path, w.version, FixFor(fixes, e.kind.submodulePath).value)
    ensures FixFor(fixes, e.kind.submodulePath).None? ==> Route(w, e, fixes) == Ok((Direct(e, w.version, w.parentVersion), fixes))
  {
  }

  /** With a search depth of zero or less no fix-up commit is ever found, so every change is
      against the first parent. */
  lemma NoDepthNoFix(w: ChangeWalk, path: string)
    requires w.searchDepth <= 0
    ensures SearchFix(w, path).None?
  {
    NearestFixedSpec(w.history.topoFrom(w.commitId), w.searchDepth, path);
  }
}
