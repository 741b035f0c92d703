/** Settings of a git VCS root, derived once from the root's raw properties:
    branch, submodule policy, user-name style, fetch and push URLs, the mirror
    directory, and the identity used for tags. */
module GitRoot {
  import opened Wrappers
  import opened Text
  import opened Exceptions

  datatype SubmodulesCheckoutPolicy =
    | Checkout
    | CheckoutIgnoringErrors
    | NonRecursiveCheckout
    | NonRecursiveCheckoutIgnoringErrors
    | Ignore

  datatype UserNameStyle = Name | UserId | Email | Full

  /** A parsed repository URL; only the parts the root settings look at. */
  datatype Uri = Uri(scheme: Option<string>, host: Option<string>, text: string)

  /** The raw string properties of a VCS root (null when unset). */
  datatype RootProperties = RootProperties(
    branch: Option<string>,
    fetchUrl: Option<string>,
    pushUrl: Option<string>,
    path: Option<string>,
    usernameStyle: Option<string>,
    submoduleCheckout: Option<string>,
    usernameForTags: Option<string>,
    branchSpec: Option<string>,
    autoCrlf: Option<string>,
    reportTags: Option<string>)

  /** The collaborators the settings are computed with: the authentication
      layer that turns a URL property into a URI, the mirror manager, and the
      file system's notion of an absolute path. */
  datatype Environment = Environment(
    createAuthUri: Option<string> -> Result<Uri, Exception>,        // `createAuthURI(url)`, fixing errors
    createAuthUriNoFix: Option<string> -> Result<Uri, Exception>,   // `createAuthURI(url, false)`
    baseMirrorsDir: string,
    mirrorDirOf: string -> string,
    isAbsolute: string -> bool)

  datatype PersonIdent = PersonIdent(name: string, email: string)

  datatype GitVcsRoot = GitVcsRoot(
    ref: Option<string>,
    usernameStyle: UserNameStyle,
    submodulePolicy: SubmodulesCheckoutPolicy,
    fetchUrl: Uri,
    fetchUrlNoFixErrors: Uri,
    pushUrl: Uri,
    pushUrlNoFixErrors: Uri,
    customRepositoryDir: Option<string>,
    usernameForTags: Option<string>,
    branchSpec: Option<string>,
    autoCrlf: bool,
    reportTags: bool)

  const DefaultBranch: string := "master"

  function PolicyName(p: SubmodulesCheckoutPolicy): string {
    match p
    case Checkout => "CHECKOUT"
    case CheckoutIgnoringErrors => "CHECKOUT_IGNORING_ERRORS"
    case NonRecursiveCheckout => "NON_RECURSIVE_CHECKOUT"
    case NonRecursiveCheckoutIgnoringErrors => "NON_RECURSIVE_CHECKOUT_IGNORING_ERRORS"
    case Ignore => "IGNORE"
  }

  function StyleName(s: UserNameStyle): string {
    match s
    case Name => "NAME"
    case UserId => "USERID"
    case Email => "EMAIL"
    case Full => "FULL"
  }

  /** `Enum.valueOf` failing on an unknown constant name. */
  function NoEnumConstant(enumClass: string, name: string): Exception {
    Exception(IllegalArgument, Some("No enum constant " + enumClass + "." + name), None)
  }

  /** The submodule policy property: IGNORE when unset, otherwise the constant of that exact name. */
  function ReadSubmodulesPolicy(prop: Option<string>): (r: Result<SubmodulesCheckoutPolicy, Exception>)
    ensures prop.None? ==> r == Ok(Ignore)
    ensures prop.Some? ==> (r.Ok? <==> exists p :: PolicyName(p) == prop.value)
    ensures prop.Some? && r.Ok? ==> PolicyName(r.value) == prop.value
    ensures r.Err? ==> r.error.kind == IllegalArgument
  {
    match prop
    case None => Ok(Ignore)
    case Some(s) =>
      if s == "CHECKOUT" then assert PolicyName(Checkout) == s; Ok(Checkout)
      else if s == "CHECKOUT_IGNORING_ERRORS" then assert PolicyName(CheckoutIgnoringErrors) == s; Ok(CheckoutIgnoringErrors)
      else if s == "NON_RECURSIVE_CHECKOUT" then assert PolicyName(NonRecursiveCheckout) == s; Ok(NonRecursiveCheckout)
      else if s == "NON_RECURSIVE_CHECKOUT_IGNORING_ERRORS" then assert PolicyName(NonRecursiveCheckoutIgnoringErrors) == s; Ok(NonRecursiveCheckoutIgnoringErrors)
      else if s == "IGNORE" then assert PolicyName(Ignore) == s; Ok(Ignore)
      else Err(NoEnumConstant("jetbrains.buildServer.buildTriggers.vcs.git.SubmodulesCheckoutPolicy", s))
  }

  /** The user-name style property: USERID when unset, otherwise the constant of that exact name. */
  function ReadUserNameStyle(prop: Option<string>): (r: Result<UserNameStyle, Exception>)
    ensures prop.None? ==> r == Ok(UserId)
    ensures prop.Some? ==> (r.Ok? <==> exists s :: StyleName(s) == prop.value)
    ensures prop.Some? && r.Ok? ==> StyleName(r.value) == prop.value
    ensures r.Err? ==> r.error.kind == IllegalArgument
  {
    match prop
    case None => Ok(UserId)
    case Some(s) =>
      if s == "NAME" then assert StyleName(Name) == s; Ok(Name)
      else if s == "USERID" then assert StyleName(UserId) == s; Ok(UserId)
      else if s == "EMAIL" then assert StyleName(Email) == s; Ok(Email)
      else if s == "FULL" then assert StyleName(Full) == s; Ok(Full)
      else Err(NoEnumConstant("jetbrains.buildServer.buildTriggers.vcs.git.GitVcsRoot.UserNameStyle", s))
  }

  /** Every policy survives being written out by name and read back. */
  lemma PolicyNameRoundTrip(p: SubmodulesCheckoutPolicy)
    ensures ReadSubmodulesPolicy(Some(PolicyName(p))) == Ok(p)
  {
  }

  /** Every style survives being written out by name and read back. */
  lemma StyleNameRoundTrip(s: UserNameStyle)
    ensures ReadUserNameStyle(Some(StyleName(s))) == Ok(s)
  {
  }

  /** `isCheckoutSubmodules`: every policy except IGNORE checks submodules out. */
  predicate IsCheckoutSubmodules(p: SubmodulesCheckoutPolicy)
    ensures IsCheckoutSubmodules(p) <==> p != Ignore
  {
    p == Checkout || p == CheckoutIgnoringErrors || p == NonRecursiveCheckout || p == NonRecursiveCheckoutIgnoringErrors
  }

  /** `Boolean.valueOf`: true exactly for "true" in any letter case. */
  predicate IsTrueLiteral(s: string) {
    |s| == 4
    && (s[0] == 't' || s[0] == 'T') && (s[1] == 'r' || s[1] == 'R')
    && (s[2] == 'u' || s[2] == 'U') && (s[3] == 'e' || s[3] == 'E')
  }

  /** A boolean property read with the default "false". */
  function ReadFlag(prop: Option<string>): (b: bool)
    ensures prop.None? ==> !b
    ensures b <==> prop.Some? && IsTrueLiteral(prop.value)
  {
    IsTrueLiteral(prop.GetOr("false"))
  }

  /** The constructor: reads the style, then the policy, then the fetch URL with and
      without error fixing, then the push URL likewise (the fetch URLs again when no push URL
      is set), failing at the first property that cannot be read. */
  function FromProperties(props: RootProperties, env: Environment, ref: Option<string>): (r: Result<GitVcsRoot, Exception>)
    ensures ReadUserNameStyle(props.usernameStyle).Err? ==> r == Err(ReadUserNameStyle(props.usernameStyle).error)
    ensures r.Ok? ==> r.value.ref == ref && r.value.customRepositoryDir == props.path
    ensures r.Ok? ==> env.createAuthUri(props.fetchUrl) == Ok(r.value.fetchUrl)
                      && env.createAuthUriNoFix(props.fetchUrl) == Ok(r.value.fetchUrlNoFixErrors)
    ensures r.Ok? && IsEmpty(props.pushUrl) ==>
              r.value.pushUrl == r.value.fetchUrl && r.value.pushUrlNoFixErrors == r.value.fetchUrlNoFixErrors
    ensures r.Ok? && !IsEmpty(props.pushUrl) ==>
              Ok(r.value.pushUrl) == env.createAuthUri(props.pushUrl)
              && Ok(r.value.pushUrlNoFixErrors) == env.createAuthUriNoFix(props.pushUrl)
    ensures r.Ok? <==>
      ReadUserNameStyle(props.usernameStyle).Ok? && ReadSubmodulesPolicy(props.submoduleCheckout).Ok?
      && env.createAuthUri(props.fetchUrl).Ok? && env.createAuthUriNoFix(props.fetchUrl).Ok?
      && (IsEmpty(props.pushUrl) || (env.createAuthUri(props.pushUrl).Ok? && env.createAuthUriNoFix(props.pushUrl).Ok?))
  {
    var style :- ReadUserNameStyle(props.usernameStyle);
    var policy :- ReadSubmodulesPolicy(props.submoduleCheckout);
    var fetch :- env.createAuthUri(props.fetchUrl);
    var fetchNoFix :- env.createAuthUriNoFix(props.fetchUrl);
    var push :- if IsEmpty(props.pushUrl) then Ok(fetch) else env.createAuthUri(props.pushUrl);
    var pushNoFix :- if IsEmpty(props.pushUrl) then Ok(fetchNoFix) else env.createAuthUriNoFix(props.pushUrl);
    Ok(GitVcsRoot(ref, style, policy, fetch, fetchNoFix, push, pushNoFix, props.path, props.usernameForTags,
                  props.branchSpec, ReadFlag(props.autoCrlf), ReadFlag(props.reportTags)))
  }

  /** `getRef`: the configured branch, or "master" when it is unset, empty or only spaces. */
  function GetRef(root: GitVcsRoot): (r: string)
    ensures IsEmptyOrSpaces(root.ref) ==> r == DefaultBranch
    ensures !IsEmptyOrSpaces(root.ref) ==> r == root.ref.value
    ensures !IsBlank(r)
  {
    assert !IsTrimmable(DefaultBranch[0]);
    if IsEmptyOrSpaces(root.ref) then DefaultBranch else root.ref.value
  }

  /** Feeding the effective branch back in as the configured branch changes nothing. */
  lemma GetRefIdempotent(root: GitVcsRoot)
    ensures GetRef(root.(ref := Some(GetRef(root)))) == GetRef(root)
  {
  }

  /** The child path joined onto the parent with a `/`, as `new File(parent, child)` joins
      two plain relative names; java.io.File's normalisation of separators is not modelled. */
  function ChildPath(parent: string, child: string): (p: string)
    ensures StartsWith(p, parent)
  {
    parent + "/" + child
  }

  /** `getRepositoryDir`: an absolute custom directory as is, a relative one under the base
      mirrors directory, and otherwise the mirror directory of the fetch URL. */
  function RepositoryDir(root: GitVcsRoot, env: Environment): (dir: string)
    ensures root.customRepositoryDir.Some? && env.isAbsolute(root.customRepositoryDir.value)
      ==> dir == root.customRepositoryDir.value
    ensures root.customRepositoryDir.Some? && !env.isAbsolute(root.customRepositoryDir.value)
      ==> StartsWith(dir, env.baseMirrorsDir + "/") && dir[|env.baseMirrorsDir| + 1..] == root.customRepositoryDir.value
    ensures root.customRepositoryDir.None? ==> dir == env.mirrorDirOf(root.fetchUrl.text)
  {
    match root.customRepositoryDir
    case Some(custom) =>
      if env.isAbsolute(custom) then custom else ChildPath(env.baseMirrorsDir, custom)
    case None => env.mirrorDirOf(root.fetchUrl.text)
  }

  /** The directory is fixed by the root's properties: the root for any other branch
      (`getRootForBranch`) builds whenever this one does and has the same directory, and
      without a custom path it is the mirror directory of the error-fixed fetch URL. */
  lemma RootForBranchSharesDirectory(props: RootProperties, env: Environment, ref: Option<string>, branch: string)
    requires FromProperties(props, env, ref).Ok?
    ensures FromProperties(props, env, Some(branch)).Ok?
    ensures RepositoryDir(FromProperties(props, env, Some(branch)).value, env)
            == RepositoryDir(FromProperties(props, env, ref).value, env)
    ensures props.path.None? ==>
              RepositoryDir(FromProperties(props, env, ref).value, env) == env.mirrorDirOf(env.createAuthUri(props.fetchUrl).value.text)
  {
  }

  /** `parseIdent`: "Name <email>" split at the first '<' and the last '>'; without a
      well-placed pair the whole text is the name and the e-mail is empty. */
  function ParseIdent(s: string): (r: PersonIdent)
    ensures '<' !in s ==> r == PersonIdent(s, "")
    ensures r.email != "" ==> '<' in s && '>' in s
  {
    var start := IndexOf(s, '<');
    if start == -1 then PersonIdent(s, "")
    else
      var end := LastIndexOf(s, '>');
      if end < start then PersonIdent(s, "")
      else PersonIdent(Trim(s[..start]), s[start + 1..end])
  }

  /** The text before the first '<' (trimmed) is the name; the text up to the last '>' is the e-mail. */
  lemma ParseIdentSplit(before: string, email: string, after: string)
    requires '<' !in before && '>' !in after
    ensures ParseIdent(before + "<" + email + ">" + after) == PersonIdent(Trim(before), email)
  {
    var s := before + "<" + email + ">" + after;
    var k := |before| + 1 + |email|;
    assert s[..|before|] == before;
    IndexOfAt(s, '<', |before|);
    assert s[k + 1..] == after;
    LastIndexOfAt(s, '>', k);
    assert s[|before| + 1..k] == email;
  }

  /** No '>' after the first '<': the whole text is the name. */
  lemma ParseIdentUnclosed(before: string, rest: string)
    requires '<' !in before && '>' !in rest
    ensures ParseIdent(before + "<" + rest) == PersonIdent(before + "<" + rest, "")
  {
    var s := before + "<" + rest;
    assert s[..|before|] == before;
    IndexOfAt(s, '<', |before|);
    assert s[|before|..] == "<" + rest;
    LastIndexOfBefore(s, '>', |before|);
  }

  /** The usual rendering of an identity. */
  function FormatIdent(p: PersonIdent): string {
    p.name + " <" + p.email + ">"
  }

  /** Formatting an identity and parsing it back gives the same identity, for every
      name without surrounding spaces or '<' and every e-mail. */
  lemma ParseFormatIdent(p: PersonIdent)
    requires IsTrimmed(p.name) && '<' !in p.name
    ensures ParseIdent(FormatIdent(p)) == p
  {
    assert FormatIdent(p) == (p.name + " ") + "<" + p.email + ">" + "";
    ParseIdentSplit(p.name + " ", p.email, "");
    TrimTrailingSpace(p.name);
  }

  /** `getTagger`: the repository's default identity unless a tagging user is configured. */
  function GetTagger(root: GitVcsRoot, repositoryIdent: PersonIdent): (r: PersonIdent)
    ensures root.usernameForTags.None? ==> r == repositoryIdent
    ensures root.usernameForTags.Some? ==> r == ParseIdent(root.usernameForTags.value)
  {
    match root.usernameForTags
    case None => repositoryIdent
    case Some(u) => ParseIdent(u)
  }

  /** `isSsh`: no scheme at all (scp-like syntax) or the ssh scheme. */
  function IsSsh(root: GitVcsRoot): (r: bool)
    ensures r <==> root.fetchUrl.scheme.None? || root.fetchUrl.scheme == Some("ssh")
    ensures r ==> !IsHttp(root)
  {
    root.fetchUrl.scheme.None? || root.fetchUrl.scheme.value == "ssh"
  }

  /** `isHttp`: the http or https scheme. */
  function IsHttp(root: GitVcsRoot): (r: bool)
    ensures r ==> root.fetchUrl.scheme.Some?
  {
    root.fetchUrl.scheme == Some("http") || root.fetchUrl.scheme == Some("https")
  }
}
