/** `git submodule` output parsed into a map from submodule path to recorded commit.
    Each line git prints reads `<status><sha> <path>[ (<describe>)]`, where the status
    character is a space, `+`, `-` or `U`. */
module SubmoduleList {
  import opened Wrappers
  import opened Text
  import opened Exceptions

  /** Length of a line holding a status character and a 40-character commit id. */
  const MinLineLength := 41

  /** What one output line contributes. */
  datatype Line =
    | Skipped                               // shorter than 41 characters
    | Entry(path: string, commit: string)   // a submodule and its commit
    | Malformed                             // long enough, but fewer than two words

  /** The loop body of `parse`: lines under 41 characters are skipped; otherwise the
      trimmed line is split on whitespace, the first word is the commit (a leading
      status character making it 41 long is dropped) and the second word the path. */
  function ParseLine(line: string): (r: Line)
    ensures r.Skipped? <==> |line| < MinLineLength
  {
    if |line| < MinLineLength then Skipped
    else
      var words := Tokens(Trim(line));
      if |words| < 2 then Malformed
      else
        var commit := if |words[0]| == MinLineLength then words[0][1..] else words[0];
        Entry(words[1], commit)
  }

  /** `array[1]` on a one-word line. */
  const MissingPath := Exception(IndexOutOfBounds, None, None)

  /** `parse` over the parsed lines, in order, a later entry for the same path
      replacing an earlier one. */
  function Collect(ls: seq<Line>): (r: Result<map<string, string>, Exception>)
    ensures r.Err? ==> r.error == MissingPath
    decreases |ls|
  {
    if ls == [] then Ok(map[])
    else
      var m :- Collect(ls[..|ls| - 1]);
      match ls[|ls| - 1]
      case Skipped => Ok(m)
      case Malformed => Err(MissingPath)
      case Entry(path, commit) => Ok(m[path := commit])
  }

  function ParseAll(lines: seq<string>): (ls: seq<Line>)
    ensures |ls| == |lines| && forall i :: 0 <= i < |lines| ==> ls[i] == ParseLine(lines[i])
  {
    seq(|lines|, i requires 0 <= i < |lines| => ParseLine(lines[i]))
  }

  /** `parse`. */
  function ParseLines(lines: seq<string>): (r: Result<map<string, string>, Exception>) {
    Collect(ParseAll(lines))
  }

  /** `parse` of the command's output: it fails, with the index error of a missing path,
      exactly when some line is long enough but has fewer than two words. */
  function Parse(stdout: string): (r: Result<map<string, string>, Exception>)
    ensures r.Err? ==> r.error == MissingPath
    ensures var lines := SplitLines(stdout);
            r.Ok? <==> forall i :: 0 <= i < |lines| ==> !ParseLine(lines[i]).Malformed?
  {
    CollectFails(ParseAll(SplitLines(stdout)));
    ParseLines(SplitLines(stdout))
  }

  /** `call`: a failing command (a VcsException) yields the empty map; any other
      exception, including one thrown while parsing, reaches the caller. */
  function Call(run: Result<string, Exception>): (r: Result<map<string, string>, Exception>)
    ensures run.Err? && IsVcs(run.error) ==> r == Ok(map[])
    ensures run.Err? && !IsVcs(run.error) ==> r == Err(run.error)
    ensures run.Ok? ==> r == Parse(run.value)
  {
    match run
    case Err(e) => if IsVcs(e) then Ok(map[]) else Err(e)
    case Ok(out) => Parse(out)
  }

  /** Entry `i` names submodule `p`. */
  predicate Names(ls: seq<Line>, i: int, p: string)
    requires 0 <= i < |ls|
  {
    ls[i].Entry? && ls[i].path == p
  }

  /** Collecting fails exactly when some line is malformed. */
  lemma {:induction false} CollectFails(ls: seq<Line>)
    ensures Collect(ls).Ok? <==> forall i :: 0 <= i < |ls| ==> !ls[i].Malformed?
    decreases |ls|
  {
    if ls != [] {
      var init := ls[..|ls| - 1];
      CollectFails(init);
      assert forall i :: 0 <= i < |init| ==> init[i] == ls[i];
    }
  }

  /** A successful collection holds every named path, and each path's commit is the
      one on the last entry naming it. */
  lemma {:induction false} CollectLastWins(ls: seq<Line>)
    requires Collect(ls).Ok?
    ensures var m := Collect(ls).value;
            (forall i :: 0 <= i < |ls| && ls[i].Entry? ==> ls[i].path in m)
            && (forall p :: p in m ==>
                  exists i :: 0 <= i < |ls| && ls[i] == Entry(p, m[p])
                              && forall j :: i < j < |ls| ==> !Names(ls, j, p))
    decreases |ls|
  {
    if ls != [] {
      var n := |ls| - 1;
      var init := ls[..n];
      assert Collect(init).Ok?;
      CollectLastWins(init);
      assert forall i :: 0 <= i < n ==> init[i] == ls[i];
      var m0 := Collect(init).value;
      var m := Collect(ls).value;
      forall p | p in m
        ensures exists i :: 0 <= i < |ls| && ls[i] == Entry(p, m[p])
                            && forall j :: i < j < |ls| ==> !Names(ls, j, p)
      {
        if Names(ls, n, p) {
          assert ls[n] == Entry(p, m[p]);
        } else {
          assert p in m0 && m[p] == m0[p];
          var i :| 0 <= i < n && init[i] == Entry(p, m0[p])
                   && forall j :: i < j < n ==> !Names(init, j, p);
          assert ls[i] == Entry(p, m[p]);
          forall j | i < j < |ls| ensures !Names(ls, j, p) {
            if j < n {
              assert !Names(init, j, p);
            }
          }
        }
      }
    }
  }

  /** A line too short to hold a commit id leaves the result unchanged. */
  lemma ShortLineIgnored(lines: seq<string>, line: string)
    requires |line| < MinLineLength
    ensures ParseLines(lines + [line]) == ParseLines(lines)
  {
    var ls := ParseAll(lines + [line]);
    assert ls[..|lines|] == ParseAll(lines);
  }

  /** The words of a git line: the commit word (with its status character unless that is a
      space), the path and the words of the description. */
  lemma TrimGitLine(status: char, sha: string, rest: string)
    requires status == ' ' || status == '+' || status == '-' || status == 'U'
    requires sha != [] && !IsTrimmable(sha[0])
    requires rest != [] && !IsTrimmable(rest[|rest| - 1])
    ensures var word := if status == ' ' then sha else [status] + sha;
            Trim([status] + (sha + rest)) == word + rest
  {
    var body := sha + rest;
    assert body[0] == sha[0];
    assert body[|body| - 1] == rest[|rest| - 1];
    if status == ' ' {
      TrimLeading(status, body);
    } else {
      var line := [status] + body;
      assert line == ([status] + sha) + rest;
      assert line[|line| - 1] == body[|body| - 1];
      TrimOfTrimmed(line);
    }
  }

  /** The words after the separating space: the path, then the description's words. */
  lemma PathWords(path: string, describe: string)
    requires path != [] && forall i :: 0 <= i < |path| ==> !IsRegexSpace(path[i])
    requires describe == [] || IsRegexSpace(describe[0])
    ensures Tokens(" " + (path + describe)) == [path] + Tokens(describe)
  {
    var tail := path + describe;
    assert tail[0] == path[0];
    TokensSpace(" ", tail);
    TokensWord(path, describe);
  }

  /** The first two words of `<word> <path><describe>`. */
  lemma WordsOfGitLine(word: string, path: string, describe: string)
    requires word != [] && forall i :: 0 <= i < |word| ==> !IsRegexSpace(word[i])
    requires path != [] && forall i :: 0 <= i < |path| ==> !IsRegexSpace(path[i])
    requires describe == [] || IsRegexSpace(describe[0])
    ensures Tokens(word + (" " + (path + describe))) == [word] + ([path] + Tokens(describe))
  {
    TokensWord(word, " " + (path + describe));
    PathWords(path, describe);
  }

  /** A long line whose first two words are known parses to those words. */
  lemma ParseLineOfWords(line: string, word: string, path: string, more: seq<string>)
    requires |line| >= MinLineLength && Tokens(Trim(line)) == [word] + ([path] + more)
    ensures ParseLine(line) == Entry(path, if |word| == MinLineLength then word[1..] else word)
  {
  }

  /** A character `trim` keeps is not whitespace either. */
  lemma NoSpaceWhereNoTrim(s: string)
    requires forall i :: 0 <= i < |s| ==> !IsTrimmable(s[i])
    ensures forall i :: 0 <= i < |s| ==> !IsRegexSpace(s[i])
  {
  }

  /** The words of a git line, after trimming. */
  lemma GitLineWords(status: char, sha: string, path: string, describe: string)
    requires status == ' ' || status == '+' || status == '-' || status == 'U'
    requires |sha| == 40 && forall i :: 0 <= i < |sha| ==> !IsTrimmable(sha[i])
    requires path != [] && forall i :: 0 <= i < |path| ==> !IsTrimmable(path[i])
    requires describe == [] || (describe[0] == ' ' && !IsTrimmable(describe[|describe| - 1]))
    ensures var word := if status == ' ' then sha else [status] + sha;
            Tokens(Trim([status] + (sha + (" " + (path + describe))))) == [word] + ([path] + Tokens(describe))
  {
    var rest := " " + (path + describe);
    assert rest[|rest| - 1] == (if describe == [] then path[|path| - 1] else describe[|describe| - 1]);
    TrimGitLine(status, sha, rest);
    NoSpaceWhereNoTrim(sha);
    NoSpaceWhereNoTrim(path);
    if status == ' ' {
      WordsOfGitLine(sha, path, describe);
    } else {
      StatusWord(status, sha);
      WordsOfGitLine([status] + sha, path, describe);
    }
  }

  /** A status character other than a space sticks to the commit id as one word. */
  lemma StatusWord(status: char, sha: string)
    requires status == '+' || status == '-' || status == 'U'
    requires sha != [] && forall i :: 0 <= i < |sha| ==> !IsRegexSpace(sha[i])
    ensures var w := [status] + sha;
            w != [] && forall i :: 0 <= i < |w| ==> !IsRegexSpace(w[i])
  {
    var w := [status] + sha;
    assert forall i :: 1 <= i < |w| ==> w[i] == sha[i - 1];
  }

  /** A line as git prints it yields its path and the 40-character commit id, whatever
      the status character: a leading space is trimmed away, any other status character
      is dropped from the 41-character first word. */
  lemma GitLineParsed(status: char, sha: string, path: string, describe: string)
    requires status == ' ' || status == '+' || status == '-' || status == 'U'
    requires |sha| == 40 && forall i :: 0 <= i < |sha| ==> !IsTrimmable(sha[i])
    requires path != [] && forall i :: 0 <= i < |path| ==> !IsTrimmable(path[i])
    requires describe == [] || (describe[0] == ' ' && !IsTrimmable(describe[|describe| - 1]))
    ensures ParseLine([status] + (sha + (" " + (path + describe)))) == Entry(path, sha)
  {
    var word := if status == ' ' then sha else [status] + sha;
    var line := [status] + (sha + (" " + (path + describe)));
    GitLineWords(status, sha, path, describe);
    ParseLineOfWords(line, word, path, Tokens(describe));
    if status != ' ' {
      assert word[1..] == sha;
    }
  }
}
