/** String helpers with the exact semantics of the Java library calls the git
    plugin relies on: `String.trim`, `indexOf`/`lastIndexOf`, `Integer.toString`,
    splitting on `\s+` and on line breaks, and space padding. */
module Text {
  import opened Wrappers

  /** `String.trim()` removes every leading and trailing code point up to U+0020. */
  predicate IsTrimmable(c: char) {
    c <= ' '
  }

  /** The characters of the regular-expression class `\s`. */
  predicate IsRegexSpace(c: char) {
    c == ' ' || c == '\t' || c == '\n' || c == '\U{B}' || c == '\U{C}' || c == '\r'
  }

  predicate IsLineBreak(c: char) {
    c == '\n' || c == '\r'
  }

  predicate IsDigit(c: char) {
    '0' <= c <= '9'
  }

  /** Every character of `s` would be removed by `trim()`. */
  predicate IsBlank(s: string) {
    forall i :: 0 <= i < |s| ==> IsTrimmable(s[i])
  }

  /** `s` has nothing for `trim()` to remove. */
  predicate IsTrimmed(s: string) {
    s == [] || (!IsTrimmable(s[0]) && !IsTrimmable(s[|s| - 1]))
  }

  /** `StringUtil.isEmpty`: null or the empty string. */
  predicate IsEmpty(s: Option<string>) {
    s.None? || s.value == []
  }

  /** `StringUtil.isEmptyOrSpaces`: null, or nothing left after `trim()`. */
  predicate IsEmptyOrSpaces(s: Option<string>) {
    s.None? || Trim(s.value) == []
  }

  predicate StartsWith(s: string, prefix: string) {
    |prefix| <= |s| && s[..|prefix|] == prefix
  }

  predicate EndsWith(s: string, suffix: string) {
    |suffix| <= |s| && s[|s| - |suffix|..] == suffix
  }

  /** A concatenation starts with its left part and ends with its right part. */
  lemma ConcatEnds(a: string, b: string)
    ensures StartsWith(a + b, a) && EndsWith(a + b, b)
  {
    assert (a + b)[..|a|] == a;
    assert (a + b)[|a + b| - |b|..] == b;
  }

  /** The number of leading characters `trim()` removes. */
  function LeadCount(s: string): (n: nat)
    ensures n <= |s|
    decreases |s|
  {
    if s != [] && IsTrimmable(s[0]) then 1 + LeadCount(s[1..]) else 0
  }

  /** The number of trailing characters `trim()` removes. */
  function TrailCount(s: string): (n: nat)
    ensures n <= |s|
    decreases |s|
  {
    if s != [] && IsTrimmable(s[|s| - 1]) then 1 + TrailCount(s[..|s| - 1]) else 0
  }

  /** The leading run is trimmable and stops at a character that is not, or at the end. */
  lemma {:induction false} LeadStops(s: string)
    ensures forall i :: 0 <= i < LeadCount(s) ==> IsTrimmable(s[i])
    ensures LeadCount(s) < |s| ==> !IsTrimmable(s[LeadCount(s)])
    decreases |s|
  {
    if s != [] && IsTrimmable(s[0]) {
      LeadStops(s[1..]);
      assert forall i :: 1 <= i < |s| ==> s[i] == s[1..][i - 1];
    }
  }

  /** The trailing run is trimmable and stops at a character that is not, or at the start. */
  lemma {:induction false} TrailStops(s: string)
    ensures forall i :: |s| - TrailCount(s) <= i < |s| ==> IsTrimmable(s[i])
    ensures TrailCount(s) < |s| ==> !IsTrimmable(s[|s| - 1 - TrailCount(s)])
    decreases |s|
  {
    if s != [] && IsTrimmable(s[|s| - 1]) {
      TrailStops(s[..|s| - 1]);
    }
  }

  /** A run of `k` trimmable characters followed by one that is not (or by the end) is the leading count. */
  lemma {:induction false} LeadAt(s: string, k: nat)
    requires k <= |s| && forall i :: 0 <= i < k ==> IsTrimmable(s[i])
    requires k < |s| ==> !IsTrimmable(s[k])
    ensures LeadCount(s) == k
    decreases k
  {
    if k > 0 {
      assert forall i :: 0 <= i < k - 1 ==> s[1..][i] == s[i + 1];
      LeadAt(s[1..], k - 1);
    }
  }

  /** A final run of `k` trimmable characters preceded by one that is not (or by the start) is the trailing count. */
  lemma {:induction false} TrailAt(s: string, k: nat)
    requires k <= |s| && forall i :: |s| - k <= i < |s| ==> IsTrimmable(s[i])
    requires k < |s| ==> !IsTrimmable(s[|s| - 1 - k])
    ensures TrailCount(s) == k
    decreases k
  {
    if k > 0 {
      var init := s[..|s| - 1];
      assert forall i :: 0 <= i < |init| ==> init[i] == s[i];
      TrailAt(init, k - 1);
    }
  }

  /** Java's `String.trim()`. */
  function Trim(s: string): (r: string)
    ensures |r| <= |s|
    ensures IsTrimmed(r)
  {
    var t := s[LeadCount(s)..];
    LeadStops(s);
    TrailStops(t);
    t[..|t| - TrailCount(t)]
  }

  /** `trim()` leaves nothing exactly when every character is trimmable. */
  lemma TrimEmptyIffBlank(s: string)
    ensures Trim(s) == [] <==> IsBlank(s)
  {
    var a := LeadCount(s);
    var t := s[a..];
    LeadStops(s);
    TrailStops(t);
    assert a < |s| ==> t[0] == s[a];
  }

  /** A string with nothing to trim is its own trim. */
  lemma TrimOfTrimmed(s: string)
    requires IsTrimmed(s)
    ensures Trim(s) == s
  {
    LeadAt(s, 0);
    assert s[0..] == s;
    TrailAt(s, 0);
  }

  /** One trimmable character in front of a string with nothing to trim is all `trim()` removes. */
  lemma TrimLeading(c: char, s: string)
    requires IsTrimmable(c) && s != [] && IsTrimmed(s)
    ensures Trim([c] + s) == s
  {
    var line := [c] + s;
    assert line[0] == c && line[1] == s[0];
    LeadAt(line, 1);
    assert line[1..] == s;
    TrailAt(s, 0);
  }

  /** A trimmed name followed by one space trims back to the name. */
  lemma TrimTrailingSpace(s: string)
    requires IsTrimmed(s)
    ensures Trim(s + " ") == s
  {
    var t := s + " ";
    if s == [] {
      LeadAt(t, 1);
      assert t[1..] == [];
    } else {
      assert t[0] == s[0];
      LeadAt(t, 0);
      assert t[0..] == t;
      assert t[|t| - 2] == s[|s| - 1];
      TrailAt(t, 1);
      assert t[..|t| - 1] == s;
    }
  }

  /** `indexOf(c)`: the first position of `c`, or -1. */
  function IndexOf(s: string, c: char): (r: int)
    ensures -1 <= r < |s|
    ensures r == -1 <==> c !in s
    ensures 0 <= r ==> s[r] == c && c !in s[..r]
    decreases |s|
  {
    if s == [] then -1
    else if s[0] == c then 0
    else
      var k := IndexOf(s[1..], c);
      assert 0 <= k ==> s[..k + 1] == [s[0]] + s[1..][..k];
      if k == -1 then -1 else k + 1
  }

  /** `lastIndexOf(c)`: the last position of `c`, or -1. */
  function LastIndexOf(s: string, c: char): (r: int)
    ensures -1 <= r < |s|
    ensures r == -1 <==> c !in s
    ensures 0 <= r ==> s[r] == c && c !in s[r + 1..]
    decreases |s|
  {
    if s == [] then -1
    else if s[|s| - 1] == c then |s| - 1
    else
      var init := s[..|s| - 1];
      var k := LastIndexOf(init, c);
      assert s == init + [s[|s| - 1]];
      assert 0 <= k ==> s[k + 1..] == init[k + 1..] + [s[|s| - 1]];
      k
  }

  /** A position holding `c` with no `c` before it is what `indexOf` finds. */
  lemma {:induction false} IndexOfAt(s: string, c: char, k: nat)
    requires k < |s| && s[k] == c && c !in s[..k]
    ensures IndexOf(s, c) == k
    decreases k
  {
    if k > 0 {
      assert s[0] == s[..k][0];
      assert s[1..][..k - 1] == s[1..k];
      assert s[..k] == [s[0]] + s[1..k];
      IndexOfAt(s[1..], c, k - 1);
    }
  }

  /** A position holding `c` with no `c` after it is what `lastIndexOf` finds. */
  lemma {:induction false} LastIndexOfAt(s: string, c: char, k: nat)
    requires k < |s| && s[k] == c && c !in s[k + 1..]
    ensures LastIndexOf(s, c) == k
    decreases |s|
  {
    if k < |s| - 1 {
      var init := s[..|s| - 1];
      assert s[|s| - 1] == s[k + 1..][|s| - 2 - k];
      assert s[k + 1..] == init[k + 1..] + [s[|s| - 1]];
      LastIndexOfAt(init, c, k);
    }
  }

  /** With no `c` from position `k` on, `lastIndexOf` lands before `k` (or is -1). */
  lemma {:induction false} LastIndexOfBefore(s: string, c: char, k: nat)
    requires k <= |s| && c !in s[k..]
    ensures LastIndexOf(s, c) < k
    decreases |s|
  {
    if k < |s| {
      var init := s[..|s| - 1];
      assert s[|s| - 1] == s[k..][|s| - 1 - k];
      assert s[k..] == init[k..] + [s[|s| - 1]];
      LastIndexOfBefore(init, c, k);
    }
  }

  function DigitChar(d: nat): (c: char)
    requires d < 10
    ensures IsDigit(c)
  {
    (('0' as int) + d) as char
  }

  function DigitValue(c: char): (d: nat)
    requires IsDigit(c)
    ensures d < 10
  {
    (c as int) - ('0' as int)
  }

  /** Decimal rendering of a natural number, as `Integer.toString` prints it. */
  function NatToString(n: nat): (r: string)
    ensures 1 <= |r|
    ensures forall i :: 0 <= i < |r| ==> IsDigit(r[i])
    ensures n < 10 ==> |r| == 1
    ensures 10 <= n < 100 ==> |r| == 2
    ensures 100 <= n ==> |r| >= 3
    decreases n
  {
    if n < 10 then [DigitChar(n)] else NatToString(n / 10) + [DigitChar(n % 10)]
  }

  /** `Integer.toString` / `String.valueOf(int)`. */
  function IntToString(i: int): (r: string)
    ensures 1 <= |r|
  {
    if i < 0 then "-" + NatToString(-i) else NatToString(i)
  }

  /** Reads a string of decimal digits back into its value. */
  function ParseNat(s: string): nat
    requires forall i :: 0 <= i < |s| ==> IsDigit(s[i])
    decreases |s|
  {
    if s == [] then 0 else ParseNat(s[..|s| - 1]) * 10 + DigitValue(s[|s| - 1])
  }

  lemma {:induction false} ParseNatToString(n: nat)
    ensures ParseNat(NatToString(n)) == n
    decreases n
  {
    var s := NatToString(n);
    if n < 10 {
      assert s[..|s| - 1] == [];
    } else {
      ParseNatToString(n / 10);
      assert s[..|s| - 1] == NatToString(n / 10);
    }
  }

  /** Distinct numbers print differently. */
  lemma NatToStringInjective(a: nat, b: nat)
    ensures NatToString(a) == NatToString(b) ==> a == b
  {
    ParseNatToString(a);
    ParseNatToString(b);
  }

  /** A larger number never prints with fewer digits. */
  lemma {:induction false} NatToStringLengthMonotone(a: nat, b: nat)
    requires a <= b
    ensures |NatToString(a)| <= |NatToString(b)|
    decreases b
  {
    if a >= 10 {
      NatToStringLengthMonotone(a / 10, b / 10);
    }
  }

  /** `n` spaces. */
  function Spaces(n: nat): (r: string)
    ensures |r| == n && forall i :: 0 <= i < n ==> r[i] == ' '
  {
    seq(n, _ => ' ')
  }

  /** Prepends spaces until `s` is at least `width` long (the `while (s.length() < w) s = " " + s` loop). */
  function PadLeft(s: string, width: int): (r: string)
    ensures |r| == if |s| < width then width else |s|
    ensures r[|r| - |s|..] == s
    ensures forall i :: 0 <= i < |r| - |s| ==> r[i] == ' '
  {
    if |s| < width then Spaces(width - |s|) + s else s
  }

  /** Appends spaces until `s` is at least `width` long. */
  function PadRight(s: string, width: int): (r: string)
    ensures |r| == if |s| < width then width else |s|
    ensures r[..|s|] == s
    ensures forall i :: |s| <= i < |r| ==> r[i] == ' '
  {
    if |s| < width then s + Spaces(width - |s|) else s
  }

  /** The number of leading `\s` characters of `s`. */
  function SpaceSpan(s: string): (n: nat)
    ensures n <= |s|
    decreases |s|
  {
    if s != [] && IsRegexSpace(s[0]) then 1 + SpaceSpan(s[1..]) else 0
  }

  /** The number of leading non-`\s` characters of `s`. */
  function WordSpan(s: string): (n: nat)
    ensures n <= |s|
    ensures s != [] && !IsRegexSpace(s[0]) ==> n >= 1
    decreases |s|
  {
    if s != [] && !IsRegexSpace(s[0]) then 1 + WordSpan(s[1..]) else 0
  }

  /** The number of leading characters of `s` before a line break. */
  function LineSpan(s: string): (n: nat)
    ensures n <= |s|
    ensures forall i :: 0 <= i < n ==> !IsLineBreak(s[i])
    ensures n < |s| ==> IsLineBreak(s[n])
    decreases |s|
  {
    if s != [] && !IsLineBreak(s[0]) then 1 + LineSpan(s[1..]) else 0
  }

  /** The number of leading `' '` characters of `s`. */
  function LeadingSpaces(s: string): (n: nat)
    ensures n <= |s|
    ensures forall i :: 0 <= i < n ==> s[i] == ' '
    ensures n < |s| ==> s[n] != ' '
    decreases |s|
  {
    if s != [] && s[0] == ' ' then 1 + LeadingSpaces(s[1..]) else 0
  }

  /** The number of trailing `' '` characters of `s`. */
  function TrailingSpaces(s: string): (n: nat)
    ensures n <= |s|
    ensures forall i :: |s| - n <= i < |s| ==> s[i] == ' '
    ensures n < |s| ==> s[|s| - n - 1] != ' '
    decreases |s|
  {
    if s != [] && s[|s| - 1] == ' ' then 1 + TrailingSpaces(s[..|s| - 1]) else 0
  }

  /** The line before the first line break of `s` (ending at `n`), without the spaces
      after the previous break when `afterBreak`, and without the spaces before the next
      break when there is one. */
  function LineAt(s: string, n: nat, afterBreak: bool): (line: string)
    requires n <= |s| && forall i :: 0 <= i < n ==> !IsLineBreak(s[i])
    ensures forall j :: 0 <= j < |line| ==> !IsLineBreak(line[j])
    ensures line != [] && afterBreak ==> line[0] != ' '
    ensures line != [] && n < |s| ==> line[|line| - 1] != ' '
  {
    var start := if afterBreak then LeadingSpaces(s[..n]) else 0;
    var t := s[start..n];
    var stop := if n < |s| then |t| - TrailingSpaces(t) else |t|;
    t[..stop]
  }

  /** The lines of `s` as IntelliJ's `StringUtil.splitByLines` gives them: `s` split at the
      pattern `" *(\r|\n|\r\n)+ *"`, so a line loses the spaces next to a line break (the
      spaces after the previous break when `afterBreak`, the spaces before the next break
      when there is one), and the empty strings the split leaves are dropped. */
  function SplitLinesFrom(s: string, afterBreak: bool): (lines: seq<string>)
    ensures forall i :: 0 <= i < |lines| ==> lines[i] != []
    ensures forall i, j :: 0 <= i < |lines| && 0 <= j < |lines[i]| ==> !IsLineBreak(lines[i][j])
    ensures forall i :: 0 <= i < |lines| && (afterBreak || i > 0) ==> lines[i][0] != ' '
    ensures forall i :: 0 <= i < |lines| - 1 ==> lines[i][|lines[i]| - 1] != ' '
    decreases |s|
  {
    var n := LineSpan(s);
    var line := LineAt(s, n, afterBreak);
    var rest := if n < |s| then SplitLinesFrom(s[n + 1..], true) else [];
    if line == [] then rest else [line] + rest
  }

  /** `StringUtil.splitByLines`. Each empty string the split leaves (before a leading line
      break, or between breaks separated only by spaces) is left out; callers skip such
      lines anyway. */
  function SplitLines(s: string): (lines: seq<string>)
    ensures forall i :: 0 <= i < |lines| ==> lines[i] != []
    ensures forall i, j :: 0 <= i < |lines| && 0 <= j < |lines[i]| ==> !IsLineBreak(lines[i][j])
    ensures forall i :: 1 <= i < |lines| ==> lines[i][0] != ' '
    ensures forall i :: 0 <= i < |lines| - 1 ==> lines[i][|lines[i]| - 1] != ' '
  {
    SplitLinesFrom(s, false)
  }

  /** The lines joined with `\n` in between. */
  function JoinLines(lines: seq<string>): string
    decreases |lines|
  {
    if lines == [] then [] else if |lines| == 1 then lines[0] else lines[0] + "\n" + JoinLines(lines[1..])
  }

  /** A line `splitByLines` keeps as it is: not empty, no line break, no space at either end. */
  predicate IsCleanLine(l: string) {
    l != [] && l[0] != ' ' && l[|l| - 1] != ' ' && forall j :: 0 <= j < |l| ==> !IsLineBreak(l[j])
  }

  lemma {:induction false} LineSpanOfLine(l: string, t: string)
    requires forall j :: 0 <= j < |l| ==> !IsLineBreak(l[j])
    requires t == [] || IsLineBreak(t[0])
    ensures LineSpan(l + t) == |l|
    decreases |l|
  {
    if l != [] {
      assert (l + t)[1..] == l[1..] + t;
      LineSpanOfLine(l[1..], t);
    }
  }

  /** Splitting lines joined with `\n` gives them back, when none is empty, holds a line
      break or has a space at either end. */
  lemma {:induction false} SplitJoinedLines(lines: seq<string>, afterBreak: bool)
    requires forall i :: 0 <= i < |lines| ==> IsCleanLine(lines[i])
    ensures SplitLinesFrom(JoinLines(lines), afterBreak) == lines
    decreases |lines|
  {
    var s := JoinLines(lines);
    if lines == [] {
      assert LineSpan(s) == 0;
    } else {
      var l := lines[0];
      var t := if |lines| == 1 then [] else "\n" + JoinLines(lines[1..]);
      assert s == l + t;
      LineSpanOfLine(l, t);
      assert s[..|l|] == l && s[0..|l|] == l;
      assert LeadingSpaces(l) == 0;
      assert TrailingSpaces(l) == 0;
      assert LineAt(s, |l|, afterBreak) == l;
      if |lines| > 1 {
        assert s[|l| + 1..] == JoinLines(lines[1..]);
        SplitJoinedLines(lines[1..], true);
      } else {
        assert LineSpan(s) == |s|;
      }
    }
  }

  /** `splitByLines` of text joined from clean lines is those lines. */
  lemma SplitLinesOfJoined(lines: seq<string>)
    requires forall i :: 0 <= i < |lines| ==> IsCleanLine(lines[i])
    ensures SplitLines(JoinLines(lines)) == lines
  {
    SplitJoinedLines(lines, false);
  }

  /** `s.split("\\s+")` of a string that does not start with `\s`: the maximal runs of non-`\s` characters. */
  function Tokens(s: string): (ts: seq<string>)
    decreases |s|
  {
    var k := SpaceSpan(s);
    var t := s[k..];
    SpaceSpanStops(s);
    if t == [] then []
    else
      var n := WordSpan(t);
      [t[..n]] + Tokens(t[n..])
  }

  /** The space span ends at a character that is not `\s`, or at the end. */
  lemma {:induction false} SpaceSpanStops(s: string)
    ensures SpaceSpan(s) < |s| ==> !IsRegexSpace(s[SpaceSpan(s)])
    decreases |s|
  {
    if s != [] && IsRegexSpace(s[0]) {
      SpaceSpanStops(s[1..]);
    }
  }

  /** A length `k` before which no character is `\s` and at which one is, or the end, is the word span. */
  lemma {:induction false} WordSpanAt(s: string, k: nat)
    requires k <= |s| && forall i :: 0 <= i < k ==> !IsRegexSpace(s[i])
    requires k < |s| ==> IsRegexSpace(s[k])
    ensures WordSpan(s) == k
    decreases k
  {
    if k > 0 {
      assert forall i :: 0 <= i < k - 1 ==> s[1..][i] == s[i + 1];
      WordSpanAt(s[1..], k - 1);
    }
  }

  /** A length `k` before which every character is `\s` and at which none is, or the end, is the space span. */
  lemma {:induction false} SpaceSpanAt(s: string, k: nat)
    requires k <= |s| && forall i :: 0 <= i < k ==> IsRegexSpace(s[i])
    requires k < |s| ==> !IsRegexSpace(s[k])
    ensures SpaceSpan(s) == k
    decreases k
  {
    if k > 0 {
      assert forall i :: 0 <= i < k - 1 ==> s[1..][i] == s[i + 1];
      SpaceSpanAt(s[1..], k - 1);
    }
  }

  /** A word followed by a separator (or by nothing) is the first token. */
  lemma TokensWord(w: string, rest: string)
    requires w != [] && forall i :: 0 <= i < |w| ==> !IsRegexSpace(w[i])
    requires rest == [] || IsRegexSpace(rest[0])
    ensures Tokens(w + rest) == [w] + Tokens(rest)
  {
    var s := w + rest;
    assert s[0] == w[0];
    SpaceSpanAt(s, 0);
    assert forall i :: 0 <= i < |w| ==> s[i] == w[i];
    assert |w| < |s| ==> s[|w|] == rest[0];
    WordSpanAt(s, |w|);
    assert s[..|w|] == w;
    assert s[|w|..] == rest;
  }

  /** Leading separators produce no token. */
  lemma TokensSpace(sp: string, t: string)
    requires forall i :: 0 <= i < |sp| ==> IsRegexSpace(sp[i])
    requires t == [] || !IsRegexSpace(t[0])
    ensures Tokens(sp + t) == Tokens(t)
  {
    var s := sp + t;
    assert forall i :: 0 <= i < |sp| ==> s[i] == sp[i];
    assert |sp| < |s| ==> s[|sp|] == t[0];
    SpaceSpanAt(s, |sp|);
    assert s[|sp|..] == t;
    if t != [] {
      SpaceSpanAt(t, 0);
      assert t[0..] == t;
    }
  }

  function ToUpperAscii(c: char): char {
    if 'a' <= c <= 'z' then ((c as int) - 32) as char else c
  }

  /** `StringUtil.capitalize`: the first character in upper case, the rest unchanged. */
  function Capitalize(s: string): (r: string)
    ensures |r| == |s|
    ensures s != [] ==> r[0] == ToUpperAscii(s[0]) && r[1..] == s[1..]
  {
    if s == [] then s else [ToUpperAscii(s[0])] + s[1..]
  }
}
