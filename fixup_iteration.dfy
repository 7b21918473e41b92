/**
 * The fixup path: applying a numbered solution to a file, stripping
 * ANSI escapes from a build log, parsing `path:line:col:message`
 * diagnostics, and collecting the lines around each diagnostic.
 */
module FixupIteration {
  import opened Wrappers
  import opened Text
  import opened OrderedHash
  import opened Workdir
  import opened NumberedLines

  // ---------------------------------------------------------------------
  // apply_suggested_changes
  // ---------------------------------------------------------------------

  datatype ApplyOutcome =
    | Rejected               // `false`, nothing written
    | Written(text: string)  // `true`: the file now holds `text`
    | WriteFailed            // `false`: the write or the move raised and the temporary file is removed
    | ReadRaised             // the path is a directory: `File.read` raises out of the method

  /** `i` clamped to 0 .. len. */
  function Clamp(i: int, len: nat): (r: nat)
    ensures r <= len
    ensures 0 <= i <= len ==> r == i
  {
    if i < 0 then 0 else if i > len then len else i
  }

  /**
   * The new lines: the file's lines before index `first`, the solution's
   * values in hash order, the file's lines after index `last`.
   */
  function Spliced(ls: seq<string>, h: Hash<int, string>, first: int, last: int): seq<string> {
    ls[..Clamp(first, |ls|)] + Values(h) + ls[Clamp(last + 1, |ls|)..]
  }

  /** What `apply_suggested_changes` does, given whether the write succeeds. */
  function ApplyChanges(tree: Tree, file: string, lineNumber: int, solution: string, writeOk: bool): ApplyOutcome {
    match tree(file)
    case Missing => Rejected
    case Directory => ReadRaised
    case Regular(content) =>
      var h := SolutionHash(Split(solution));
      if h == [] || MinOf(Keys(h)) != Some(lineNumber) then Rejected
      else if !writeOk then WriteFailed
      else Written(Join(Spliced(Split(content), h, lineNumber, MaxOf(Keys(h)).value), "\n"))
  }

  method ApplySuggestedChanges(tree: Tree, file: string, lineNumber: int, solution: string, writeOk: bool)
    returns (outcome: ApplyOutcome)
    ensures outcome == ApplyChanges(tree, file, lineNumber, solution, writeOk)
  {
    if !Exists(tree, file) {
      return Rejected;
    }
    if tree(file).Directory? {
      return ReadRaised;
    }
    var fileArray := Split(tree(file).content);
    var solutionHash := ParseSolution(Split(solution));
    if solutionHash == [] {
      return Rejected;
    }
    var solutionStart := MinOf(Keys(solutionHash)).value;
    var solutionEnd := MaxOf(Keys(solutionHash)).value;
    if solutionStart != lineNumber {
      return Rejected;
    }
    outcome := RewriteFile(fileArray, solutionHash, solutionStart, solutionEnd, writeOk);
  }

  /** The three copying loops and the write, once the solution is accepted. */
  method RewriteFile(fileArray: seq<string>, solutionHash: Hash<int, string>, solutionStart: int, solutionEnd: int,
                     writeOk: bool)
    returns (outcome: ApplyOutcome)
    ensures outcome == if writeOk then Written(Join(Spliced(fileArray, solutionHash, solutionStart, solutionEnd), "\n"))
                       else WriteFailed
  {
    var newContent := CopyBefore(fileArray, solutionStart);
    newContent := CopySolution(newContent, solutionHash);
    newContent := CopyAfter(newContent, fileArray, solutionEnd);
    if !writeOk {
      return WriteFailed;
    }
    return Written(Join(newContent, "\n"));
  }

  /** The first loop: the lines up to the first index >= solution_start. */
  method CopyBefore(fileArray: seq<string>, solutionStart: int) returns (newContent: seq<string>)
    ensures newContent == fileArray[..Clamp(solutionStart, |fileArray|)]
  {
    newContent := [];
    var index := 0;
    while index < |fileArray| && index < solutionStart
      invariant 0 <= index <= Clamp(solutionStart, |fileArray|)
      invariant newContent == fileArray[..index]
    {
      assert fileArray[..index + 1] == fileArray[..index] + [fileArray[index]];
      newContent := newContent + [fileArray[index]];
      index := index + 1;
    }
  }

  /** The second loop: the solution's lines, in hash order. */
  method CopySolution(acc: seq<string>, solutionHash: Hash<int, string>) returns (newContent: seq<string>)
    ensures newContent == acc + Values(solutionHash)
  {
    newContent := acc;
    for j := 0 to |solutionHash|
      invariant newContent == acc + Values(solutionHash)[..j]
    {
      assert Values(solutionHash)[..j + 1] == Values(solutionHash)[..j] + [solutionHash[j].1];
      newContent := newContent + [solutionHash[j].1];
    }
    assert Values(solutionHash)[..|solutionHash|] == Values(solutionHash);
  }

  /** The third loop: the lines after index solution_end. */
  method CopyAfter(acc: seq<string>, fileArray: seq<string>, solutionEnd: int) returns (newContent: seq<string>)
    ensures newContent == acc + fileArray[Clamp(solutionEnd + 1, |fileArray|)..]
  {
    newContent := acc;
    ghost var rest := Clamp(solutionEnd + 1, |fileArray|);
    for index := 0 to |fileArray|
      invariant newContent == acc + fileArray[rest..if index > rest then index else rest]
    {
      if index > solutionEnd {
        assert fileArray[rest..index + 1] == fileArray[rest..index] + [fileArray[index]];
        newContent := newContent + [fileArray[index]];
      }
    }
  }

  /**
   * Giving back the numbered window start .. end unchanged rewrites the
   * file with its own lines.
   */
  lemma EchoRestoresFile(tree: Tree, file: string, start: nat, end: nat, width: int)
    requires tree(file).Regular?
    requires start <= end < |Split(tree(file).content)| && end < 999999 && width <= 6
    ensures var ls := Split(tree(file).content);
      ApplyChanges(tree, file, start, Terminated(NumberedWindow(ls, start, end + 1, width)), true) ==
        Written(Join(ls, "\n"))
  {
    EchoedWindow(Split(tree(file).content), start, end, width);
  }

  /** The solution hash of an echoed window, spliced back, gives the lines unchanged. */
  lemma EchoedWindow(ls: seq<string>, start: nat, end: nat, width: int)
    requires start <= end < |ls| && end < 999999 && width <= 6 && NoNewlines(ls)
    ensures var h := SolutionHash(Split(Terminated(NumberedWindow(ls, start, end + 1, width))));
      h != [] && MinOf(Keys(h)) == Some(start as int) && MaxOf(Keys(h)) == Some(end as int) &&
      Spliced(ls, h, start, end) == ls
  {
    var h := WindowPairs(ls, start, end + 1);
    WindowRoundTrip(ls, start, end + 1, width);
    MinMaxOfConsecutive(Keys(h), start);
    WindowSplicedBack(ls, start, end);
  }

  /** Splicing the pairs of a window back over that window changes nothing. */
  lemma WindowSplicedBack(ls: seq<string>, start: nat, end: nat)
    requires start <= end < |ls|
    ensures Spliced(ls, WindowPairs(ls, start, end + 1), start, end) == ls
  {
    var h := WindowPairs(ls, start, end + 1);
    assert Values(h) == ls[start..end + 1];
    assert ls[..start] + ls[start..end + 1] + ls[end + 1..] == ls;
  }

  /**
   * Unlike the merge path, gaps are accepted: a solution numbering only
   * the lines start+1 and end+1 replaces everything between them, so
   * the lines start+1 .. end-1 (0-based) disappear from the file.
   */
  lemma GapAccepted(tree: Tree, file: string, start: nat, end: nat, x: string, z: string)
    requires tree(file).Regular? && start < end < |Split(tree(file).content)| && end < 999999
    requires NoNewline(x) && NoNewline(z)
    ensures var ls := Split(tree(file).content);
      ApplyChanges(tree, file, start, Terminated([NumberedLine(start + 1, x, 0), NumberedLine(end + 1, z, 0)]), true) ==
        Written(Join(ls[..start] + [x, z] + ls[end + 1..], "\n"))
  {
    var solution := Terminated([NumberedLine(start + 1, x, 0), NumberedLine(end + 1, z, 0)]);
    var h := SolutionHash(Split(solution));
    assert h == [(start as int, x), (end as int, z)] by {
      TwoLineSolution(start, end, x, z);
    }
    TwoLinesSpliced(Split(tree(file).content), start, end, x, z);
  }

  lemma TwoLinesSpliced(ls: seq<string>, start: nat, end: nat, x: string, z: string)
    requires start < end < |ls|
    ensures var h := [(start as int, x), (end as int, z)];
      MinOf(Keys(h)) == Some(start as int) && MaxOf(Keys(h)) == Some(end as int) &&
      Spliced(ls, h, start, end) == ls[..start] + [x, z] + ls[end + 1..]
  {
    var h := [(start as int, x), (end as int, z)];
    assert Keys(h) == [start as int, end as int];
    assert Values(h) == [x, z];
  }

  /** The hash of a two-line solution numbering the lines start+1 and end+1. */
  lemma TwoLineSolution(start: nat, end: nat, x: string, z: string)
    requires start < end < 999999 && NoNewline(x) && NoNewline(z)
    ensures SolutionHash(Split(Terminated([NumberedLine(start + 1, x, 0), NumberedLine(end + 1, z, 0)]))) ==
      [(start as int, x), (end as int, z)]
  {
    var r := [NumberedLine(start + 1, x, 0), NumberedLine(end + 1, z, 0)];
    assert NoNewlines(r) by {
      NumberedLineNoNewline(start + 1, x);
      NumberedLineNoNewline(end + 1, z);
    }
    assert Split(Terminated(r)) == r by {
      SplitTerminated(r);
      assert r[|r| - 1] != "";
      DropTrailingEmptyKeeps(r);
    }
    TwoNumberedPairs(start, end, x, z);
    FromDistinctPairs([(start as int, x), (end as int, z)]);
  }

  lemma TwoNumberedPairs(start: nat, end: nat, x: string, z: string)
    requires start < end < 999999
    ensures NumberedPairs([NumberedLine(start + 1, x, 0), NumberedLine(end + 1, z, 0)]) == [(start as int, x), (end as int, z)]
  {
    var r := [NumberedLine(start + 1, x, 0), NumberedLine(end + 1, z, 0)];
    NumberedLineRoundTrip(start + 1, x, 0);
    NumberedLineRoundTrip(end + 1, z, 0);
    assert r[..1] == [r[0]] && [r[0]][..0] == [];
    assert NumberedPairs([r[0]]) == [(start as int, x)];
  }

  lemma NumberedLineNoNewline(n: nat, line: string)
    requires NoNewline(line)
    ensures NoNewline(NumberedLine(n, line, 0))
  {
    var ds := NatToString(n);
    assert NumberedLine(n, line, 0) == ds + " " + line;
    assert forall i :: 0 <= i < |ds| ==> IsDigit(ds[i]);
  }

  /**
   * A solution whose (distinct) keys are exactly start .. end, inside
   * the file, leaves the number of lines unchanged.
   */
  lemma ContiguousKeepsLineCount(ls: seq<string>, h: Hash<int, string>, start: int, end: int)
    requires DistinctKeys(h) && 0 <= start <= end < |ls|
    requires forall k :: k in Keys(h) <==> start <= k <= end
    ensures |Spliced(ls, h, start, end)| == |ls|
  {
    DistinctKeysCount(h);
    RangeCount(start, end);
    assert (set k | k in Keys(h)) == Range(start, end);
  }

  lemma {:induction false} DistinctKeysCount(h: Hash<int, string>)
    requires DistinctKeys(h)
    ensures |set k | k in Keys(h)| == |h|
  {
    if h != [] {
      var init := h[..|h| - 1];
      assert DistinctKeys(init) by {
        forall i, j | 0 <= i < j < |init| ensures init[i].0 != init[j].0 {
          assert init[i] == h[i] && init[j] == h[j];
        }
      }
      DistinctKeysCount(init);
      var last := h[|h| - 1].0;
      assert Keys(h) == Keys(init) + [last];
      assert last !in Keys(init) by {
        forall i | 0 <= i < |init| ensures Keys(init)[i] != last {
          assert init[i] == h[i];
        }
      }
      assert (set k | k in Keys(h)) == (set k | k in Keys(init)) + {last};
    }
  }

  /** The integers start .. end. */
  function Range(start: int, end: int): (r: set<int>)
    ensures forall k :: k in r <==> start <= k <= end
    decreases end - start
  {
    if end < start then {} else Range(start, end - 1) + {end}
  }

  lemma {:induction false} RangeCount(start: int, end: int)
    requires start <= end + 1
    ensures |Range(start, end)| == end - start + 1
    decreases end - start
  {
    if start <= end {
      RangeCount(start, end - 1);
    }
  }

  // ---------------------------------------------------------------------
  // ANSI escapes
  // ---------------------------------------------------------------------

  const Esc: char := '\U{1B}'

  /** How many characters of `s`, from index i on, lie in lo .. hi. */
  function RunIn(s: string, i: nat, lo: char, hi: char): (n: nat)
    requires i <= |s|
    ensures i + n <= |s|
    ensures forall j :: i <= j < i + n ==> lo <= s[j] <= hi
    ensures i + n < |s| ==> !(lo <= s[i + n] <= hi)
    decreases |s| - i
  {
    if i < |s| && lo <= s[i] <= hi then 1 + RunIn(s, i + 1, lo, hi) else 0
  }

  /**
   * The length of the match of the escape pattern at the front of `s`
   * (which starts with ESC), 0 when no alternative matches. The
   * alternatives are tried in order: `[@-Z\\-_]` (0x40-0x5A and
   * 0x5C-0x5F, which takes `]` too, so the OSC alternative never gets a
   * chance), then CSI `\[[0-?]*[ -\/]*[@-~]`, then DEL. The three CSI
   * classes are disjoint, so the greedy runs never give characters back.
   */
  function EscapeLength(s: string): (n: nat)
    requires s != [] && s[0] == Esc
    ensures n == 0 || 2 <= n <= |s|
  {
    if |s| < 2 then 0
    else if '@' <= s[1] <= 'Z' || '\\' <= s[1] <= '_' then 2
    else if s[1] == '[' then
      var params := RunIn(s, 2, '0', '?');
      var inter := RunIn(s, 2 + params, ' ', '/');
      var last := 2 + params + inter;
      if last < |s| && '@' <= s[last] <= '~' then last + 1 else 0
    else if s[1] == '\U{7F}' then 2
    else 0
  }

  /** `line.gsub(ansi_regex, "")`: matches removed left to right, without overlap. */
  function StripAnsi(s: string): (r: string)
    ensures |r| <= |s|
    decreases |s|
  {
    if s == [] then []
    else if s[0] == Esc && EscapeLength(s) > 0 then StripAnsi(s[EscapeLength(s)..])
    else [s[0]] + StripAnsi(s[1..])
  }

  /** Text without ESC characters is left alone. */
  lemma {:induction false} StripAnsiPlain(s: string)
    requires Esc !in s
    ensures StripAnsi(s) == s
  {
    if s != [] {
      StripAnsiPlain(s[1..]);
      assert s == [s[0]] + s[1..];
    }
  }

  /** Plain text in front of the rest is kept, and the rest is stripped on its own. */
  lemma {:induction false} StripAnsiPlainPrefix(a: string, b: string)
    requires Esc !in a
    ensures StripAnsi(a + b) == a + StripAnsi(b)
  {
    if a != [] {
      assert (a + b)[1..] == a[1..] + b;
      StripAnsiPlainPrefix(a[1..], b);
      assert a == [a[0]] + a[1..];
    } else {
      assert a + b == b;
    }
  }

  /** A whole CSI sequence (a colour code, say) is removed. */
  lemma StripAnsiCsi(params: string, inter: string, final: char, t: string)
    requires forall i :: 0 <= i < |params| ==> '0' <= params[i] <= '?'
    requires forall i :: 0 <= i < |inter| ==> ' ' <= inter[i] <= '/'
    requires '@' <= final <= '~'
    ensures StripAnsi([Esc, '['] + params + inter + [final] + t) == StripAnsi(t)
  {
    var s := [Esc, '['] + params + inter + [final] + t;
    RunInAll(s, 2, params, '0', '?');
    RunInAll(s, 2 + |params|, inter, ' ', '/');
    assert EscapeLength(s) == 3 + |params| + |inter|;
    assert s[3 + |params| + |inter|..] == t;
  }

  /** A run of characters in lo .. hi at index i, ended by one outside, has its length. */
  lemma RunInAll(s: string, i: nat, run: string, lo: char, hi: char)
    requires i + |run| <= |s| && s[i..i + |run|] == run
    requires forall j :: 0 <= j < |run| ==> lo <= run[j] <= hi
    requires i + |run| < |s| ==> !(lo <= s[i + |run|] <= hi)
    ensures RunIn(s, i, lo, hi) == |run|
    decreases |run|
  {
    if run != [] {
      assert s[i] == run[0];
      assert s[i + 1..i + 1 + |run[1..]|] == run[1..];
      RunInAll(s, i + 1, run[1..], lo, hi);
    }
  }

  /**
   * An OSC sequence such as a window title is not removed whole: only
   * ESC and `]` go, the rest of the sequence stays in the line.
   */
  lemma StripAnsiOsc(t: string)
    ensures StripAnsi([Esc, ']'] + t) == StripAnsi(t)
  {
    assert ([Esc, ']'] + t)[2..] == t;
  }

  /**
   * One pass only: removing `ESC A` can bring an earlier ESC next to
   * another `A`, and that new sequence stays.
   */
  lemma StripAnsiSinglePass()
    ensures StripAnsi([Esc, Esc, 'A', 'A']) == [Esc, 'A']
    ensures StripAnsi([Esc, 'A']) == []
  {
    var s := [Esc, Esc, 'A', 'A'];
    assert EscapeLength(s) == 0;
    assert s[1..] == [Esc, 'A', 'A'];
    assert EscapeLength(s[1..]) == 2;
    assert s[1..][2..] == ['A'];
    StripAnsiPlain(['A']);
    assert [Esc, 'A'][2..] == [];
  }

  // ---------------------------------------------------------------------
  // Diagnostics
  // ---------------------------------------------------------------------

  datatype Severity = Error | Warning | Unknown

  /** A parsed diagnostic: `{file:, line:, column:, type:, message:}`. */
  datatype Diagnostic = Diagnostic(file: string, line: nat, column: nat, severity: Severity, message: string)

  /** `case when message =~ /error/i ... when /warning/i ... else "unknown"` */
  function Classify(message: string): (t: Severity)
    ensures t == Error <==> ContainsIgnoringCase(message, "error")
    ensures t == Warning <==> !ContainsIgnoringCase(message, "error") && ContainsIgnoringCase(message, "warning")
  {
    if ContainsIgnoringCase(message, "error") then Error
    else if ContainsIgnoringCase(message, "warning") then Warning
    else Unknown
  }

  /** `(\d+):(\d+):(.+)` matches the whole of `t`. */
  predicate NumbersAndMessage(t: string) {
    var d1 := DigitRun(t);
    1 <= d1 < |t| && t[d1] == ':' &&
    var u := t[d1 + 1..];
    var d2 := DigitRun(u);
    1 <= d2 && d2 + 1 < |u| && u[d2] == ':'
  }

  /** A `:` at index j of `b` that `(\d+):(\d+):(.+)` can follow to the end. */
  predicate SplitsFrom(b: string, j: nat) {
    j < |b| && b[j] == ':' && NumbersAndMessage(b[j + 1..])
  }

  /**
   * `^(.+):(\d+):(\d+):(.+)$` matches `s` with the file group ending at
   * index p. The digit groups are followed by `:`, so each is a whole run
   * of digits; lines never hold a newline, so `.` takes any character.
   */
  predicate SplitsAt(s: string, p: nat) {
    1 <= p && SplitsFrom(s, p)
  }

  /** The record the match with the file group ending at p yields. */
  function DiagnosticAt(s: string, p: nat): Diagnostic
    requires SplitsAt(s, p)
  {
    var t := s[p + 1..];
    var d1 := DigitRun(t);
    var u := t[d1 + 1..];
    var d2 := DigitRun(u);
    var message := u[d2 + 1..];
    Diagnostic(s[..p], DecimalValue(t[..d1]), DecimalValue(u[..d2]), Classify(message), message)
  }

  /** The greatest split point up to p. */
  function LastSplit(s: string, p: nat): Option<nat> {
    LastWhere((q: nat) => SplitsAt(s, q), p)
  }

  /** Where the greedy file group ends: the greatest split point of the line. */
  function GreatestSplit(line: string): (r: Option<nat>)
    ensures r.Some? ==> SplitsAt(line, r.value)
  {
    if |line| == 0 then None else LastSplit(line, |line| - 1)
  }

  /** `line.match(/^(.+):(\d+):(\d+):(.+)$/)` turned into a record. */
  function ParseDiagnostic(line: string): Option<Diagnostic> {
    match GreatestSplit(line)
    case None => None
    case Some(p) => Some(DiagnosticAt(line, p))
  }

  /**
   * A line parses exactly when the pattern can split it somewhere, and
   * then at the greatest split point.
   */
  lemma ParseDiagnosticMatches(line: string)
    ensures ParseDiagnostic(line).Some? <==> exists p: nat :: SplitsAt(line, p)
    ensures forall p: nat :: SplitsAt(line, p) ==> GreatestSplit(line).Some? && p <= GreatestSplit(line).value
  {
    GreatestSplitIsGreatest(line);
    if GreatestSplit(line).Some? {
      assert SplitsAt(line, GreatestSplit(line).value);
    }
  }

  lemma GreatestSplitIsGreatest(line: string)
    ensures forall p: nat :: SplitsAt(line, p) ==> GreatestSplit(line).Some? && p <= GreatestSplit(line).value
  {
    forall p: nat | SplitsAt(line, p)
      ensures GreatestSplit(line).Some? && p <= GreatestSplit(line).value
    {
      LastSplitBounds(line, p);
    }
  }

  lemma LastSplitBounds(line: string, p: nat)
    requires SplitsAt(line, p)
    ensures GreatestSplit(line).Some? && p <= GreatestSplit(line).value
  {
    var ok := (q: nat) => SplitsAt(line, q);
    assert p <= |line| - 1;
    assert ok(p);
    LastWhereBounds(ok, |line| - 1, p);
  }

  /** A message the pattern cannot split again: no `:` followed by a digit. */
  predicate PlainMessage(msg: string) {
    msg != [] && !IsDigit(msg[0]) &&
    forall j :: 0 <= j < |msg| - 1 && msg[j] == ':' ==> !IsDigit(msg[j + 1])
  }

  /**
   * A diagnostic written as `file:line:col:message` parses back to its
   * parts, whatever the file part holds (`:` and digits included, as the
   * file group is greedy), as long as the message cannot be split again.
   */
  lemma FormattedDiagnostic(file: string, l: nat, c: nat, msg: string)
    requires file != [] && PlainMessage(msg)
    ensures ParseDiagnostic(file + ":" + NatToString(l) + ":" + NatToString(c) + ":" + msg) ==
      Some(Diagnostic(file, l, c, Classify(msg), msg))
  {
    ColonsJoin(file, NatToString(l), NatToString(c), msg);
    FormattedColons(file, l, c, msg);
  }

  lemma ColonsJoin(a: string, b: string, c: string, d: string)
    ensures a + ":" + b + ":" + c + ":" + d == Colon(a, Colon(b, Colon(c, d)))
  {
    assert a + ":" + b + ":" + c + ":" + d == a + ([':'] + (b + ([':'] + (c + ([':'] + d)))));
  }

  lemma FormattedColons(file: string, l: nat, c: nat, msg: string)
    requires file != [] && PlainMessage(msg)
    ensures ParseDiagnostic(Colon(file, Colon(NatToString(l), Colon(NatToString(c), msg)))) ==
      Some(Diagnostic(file, l, c, Classify(msg), msg))
  {
    var L, C := NatToString(l), NatToString(c);
    var s := Colon(file, Colon(L, Colon(C, msg)));
    FormattedFields(file, L, C, msg);
    DecimalValueOfNatToString(l);
    DecimalValueOfNatToString(c);
    FormattedNoLaterSplit(file, L, C, msg);
    GreatestSplitAt(s, |file|);
  }

  /** A split point with none after it is where the file group ends. */
  lemma GreatestSplitAt(line: string, p: nat)
    requires SplitsAt(line, p)
    requires forall q: nat :: p < q ==> !SplitsAt(line, q)
    ensures GreatestSplit(line) == Some(p)
  {
    LastWhereIs((q: nat) => SplitsAt(line, q), |line| - 1, p);
  }

  /** `a:b` */
  function Colon(a: string, b: string): string {
    a + ([':'] + b)
  }

  lemma ColonParts(a: string, b: string)
    ensures |Colon(a, b)| == |a| + 1 + |b|
    ensures Colon(a, b)[..|a|] == a && Colon(a, b)[|a|] == ':' && Colon(a, b)[|a| + 1..] == b
  {
    assert Colon(a, b)[|a| + 1..] == b;
  }

  /** `D:b` with D digits: `(\d+):(\d+):(.+)` matches it only when b starts with a digit. */
  lemma DigitsColon(D: string, b: string)
    requires D != [] && AllDigits(D)
    ensures DigitRun(Colon(D, b)) == |D|
    ensures NumbersAndMessage(Colon(D, b)) ==> DigitRun(b) >= 1
  {
    ColonParts(D, b);
    DigitRunOf(D, [':'] + b);
  }

  lemma FormattedFields(file: string, L: string, C: string, msg: string)
    requires file != [] && L != [] && C != [] && AllDigits(L) && AllDigits(C) && PlainMessage(msg)
    ensures var s := Colon(file, Colon(L, Colon(C, msg)));
      SplitsAt(s, |file|) &&
      DiagnosticAt(s, |file|) == Diagnostic(file, DecimalValue(L), DecimalValue(C), Classify(msg), msg)
  {
    var u := Colon(C, msg);
    var t := Colon(L, u);
    var s := Colon(file, t);
    ColonParts(file, t);
    ColonParts(L, u);
    ColonParts(C, msg);
    DigitsColon(L, u);
    DigitsColon(C, msg);
  }

  /** A `:` of `b` inside `a:b` splits the whole exactly when it splits `b`. */
  lemma SplitsFromShift(a: string, b: string, j: nat)
    ensures SplitsFrom(Colon(a, b), |a| + 1 + j) <==> SplitsFrom(b, j)
  {
    ColonParts(a, b);
    if j < |b| {
      assert Colon(a, b)[|a| + 1 + j] == b[j];
      assert Colon(a, b)[|a| + 1 + j + 1..] == b[j + 1..];
    }
  }

  /** A message that cannot be split: no `:` in it starts `(\d+):(\d+):(.+)`. */
  lemma PlainMessageNoSplit(msg: string)
    requires PlainMessage(msg)
    ensures !NumbersAndMessage(msg)
    ensures forall j :: !SplitsFrom(msg, j)
  {
    NoLeadingDigit(msg);
    forall j: nat | j < |msg| && msg[j] == ':'
      ensures !NumbersAndMessage(msg[j + 1..])
    {
      if j + 1 < |msg| {
        NoLeadingDigit(msg[j + 1..]);
      }
    }
  }

  /** Putting digits and a colon in front of an unsplittable `b` adds no split point. */
  lemma DigitsColonNoSplit(D: string, b: string)
    requires D != [] && AllDigits(D)
    requires !NumbersAndMessage(b) && forall j :: !SplitsFrom(b, j)
    ensures forall j :: !SplitsFrom(Colon(D, b), j)
  {
    forall j: nat ensures !SplitsFrom(Colon(D, b), j) {
      DigitsColonNoSplitAt(D, b, j);
    }
  }

  lemma DigitsColonNoSplitAt(D: string, b: string, j: nat)
    requires D != [] && AllDigits(D)
    requires !NumbersAndMessage(b) && forall j :: !SplitsFrom(b, j)
    ensures !SplitsFrom(Colon(D, b), j)
  {
    ColonParts(D, b);
    if j < |D| {
      assert Colon(D, b)[j] == D[j];
    } else if j == |D| {
      assert Colon(D, b)[j + 1..] == b;
    } else {
      SplitsFromShift(D, b, j - |D| - 1);
    }
  }

  /** No colon after the file's own can end the greedy file group. */
  lemma FormattedNoLaterSplit(file: string, L: string, C: string, msg: string)
    requires L != [] && C != [] && AllDigits(L) && AllDigits(C) && PlainMessage(msg)
    ensures var s := Colon(file, Colon(L, Colon(C, msg)));
      forall q: nat :: |file| < q ==> !SplitsAt(s, q)
  {
    var u := Colon(C, msg);
    var t := Colon(L, u);
    var s := Colon(file, t);
    PlainMessageNoSplit(msg);
    NoLeadingDigit(msg);
    DigitsColon(C, msg);
    DigitsColonNoSplit(C, msg);
    DigitsColonNoSplit(L, u);
    forall q: nat | |file| < q ensures !SplitsAt(s, q) {
      SplitsFromShift(file, t, q - |file| - 1);
    }
  }

  lemma NoLeadingDigit(t: string)
    requires t != [] && !IsDigit(t[0])
    ensures DigitRun(t) == 0
  {
  }

  /** `build_output.split("\n").map { |l| l.gsub(ansi_regex, "") }` */
  function ErrorLines(buildOutput: string): (r: seq<string>)
    ensures |r| == |Split(buildOutput)|
    ensures forall i :: 0 <= i < |r| ==> r[i] == StripAnsi(Split(buildOutput)[i])
  {
    var ls := Split(buildOutput);
    seq(|ls|, i requires 0 <= i < |ls| => StripAnsi(ls[i]))
  }

  /** What `parse` makes of the lines it accepts, in order. */
  function Matched<T>(lines: seq<string>, parse: string -> Option<T>): seq<T> {
    if lines == [] then []
    else
      var init := Matched(lines[..|lines| - 1], parse);
      match parse(lines[|lines| - 1])
      case Some(d) => init + [d]
      case None => init
  }

  /** The diagnostics of the lines that match, in order. */
  function Diagnostics(lines: seq<string>): seq<Diagnostic> {
    Matched(lines, ParseDiagnostic)
  }

  function Files(ds: seq<Diagnostic>): (fs: seq<string>)
    ensures |fs| == |ds| && forall i :: 0 <= i < |ds| ==> fs[i] == ds[i].file
  {
    seq(|ds|, i requires 0 <= i < |ds| => ds[i].file)
  }

  /** The loop that fills `parsed_error_lines` and `error_files`. */
  method ParseBuildOutput(buildOutput: string) returns (parsed: seq<Diagnostic>, errorFiles: seq<string>)
    ensures parsed == Diagnostics(ErrorLines(buildOutput))
    ensures errorFiles == Files(parsed)
  {
    var errorLines := ErrorLines(buildOutput);
    parsed, errorFiles := [], [];
    for i := 0 to |errorLines|
      invariant parsed == Diagnostics(errorLines[..i])
      invariant errorFiles == Files(parsed)
    {
      MatchedStep(errorLines, ParseDiagnostic, i);
      var m := ParseDiagnostic(errorLines[i]);
      if m.Some? {
        FilesSnoc(parsed, m.value);
        parsed := parsed + [m.value];
        errorFiles := errorFiles + [m.value.file];
      }
    }
    assert errorLines[..|errorLines|] == errorLines;
  }

  lemma FilesSnoc(ds: seq<Diagnostic>, d: Diagnostic)
    ensures Files(ds + [d]) == Files(ds) + [d.file]
  {
    assert forall i :: 0 <= i < |ds| ==> (ds + [d])[i] == ds[i];
  }

  lemma MatchedStep<T>(lines: seq<string>, parse: string -> Option<T>, i: nat)
    requires i < |lines|
    ensures Matched(lines[..i + 1], parse) ==
      Matched(lines[..i], parse) + if parse(lines[i]).Some? then [parse(lines[i]).value] else []
  {
    assert lines[..i + 1][..i] == lines[..i];
  }

  lemma {:induction false} MatchedFrom<T>(lines: seq<string>, parse: string -> Option<T>, d: T)
    ensures d in Matched(lines, parse) <==> exists i :: 0 <= i < |lines| && parse(lines[i]) == Some(d)
  {
    if lines != [] {
      var init := lines[..|lines| - 1];
      MatchedFrom(init, parse, d);
      if exists i :: 0 <= i < |init| && parse(init[i]) == Some(d) {
        var i :| 0 <= i < |init| && parse(init[i]) == Some(d);
        assert lines[i] == init[i];
      }
      if exists i :: 0 <= i < |lines| && parse(lines[i]) == Some(d) {
        var i :| 0 <= i < |lines| && parse(lines[i]) == Some(d);
        if i < |init| {
          assert init[i] == lines[i];
        }
      }
    }
  }

  lemma {:induction false} MatchedEmpty<T>(lines: seq<string>, parse: string -> Option<T>)
    ensures Matched(lines, parse) == [] <==> forall i :: 0 <= i < |lines| ==> parse(lines[i]).None?
  {
    if lines != [] {
      var init := lines[..|lines| - 1];
      MatchedEmpty(init, parse);
      assert forall i :: 0 <= i < |init| ==> init[i] == lines[i];
    }
  }

  /** Each diagnostic comes from a line that matches, and each matching line gives one. */
  lemma DiagnosticsFromLines(lines: seq<string>, d: Diagnostic)
    ensures d in Diagnostics(lines) <==> exists i :: 0 <= i < |lines| && ParseDiagnostic(lines[i]) == Some(d)
  {
    MatchedFrom(lines, ParseDiagnostic, d);
  }

  /** No diagnostic at all exactly when no line matches. */
  lemma NoDiagnostics(lines: seq<string>)
    ensures Diagnostics(lines) == [] <==> forall i :: 0 <= i < |lines| ==> ParseDiagnostic(lines[i]).None?
  {
    MatchedEmpty(lines, ParseDiagnostic);
  }

  // ---------------------------------------------------------------------
  // The error-context map
  // ---------------------------------------------------------------------

  const ErrorContextAround: nat := 8

  /** `[0, line - error_context_around - 1].max` */
  function ErrStart(line: nat): nat {
    if line < ErrorContextAround + 1 then 0 else line - ErrorContextAround - 1
  }

  /** `[lines_arr.size - 1, line + error_context_around - 1].min` */
  function ErrEnd(len: nat, line: nat): int {
    if len - 1 < line + ErrorContextAround - 1 then len - 1 else line + ErrorContextAround - 1
  }

  /** How many line numbers `(start_line..end_line)` holds. */
  function ErrCount(len: nat, line: nat): (n: nat)
    ensures n == 0 || ErrStart(line) + n <= len
  {
    if ErrEnd(len, line) < ErrStart(line) then 0 else ErrEnd(len, line) - ErrStart(line) + 1
  }

  /**
   * `error_files_context[file][lineno] = slice[idx]` for the first k
   * line numbers from lo; slice[idx] is the file's line lo + idx. The
   * file's hash is `nil` (None) until the first assignment creates it.
   */
  function PutLines(h: Option<Hash<int, string>>, lines: seq<string>, lo: nat, k: nat): Option<Hash<int, string>>
    requires k == 0 || lo + k <= |lines|
  {
    if k == 0 then h
    else Some(Put(PutLines(h, lines, lo, k - 1).GetOr([]), lo + k - 1, lines[lo + k - 1]))
  }

  /** The file's hash after the windows of the diagnostics `errs`. */
  function FileEntries(lines: seq<string>, errs: seq<Diagnostic>): Option<Hash<int, string>> {
    if errs == [] then None
    else
      var e := errs[|errs| - 1];
      PutLines(FileEntries(lines, errs[..|errs| - 1]), lines, ErrStart(e.line), ErrCount(|lines|, e.line))
  }

  /** `parsed_error_lines.select { |err| err[:file] == file }` */
  function Relevant(parsed: seq<Diagnostic>, file: string): seq<Diagnostic> {
    if parsed == [] then []
    else Relevant(parsed[..|parsed| - 1], file) + if parsed[|parsed| - 1].file == file then [parsed[|parsed| - 1]] else []
  }

  /** `error_files_context`, or the exception that ends the method. */
  datatype ContextOutcome = ContextRaised | ContextMap(entries: Hash<string, Hash<int, string>>)

  /** One iteration of `error_files.uniq.each`. */
  function FileStep(tree: Tree, parsed: seq<Diagnostic>, m: Hash<string, Hash<int, string>>, file: string): ContextOutcome {
    match tree(file)
    case Missing => ContextMap(m)
    case Directory => ContextRaised                      // File.read of a directory raises
    case Regular(content) =>
      match FileEntries(Split(content), Relevant(parsed, file))
      case None => ContextRaised                         // nil.sort raises
      case Some(h) => ContextMap(Put(m, file, SortByKey(h)))
  }

  function ContextOf(tree: Tree, parsed: seq<Diagnostic>, files: seq<string>): ContextOutcome {
    if files == [] then ContextMap([])
    else
      match ContextOf(tree, parsed, files[..|files| - 1])
      case ContextRaised => ContextRaised
      case ContextMap(m) => FileStep(tree, parsed, m, files[|files| - 1])
  }

  /** Once a file has raised, the later files are never reached. */
  lemma {:induction false} RaisedStays(tree: Tree, parsed: seq<Diagnostic>, files: seq<string>, i: nat)
    requires i <= |files| && ContextOf(tree, parsed, files[..i]).ContextRaised?
    ensures ContextOf(tree, parsed, files).ContextRaised?
    decreases |files| - i
  {
    if i < |files| {
      assert files[..i + 1][..i] == files[..i];
      RaisedStays(tree, parsed, files, i + 1);
    } else {
      assert files[..i] == files;
    }
  }

  /** The loops over one file's diagnostics and over each window's lines. */
  method CollectEntries(linesArr: seq<string>, relevant: seq<Diagnostic>) returns (entries: Option<Hash<int, string>>)
    ensures entries == FileEntries(linesArr, relevant)
  {
    entries := None;
    for r := 0 to |relevant|
      invariant entries == FileEntries(linesArr, relevant[..r])
    {
      var err := relevant[r];
      assert relevant[..r + 1][..r] == relevant[..r];
      var startLine := ErrStart(err.line);
      var count := ErrCount(|linesArr|, err.line);
      ghost var before := entries;
      for idx := 0 to count
        invariant entries == PutLines(before, linesArr, startLine, idx)
      {
        var lineno := startLine + idx;
        entries := Some(Put(entries.GetOr([]), lineno, linesArr[lineno]));
      }
    }
    assert relevant[..|relevant|] == relevant;
  }

  method ErrorContext(tree: Tree, parsed: seq<Diagnostic>, errorFiles: seq<string>) returns (outcome: ContextOutcome)
    ensures outcome == ContextOf(tree, parsed, Uniq(errorFiles))
  {
    var files := Uniq(errorFiles);
    var errorFilesContext: Hash<string, Hash<int, string>> := [];
    for i := 0 to |files|
      invariant ContextOf(tree, parsed, files[..i]) == ContextMap(errorFilesContext)
    {
      var file := files[i];
      assert files[..i + 1][..i] == files[..i];
      if !Exists(tree, file) {
        continue;
      }
      if tree(file).Directory? {
        RaisedStays(tree, parsed, files, i + 1);
        return ContextRaised;
      }
      var linesArr := Split(tree(file).content);
      var entries := CollectEntries(linesArr, Relevant(parsed, file));
      if entries.None? {
        RaisedStays(tree, parsed, files, i + 1);
        return ContextRaised;
      }
      errorFilesContext := Put(errorFilesContext, file, SortByKey(entries.value));
    }
    assert files[..|files|] == files;
    return ContextMap(errorFilesContext);
  }

  // ----- what the map holds -----

  /** Line index k lies in the window of one of the diagnostics. */
  predicate Covered(len: nat, errs: seq<Diagnostic>, k: int) {
    exists i :: 0 <= i < |errs| && ErrStart(errs[i].line) <= k <= ErrEnd(len, errs[i].line)
  }

  /** Every pair is (index, the file's line at that index), each index once. */
  predicate FaithfulTo(h: Hash<int, string>, lines: seq<string>) {
    DistinctKeys(h) && forall p :: p in h ==> 0 <= p.0 < |lines| && p.1 == lines[p.0]
  }

  lemma {:induction false} PutLinesSpec(h: Option<Hash<int, string>>, lines: seq<string>, lo: nat, k: nat)
    requires k == 0 || lo + k <= |lines|
    requires h.Some? ==> FaithfulTo(h.value, lines)
    ensures var r := PutLines(h, lines, lo, k);
      (r.Some? <==> h.Some? || k > 0) &&
      (r.Some? ==> FaithfulTo(r.value, lines)) &&
      (r.Some? ==> forall x :: x in Keys(r.value) <==> (h.Some? && x in Keys(h.value)) || lo <= x < lo + k)
  {
    if k > 0 {
      PutLinesSpec(h, lines, lo, k - 1);
      var prev := PutLines(h, lines, lo, k - 1).GetOr([]);
      PutLineFaithful(prev, lines, lo + k - 1);
    }
  }

  /** Storing one more line under its own index keeps the hash faithful. */
  lemma PutLineFaithful(h: Hash<int, string>, lines: seq<string>, key: nat)
    requires key < |lines| && FaithfulTo(h, lines)
    ensures FaithfulTo(Put(h, key, lines[key]), lines)
    ensures forall x :: x in Keys(Put(h, key, lines[key])) <==> x in Keys(h) || x == key
  {
    PutKeys(h, key, lines[key]);
    PutPairs(h, key, lines[key]);
    PutDistinct(h, key, lines[key]);
    if key !in Keys(h) {
      assert Keys(h + [(key, lines[key])]) == Keys(h) + [key];
    }
  }

  /**
   * The file's hash exists exactly when some window is non-empty; it
   * then maps each covered index, and only those, to the file's line.
   */
  lemma {:induction false} FileEntriesSpec(lines: seq<string>, errs: seq<Diagnostic>)
    ensures var r := FileEntries(lines, errs);
      (r.Some? <==> exists i :: 0 <= i < |errs| && ErrCount(|lines|, errs[i].line) > 0) &&
      (r.Some? ==> FaithfulTo(r.value, lines)) &&
      (r.Some? ==> forall x :: x in Keys(r.value) <==> Covered(|lines|, errs, x))
  {
    if errs != [] {
      var init, e := errs[..|errs| - 1], errs[|errs| - 1];
      FileEntriesSpec(lines, init);
      var lo, k := ErrStart(e.line), ErrCount(|lines|, e.line);
      PutLinesSpec(FileEntries(lines, init), lines, lo, k);
      assert forall i :: 0 <= i < |init| ==> init[i] == errs[i];
      var r := FileEntries(lines, errs);
      if r.Some? {
        forall x
          ensures x in Keys(r.value) <==> Covered(|lines|, errs, x)
        {
          if Covered(|lines|, errs, x) {
            var i :| 0 <= i < |errs| && ErrStart(errs[i].line) <= x <= ErrEnd(|lines|, errs[i].line);
            if i < |init| {
              assert Covered(|lines|, init, x);
            }
          }
          if Covered(|lines|, init, x) {
            var i :| 0 <= i < |init| && ErrStart(init[i].line) <= x <= ErrEnd(|lines|, init[i].line);
            assert errs[i] == init[i];
          }
        }
      }
    }
  }

  /**
   * Each file's entry in the map: the indices covered by the windows
   * max(0, line - 9) .. min(len - 1, line + 7) of its diagnostics, each
   * with the file's line, in strictly ascending order.
   */
  lemma SortedFileEntries(lines: seq<string>, errs: seq<Diagnostic>)
    requires FileEntries(lines, errs).Some?
    ensures var s := SortByKey(FileEntries(lines, errs).value);
      IncreasingKeys(s) &&
      (forall p :: p in s ==> 0 <= p.0 < |lines| && p.1 == lines[p.0] && Covered(|lines|, errs, p.0)) &&
      (forall x :: Covered(|lines|, errs, x) ==> x in Keys(s))
  {
    FileEntriesSpec(lines, errs);
    var h := FileEntries(lines, errs).value;
    SortByKeyPairs(h);
    var s := SortByKey(h);
    forall p | p in s ensures Covered(|lines|, errs, p.0) {
      var i :| 0 <= i < |h| && h[i] == p;
      assert Keys(h)[i] == p.0;
    }
    forall x | Covered(|lines|, errs, x) ensures x in Keys(s) {
      assert x in Keys(h);
      var i :| 0 <= i < |h| && Keys(h)[i] == x;
      assert h[i] in s;
      var j :| 0 <= j < |s| && s[j] == h[i];
      assert Keys(s)[j] == x;
    }
  }

  /** A file in the working directory whose processing raises. */
  predicate Raises(tree: Tree, parsed: seq<Diagnostic>, file: string) {
    tree(file).Directory? ||
    (tree(file).Regular? && FileEntries(Split(tree(file).content), Relevant(parsed, file)).None?)
  }

  /**
   * Building the map raises exactly when one of the files is a directory
   * or an existing file none of whose windows holds a line.
   */
  lemma {:induction false} ContextRaisedIff(tree: Tree, parsed: seq<Diagnostic>, files: seq<string>)
    ensures ContextOf(tree, parsed, files).ContextRaised? <==> exists i :: 0 <= i < |files| && Raises(tree, parsed, files[i])
  {
    if files != [] {
      var init := files[..|files| - 1];
      ContextRaisedIff(tree, parsed, init);
      assert forall i :: 0 <= i < |init| ==> init[i] == files[i];
      if exists i :: 0 <= i < |files| && Raises(tree, parsed, files[i]) {
        var i :| 0 <= i < |files| && Raises(tree, parsed, files[i]);
        if i < |init| {
          assert Raises(tree, parsed, init[i]);
        }
      }
    }
  }

  /** When nothing raises, the map is empty exactly when every file is missing. */
  lemma {:induction false} ContextEmptyIff(tree: Tree, parsed: seq<Diagnostic>, files: seq<string>)
    requires ContextOf(tree, parsed, files).ContextMap?
    ensures ContextOf(tree, parsed, files).entries == [] <==> forall i :: 0 <= i < |files| ==> tree(files[i]).Missing?
  {
    if files != [] {
      var init := files[..|files| - 1];
      ContextEmptyIff(tree, parsed, init);
      assert forall i :: 0 <= i < |init| ==> init[i] == files[i];
      var m := ContextOf(tree, parsed, init).entries;
      var file := files[|files| - 1];
      if tree(file).Regular? {
        var h := FileEntries(Split(tree(file).content), Relevant(parsed, file)).value;
        PutKeys(m, file, SortByKey(h));
        assert file in Keys(Put(m, file, SortByKey(h))) by {
          PutGet(m, file, SortByKey(h), file);
          GetSome(Put(m, file, SortByKey(h)), file);
        }
      }
    }
  }

  // ---------------------------------------------------------------------
  // fixup_iteration
  // ---------------------------------------------------------------------

  datatype FixupOutcome =
    | NothingToFix  // `true`: no diagnostic in the build output
    | Finished      // `false`: diagnostics, but none in an existing file
    | Raised        // an exception ends the method

  /**
   * The method's result. Once the map holds a line, the per-line loop
   * calls `ask_and_gather_context` with eight arguments, one more than it
   * takes, which raises before any suggestion is asked for or applied.
   */
  function Fixup(tree: Tree, buildOutput: string): FixupOutcome {
    var parsed := Diagnostics(ErrorLines(buildOutput));
    if parsed == [] then NothingToFix
    else
      match ContextOf(tree, parsed, Uniq(Files(parsed)))
      case ContextRaised => Raised
      case ContextMap(m) => if m == [] then Finished else Raised
  }

  method FixupIteration(tree: Tree, buildOutput: string) returns (outcome: FixupOutcome)
    ensures outcome == Fixup(tree, buildOutput)
  {
    var parsed, errorFiles := ParseBuildOutput(buildOutput);
    if parsed == [] {
      return NothingToFix;
    }
    var context := ErrorContext(tree, parsed, errorFiles);
    match context {
      case ContextRaised =>
        return Raised;
      case ContextMap(m) =>
        if m == [] {
          return Finished;
        }
        return Raised;
    }
  }

  /** `fixup_iteration` returns true exactly when no line of the build output is a diagnostic. */
  lemma FixupTrueIff(tree: Tree, buildOutput: string)
    ensures Fixup(tree, buildOutput) == NothingToFix <==>
      forall i :: 0 <= i < |ErrorLines(buildOutput)| ==> ParseDiagnostic(ErrorLines(buildOutput)[i]).None?
  {
    NoDiagnostics(ErrorLines(buildOutput));
  }

  /**
   * ... and returns false exactly when there are diagnostics but every
   * file they name is missing; otherwise it raises.
   */
  lemma FixupFalseIff(tree: Tree, buildOutput: string)
    ensures var parsed := Diagnostics(ErrorLines(buildOutput));
      Fixup(tree, buildOutput) == Finished <==>
        parsed != [] && forall i :: 0 <= i < |parsed| ==> tree(parsed[i].file).Missing?
  {
    var parsed := Diagnostics(ErrorLines(buildOutput));
    if parsed != [] {
      if forall i :: 0 <= i < |parsed| ==> tree(parsed[i].file).Missing? {
        AllMissingFinishes(tree, parsed);
      } else {
        var i :| 0 <= i < |parsed| && !tree(parsed[i].file).Missing?;
        OnePresentRaises(tree, parsed, i);
      }
    }
  }

  lemma AllMissingFinishes(tree: Tree, parsed: seq<Diagnostic>)
    requires forall i :: 0 <= i < |parsed| ==> tree(parsed[i].file).Missing?
    ensures ContextOf(tree, parsed, Uniq(Files(parsed))) == ContextMap([])
  {
    var files := Uniq(Files(parsed));
    UniqFilesMissing(tree, parsed);
    assert ContextOf(tree, parsed, files).ContextMap? by {
      ContextRaisedIff(tree, parsed, files);
      assert forall i :: 0 <= i < |files| ==> !Raises(tree, parsed, files[i]);
    }
    ContextEmptyIff(tree, parsed, files);
  }

  lemma UniqFilesMissing(tree: Tree, parsed: seq<Diagnostic>)
    requires forall i :: 0 <= i < |parsed| ==> tree(parsed[i].file).Missing?
    ensures var files := Uniq(Files(parsed)); forall i :: 0 <= i < |files| ==> tree(files[i]).Missing?
  {
    var fs := Files(parsed);
    var files := Uniq(fs);
    forall i | 0 <= i < |files| ensures tree(files[i]).Missing? {
      assert files[i] in fs;
      var j :| 0 <= j < |fs| && fs[j] == files[i];
      assert fs[j] == parsed[j].file;
    }
  }

  lemma OnePresentRaises(tree: Tree, parsed: seq<Diagnostic>, i: nat)
    requires i < |parsed| && !tree(parsed[i].file).Missing?
    ensures ContextOf(tree, parsed, Uniq(Files(parsed))) != ContextMap([])
  {
    var files := Uniq(Files(parsed));
    ContextRaisedIff(tree, parsed, files);
    assert Files(parsed)[i] in files;
    if ContextOf(tree, parsed, files).ContextMap? {
      ContextEmptyIff(tree, parsed, files);
    }
  }
}
