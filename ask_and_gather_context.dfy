/**
 * `ask_and_gather_context`: the loop in which the model asks for more
 * context (`grep-context-n`, `cat-context`, `blame-line`) under a budget
 * of lines and a budget of asks, until it sends `ASK: close` or a budget
 * runs out. The function returns `ask_block`, the gathered context.
 */
module AskAndGatherContext {
  import opened Wrappers
  import opened Text
  import opened OrderedHash
  import opened Workdir
  import opened Utils

  // ---------------------------------------------------------------------
  // What the loop works with
  // ---------------------------------------------------------------------

  /** `max_perask_lines`, `max_valid_lines` and `reask_iter_limit`. */
  datatype Limits = Limits(maxPeraskLines: int, maxValidLines: int, reaskIterLimit: int)

  /**
   * What the loop can observe of the repository. The shell commands are
   * functions of what they are given: `git grep --no-color -n "<pattern>"
   * -- <files>` run in the working directory, `git blame -L n,n -- <file>
   * 2>&1`, and `Dir.glob` under the working directory with every match
   * already made relative to it.
   */
  datatype Repo = Repo(
    tree: Tree,
    glob: string -> seq<string>,
    grep: (string, seq<string>) -> string,
    blame: (int, string) -> string)

  /** The text the model streams back for the n-th ask prompt (n from 1). */
  type Replies = nat -> string

  datatype Tool = GrepContextN | CatContext | BlameLine | Close

  function ToolName(t: Tool): string {
    match t
    case GrepContextN => "grep-context-n"
    case CatContext => "cat-context"
    case BlameLine => "blame-line"
    case Close => "close"
  }

  /** The loop's variables: `iters`, `valid_lines`, `ask_block`, `reask_block`, `asks`. */
  datatype Session = Session(
    iters: nat,
    validLines: nat,
    askBlock: string,
    reaskBlock: string,
    asks: seq<(Tool, string)>)

  const Start := Session(0, 0, "", "", [])

  predicate NoDuplicates<T(==)>(xs: seq<T>) {
    forall i, j :: 0 <= i < j < |xs| ==> xs[i] != xs[j]
  }

  /** Appending an ask not yet in the list keeps it free of repeats. */
  lemma AddedAsk<T>(xs: seq<T>, a: T)
    ensures a !in xs && NoDuplicates(xs) ==> NoDuplicates(xs + [a])
  {
    if a !in xs {
      var ys := xs + [a];
      assert forall i :: 0 <= i < |xs| ==> ys[i] == xs[i];
    }
  }

  // ---------------------------------------------------------------------
  // Reading the ask
  // ---------------------------------------------------------------------

  /** The alternation `(grep-context-n|cat-context|blame-line|close)` at the start of s. */
  function ToolAt(s: string): (r: Option<Tool>)
    ensures r.Some? ==> StartsWith(s, ToolName(r.value))
  {
    if StartsWith(s, "grep-context-n") then Some(GrepContextN)
    else if StartsWith(s, "cat-context") then Some(CatContext)
    else if StartsWith(s, "blame-line") then Some(BlameLine)
    else if StartsWith(s, "close") then Some(Close)
    else None
  }

  /**
   * `/^\s*ASK: (grep-context-n|cat-context|blame-line|close)\s?(.+)?$/` on
   * one line, as the tool and `params_str` (a missing second group reads
   * as ""). Whatever follows the tool matches `\s?(.+)?$`; `\s?` takes one
   * leading whitespace character when there is one.
   */
  function ParseAskLine(line: string): Option<(Tool, string)> {
    var rest := line[LeadingSpaces(line)..];
    if !StartsWith(rest, "ASK: ") then None
    else
      var after := rest[5..];
      match ToolAt(after)
      case None => None
      case Some(t) =>
        var tail := after[|ToolName(t)|..];
        Some((t, if tail != [] && IsSpace(tail[0]) then tail[1..] else tail))
  }

  /** The result of `parse` on the first line it accepts. */
  function FirstMatch<T>(lines: seq<string>, parse: string -> Option<T>): Option<T> {
    if lines == [] then None
    else if parse(lines[0]).Some? then parse(lines[0])
    else FirstMatch(lines[1..], parse)
  }

  /** The first line of the reply that matches the ask pattern. */
  function FirstAsk(lines: seq<string>): Option<(Tool, string)> {
    FirstMatch(lines, ParseAskLine)
  }

  /** The `each_with_index` loop that stops at the first matching line. */
  method FindAsk(lines: seq<string>) returns (ask: Option<(Tool, string)>)
    ensures ask == FirstAsk(lines)
  {
    ask := None;
    var i := 0;
    while i < |lines|
      invariant 0 <= i <= |lines|
      invariant FirstAsk(lines) == FirstMatch(lines[i..], ParseAskLine)
      invariant ask.None?
    {
      assert lines[i..][1..] == lines[i + 1..];
      ask := ParseAskLine(lines[i]);
      if ask.Some? {
        return;
      }
      i := i + 1;
    }
  }

  lemma {:induction false} FirstMatchAt<T>(lines: seq<string>, parse: string -> Option<T>, k: nat)
    requires k < |lines| && parse(lines[k]).Some?
    requires forall j :: 0 <= j < k ==> parse(lines[j]).None?
    ensures FirstMatch(lines, parse) == parse(lines[k])
  {
    if k > 0 {
      FirstMatchAt(lines[1..], parse, k - 1);
    }
  }

  lemma {:induction false} FirstMatchNone<T>(lines: seq<string>, parse: string -> Option<T>)
    ensures FirstMatch(lines, parse).None? <==> forall j :: 0 <= j < |lines| ==> parse(lines[j]).None?
  {
    if lines != [] {
      FirstMatchNone(lines[1..], parse);
      assert forall j :: 1 <= j < |lines| ==> lines[j] == lines[1..][j - 1];
    }
  }

  /** The ask found is the one on the first matching line. */
  lemma FirstAskAt(lines: seq<string>, k: nat)
    requires k < |lines| && ParseAskLine(lines[k]).Some?
    requires forall j :: 0 <= j < k ==> ParseAskLine(lines[j]).None?
    ensures FirstAsk(lines) == ParseAskLine(lines[k])
  {
    FirstMatchAt(lines, ParseAskLine, k);
  }

  /** No ask is found exactly when no line matches. */
  lemma FirstAskNone(lines: seq<string>)
    ensures FirstAsk(lines).None? <==> forall j :: 0 <= j < |lines| ==> ParseAskLine(lines[j]).None?
  {
    FirstMatchNone(lines, ParseAskLine);
  }

  /** `ASK: <tool>` after `ws` and the `ASK: ` marker: what follows `ASK: `. */
  lemma AskLineParts(ws: string, rest: string)
    requires forall i :: 0 <= i < |ws| ==> IsSpace(ws[i])
    requires StartsWith(rest, "ASK: ")
    ensures (ws + rest)[LeadingSpaces(ws + rest)..] == rest
  {
    LeadingSpacesOfPadded(ws, rest);
    assert (ws + rest)[|ws|..] == rest;
  }

  lemma ToolAtName(t: Tool, tail: string)
    ensures ToolAt(ToolName(t) + tail) == Some(t)
    ensures (ToolName(t) + tail)[|ToolName(t)|..] == tail
  {
    var s := ToolName(t) + tail;
    assert s[..|ToolName(t)|] == ToolName(t);
    match t
    case GrepContextN =>
    case CatContext =>
      assert s[0] == 'c' && s[1] == 'a';
    case BlameLine =>
      assert s[0] == 'b';
    case Close =>
      assert s[0] == 'c' && s[1] == 'l';
  }

  /** What follows the tool name, less one leading whitespace character, is `params_str`. */
  lemma AskLineTail(ws: string, t: Tool, tail: string)
    requires forall i :: 0 <= i < |ws| ==> IsSpace(ws[i])
    ensures ParseAskLine(ws + ("ASK: " + (ToolName(t) + tail))) ==
      Some((t, if tail != [] && IsSpace(tail[0]) then tail[1..] else tail))
  {
    var rest := "ASK: " + (ToolName(t) + tail);
    assert StartsWith(rest, "ASK: ");
    AskLineParts(ws, rest);
    assert rest[5..] == ToolName(t) + tail;
    ToolAtName(t, tail);
  }

  /** An ask written as the prompt shows it reads back as its tool and parameter string. */
  lemma AskLineRoundTrip(ws: string, t: Tool, paramsStr: string)
    requires forall i :: 0 <= i < |ws| ==> IsSpace(ws[i])
    ensures ParseAskLine(ws + "ASK: " + ToolName(t) + " " + paramsStr) == Some((t, paramsStr))
  {
    assert ws + "ASK: " + ToolName(t) + " " + paramsStr == ws + ("ASK: " + (ToolName(t) + (" " + paramsStr)));
    AskLineTail(ws, t, " " + paramsStr);
    assert (" " + paramsStr)[1..] == paramsStr;
  }

  /** `ASK: close` and the other tools without parameters give an empty `params_str`. */
  lemma AskLineBare(ws: string, t: Tool)
    requires forall i :: 0 <= i < |ws| ==> IsSpace(ws[i])
    ensures ParseAskLine(ws + "ASK: " + ToolName(t)) == Some((t, ""))
  {
    assert ws + "ASK: " + ToolName(t) == ws + ("ASK: " + (ToolName(t) + ""));
    AskLineTail(ws, t, "");
  }

  // ---------------------------------------------------------------------
  // Splitting the parameters
  // ---------------------------------------------------------------------

  function QuoteCount(s: string): nat {
    if s == [] then 0 else (if s[0] == '"' then 1 else 0) + QuoteCount(s[1..])
  }

  /**
   * Whether the whitespace run at the start of s separates parameters in
   * `split(/\s+(?=(?:[^"]|"[^"]*")*$)/)`: the lookahead holds exactly when
   * an even number of double quotes follows the run, that is, when the run
   * is outside quotes. (Inside a run every position sees the same quotes
   * after it, so the run either splits as a whole or not at all.)
   */
  predicate SeparatorAt(s: string) {
    s != [] && IsSpace(s[0]) && QuoteCount(s[LeadingSpaces(s)..]) % 2 == 0
  }

  /** The fields between separators, empty ones included. */
  function QuotedFields(s: string): (r: seq<string>)
    ensures |r| >= 1
    decreases |s|
  {
    if s == [] then [""]
    else if SeparatorAt(s) then
      assert LeadingSpaces(s) > 0;
      [""] + QuotedFields(s[LeadingSpaces(s)..])
    else
      var rest := QuotedFields(s[1..]);
      [[s[0]] + rest[0]] + rest[1..]
  }

  /** `params_str.split(...)`: trailing empty fields are dropped, a leading one kept. */
  function Tokens(paramsStr: string): seq<string> {
    DropTrailingEmpty(QuotedFields(paramsStr))
  }

  /** A token that starts and ends with `"` loses both (`param[1..-2]`). */
  function Unquote(p: string): string {
    if p != [] && p[0] == '"' && p[|p| - 1] == '"' then
      (if |p| >= 2 then p[1..|p| - 1] else "")
    else p
  }

  function Params(paramsStr: string): (ps: seq<string>)
    ensures |ps| == |Tokens(paramsStr)|
  {
    var ts := Tokens(paramsStr);
    seq(|ts|, i requires 0 <= i < |ts| => Unquote(ts[i]))
  }

  /** The loop that fills `params`. */
  method ParseParams(paramsStr: string) returns (params: seq<string>)
    ensures params == Params(paramsStr)
  {
    var tokens := Tokens(paramsStr);
    params := [];
    for i := 0 to |tokens|
      invariant |params| == i
      invariant forall j :: 0 <= j < i ==> params[j] == Unquote(tokens[j])
    {
      var param := tokens[i];
      if param != [] && param[0] == '"' && param[|param| - 1] == '"' {
        params := params + [if |param| >= 2 then param[1..|param| - 1] else ""];
      } else {
        params := params + [param];
      }
    }
  }

  /** A parameter with neither whitespace nor quotes in it. */
  predicate Word(w: string) {
    w != [] && forall i :: 0 <= i < |w| ==> !IsSpace(w[i]) && w[i] != '"'
  }

  predicate Words(ws: seq<string>) {
    forall i :: 0 <= i < |ws| ==> Word(ws[i])
  }

  lemma {:induction false} QuoteCountAppend(a: string, b: string)
    ensures QuoteCount(a + b) == QuoteCount(a) + QuoteCount(b)
  {
    if a != [] {
      assert (a + b)[1..] == a[1..] + b;
      QuoteCountAppend(a[1..], b);
    } else {
      assert a + b == b;
    }
  }

  lemma {:induction false} QuoteCountNone(s: string)
    requires forall i :: 0 <= i < |s| ==> s[i] != '"'
    ensures QuoteCount(s) == 0
  {
    if s != [] {
      QuoteCountNone(s[1..]);
    }
  }

  /** Words joined by single spaces: the text starts with the first word and holds no quote. */
  lemma {:induction false} JoinedWords(ws: seq<string>)
    requires ws != [] && Words(ws)
    ensures var j := Join(ws, " ");
      j != [] && j[0] == ws[0][0] && forall i :: 0 <= i < |j| ==> j[i] != '"'
  {
    if |ws| > 1 {
      JoinedWords(ws[1..]);
      var j := Join(ws, " ");
      var r := Join(ws[1..], " ");
      assert j == ws[0] + " " + r;
      forall i | 0 <= i < |j| ensures j[i] != '"' {
        if i < |ws[0]| {
          assert j[i] == ws[0][i];
        } else if i > |ws[0]| {
          assert j[i] == r[i - |ws[0]| - 1];
        }
      }
    }
  }

  /** Characters that start no separator stay in the first field. */
  lemma {:induction false} GlueField(a: string, t: string)
    requires forall i :: 0 <= i < |a| ==> !SeparatorAt((a + t)[i..])
    ensures QuotedFields(a + t) == [a + QuotedFields(t)[0]] + QuotedFields(t)[1..]
  {
    if a == [] {
      assert a + t == t;
      assert a + QuotedFields(t)[0] == QuotedFields(t)[0];
      assert [QuotedFields(t)[0]] + QuotedFields(t)[1..] == QuotedFields(t);
    } else {
      var s := a + t;
      assert s[1..] == a[1..] + t;
      forall i | 0 <= i < |a| - 1 ensures !SeparatorAt((a[1..] + t)[i..]) {
        assert (a[1..] + t)[i..] == s[i + 1..];
      }
      GlueField(a[1..], t);
      assert s[0..] == s;
      assert [a[0]] + (a[1..] + QuotedFields(t)[0]) == a + QuotedFields(t)[0];
    }
  }

  /** A space before words is a separator, and each word is a field. */
  lemma {:induction false} SpaceThenWords(ws: seq<string>)
    requires ws != [] && Words(ws)
    ensures QuotedFields(" " + Join(ws, " ")) == [""] + ws
    decreases |ws|, 1
  {
    var j := Join(ws, " ");
    JoinedWords(ws);
    LeadingSpacesOfPadded(" ", j);
    assert (" " + j)[1..] == j;
    QuoteCountNone(j);
    assert SeparatorAt(" " + j);
    WordsFields(ws);
  }

  /** Words joined by single spaces split back into the words. */
  lemma {:induction false} WordsFields(ws: seq<string>)
    requires ws != [] && Words(ws)
    ensures QuotedFields(Join(ws, " ")) == ws
    decreases |ws|, 0
  {
    var w := ws[0];
    if |ws| == 1 {
      assert w + "" == w;
      GlueField(w, "");
    } else {
      var t := " " + Join(ws[1..], " ");
      assert Join(ws, " ") == w + t;
      forall i | 0 <= i < |w| ensures !SeparatorAt((w + t)[i..]) {
        assert (w + t)[i..][0] == w[i];
      }
      GlueField(w, t);
      SpaceThenWords(ws[1..]);
      assert w + "" == w;
      assert [w] + ws[1..] == ws;
    }
  }

  /** Plain words separated by single spaces come back as the parameters, unchanged. */
  lemma WordsSplit(ws: seq<string>)
    requires Words(ws)
    ensures Params(Join(ws, " ")) == ws
  {
    if ws == [] {
      assert QuotedFields("") == [""];
    } else {
      WordsFields(ws);
      assert Tokens(Join(ws, " ")) == ws;
      assert forall i :: 0 <= i < |ws| ==> Unquote(ws[i]) == ws[i];
    }
  }

  /** Inside a quoted stretch no whitespace separates: an odd number of quotes follows it. */
  lemma QuotedNoSeparator(pattern: string, t: string, i: nat)
    requires forall k :: 0 <= k < |pattern| ==> pattern[k] != '"'
    requires QuoteCount(t) == 0
    requires i < |pattern|
    ensures !SeparatorAt(pattern[i..] + "\"" + t)
  {
    var x := pattern[i..];
    var s := x + "\"" + t;
    if IsSpace(s[0]) {
      var n := LeadingSpaces(s);
      assert s[|x|] == '"';
      assert n <= |x|;
      assert s[n..] == x[n..] + ("\"" + t);
      QuoteCountAppend(x[n..], "\"" + t);
      QuoteCountAppend("\"", t);
      QuoteCountNone(x[n..]);
    }
  }

  /** A quoted stretch followed by text without quotes stays in the first field. */
  lemma QuotedGlue(pattern: string, t: string)
    requires forall k :: 0 <= k < |pattern| ==> pattern[k] != '"'
    requires QuoteCount(t) == 0
    ensures var a := "\"" + pattern + "\"";
      QuotedFields(a + t) == [a + QuotedFields(t)[0]] + QuotedFields(t)[1..]
  {
    var a := "\"" + pattern + "\"";
    forall i | 0 <= i < |a| ensures !SeparatorAt((a + t)[i..]) {
      if 0 < i < |a| - 1 {
        assert (a + t)[i..] == pattern[i - 1..] + "\"" + t;
        QuotedNoSeparator(pattern, t, i - 1);
      } else {
        assert (a + t)[i..][0] == '"';
      }
    }
    GlueField(a, t);
  }

  /** The text after the pattern: a space and the paths, or nothing. */
  function PathsText(paths: seq<string>): string {
    if paths == [] then "" else " " + Join(paths, " ")
  }

  lemma PathsTextFields(paths: seq<string>)
    requires Words(paths)
    ensures QuoteCount(PathsText(paths)) == 0
    ensures QuotedFields(PathsText(paths)) == [""] + paths
  {
    var t := PathsText(paths);
    if paths != [] {
      JoinedWords(paths);
      forall k | 0 <= k < |t| ensures t[k] != '"' {
        if k > 0 {
          assert t[k] == Join(paths, " ")[k - 1];
        }
      }
      SpaceThenWords(paths);
    }
    QuoteCountNone(t);
  }

  /**
   * A quoted pattern, spaces and all, is one parameter without its quotes,
   * ahead of the plain paths that follow it.
   */
  lemma QuotedPatternSplit(pattern: string, paths: seq<string>)
    requires forall k :: 0 <= k < |pattern| ==> pattern[k] != '"'
    requires Words(paths)
    ensures Params("\"" + pattern + "\"" + PathsText(paths)) == [pattern] + paths
  {
    var a := "\"" + pattern + "\"";
    var t := PathsText(paths);
    var ts := [a] + paths;
    assert Tokens(a + t) == ts by {
      PathsTextFields(paths);
      QuotedGlue(pattern, t);
      assert a + "" == a;
      assert QuotedFields(a + t) == ts;
    }
    var ps := Params(a + t);
    assert ps[0] == pattern by {
      assert a[1..|a| - 1] == pattern;
    }
    forall i | 1 <= i < |ps| ensures ps[i] == paths[i - 1] {
      assert ts[i] == paths[i - 1];
    }
    assert ps == [pattern] + paths;
  }

  // ---------------------------------------------------------------------
  // How one tool branch ends
  // ---------------------------------------------------------------------

  /** How the `case tool` statement ends for one ask. */
  datatype AskOutcome =
    | Closed                                  // `close`: the loop ends
    | Rejected(note: string)                  // `next`, after adding the note (maybe "") to reask_block
    | NoMatch(note: string, evidence: string) // `next`, after adding the note to reask_block and the evidence to ask_block
    | Gathered(result: string)                // `result` goes on to the line accounting
    | Raises                                  // an exception leaves the method

  /** How every note about an ask starts. */
  function Header(tool: Tool, paramsStr: string): string {
    "\nASK: " + ToolName(tool) + " " + paramsStr + "\nRESULT:\n"
  }

  /** How most notes end. */
  function BudgetLeft(lim: Limits, s: Session): string {
    "\nBUDGET_LEFT: " + IntToString(lim.maxValidLines - s.validLines) + " lines and "
      + IntToString(lim.reaskIterLimit - s.iters) + " asks"
  }

  function DuplicateNote(lim: Limits, s: Session, header: string): string {
    header + "ERROR: DUPLICATE REQUEST REJECTED." + BudgetLeft(lim, s)
  }

  function ErrorNote(lim: Limits, s: Session, header: string, message: string): string {
    header + "ERROR: " + message + BudgetLeft(lim, s)
  }

  // ---------------------------------------------------------------------
  // grep-context-n
  // ---------------------------------------------------------------------

  /**
   * The paths the parameter loop collected, whether it broke off, and the
   * note it left; or the loop raised on a NUL character.
   */
  datatype PathScan = PathScan(files: seq<string>, stopped: bool, note: string) | ScanRaised

  /** `param = param[1..-1] if param.start_with?("/")` */
  function StripSlash(p: string): string {
    if StartsWith(p, "/") then p[1..] else p
  }

  /** Some glob match holds a NUL character, so `File.directory?` raises on it. */
  predicate AnyNul(gs: seq<string>) {
    exists i :: 0 <= i < |gs| && HasNul(gs[i])
  }

  predicate HasDirectory(tree: Tree, gs: seq<string>) {
    exists i :: 0 <= i < |gs| && tree(gs[i]).Directory?
  }

  /** The glob matches that exist, in glob order. */
  function ExistingPaths(tree: Tree, gs: seq<string>): (r: seq<string>)
    ensures forall i :: 0 <= i < |r| ==> Exists(tree, r[i]) && r[i] in gs
  {
    if gs == [] then []
    else
      var last := gs[|gs| - 1];
      ExistingPaths(tree, gs[..|gs| - 1]) + (if Exists(tree, last) then [last] else [])
  }

  /** The `globbed_files.each` loop: the matches that exist (the others are only reported). */
  method KeepExisting(tree: Tree, globbed: seq<string>) returns (kept: seq<string>)
    ensures kept == ExistingPaths(tree, globbed)
  {
    kept := [];
    for j := 0 to |globbed|
      invariant kept == ExistingPaths(tree, globbed[..j])
    {
      assert globbed[..j + 1][..j] == globbed[..j];
      if Exists(tree, globbed[j]) {
        kept := kept + [globbed[j]];
      }
    }
    assert globbed[..|globbed|] == globbed;
  }

  function NotFoundNote(header: string, path: string): string {
    header + "ERROR: File or glob pattern not found: " + path + "\n"
  }

  function Prepend(fs: seq<string>, r: PathScan): PathScan {
    match r
    case ScanRaised => ScanRaised
    case PathScan(files, stopped, note) => PathScan(fs + files, stopped, note)
  }

  /**
   * The `params[1..-1].each` loop of `grep-context-n`: a blank parameter
   * ends it; an existing path is kept; a glob that matches a directory
   * contributes its existing matches; anything else ends it with a note.
   * A path, or a match of its glob, holding a NUL character raises.
   * Every path kept exists and holds no NUL, and only a loop that broke
   * off leaves a note.
   */
  function ScanPaths(repo: Repo, header: string, paths: seq<string>): (r: PathScan)
    ensures r.PathScan? ==> forall i :: 0 <= i < |r.files| ==> Exists(repo.tree, r.files[i]) && !HasNul(r.files[i])
    ensures r.PathScan? && !r.stopped ==> r.note == ""
  {
    if paths == [] then PathScan([], false, "")
    else if Blank(paths[0]) then PathScan([], true, "")
    else
      var p := StripSlash(paths[0]);
      if HasNul(p) then ScanRaised
      else if Exists(repo.tree, p) then Prepend([p], ScanPaths(repo, header, paths[1..]))
      else if AnyNul(repo.glob(p)) then ScanRaised
      else if HasDirectory(repo.tree, repo.glob(p)) then
        Prepend(ExistingPaths(repo.tree, repo.glob(p)), ScanPaths(repo, header, paths[1..]))
      else PathScan([], true, NotFoundNote(header, p))
  }

  lemma PrependTwice(a: seq<string>, b: seq<string>, r: PathScan)
    ensures Prepend(a, Prepend(b, r)) == Prepend(a + b, r)
  {
    if r.PathScan? {
      assert a + (b + r.files) == (a + b) + r.files;
    }
  }

  /** A NUL character survives the stripping of a leading `/`. */
  lemma StripSlashNul(p: string)
    ensures HasNul(StripSlash(p)) <==> HasNul(p)
  {
    if StartsWith(p, "/") {
      assert p == [p[0]] + p[1..];
    }
  }

  /**
   * The loop raises only on a NUL character: when no path and no glob
   * match holds one, it finishes or breaks off.
   */
  lemma {:induction false} ScanNulFree(repo: Repo, header: string, paths: seq<string>)
    requires forall i :: 0 <= i < |paths| ==> !HasNul(paths[i])
    requires forall g :: !AnyNul(repo.glob(g))
    ensures ScanPaths(repo, header, paths).PathScan?
  {
    if paths != [] && !Blank(paths[0]) {
      StripSlashNul(paths[0]);
      ScanNulFree(repo, header, paths[1..]);
    }
  }

  /** A path holding NUL (after the paths before it were found) raises. */
  lemma ScanNulPath(repo: Repo, header: string, p: string)
    requires !Blank(p) && HasNul(p)
    ensures ScanPaths(repo, header, [p]) == ScanRaised
  {
    StripSlashNul(p);
  }

  method ResolvePaths(repo: Repo, header: string, paths: seq<string>) returns (scan: PathScan)
    ensures scan == ScanPaths(repo, header, paths)
  {
    var files: seq<string> := [];
    var i := 0;
    while i < |paths|
      invariant 0 <= i <= |paths|
      invariant ScanPaths(repo, header, paths) == Prepend(files, ScanPaths(repo, header, paths[i..]))
    {
      assert paths[i..][1..] == paths[i + 1..];
      ghost var rest := ScanPaths(repo, header, paths[i + 1..]);
      var param := paths[i];
      if Blank(param) {
        return PathScan(files, true, "");
      }
      if StartsWith(param, "/") {
        param := param[1..];
      }
      if HasNul(param) {
        return ScanRaised;
      }
      if Exists(repo.tree, param) {
        assert ScanPaths(repo, header, paths[i..]) == Prepend([param], rest);
        PrependTwice(files, [param], rest);
        files := files + [param];
      } else if AnyNul(repo.glob(param)) {
        return ScanRaised;
      } else if HasDirectory(repo.tree, repo.glob(param)) {
        var kept := KeepExisting(repo.tree, repo.glob(param));
        assert ScanPaths(repo, header, paths[i..]) == Prepend(kept, rest);
        PrependTwice(files, kept, rest);
        files := files + kept;
      } else {
        return PathScan(files, true, NotFoundNote(header, param));
      }
      i := i + 1;
    }
    return PathScan(files, false, "");
  }

  /** A leading `/` is dropped from a path before it is looked up. */
  lemma SlashStripped(repo: Repo, header: string, p: string)
    requires Exists(repo.tree, p)
    ensures ScanPaths(repo, header, ["/" + p]) == if HasNul(p) then ScanRaised else PathScan([p], false, "")
  {
    var q := "/" + p;
    assert q[0] == '/' && q[1..] == p;
    assert StartsWith(q, "/");
    assert !Blank(q);
    assert ["/" + p][1..] == [];
  }

  /**
   * A glob that matches only files (no directory), and is not itself a
   * path, is not accepted: the loop breaks off with a note.
   */
  lemma FileGlobRejected(repo: Repo, header: string, g: string)
    requires g != [] && g[0] != '/' && !IsSpace(g[0]) && g[0] != '\0'
    requires !Exists(repo.tree, g)
    requires forall i :: 0 <= i < |repo.glob(g)| ==> !repo.tree(repo.glob(g)[i]).Directory?
    ensures ScanPaths(repo, header, [g]) ==
      if HasNul(g) || AnyNul(repo.glob(g)) then ScanRaised else PathScan([], true, NotFoundNote(header, g))
  {
    assert !Blank(g);
    assert StripSlash(g) == g;
  }

  /** `^(.+):(\d+):(.+)$` can end its file group at index p. */
  predicate GrepSplitsAt(line: string, p: nat) {
    1 <= p < |line| && line[p] == ':' &&
    var t := line[p + 1..];
    var d := DigitRun(t);
    1 <= d && d + 1 < |t| && t[d] == ':'
  }

  /**
   * `line.match(/^(.+):(\d+):(.+)$/)` as the file and the line number;
   * the greedy file group ends at the last index where the rest matches.
   */
  function GrepHit(line: string): Option<(string, int)> {
    if |line| == 0 then None
    else
      match LastWhere((q: nat) => GrepSplitsAt(line, q), |line| - 1)
      case None => None
      case Some(p) =>
        assert GrepSplitsAt(line, p);
        var t := line[p + 1..];
        Some((line[..p], DecimalValue(t[..DigitRun(t)])))
  }

  /** `file:n:text`, the shape of a `git grep -n` line. */
  function GrepLine(file: string, n: nat, text: string): string {
    file + ":" + NatToString(n) + ":" + text
  }

  lemma GrepLineSplits(file: string, n: nat, text: string)
    requires file != [] && text != []
    ensures var line := GrepLine(file, n, text);
      GrepSplitsAt(line, |file|) && line[..|file|] == file &&
      var t := line[|file| + 1..]; t[..DigitRun(t)] == NatToString(n)
  {
    var N := NatToString(n);
    var line := GrepLine(file, n, text);
    var t := line[|file| + 1..];
    assert t == N + (":" + text);
    DigitRunThenColon(N, text);
    assert line[..|file|] == file;
    assert t[..|N|] == N;
  }

  lemma GrepLineNoLaterSplit(file: string, n: nat, text: string)
    requires forall i :: 0 <= i < |text| ==> text[i] != ':'
    ensures var line := GrepLine(file, n, text);
      forall q: nat :: |file| < q <= |line| - 1 ==> !GrepSplitsAt(line, q)
  {
    var N := NatToString(n);
    var line := GrepLine(file, n, text);
    forall q: nat | |file| < q <= |line| - 1 ensures !GrepSplitsAt(line, q) {
      if q <= |file| + |N| {
        assert line[q] == N[q - |file| - 1];
      } else if q > |file| + |N| + 1 {
        assert line[q] == text[q - |file| - |N| - 2];
      } else {
        var u := line[q + 1..];
        assert u == text;
        var d := DigitRun(u);
        if 1 <= d < |u| {
          assert u[d] == text[d];
        }
      }
    }
  }

  /** A grep line `file:n:text` with no `:` in the text reads back as the file and n. */
  lemma GrepHitOfLine(file: string, n: nat, text: string)
    requires file != [] && text != []
    requires forall i :: 0 <= i < |text| ==> text[i] != ':'
    ensures GrepHit(GrepLine(file, n, text)) == Some((file, n))
  {
    var line := GrepLine(file, n, text);
    GrepLineSplits(file, n, text);
    GrepLineNoLaterSplit(file, n, text);
    LastWhereIs((q: nat) => GrepSplitsAt(line, q), |line| - 1, |file|);
    DecimalValueOfNatToString(n);
  }

  lemma DigitRunThenColon(N: string, text: string)
    requires N != [] && AllDigits(N)
    ensures DigitRun(N + (":" + text)) == |N|
  {
    var s := N + (":" + text);
    assert s[|N|] == ':';
    assert forall i :: 0 <= i < |N| ==> s[i] == N[i];
    DigitRunIs(s, |N|);
  }

  lemma DigitRunIs(s: string, k: nat)
    requires k < |s| && !IsDigit(s[k])
    requires forall i :: 0 <= i < k ==> IsDigit(s[i])
    ensures DigitRun(s) == k
  {
  }

  /**
   * `filelines` after the `each_line` loop: for each file, the line numbers
   * of its hits in output order; files in the order of their first hit.
   * Lines that do not match are skipped (an empty line never matches, so
   * the trailing newline of the output changes nothing).
   */
  function GrepHits(lines: seq<string>): Hash<string, seq<int>> {
    if lines == [] then []
    else
      var h := GrepHits(lines[..|lines| - 1]);
      match GrepHit(lines[|lines| - 1])
      case None => h
      case Some((file, n)) => Put(h, file, Get(h, file).GetOr([]) + [n])
  }

  method GroupHits(lines: seq<string>) returns (filelines: Hash<string, seq<int>>)
    ensures filelines == GrepHits(lines)
  {
    filelines := [];
    for i := 0 to |lines|
      invariant filelines == GrepHits(lines[..i])
    {
      assert lines[..i + 1][..i] == lines[..i];
      var hit := GrepHit(lines[i]);
      if hit.Some? {
        var (file, n) := hit.value;
        var numbers := Get(filelines, file).GetOr([]);
        filelines := Put(filelines, file, numbers + [n]);
      }
    }
    assert lines[..|lines|] == lines;
  }

  /** The numbers of the hits in `file`, in output order. */
  function HitsIn(lines: seq<string>, file: string): seq<int> {
    if lines == [] then []
    else
      HitsIn(lines[..|lines| - 1], file) +
        match GrepHit(lines[|lines| - 1])
        case Some((f, n)) => if f == file then [n] else []
        case None => []
  }

  /** Each file's entry holds exactly the numbers of its hits, and files without hits have none. */
  lemma {:induction false} GrepHitsSpec(lines: seq<string>, file: string)
    ensures Get(GrepHits(lines), file) == if HitsIn(lines, file) == [] then None else Some(HitsIn(lines, file))
  {
    if lines != [] {
      var init := lines[..|lines| - 1];
      GrepHitsSpec(init, file);
      match GrepHit(lines[|lines| - 1])
      case None =>
        assert GrepHits(lines) == GrepHits(init);
        assert HitsIn(lines, file) == HitsIn(init, file) + [];
        assert HitsIn(init, file) + [] == HitsIn(init, file);
      case Some((f, n)) =>
        var h := GrepHits(init);
        assert GrepHits(lines) == Put(h, f, Get(h, f).GetOr([]) + [n]);
        PutGet(h, f, Get(h, f).GetOr([]) + [n], file);
        if f == file {
          assert HitsIn(lines, file) == HitsIn(init, file) + [n];
          assert Get(h, f).GetOr([]) == HitsIn(init, file);
        } else {
          assert HitsIn(lines, file) == HitsIn(init, file) + [];
          assert HitsIn(init, file) + [] == HitsIn(init, file);
        }
    }
  }

  /** No entry at all exactly when no line matches. */
  lemma {:induction false} GrepHitsEmpty(lines: seq<string>)
    ensures GrepHits(lines) == [] <==> forall i :: 0 <= i < |lines| ==> GrepHit(lines[i]).None?
  {
    if lines != [] {
      var init := lines[..|lines| - 1];
      GrepHitsEmpty(init);
      assert forall i :: 0 <= i < |init| ==> init[i] == lines[i];
      match GrepHit(lines[|lines| - 1])
      case None =>
        assert GrepHits(lines) == GrepHits(init);
        assert (forall i :: 0 <= i < |lines| ==> GrepHit(lines[i]).None?) <==>
          (forall i :: 0 <= i < |init| ==> GrepHit(init[i]).None?);
      case Some((f, n)) =>
        var h := GrepHits(init);
        PutGet(h, f, Get(h, f).GetOr([]) + [n], f);
    }
  }

  /** The file a grep line names is the start of that line, so it holds no NUL when the line holds none. */
  lemma GrepHitNulFree(line: string)
    requires GrepHit(line).Some? && !HasNul(line)
    ensures !HasNul(GrepHit(line).value.0)
  {
    var p :| 0 <= p <= |line| && GrepHit(line).value.0 == line[..p];
    assert forall k :: 0 <= k < p ==> line[..p][k] == line[k];
  }

  lemma {:induction false} GrepHitsNulFree(lines: seq<string>)
    requires forall i :: 0 <= i < |lines| ==> !HasNul(lines[i])
    ensures forall i :: 0 <= i < |GrepHits(lines)| ==> !HasNul(GrepHits(lines)[i].0)
  {
    if lines != [] {
      var init := lines[..|lines| - 1];
      var last := lines[|lines| - 1];
      GrepHitsNulFree(init);
      var h := GrepHits(init);
      match GrepHit(last)
      case None =>
      case Some((f, n)) =>
        GrepHitNulFree(last);
        PutPairs(h, f, Get(h, f).GetOr([]) + [n]);
        var h' := GrepHits(lines);
        forall i | 0 <= i < |h'| ensures !HasNul(h'[i].0) {
          assert h'[i] in h';
        }
    }
  }

  /** Output without NUL characters names no file that would make the rendering raise. */
  lemma GrepOutputNulFree(out: string)
    requires !HasNul(out)
    ensures !NulHit(GrepHits(Split(out)))
  {
    SplitWithout(out, '\0');
    GrepHitsNulFree(Split(out));
  }

  /** A file's context as the result shows it: the path, then the lines in a code fence. */
  function SectionText(file: string, context: string): string {
    "\n" + file + ":\n" + "```\n" + context + "\n```\n"
  }

  /** One file's part of `result`; a file without line numbers adds nothing. */
  function Section(tree: Tree, file: string, numbers: seq<int>): string {
    if numbers == [] then "" else SectionText(file, FileContext(tree, file, numbers, 8))
  }

  function GrepResult(tree: Tree, hits: Hash<string, seq<int>>): string {
    if hits == [] then ""
    else
      var last := hits[|hits| - 1];
      GrepResult(tree, hits[..|hits| - 1]) + Section(tree, last.0, last.1)
  }

  /** A file with hits whose name holds NUL: `get_file_context` raises on it. */
  predicate NulHit(hits: Hash<string, seq<int>>) {
    exists i :: 0 <= i < |hits| && hits[i].1 != [] && HasNul(hits[i].0)
  }

  lemma NulHitSnoc(hits: Hash<string, seq<int>>, e: (string, seq<int>))
    ensures NulHit(hits + [e]) <==> NulHit(hits) || (e.1 != [] && HasNul(e.0))
  {
    var h := hits + [e];
    assert forall i :: 0 <= i < |hits| ==> h[i] == hits[i];
    assert h[|hits|] == e;
  }

  /** The `filelines.each` loop that builds `result`; `None` when it raises. */
  method RenderHits(tree: Tree, hits: Hash<string, seq<int>>) returns (result: Option<string>)
    ensures result.None? <==> NulHit(hits)
    ensures result.Some? ==> result.value == GrepResult(tree, hits)
  {
    var text := "";
    for i := 0 to |hits|
      invariant text == GrepResult(tree, hits[..i])
      invariant !NulHit(hits[..i])
    {
      var (file, numbers) := hits[i];
      if numbers != [] && HasNul(file) {
        NulHitAt(hits, i);
        return None;
      }
      RenderStep(tree, hits, i);
      if numbers != [] {
        var context := GetFileContext(tree, file, numbers, 8);
        text := text + SectionText(file, context);
      }
    }
    assert hits[..|hits|] == hits;
    return Some(text);
  }

  lemma NulHitAt(hits: Hash<string, seq<int>>, i: nat)
    requires i < |hits| && hits[i].1 != [] && HasNul(hits[i].0)
    ensures NulHit(hits)
  {
  }

  /** One more entry rendered: its section is appended, and it is free of NUL when it will be read. */
  lemma RenderStep(tree: Tree, hits: Hash<string, seq<int>>, i: nat)
    requires i < |hits| && !NulHit(hits[..i]) && !(hits[i].1 != [] && HasNul(hits[i].0))
    ensures GrepResult(tree, hits[..i + 1]) == GrepResult(tree, hits[..i]) + Section(tree, hits[i].0, hits[i].1)
    ensures !NulHit(hits[..i + 1])
  {
    assert hits[..i + 1][..i] == hits[..i];
    assert hits[..i + 1] == hits[..i] + [hits[i]];
    NulHitSnoc(hits[..i], hits[i]);
  }

  function FilesOverBudget(lim: Limits, s: Session, header: string, count: nat): string {
    ErrorNote(lim, s, header, "Output too large. Would go over budget with such glob path, wanted "
      + NatToString(count) + " lines, but only " + IntToString(lim.maxValidLines - s.validLines) + " available.")
  }

  function OutputOverBudget(lim: Limits, s: Session, header: string, size: nat): string {
    ErrorNote(lim, s, header, "Output too large, would go over budget, wanted "
      + NatToString(size) + " lines, but only " + IntToString(lim.maxValidLines - s.validLines) + " available.")
  }

  function NothingFound(lim: Limits, s: Session, header: string, pattern: string, files: seq<string>): string {
    header + "Nothing found for pattern: \"" + pattern + "\" in any of files! (files: " + Join(files, " ") + ")"
      + BudgetLeft(lim, s)
  }

  function NoMatchEvidence(pattern: string, files: seq<string>): string {
    "\nNo match for pattern: \"" + pattern + "\" in any of checked files - files checked: " + Join(files, " ") + ")."
  }

  /** From the `git grep` call on: the budget check, the grouping, the sections. */
  function GrepFiles(lim: Limits, repo: Repo, s: Session, header: string, pattern: string, files: seq<string>): AskOutcome {
    var out := repo.grep(pattern, files);
    if |out| > lim.maxValidLines - s.validLines then Rejected(OutputOverBudget(lim, s, header, |out|))
    else
      var hits := GrepHits(Split(out));
      if hits == [] then NoMatch(NothingFound(lim, s, header, pattern, files), NoMatchEvidence(pattern, files))
      else if NulHit(hits) then Raises
      else Gathered(GrepResult(repo.tree, hits))
  }

  /**
   * The `grep-context-n` branch. Without any parameter `params[1..-1]` is
   * nil and calling `each` on it raises. A path that is not found blanks
   * the pattern, so that ask is dropped after its note; no path at all
   * means the whole repository. A NUL character in a path or in the
   * pattern that reaches the shell raises.
   */
  function GrepDispatch(lim: Limits, repo: Repo, s: Session, header: string, params: seq<string>): AskOutcome {
    if params == [] then Raises
    else
      var scan := ScanPaths(repo, header, params[1..]);
      if scan.ScanRaised? then Raises
      else
      var pattern := if scan.stopped then "" else params[0];
      if |scan.files| > lim.maxValidLines then Rejected(scan.note + FilesOverBudget(lim, s, header, |scan.files|))
      else if Blank(pattern) then Rejected(scan.note)
      else if HasNul(pattern) then Raises
      else GrepFiles(lim, repo, s, header, pattern, if scan.files == [] then ["."] else scan.files)
  }

  method GrepContext(lim: Limits, repo: Repo, s: Session, header: string, params: seq<string>) returns (outcome: AskOutcome)
    ensures outcome == GrepDispatch(lim, repo, s, header, params)
  {
    if params == [] {
      return Raises;
    }
    var pattern := params[0];
    var scan := ResolvePaths(repo, header, params[1..]);
    if scan.ScanRaised? {
      return Raises;
    }
    if scan.stopped {
      pattern := "";
    }
    var files := scan.files;
    if |files| > lim.maxValidLines {
      return Rejected(scan.note + FilesOverBudget(lim, s, header, |files|));
    }
    if files == [] {
      files := ["."];
    }
    if Blank(pattern) {
      return Rejected(scan.note);
    }
    if HasNul(pattern) {
      return Raises;
    }
    outcome := GrepOutput(lim, repo, s, header, pattern, files);
  }

  /** The part of the branch from the `git grep` call on. */
  method GrepOutput(lim: Limits, repo: Repo, s: Session, header: string, pattern: string, files: seq<string>)
    returns (outcome: AskOutcome)
    ensures outcome == GrepFiles(lim, repo, s, header, pattern, files)
  {
    var out := repo.grep(pattern, files);
    if |out| > lim.maxValidLines - s.validLines {
      return Rejected(OutputOverBudget(lim, s, header, |out|));
    }
    var filelines := GroupHits(Split(out));
    if filelines == [] {
      return NoMatch(NothingFound(lim, s, header, pattern, files), NoMatchEvidence(pattern, files));
    }
    var result := RenderHits(repo.tree, filelines);
    if result.None? {
      return Raises;
    }
    return Gathered(result.value);
  }

  /** With a pattern and no path, the whole repository (`.`) is searched. */
  lemma GrepWholeRepository(lim: Limits, repo: Repo, s: Session, header: string, pattern: string)
    requires !Blank(pattern) && lim.maxValidLines >= 0
    ensures GrepDispatch(lim, repo, s, header, [pattern]) ==
      if HasNul(pattern) then Raises else GrepFiles(lim, repo, s, header, pattern, ["."])
  {
    assert [pattern][1..] == [];
  }

  /** A blank pattern drops the ask without a note of its own. */
  lemma BlankPatternDropped(lim: Limits, repo: Repo, s: Session, header: string, params: seq<string>)
    requires params != [] && Blank(params[0])
    requires var scan := ScanPaths(repo, header, params[1..]); scan.ScanRaised? || |scan.files| <= lim.maxValidLines
    ensures var scan := ScanPaths(repo, header, params[1..]);
      GrepDispatch(lim, repo, s, header, params) == if scan.ScanRaised? then Raises else Rejected(scan.note)
  {
  }

  /** A path holding NUL raises when the loop reaches it (`File.exist?`). */
  lemma GrepNulPathRaises(lim: Limits, repo: Repo, s: Session, header: string, pattern: string, p: string)
    requires !Blank(p) && HasNul(p)
    ensures GrepDispatch(lim, repo, s, header, [pattern, p]) == Raises
  {
    assert [pattern, p][1..] == [p];
    ScanNulPath(repo, header, p);
  }

  /** A pattern holding NUL raises when it reaches the backtick command. */
  lemma GrepNulPatternRaises(lim: Limits, repo: Repo, s: Session, header: string, pattern: string)
    requires !Blank(pattern) && HasNul(pattern) && lim.maxValidLines >= 0
    ensures GrepDispatch(lim, repo, s, header, [pattern]) == Raises
  {
    assert [pattern][1..] == [];
  }

  /**
   * No parameter holds a NUL character, and neither does any glob match
   * or any `git grep` output: nothing then reaches `File.exist?`,
   * `File.directory?` or a backtick with one.
   */
  ghost predicate NulFreeAsk(repo: Repo, params: seq<string>) {
    (forall i :: 0 <= i < |params| ==> !HasNul(params[i])) &&
    (forall g :: !AnyNul(repo.glob(g))) &&
    (forall pattern, files :: !HasNul(repo.grep(pattern, files)))
  }

  /** Without a NUL character anywhere, `grep-context-n` raises only when it has no parameter. */
  lemma GrepRaisesOnlyOnNul(lim: Limits, repo: Repo, s: Session, header: string, params: seq<string>)
    ensures NulFreeAsk(repo, params) ==> (GrepDispatch(lim, repo, s, header, params).Raises? <==> params == [])
  {
    if NulFreeAsk(repo, params) && params != [] {
      assert forall i :: 0 <= i < |params[1..]| ==> params[1..][i] == params[i + 1];
      ScanNulFree(repo, header, params[1..]);
      var scan := ScanPaths(repo, header, params[1..]);
      var pattern := if scan.stopped then "" else params[0];
      var files := if scan.files == [] then ["."] else scan.files;
      GrepOutputNulFree(repo.grep(pattern, files));
    }
  }

  // ---------------------------------------------------------------------
  // cat-context
  // ---------------------------------------------------------------------

  /**
   * `file` after the `params[1..-1].each` loop: the first path that
   * exists, else the last one; `None` when `File.exist?` raises on a path
   * holding NUL before that.
   */
  function ChosenPath(tree: Tree, paths: seq<string>): Option<string> {
    if paths == [] then Some("")
    else if HasNul(paths[0]) then None
    else if Exists(tree, paths[0]) || |paths| == 1 then Some(paths[0])
    else ChosenPath(tree, paths[1..])
  }

  method ChoosePath(tree: Tree, paths: seq<string>) returns (file: Option<string>)
    ensures file == ChosenPath(tree, paths)
  {
    file := Some("");
    var i := 0;
    while i < |paths|
      invariant 0 <= i <= |paths|
      invariant if i == |paths| then ChosenPath(tree, paths) == file else ChosenPath(tree, paths) == ChosenPath(tree, paths[i..])
    {
      assert paths[i..][1..] == paths[i + 1..];
      file := Some(paths[i]);
      if HasNul(paths[i]) {
        return None;
      }
      if Exists(tree, paths[i]) {
        return;
      }
      i := i + 1;
    }
  }

  lemma {:induction false} ChosenPathFirst(tree: Tree, paths: seq<string>, k: nat)
    requires k < |paths| && Exists(tree, paths[k])
    requires forall j :: 0 <= j < k ==> !Exists(tree, paths[j]) && !HasNul(paths[j])
    ensures ChosenPath(tree, paths) == if HasNul(paths[k]) then None else Some(paths[k])
  {
    if k > 0 {
      ChosenPathFirst(tree, paths[1..], k - 1);
    }
  }

  lemma {:induction false} ChosenPathLast(tree: Tree, paths: seq<string>)
    requires paths != []
    requires forall j :: 0 <= j < |paths| ==> !Exists(tree, paths[j])
    ensures ChosenPath(tree, paths) == if AnyNul(paths) then None else Some(paths[|paths| - 1])
  {
    if |paths| > 1 {
      ChosenPathLast(tree, paths[1..]);
      assert AnyNul(paths) <==> HasNul(paths[0]) || AnyNul(paths[1..]) by {
        assert forall i :: 1 <= i < |paths| ==> paths[i] == paths[1..][i - 1];
      }
    }
  }

  function LineNotFound(n: int, count: nat): string {
    "Line not found: " + IntToString(n) + ", the file only has " + NatToString(count) + " lines"
  }

  /**
   * The `cat-context` branch. Without any parameter `params[1..-1]` is
   * nil, and on a path holding NUL `File.exist?` raises; either way the
   * rescue drops the ask silently. Otherwise the line number is
   * `params[0].to_i` and the window has 40 lines on each side.
   */
  function CatDispatch(lim: Limits, repo: Repo, s: Session, header: string, params: seq<string>): AskOutcome {
    if params == [] || ChosenPath(repo.tree, params[1..]).None? then Rejected("")
    else
      var n := ToI(params[0]);
      var file := ChosenPath(repo.tree, params[1..]).value;
      if file == "" then Rejected(ErrorNote(lim, s, header, "Path not given"))
      else if !IsFile(repo.tree, file) then Rejected(ErrorNote(lim, s, header, "File not found or is a directory: " + file))
      else
        var context := FileContext(repo.tree, file, [n], 40);
        if context == "" then
          Rejected(ErrorNote(lim, s, header, LineNotFound(n, |Split(repo.tree(file).content)|)))
        else Gathered(SectionText(file, context))
  }

  method CatContextAsk(lim: Limits, repo: Repo, s: Session, header: string, params: seq<string>) returns (outcome: AskOutcome)
    ensures outcome == CatDispatch(lim, repo, s, header, params)
  {
    if params == [] {
      return Rejected("");
    }
    var n := ToI(params[0]);
    var chosen := ChoosePath(repo.tree, params[1..]);
    if chosen.None? {
      return Rejected("");
    }
    var file := chosen.value;
    if file == "" {
      return Rejected(ErrorNote(lim, s, header, "Path not given"));
    }
    if !Exists(repo.tree, file) || !IsFile(repo.tree, file) {
      return Rejected(ErrorNote(lim, s, header, "File not found or is a directory: " + file));
    }
    var context := GetFileContext(repo.tree, file, [n], 40);
    if context == "" {
      var lineCount := |Split(repo.tree(file).content)|;
      return Rejected(ErrorNote(lim, s, header, LineNotFound(n, lineCount)));
    }
    return Gathered(SectionText(file, context));
  }

  /**
   * Asking for a line more than 40 lines past the end of an existing file
   * gives the "Line not found" note with the file's line count.
   */
  lemma CatLineNotFound(lim: Limits, repo: Repo, s: Session, header: string, number: string, file: string)
    requires file != [] && repo.tree(file).Regular?
    requires ToI(number) > |Split(repo.tree(file).content)| + 39
    ensures CatDispatch(lim, repo, s, header, [number, file]) ==
      if HasNul(file) then Rejected("")
      else Rejected(ErrorNote(lim, s, header, LineNotFound(ToI(number), |Split(repo.tree(file).content)|)))
  {
    assert [number, file][1..] == [file];
    OneLineNumber(repo.tree, file, ToI(number), 40);
  }

  /** A path holding NUL, reached before any existing path, drops the ask without a note. */
  lemma CatNulPathDropped(lim: Limits, repo: Repo, s: Session, header: string, number: string, p: string, rest: seq<string>)
    requires HasNul(p)
    ensures CatDispatch(lim, repo, s, header, [number, p] + rest) == Rejected("")
  {
    assert ([number, p] + rest)[1..] == [p] + rest;
  }

  // ---------------------------------------------------------------------
  // blame-line
  // ---------------------------------------------------------------------

  /**
   * The `blame-line` branch: `git blame` of line `params[0].to_i` of
   * `params[1]`. On a path holding NUL `File.exist?` raises and the
   * rescue drops the ask silently.
   */
  function BlameDispatch(lim: Limits, repo: Repo, s: Session, header: string, params: seq<string>): (r: AskOutcome)
    ensures r.Rejected? || r.Gathered?
    ensures r.Gathered? <==>
      |params| >= 2 && !HasNul(params[1]) && Exists(repo.tree, params[1]) && repo.blame(ToI(params[0]), params[1]) != ""
    ensures r.Gathered? ==> StartsWith(r.result, "\n```\n") && |r.result| > 8
  {
    var n := if params == [] then 0 else ToI(params[0]);
    if |params| < 2 then Rejected(ErrorNote(lim, s, header, "Path not given"))
    else if HasNul(params[1]) then Rejected("")
    else if !Exists(repo.tree, params[1]) then Rejected(ErrorNote(lim, s, header, "File not found: " + params[1]))
    else
      var out := repo.blame(n, params[1]);
      if out == "" then
        Rejected(ErrorNote(lim, s, header, "No blame found for line: " + IntToString(n) + " in file: " + params[1]))
      else Gathered("\n```\n" + out + "```\n")
  }

  /**
   * How a `blame-line` ask ends: "Path not given" without a path, nothing
   * at all on a path holding NUL, "File not found" on a path that does
   * not exist, "No blame found" on empty output, and otherwise the output
   * in a code fence. Only the last gathers anything.
   */
  lemma BlameOutcomes(lim: Limits, repo: Repo, s: Session, header: string, params: seq<string>)
    ensures var r := BlameDispatch(lim, repo, s, header, params);
      var n := if params == [] then 0 else ToI(params[0]);
      (|params| < 2 ==> r == Rejected(ErrorNote(lim, s, header, "Path not given"))) &&
      (|params| >= 2 && HasNul(params[1]) ==> r == Rejected("")) &&
      (|params| >= 2 && !HasNul(params[1]) && !Exists(repo.tree, params[1]) ==>
         r == Rejected(ErrorNote(lim, s, header, "File not found: " + params[1]))) &&
      (|params| >= 2 && !HasNul(params[1]) && Exists(repo.tree, params[1]) ==>
         r == if repo.blame(n, params[1]) == "" then
           Rejected(ErrorNote(lim, s, header, "No blame found for line: " + IntToString(n) + " in file: " + params[1]))
         else Gathered("\n```\n" + repo.blame(n, params[1]) + "```\n"))
  {
  }

  /**
   * A blame of k lines, each ending in a newline, costs k + 3 lines of
   * the budget: the fenced result starts with an empty line.
   */
  lemma BlameLinesCharged(out: seq<string>)
    requires out != [] && NoNewlines(out)
    ensures |Split("\n```\n" + Terminated(out) + "```\n")| == |out| + 3
  {
    var fence := "```";
    var ls := ["", fence] + out + [fence];
    assert "\n```\n" + Terminated(out) + "```\n" == Terminated(ls) by {
      FencedTerminated(out);
    }
    assert NoNewlines(ls) by {
      assert forall i :: 2 <= i < |ls| - 1 ==> ls[i] == out[i - 2];
      assert ls[0] == "" && ls[1] == fence && ls[|ls| - 1] == fence;
    }
    SplitTerminated(ls);
    assert DropTrailingEmpty(ls) == ls by {
      assert ls[|ls| - 1] == fence;
    }
  }

  lemma FencedTerminated(out: seq<string>)
    ensures "\n```\n" + Terminated(out) + "```\n" == Terminated(["", "```"] + out + ["```"])
  {
    TerminatedAppend(["", "```"] + out, ["```"]);
    TerminatedAppend(["", "```"], out);
    assert Terminated(["", "```"]) == "\n```\n" by {
      assert ["", "```"][1..] == ["```"];
    }
  }

  // ---------------------------------------------------------------------
  // One pass of the loop
  // ---------------------------------------------------------------------

  /**
   * Only `grep-context-n` raises: always without any parameter, otherwise
   * only on a NUL character; only `close` ends the loop.
   */
  function RunTool(lim: Limits, repo: Repo, s: Session, tool: Tool, header: string, params: seq<string>): (r: AskOutcome)
    ensures r.Raises? ==> tool == GrepContextN
    ensures tool == GrepContextN && params == [] ==> r.Raises?
    ensures NulFreeAsk(repo, params) ==> (r.Raises? <==> tool == GrepContextN && params == [])
    ensures r.Closed? <==> tool == Close
  {
    match tool
    case GrepContextN =>
      GrepRaisesOnlyOnNul(lim, repo, s, header, params);
      GrepDispatch(lim, repo, s, header, params)
    case CatContext => CatDispatch(lim, repo, s, header, params)
    case BlameLine => BlameDispatch(lim, repo, s, header, params)
    case Close => Closed
  }

  method RunToolAsk(lim: Limits, repo: Repo, s: Session, tool: Tool, header: string, params: seq<string>) returns (outcome: AskOutcome)
    ensures outcome == RunTool(lim, repo, s, tool, header, params)
  {
    match tool {
      case GrepContextN =>
        outcome := GrepContext(lim, repo, s, header, params);
      case CatContext =>
        outcome := CatContextAsk(lim, repo, s, header, params);
      case BlameLine =>
        outcome := BlameDispatch(lim, repo, s, header, params);
      case Close =>
        outcome := Closed;
    }
  }

  /** The line accounting: a result over the per-ask budget is refused, any other is gathered. */
  function Account(lim: Limits, s: Session, header: string, result: string): Session {
    var n := |Split(result)|;
    if n > lim.maxPeraskLines then
      s.(reaskBlock := s.reaskBlock + ErrorNote(lim, s, header, "Over budget, wanted " + NatToString(n)
        + " lines, but only " + IntToString(lim.maxPeraskLines) + " available"))
    else
      var s' := s.(validLines := s.validLines + n, askBlock := s.askBlock + result);
      s'.(reaskBlock := s.reaskBlock + header + result + BudgetLeft(lim, s'))
  }

  datatype StepResult = Continued(session: Session) | Stopped(session: Session) | Failed

  /**
   * What a pass makes of the tool's outcome for the new ask. Only an
   * exception fails it; otherwise `iters` and `asks` stay, `ask_block` and
   * `reask_block` only grow, `valid_lines` grows by at most
   * `max_perask_lines` and then by exactly the lines added to `ask_block`,
   * and `close` gathers nothing.
   */
  function Settle(lim: Limits, s: Session, header: string, outcome: AskOutcome): StepResult {
    match outcome
    case Closed => Stopped(s)
    case Raises => Failed
    case Rejected(note) => Continued(s.(reaskBlock := s.reaskBlock + note))
    case NoMatch(note, evidence) =>
      Continued(s.(reaskBlock := s.reaskBlock + note, askBlock := s.askBlock + evidence))
    case Gathered(result) => Continued(Account(lim, s, header, result))
  }

  lemma SettleBounds(lim: Limits, s: Session, header: string, outcome: AskOutcome)
    ensures var r := Settle(lim, s, header, outcome);
      (r.Failed? <==> outcome.Raises?) &&
      (r.Failed? || (r.session.iters == s.iters && r.session.asks == s.asks)) &&
      (r.Failed? || (s.askBlock <= r.session.askBlock && s.reaskBlock <= r.session.reaskBlock)) &&
      (r.Failed? || r.session.validLines == s.validLines ||
        (s.validLines < r.session.validLines <= s.validLines + lim.maxPeraskLines &&
         r.session.validLines == s.validLines + |Split(r.session.askBlock[|s.askBlock|..])|)) &&
      (r.Stopped? <==> outcome.Closed?) &&
      (r.Stopped? ==> r.session == s)
  {
    if outcome.Gathered? {
      var r := Account(lim, s, header, outcome.result);
      assert r.validLines > s.validLines ==> r.askBlock[|s.askBlock|..] == outcome.result;
    }
  }

  /**
   * One pass of the loop once `iters` is counted: read the ask, reject a
   * repeated one, run the tool, settle its outcome.
   */
  function Step(lim: Limits, repo: Repo, reply: string, s: Session): StepResult
  {
    match FirstAsk(Split(reply))
    case None => Continued(s)
    case Some((tool, paramsStr)) =>
      var header := Header(tool, paramsStr);
      if (tool, paramsStr) in s.asks then
        Continued(s.(reaskBlock := s.reaskBlock + DuplicateNote(lim, s, header)))
      else
        var s1 := s.(asks := s.asks + [(tool, paramsStr)]);
        var outcome := RunTool(lim, repo, s1, tool, header, Params(paramsStr));
        Settle(lim, s1, header, outcome)
  }

  /**
   * What one pass `r` from `s` keeps, whatever the reply: `iters` stays,
   * `ask_block` and `reask_block` only grow, `valid_lines` grows by at most
   * `max_perask_lines`, `asks` gains at most one ask, which was not in it,
   * and a pass that stops the session gathers nothing.
   */
  predicate PassBounds(lim: Limits, s: Session, r: StepResult) {
    (r.Failed? || r.session.iters == s.iters) &&
    (r.Failed? || (s.askBlock <= r.session.askBlock && s.reaskBlock <= r.session.reaskBlock)) &&
    (r.Failed? || r.session.validLines == s.validLines ||
      s.validLines < r.session.validLines <= s.validLines + lim.maxPeraskLines) &&
    (r.Failed? || r.session.asks == s.asks ||
      (r.session.asks != [] && r.session.asks == s.asks + [r.session.asks[|r.session.asks| - 1]] &&
       r.session.asks[|r.session.asks| - 1] !in s.asks)) &&
    (r.Stopped? ==> r.session.validLines == s.validLines && r.session.askBlock == s.askBlock)
  }

  /**
   * A pass keeps `PassBounds`; only a new `grep-context-n` ask raises:
   * always without parameters, otherwise only on a NUL character; `valid_lines` grows by exactly the lines added to
   * `ask_block`, and the ask `asks` gains is the reply's first ask.
   */
  lemma StepBounds(lim: Limits, repo: Repo, reply: string, s: Session)
    ensures var r := Step(lim, repo, reply, s);
      var a := FirstAsk(Split(reply));
      PassBounds(lim, s, r) &&
      (r.Failed? ==>
         a.Some? && a.value.0 == GrepContextN && (Params(a.value.1) == [] || !NulFreeAsk(repo, Params(a.value.1)))) &&
      (a.Some? && a.value !in s.asks && a.value.0 == GrepContextN && Params(a.value.1) == [] ==> r.Failed?) &&
      (r.Failed? || r.session.validLines == s.validLines ||
       r.session.validLines == s.validLines + |Split(r.session.askBlock[|s.askBlock|..])|) &&
      (r.Failed? || r.session.asks == s.asks || (a.Some? && r.session.asks == s.asks + [a.value]))
  {
    match FirstAsk(Split(reply))
    case None =>
    case Some((tool, paramsStr)) =>
      if (tool, paramsStr) !in s.asks {
        var s1 := s.(asks := s.asks + [(tool, paramsStr)]);
        SettleBounds(lim, s1, Header(tool, paramsStr), RunTool(lim, repo, s1, tool, Header(tool, paramsStr), Params(paramsStr)));
      }
  }

  /** A pass whose reply holds no ask changes nothing. */
  lemma NoAskNoChange(lim: Limits, repo: Repo, reply: string, s: Session)
    requires forall i :: 0 <= i < |Split(reply)| ==> ParseAskLine(Split(reply)[i]).None?
    ensures Step(lim, repo, reply, s) == Continued(s)
  {
    FirstAskNone(Split(reply));
  }

  /** An ask that was run is recorded. */
  lemma AskRecorded(lim: Limits, repo: Repo, reply: string, s: Session)
    requires FirstAsk(Split(reply)).Some?
    requires !Step(lim, repo, reply, s).Failed?
    ensures FirstAsk(Split(reply)).value in Step(lim, repo, reply, s).session.asks
  {
    var a := FirstAsk(Split(reply)).value;
    if a !in s.asks {
      var s1 := s.(asks := s.asks + [a]);
      var header := Header(a.0, a.1);
      var outcome := RunTool(lim, repo, s1, a.0, header, Params(a.1));
      assert Step(lim, repo, reply, s) == Settle(lim, s1, header, outcome);
      SettleBounds(lim, s1, header, outcome);
      assert s1.asks[|s.asks|] == a;
    }
  }

  /**
   * An ask already in `asks` is refused: only the duplicate note is added,
   * and neither `valid_lines` nor `ask_block` nor `asks` changes.
   */
  lemma RepeatedAskRejected(lim: Limits, repo: Repo, reply: string, s: Session)
    requires FirstAsk(Split(reply)).Some? && FirstAsk(Split(reply)).value in s.asks
    ensures var a := FirstAsk(Split(reply)).value;
      Step(lim, repo, reply, s) ==
        Continued(s.(reaskBlock := s.reaskBlock + DuplicateNote(lim, s, Header(a.0, a.1))))
  {
  }

  /** `ASK: close` ends the session without gathering anything. */
  lemma CloseStops(lim: Limits, repo: Repo, reply: string, s: Session, paramsStr: string)
    requires FirstAsk(Split(reply)) == Some((Close, paramsStr)) && (Close, paramsStr) !in s.asks
    ensures Step(lim, repo, reply, s) == Stopped(s.(asks := s.asks + [(Close, paramsStr)]))
  {
  }

  // ---------------------------------------------------------------------
  // The loop
  // ---------------------------------------------------------------------

  datatype Final = Finished(session: Session) | Raised

  /** Every pass `pass` makes keeps `PassBounds`. */
  ghost predicate Sound(lim: Limits, pass: (string, Session) -> StepResult) {
    forall reply: string, s: Session :: PassBounds(lim, s, pass(reply, s))
  }

  /**
   * The loop from state s on, given what a pass makes of a reply: it runs
   * while `valid_lines` is under `max_valid_lines`, counts the pass, stops
   * once the count exceeds `reask_iter_limit`, and otherwise makes one
   * pass on the reply to ask number `iters`.
   */
  function Loop(lim: Limits, pass: (string, Session) -> StepResult, replies: Replies, s: Session): Final
    requires Sound(lim, pass)
    decreases if s.iters < lim.reaskIterLimit then lim.reaskIterLimit - s.iters else 0
  {
    if s.validLines >= lim.maxValidLines then Finished(s)
    else
      var s1 := s.(iters := s.iters + 1);
      if s1.iters > lim.reaskIterLimit then Finished(s1)
      else
        match pass(replies(s1.iters), s1)
        case Failed => Raised
        case Stopped(s2) => Finished(s2)
        case Continued(s2) => Loop(lim, pass, replies, s2)
  }

  /** The pass of `ask_and_gather_context`. */
  function StepOf(lim: Limits, repo: Repo): (string, Session) -> StepResult {
    (reply: string, s: Session) => Step(lim, repo, reply, s)
  }

  lemma StepSound(lim: Limits, repo: Repo)
    ensures Sound(lim, StepOf(lim, repo))
  {
    forall reply: string, s: Session
      ensures PassBounds(lim, s, StepOf(lim, repo)(reply, s))
    {
      StepBounds(lim, repo, reply, s);
    }
  }

  /** The whole session from state s. */
  function Gather(lim: Limits, repo: Repo, replies: Replies, s: Session): Final {
    StepSound(lim, repo);
    Loop(lim, StepOf(lim, repo), replies, s)
  }

  /** Over the whole run `ask_block` and `reask_block` only grow, and so does `valid_lines`. */
  lemma {:induction false} LoopGrows(lim: Limits, pass: (string, Session) -> StepResult, replies: Replies, s: Session)
    requires Sound(lim, pass)
    ensures var r := Loop(lim, pass, replies, s);
      r.Finished? ==>
        s.askBlock <= r.session.askBlock && s.reaskBlock <= r.session.reaskBlock &&
        s.validLines <= r.session.validLines
    decreases if s.iters < lim.reaskIterLimit then lim.reaskIterLimit - s.iters else 0
  {
    var s1 := s.(iters := s.iters + 1);
    if s.validLines < lim.maxValidLines && s1.iters <= lim.reaskIterLimit {
      var reply := replies(s1.iters);
      assert PassBounds(lim, s1, pass(reply, s1));
      match pass(reply, s1)
      case Failed =>
      case Stopped(s2) =>
      case Continued(s2) =>
        LoopGrows(lim, pass, replies, s2);
    }
  }

  /**
   * Over the whole run `asks` only grows, never repeats an ask, and gains
   * at most one ask per allowed pass.
   */
  lemma {:induction false} LoopAsks(lim: Limits, pass: (string, Session) -> StepResult, replies: Replies, s: Session)
    requires Sound(lim, pass)
    ensures var r := Loop(lim, pass, replies, s);
      r.Finished? ==>
        s.asks <= r.session.asks &&
        (NoDuplicates(s.asks) ==> NoDuplicates(r.session.asks)) &&
        |r.session.asks| <= |s.asks| + (if s.iters < lim.reaskIterLimit then lim.reaskIterLimit - s.iters else 0)
    decreases if s.iters < lim.reaskIterLimit then lim.reaskIterLimit - s.iters else 0
  {
    var s1 := s.(iters := s.iters + 1);
    if s.validLines < lim.maxValidLines && s1.iters <= lim.reaskIterLimit {
      var reply := replies(s1.iters);
      assert PassBounds(lim, s1, pass(reply, s1));
      match pass(reply, s1)
      case Failed =>
      case Stopped(s2) =>
        if s2.asks != s.asks {
          AddedAsk(s.asks, s2.asks[|s2.asks| - 1]);
        }
      case Continued(s2) =>
        if s2.asks != s.asks {
          AddedAsk(s.asks, s2.asks[|s2.asks| - 1]);
        }
        LoopAsks(lim, pass, replies, s2);
    }
  }

  /**
   * Once `valid_lines` has grown, it ends at most `max_perask_lines - 1`
   * past `max_valid_lines`: a pass only runs while it is under the limit,
   * and a pass adds at most `max_perask_lines`.
   */
  lemma {:induction false} LoopValidLines(lim: Limits, pass: (string, Session) -> StepResult, replies: Replies, s: Session)
    requires Sound(lim, pass)
    ensures var r := Loop(lim, pass, replies, s);
      r.Finished? && s.validLines < r.session.validLines ==>
        r.session.validLines <= lim.maxValidLines - 1 + lim.maxPeraskLines
    decreases if s.iters < lim.reaskIterLimit then lim.reaskIterLimit - s.iters else 0
  {
    var s1 := s.(iters := s.iters + 1);
    if s.validLines < lim.maxValidLines && s1.iters <= lim.reaskIterLimit {
      var reply := replies(s1.iters);
      assert PassBounds(lim, s1, pass(reply, s1));
      match pass(reply, s1)
      case Failed =>
      case Stopped(s2) =>
      case Continued(s2) =>
        LoopValidLines(lim, pass, replies, s2);
        LoopGrows(lim, pass, replies, s2);
    }
  }

  /** The session only reads the replies to asks 1 to `reask_iter_limit`. */
  lemma {:induction false} RepliesBeyondLimitUnread(lim: Limits, pass: (string, Session) -> StepResult,
                                                    replies: Replies, other: Replies, s: Session)
    requires Sound(lim, pass)
    requires forall n: nat :: s.iters < n <= lim.reaskIterLimit ==> replies(n) == other(n)
    ensures Loop(lim, pass, replies, s) == Loop(lim, pass, other, s)
    decreases if s.iters < lim.reaskIterLimit then lim.reaskIterLimit - s.iters else 0
  {
    var s1 := s.(iters := s.iters + 1);
    if s.validLines < lim.maxValidLines && s1.iters <= lim.reaskIterLimit {
      var reply := replies(s1.iters);
      assert reply == other(s1.iters);
      assert PassBounds(lim, s1, pass(reply, s1));
      match pass(reply, s1)
      case Failed =>
      case Stopped(s2) =>
      case Continued(s2) =>
        RepliesBeyondLimitUnread(lim, pass, replies, other, s2);
    }
  }

  /** The session's result: `ask_block`, or nothing when an exception left the method. */
  function Returned(f: Final): Option<string> {
    match f
    case Raised => None
    case Finished(s) => Some(s.askBlock)
  }

  /**
   * The loop body after `iters` is counted; each `next` of the loop is a
   * `return` of the pass.
   */
  method Pass(lim: Limits, repo: Repo, reply: string, s: Session) returns (r: StepResult)
    ensures r == Step(lim, repo, reply, s)
  {
    var ask := FindAsk(Split(reply));
    if ask.None? {
      return Continued(s);
    }
    var (tool, paramsStr) := ask.value;
    var params := ParseParams(paramsStr);
    var header := Header(tool, paramsStr);
    if (tool, paramsStr) in s.asks {
      return Continued(s.(reaskBlock := s.reaskBlock + DuplicateNote(lim, s, header)));
    }
    var s1 := s.(asks := s.asks + [(tool, paramsStr)]);
    var outcome := RunToolAsk(lim, repo, s1, tool, header, params);
    r := SettleAsk(lim, s1, header, outcome);
  }

  /** The `case` on the tool's outcome at the end of the loop body. */
  method SettleAsk(lim: Limits, s: Session, header: string, outcome: AskOutcome) returns (r: StepResult)
    ensures r == Settle(lim, s, header, outcome)
  {
    match outcome {
      case Closed =>
        return Stopped(s);
      case Raises =>
        return Failed;
      case Rejected(note) =>
        return Continued(s.(reaskBlock := s.reaskBlock + note));
      case NoMatch(note, evidence) =>
        return Continued(s.(reaskBlock := s.reaskBlock + note, askBlock := s.askBlock + evidence));
      case Gathered(result) =>
        var resultLines := |Split(result)|;
        if resultLines > lim.maxPeraskLines {
          return Continued(s.(reaskBlock := s.reaskBlock + ErrorNote(lim, s, header, "Over budget, wanted "
            + NatToString(resultLines) + " lines, but only " + IntToString(lim.maxPeraskLines) + " available")));
        }
        var s2 := s.(validLines := s.validLines + resultLines, askBlock := s.askBlock + result);
        return Continued(s2.(reaskBlock := s.reaskBlock + header + result + BudgetLeft(lim, s2)));
    }
  }

  method AskAndGatherContext(lim: Limits, repo: Repo, replies: Replies) returns (returned: Option<string>)
    ensures returned == Returned(Gather(lim, repo, replies, Start))
  {
    ghost var pass := StepOf(lim, repo);
    StepSound(lim, repo);
    var s := Start;
    while s.validLines < lim.maxValidLines
      invariant Loop(lim, pass, replies, Start) == Loop(lim, pass, replies, s)
      decreases lim.reaskIterLimit - s.iters
    {
      s := s.(iters := s.iters + 1);
      if s.iters > lim.reaskIterLimit {
        break;
      }
      var r := Pass(lim, repo, replies(s.iters), s);
      assert r == pass(replies(s.iters), s);
      assert PassBounds(lim, s, r);
      match r {
        case Failed =>
          return None;
        case Stopped(next) =>
          s := next;
          break;
        case Continued(next) =>
          s := next;
      }
    }
    return Some(s.askBlock);
  }
}
