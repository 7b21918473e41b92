/**
 * The numbered-line exchange format shared by the merge and the fixup
 * paths: lines rendered as `"%Wd %s"`, the reply's fenced text, the
 * `^(\s{0,5}\d{1,6}) (.*)$` line parser and the hash of numbered lines
 * it fills (lib/merge_iteration.rb and lib/fixup_iteration.rb hold
 * identical copies of the parser and of the fence scan).
 */
module NumberedLines {
  import opened Wrappers
  import opened Text
  import opened OrderedHash

  /** `"%#{width}d %s" % [n, line]` */
  function NumberedLine(n: nat, line: string, width: int): string {
    FormatInt(n, width) + " " + line
  }

  /** `g` matches `\s{0,5}\d{1,6}` from its first to its last character. */
  predicate NumberGroup(g: string) {
    var w := LeadingSpaces(g);
    w <= 5 && 1 <= |g| - w <= 6 && AllDigits(g[w..])
  }

  lemma {:induction false} LeadingSpacesExtend(s: string, t: string)
    requires LeadingSpaces(s) < |s|
    ensures LeadingSpaces(s + t) == LeadingSpaces(s)
  {
    if IsSpace(s[0]) {
      assert (s + t)[1..] == s[1..] + t;
      LeadingSpacesExtend(s[1..], t);
    }
  }

  lemma {:induction false} DigitRunOf(ds: string, t: string)
    requires AllDigits(ds) && t != [] && !IsDigit(t[0])
    ensures DigitRun(ds + t) == |ds|
  {
    if ds == [] {
      assert ds + t == t;
    } else {
      assert (ds + t)[1..] == ds[1..] + t;
      DigitRunOf(ds[1..], t);
    }
  }

  /**
   * `line =~ /^(\s{0,5}\d{1,6}) (.*)$/` and then `[$1.to_i - 1, $2]`:
   * when it matches, the line is a number group, one space and the
   * content, and the key is the group's value minus one.
   */
  function ParseNumberedLine(line: string): (r: Option<(int, string)>)
    ensures r.Some? ==>
      var p := |line| - |r.value.1| - 1;
      0 < p && line[p] == ' ' && NumberGroup(line[..p]) &&
      line[p + 1..] == r.value.1 && r.value.0 == ToI(line[..p]) - 1
  {
    var w := LeadingSpaces(line);
    var d := DigitRun(line[w..]);
    ParseNumberedLineFromShape(line, w, d);
    ParseNumberedLineFrom(line, w, d)
  }

  /** The match once the space run (`w` long) and the digit run (`d` long) are measured. */
  function ParseNumberedLineFrom(line: string, w: nat, d: nat): Option<(int, string)>
    requires w <= |line|
  {
    if w <= 5 && 1 <= d <= 6 && w + d < |line| && line[w + d] == ' ' then
      Some((ToI(line[..w + d]) - 1, line[w + d + 1..]))
    else None
  }

  lemma ParseNumberedLineFromShape(line: string, w: nat, d: nat)
    requires w == LeadingSpaces(line) && d == DigitRun(line[w..])
    ensures var r := ParseNumberedLineFrom(line, w, d);
      r.Some? ==>
        var p := |line| - |r.value.1| - 1;
        0 < p && line[p] == ' ' && NumberGroup(line[..p]) &&
        line[p + 1..] == r.value.1 && r.value.0 == ToI(line[..p]) - 1
  {
    if w <= 5 && 1 <= d <= 6 && w + d < |line| && line[w + d] == ' ' {
      var rest := line[w + d + 1..];
      assert ParseNumberedLineFrom(line, w, d) == Some((ToI(line[..w + d]) - 1, rest));
      assert |line| - |rest| - 1 == w + d;
      NumberGroupOfLine(line, w, d);
    }
  }

  lemma NumberGroupOfLine(line: string, w: nat, d: nat)
    requires w == LeadingSpaces(line) && w <= |line| && d == DigitRun(line[w..])
    requires w <= 5 && 1 <= d <= 6 && w + d <= |line|
    ensures NumberGroup(line[..w + d])
  {
    var g := line[..w + d];
    var ws, ds := line[..w], line[w..][..d];
    assert g[w..] == ds;
    assert g == ws + ds;
    assert AllDigits(ds);
    assert forall i :: 0 <= i < |ws| ==> IsSpace(ws[i]) by {
      forall i | 0 <= i < |ws| ensures IsSpace(ws[i]) {
        assert ws[i] == line[i];
      }
    }
    assert ds[0] == line[w] && !IsSpace(ds[0]);
    LeadingSpacesOfPadded(ws, ds);
  }

  lemma ParseNumberedLineAt(line: string, w: nat, d: nat, g: string, rest: string)
    requires LeadingSpaces(line) == w && DigitRun(line[w..]) == d
    requires w <= 5 && 1 <= d <= 6 && w + d < |line| && line[w + d] == ' '
    requires line[..w + d] == g && line[w + d + 1..] == rest
    ensures ParseNumberedLine(line) == Some((ToI(g) - 1, rest))
  {
    assert ParseNumberedLineFrom(line, w, d) == Some((ToI(g) - 1, rest));
    assert ParseNumberedLine(line) == ParseNumberedLineFrom(line, w, d);
  }

  /** Conversely, every line of that shape parses, so the function is the regex. */
  lemma ParseNumberedLineComplete(g: string, rest: string)
    requires NumberGroup(g)
    ensures ParseNumberedLine(g + " " + rest) == Some((ToI(g) - 1, rest))
  {
    var line := g + " " + rest;
    var w := LeadingSpaces(g);
    var d := |g| - w;
    assert LeadingSpaces(line) == w by {
      LeadingSpacesOfLine(g, rest);
    }
    assert DigitRun(line[w..]) == d by {
      DigitRunOfLine(g, w, rest);
    }
    assert line[..w + d] == g && line[w + d] == ' ' && line[w + d + 1..] == rest;
    ParseNumberedLineAt(line, w, d, g, rest);
  }

  lemma LeadingSpacesOfLine(g: string, rest: string)
    requires LeadingSpaces(g) < |g|
    ensures LeadingSpaces(g + " " + rest) == LeadingSpaces(g)
  {
    assert g + " " + rest == g + (" " + rest);
    LeadingSpacesExtend(g, " " + rest);
  }

  lemma DigitRunOfLine(g: string, w: nat, rest: string)
    requires w <= |g| && AllDigits(g[w..])
    ensures DigitRun((g + " " + rest)[w..]) == |g| - w
  {
    assert (g + " " + rest)[w..] == g[w..] + (" " + rest);
    DigitRunOf(g[w..], " " + rest);
  }

  /**
   * Rendering then parsing gives back the index and the line, for every
   * line number below 10^6 and a width of at most 6.
   */
  lemma NumberedLineRoundTrip(n: nat, line: string, width: int)
    requires 1 <= n < 1000000 && width <= 6
    ensures ParseNumberedLine(NumberedLine(n, line, width)) == Some((n - 1, line))
  {
    var ds := NatToString(n);
    assert Pow10(6) == 1000000;
    NatToStringLength(n, 6);
    var pad := Spaces(width - |ds|);
    var g := pad + ds;
    LeadingSpacesOfPadded(pad, ds);
    assert g[|pad|..] == ds;
    ParseNumberedLineComplete(g, line);
    ToIOfPaddedDigits(pad, ds);
    DecimalValueOfNatToString(n);
  }

  // ---------------------------------------------------------------------
  // The numbered window shown to the model
  // ---------------------------------------------------------------------

  /** The lines of indices lo .. hi-1, each rendered with its 1-based number. */
  function NumberedWindow(ls: seq<string>, lo: nat, hi: nat, width: int): (r: seq<string>)
    requires hi <= |ls|
    ensures |r| == if lo <= hi then hi - lo else 0
    ensures forall k :: 0 <= k < |r| ==> r[k] == NumberedLine(lo + k + 1, ls[lo + k], width)
    decreases hi
  {
    if hi <= lo then [] else NumberedWindow(ls, lo, hi - 1, width) + [NumberedLine(hi, ls[hi - 1], width)]
  }

  /** The pairs index => line for the indices lo .. hi-1. */
  function WindowPairs(ls: seq<string>, lo: nat, hi: nat): (r: seq<(int, string)>)
    requires hi <= |ls|
    ensures |r| == if lo <= hi then hi - lo else 0
    ensures forall k :: 0 <= k < |r| ==> r[k] == (lo + k, ls[lo + k])
    decreases hi
  {
    if hi <= lo then [] else WindowPairs(ls, lo, hi - 1) + [(hi - 1, ls[hi - 1])]
  }

  // ---------------------------------------------------------------------
  // The fenced text of a reply
  // ---------------------------------------------------------------------

  predicate IsFence(line: string) {
    StartsWith(line, "```")
  }

  /** An odd number of the lines are fences (the scan's `in_block` after them). */
  function OddFences(ls: seq<string>): bool {
    if ls == [] then false else IsFence(ls[0]) != OddFences(ls[1..])
  }

  predicate NoFences(ls: seq<string>) {
    forall i :: 0 <= i < |ls| ==> !IsFence(ls[i])
  }

  /**
   * The lines that the reverse scan keeps: a line is kept when it is not
   * a fence and an odd number of fence lines follow it, that is, when it
   * lies between two fences paired from the end of the reply.
   */
  function FencedLines(ls: seq<string>): seq<string> {
    if ls == [] then []
    else (if !IsFence(ls[0]) && OddFences(ls[1..]) then [ls[0]] else []) + FencedLines(ls[1..])
  }

  /**
   * The `blocks.each` scan over the reversed reply lines: a fence toggles
   * `in_block`, any other line inside a block is prepended to the solution.
   */
  method ExtractSolution(response: string) returns (solution: string)
    ensures solution == Terminated(FencedLines(Split(response)))
  {
    var blocks := Split(response);
    solution := "";
    var inBlock := false;
    var i := |blocks|;
    while i > 0
      invariant 0 <= i <= |blocks|
      invariant inBlock == OddFences(blocks[i..])
      invariant solution == Terminated(FencedLines(blocks[i..]))
    {
      i := i - 1;
      var line := blocks[i];
      assert blocks[i..] == [line] + blocks[i + 1..];
      FencedCons(line, blocks[i + 1..]);
      if IsFence(line) {
        inBlock := !inBlock;
      } else if inBlock {
        solution := line + "\n" + solution;
      }
    }
  }

  /** One step of the scan: the line in front of `rest`. */
  lemma FencedCons(line: string, rest: seq<string>)
    ensures OddFences([line] + rest) == (IsFence(line) != OddFences(rest))
    ensures FencedLines([line] + rest) ==
      if !IsFence(line) && OddFences(rest) then [line] + FencedLines(rest) else FencedLines(rest)
    ensures Terminated([line] + FencedLines(rest)) == line + "\n" + Terminated(FencedLines(rest))
  {
    assert ([line] + rest)[1..] == rest;
    assert ([line] + FencedLines(rest))[1..] == FencedLines(rest);
    assert [] + FencedLines(rest) == FencedLines(rest);
  }

  lemma {:induction false} OddFencesAppend(a: seq<string>, b: seq<string>)
    ensures OddFences(a + b) == (OddFences(a) != OddFences(b))
  {
    if a != [] {
      assert (a + b)[1..] == a[1..] + b;
      OddFencesAppend(a[1..], b);
    } else {
      assert a + b == b;
    }
  }

  /** Text after which an even number of fences follow does not change what is kept before it. */
  lemma {:induction false} FencedAppendEven(a: seq<string>, b: seq<string>)
    requires !OddFences(b)
    ensures FencedLines(a + b) == FencedLines(a) + FencedLines(b)
  {
    if a != [] {
      assert (a + b)[1..] == a[1..] + b;
      OddFencesAppend(a[1..], b);
      FencedAppendEven(a[1..], b);
    } else {
      assert a + b == b;
    }
  }

  lemma {:induction false} FencedNone(ls: seq<string>)
    requires NoFences(ls)
    ensures !OddFences(ls) && FencedLines(ls) == []
  {
    if ls != [] {
      FencedNone(ls[1..]);
    }
  }

  lemma {:induction false} FencedBody(body: seq<string>, close: string)
    requires NoFences(body) && IsFence(close)
    ensures OddFences(body + [close]) && FencedLines(body + [close]) == body
  {
    if body == [] {
      assert [close][1..] == [];
    } else {
      assert (body + [close])[1..] == body[1..] + [close];
      FencedBody(body[1..], close);
      assert body == [body[0]] + body[1..];
    }
  }

  lemma FencedBlock(open: string, body: seq<string>, close: string)
    requires IsFence(open) && IsFence(close) && NoFences(body)
    ensures !OddFences([open] + body + [close]) && FencedLines([open] + body + [close]) == body
  {
    var block := [open] + body + [close];
    assert block[1..] == body + [close];
    FencedBody(body, close);
  }

  /**
   * A fenced block followed by an even number of fence lines contributes
   * exactly its body, in order.
   */
  lemma FencedBetween(pre: seq<string>, open: string, body: seq<string>, close: string, post: seq<string>)
    requires IsFence(open) && IsFence(close)
    requires NoFences(body) && !OddFences(post)
    ensures FencedLines(pre + [open] + body + [close] + post) == FencedLines(pre) + body + FencedLines(post)
  {
    var block := [open] + body + [close];
    var tail := block + post;
    assert pre + [open] + body + [close] + post == pre + tail by {
      assert pre + [open] + body + [close] == pre + block;
    }
    assert !OddFences(tail) && FencedLines(tail) == body + FencedLines(post) by {
      FencedBlock(open, body, close);
      FencedAppendEven(block, post);
      OddFencesAppend(block, post);
    }
    assert FencedLines(pre + tail) == FencedLines(pre) + FencedLines(tail) by {
      FencedAppendEven(pre, tail);
    }
    assert FencedLines(pre) + (body + FencedLines(post)) == FencedLines(pre) + body + FencedLines(post);
  }

  /** A reply with a single fenced block yields exactly that block's lines. */
  lemma SingleFencedBlock(pre: seq<string>, open: string, body: seq<string>, close: string, post: seq<string>)
    requires IsFence(open) && IsFence(close)
    requires NoFences(pre) && NoFences(body) && NoFences(post)
    ensures FencedLines(pre + [open] + body + [close] + post) == body
  {
    FencedNone(pre);
    FencedNone(post);
    FencedBetween(pre, open, body, close, post);
  }

  // ---------------------------------------------------------------------
  // The hash of numbered lines
  // ---------------------------------------------------------------------

  /** The (key, content) pairs of the lines that match, in order. */
  function NumberedPairs(lines: seq<string>): seq<(int, string)> {
    if lines == [] then []
    else
      var init := NumberedPairs(lines[..|lines| - 1]);
      match ParseNumberedLine(lines[|lines| - 1])
      case Some(p) => init + [p]
      case None => init
  }

  /** The hash the parse loop fills: `h[$1.to_i - 1] = $2` for every matching line. */
  function SolutionHash(lines: seq<string>): Hash<int, string> {
    FromPairs(NumberedPairs(lines))
  }

  /** The `solution_array.each` loop that fills the hash of numbered lines. */
  method ParseSolution(lines: seq<string>) returns (h: Hash<int, string>)
    ensures h == SolutionHash(lines)
  {
    h := [];
    for i := 0 to |lines|
      invariant h == FromPairs(NumberedPairs(lines[..i]))
    {
      assert lines[..i + 1][..i] == lines[..i];
      match ParseNumberedLine(lines[i]) {
        case Some(p) =>
          h := Put(h, p.0, p.1);
        case None =>
      }
    }
    assert lines[..|lines|] == lines;
  }

  /**
   * The hash keeps every parsed key once, at the position where it first
   * appeared, with the content of the last line that carried it, and
   * drops the lines that do not match.
   */
  lemma SolutionHashShape(lines: seq<string>, k: int)
    ensures Keys(SolutionHash(lines)) == Uniq(Keys(NumberedPairs(lines)))
    ensures Get(SolutionHash(lines), k) == LastValue(NumberedPairs(lines), k)
    ensures DistinctKeys(SolutionHash(lines))
  {
    FromPairsKeys(NumberedPairs(lines));
    FromPairsGet(NumberedPairs(lines), k);
    FromPairsDistinct(NumberedPairs(lines));
  }

  lemma {:induction false} NumberedPairsOfWindow(ls: seq<string>, lo: nat, hi: nat, width: int)
    requires lo <= hi <= |ls| && hi < 1000000 && width <= 6
    ensures NumberedPairs(NumberedWindow(ls, lo, hi, width)) == WindowPairs(ls, lo, hi)
    decreases hi
  {
    if lo < hi {
      var r := NumberedWindow(ls, lo, hi, width);
      assert r[..|r| - 1] == NumberedWindow(ls, lo, hi - 1, width);
      NumberedPairsOfWindow(ls, lo, hi - 1, width);
      NumberedLineRoundTrip(hi, ls[hi - 1], width);
    }
  }

  /**
   * Round trip of the exchange format: the text of a numbered window,
   * split into lines and parsed, is the hash index => line of the window.
   */
  lemma WindowRoundTrip(ls: seq<string>, lo: nat, hi: nat, width: int)
    requires lo < hi <= |ls| && hi < 1000000 && width <= 6 && NoNewlines(ls)
    ensures SolutionHash(Split(Terminated(NumberedWindow(ls, lo, hi, width)))) == WindowPairs(ls, lo, hi)
  {
    var r := NumberedWindow(ls, lo, hi, width);
    assert Split(Terminated(r)) == r by {
      WindowNoNewlines(ls, lo, hi, width);
      SplitTerminated(r);
      assert r[|r| - 1] == NumberedLine(hi, ls[hi - 1], width);
      assert r[|r| - 1] != "";
      DropTrailingEmptyKeeps(r);
    }
    assert SolutionHash(r) == WindowPairs(ls, lo, hi) by {
      NumberedPairsOfWindow(ls, lo, hi, width);
      FromDistinctPairs(WindowPairs(ls, lo, hi));
    }
  }

  lemma WindowNoNewlines(ls: seq<string>, lo: nat, hi: nat, width: int)
    requires lo <= hi <= |ls| && NoNewlines(ls)
    ensures NoNewlines(NumberedWindow(ls, lo, hi, width))
  {
    var r := NumberedWindow(ls, lo, hi, width);
    forall k | 0 <= k < |r| ensures NoNewline(r[k]) {
      var n := FormatInt(lo + k + 1, width);
      assert forall i :: 0 <= i < |n| ==> n[i] == ' ' || IsDigit(n[i]);
      assert r[k] == n + " " + ls[lo + k];
      assert NoNewline(ls[lo + k]);
    }
  }
}
