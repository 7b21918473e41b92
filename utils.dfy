/**
 * `get_file_context`: the lines of a file around some line numbers,
 * joined with newlines and without line numbers.
 */
module Utils {
  import opened Text
  import opened OrderedHash
  import opened Workdir

  /** `[0, n - c].max` */
  function WindowStart(n: int, c: int): int {
    if 0 > n - c then 0 else n - c
  }

  /** `[len - 1, n + c].min` */
  function WindowStop(len: nat, n: int, c: int): int {
    if len - 1 < n + c then len - 1 else n + c
  }

  /**
   * The inner loop over the first `upto` lines: every index between
   * `start` and `stop` stores its line under the key `start + index`.
   */
  function PutWindow(h: Hash<int, string>, lines: seq<string>, start: int, stop: int, upto: nat): Hash<int, string>
    requires upto <= |lines|
  {
    if upto == 0 then h
    else
      var h' := PutWindow(h, lines, start, stop, upto - 1);
      var index := upto - 1;
      if index >= start && index <= stop then Put(h', start + index, lines[index]) else h'
  }

  /** The `context` hash once the windows of all the line numbers are in. */
  function ContextHash(lines: seq<string>, ns: seq<int>, c: int): Hash<int, string> {
    if ns == [] then []
    else
      var n := ns[|ns| - 1];
      PutWindow(ContextHash(lines, ns[..|ns| - 1], c), lines, WindowStart(n, c), WindowStop(|lines|, n, c), |lines|)
  }

  /** The value `get_file_context` returns. */
  function FileContext(tree: Tree, path: string, ns: seq<int>, c: int): string {
    match tree(path)
    case Missing => ""
    case Directory => ""
    case Regular(content) =>
      var lines := Split(content);
      if lines == [] then "" else Join(Values(SortByKey(ContextHash(lines, ns, c))), "\n")
  }

  method GetFileContext(tree: Tree, path: string, linenumbers: seq<int>, contextLines: int) returns (r: string)
    ensures r == FileContext(tree, path, linenumbers, contextLines)
  {
    if !Exists(tree, path) {
      return "";
    }
    if tree(path).Directory? {
      return "";
    }
    var lines := Split(tree(path).content);
    if lines == [] {
      return "";
    }
    var context: Hash<int, string> := [];
    for i := 0 to |linenumbers|
      invariant context == ContextHash(lines, linenumbers[..i], contextLines)
    {
      var linenumber := linenumbers[i];
      var start := WindowStart(linenumber, contextLines);
      var stop := WindowStop(|lines|, linenumber, contextLines);
      assert linenumbers[..i + 1][..i] == linenumbers[..i];
      context := StoreWindow(context, lines, start, stop);
    }
    assert linenumbers[..|linenumbers|] == linenumbers;
    r := Join(Values(SortByKey(context)), "\n");
  }

  /** The inner `lines.each_with_index` loop for one line number. */
  method StoreWindow(context: Hash<int, string>, lines: seq<string>, start: int, stop: int)
    returns (context': Hash<int, string>)
    ensures context' == PutWindow(context, lines, start, stop, |lines|)
  {
    context' := context;
    for index := 0 to |lines|
      invariant context' == PutWindow(context, lines, start, stop, index)
    {
      if index >= start && index <= stop {
        context' := Put(context', start + index, lines[index]);
      }
    }
  }

  // ---------------------------------------------------------------------
  // Properties
  // ---------------------------------------------------------------------

  /** The lines start .. stop of the file, empty when the window is. */
  function Slice(lines: seq<string>, start: int, stop: int): (r: seq<string>)
    requires 0 <= start && stop < |lines|
    ensures |r| == if start <= stop then stop - start + 1 else 0
  {
    if start <= stop then lines[start..stop + 1] else []
  }

  /**
   * The pairs one window stores into an empty hash: the index i goes
   * under the key start + i, for the indices start .. hi-1.
   */
  function ShiftedPairs(lines: seq<string>, start: nat, hi: int): (r: Hash<int, string>)
    requires hi <= |lines|
    ensures |r| == if start <= hi then hi - start else 0
    ensures forall k :: 0 <= k < |r| ==> r[k] == (start + start + k, lines[start + k])
    decreases hi
  {
    if hi <= start then [] else ShiftedPairs(lines, start, hi - 1) + [(start + hi - 1, lines[hi - 1])]
  }

  lemma {:induction false} PutWindowFresh(lines: seq<string>, start: nat, stop: int, upto: nat)
    requires upto <= |lines|
    ensures PutWindow([], lines, start, stop, upto) ==
      ShiftedPairs(lines, start, if upto <= stop + 1 then upto else stop + 1)
  {
    if upto > 0 {
      PutWindowFresh(lines, start, stop, upto - 1);
      var h := PutWindow([], lines, start, stop, upto - 1);
      var index := upto - 1;
      if index >= start && index <= stop {
        assert start + index !in Keys(h);
        PutAbsent(h, start + index, lines[index]);
      }
    }
  }

  /**
   * One line number n: the lines max(0, n - c) .. min(len - 1, n + c),
   * in file order, joined with newlines ("" when that range is empty or
   * the file is missing, a directory, or has no lines).
   */
  lemma OneLineNumber(tree: Tree, path: string, n: int, c: int)
    ensures var lines := if tree(path).Regular? then Split(tree(path).content) else [];
      FileContext(tree, path, [n], c) ==
        if lines == [] then ""
        else Join(Slice(lines, WindowStart(n, c), WindowStop(|lines|, n, c)), "\n")
  {
    if tree(path).Regular? && Split(tree(path).content) != [] {
      var lines := Split(tree(path).content);
      OneWindowValues(lines, n, c);
    }
  }

  lemma OneWindowValues(lines: seq<string>, n: int, c: int)
    requires lines != []
    ensures Values(SortByKey(ContextHash(lines, [n], c))) == Slice(lines, WindowStart(n, c), WindowStop(|lines|, n, c))
  {
    var start, stop := WindowStart(n, c), WindowStop(|lines|, n, c);
    OneWindowHash(lines, n, c);
    ShiftedSlice(lines, start, stop);
  }

  lemma ShiftedSlice(lines: seq<string>, start: nat, stop: int)
    requires stop < |lines|
    ensures Values(SortByKey(ShiftedPairs(lines, start, stop + 1))) == Slice(lines, start, stop)
  {
    ShiftedSorted(lines, start, stop + 1);
    ShiftedValues(lines, start, stop + 1);
  }

  lemma ShiftedSorted(lines: seq<string>, start: nat, hi: int)
    requires hi <= |lines|
    ensures SortByKey(ShiftedPairs(lines, start, hi)) == ShiftedPairs(lines, start, hi)
  {
    var sp := ShiftedPairs(lines, start, hi);
    assert SortedKeys(sp);
    SortByKeySorted(sp);
  }

  lemma ShiftedValues(lines: seq<string>, start: nat, hi: int)
    requires hi <= |lines|
    ensures Values(ShiftedPairs(lines, start, hi)) == if start <= hi then lines[start..hi] else []
  {
    var sp := ShiftedPairs(lines, start, hi);
    if start <= hi {
      assert forall k :: 0 <= k < |sp| ==> Values(sp)[k] == lines[start..hi][k];
    }
  }

  lemma OneWindowHash(lines: seq<string>, n: int, c: int)
    requires lines != []
    ensures ContextHash(lines, [n], c) == ShiftedPairs(lines, WindowStart(n, c), WindowStop(|lines|, n, c) + 1)
  {
    assert [n][..0] == [];
    PutWindowFresh(lines, WindowStart(n, c), WindowStop(|lines|, n, c), |lines|);
  }

  /** Every stored value is a line of the file. */
  lemma {:induction false} ContextHashLines(lines: seq<string>, ns: seq<int>, c: int)
    ensures forall p :: p in ContextHash(lines, ns, c) ==> p.1 in lines
  {
    if ns != [] {
      ContextHashLines(lines, ns[..|ns| - 1], c);
      var n := ns[|ns| - 1];
      PutWindowLines(ContextHash(lines, ns[..|ns| - 1], c), lines, WindowStart(n, c), WindowStop(|lines|, n, c), |lines|);
    }
  }

  lemma {:induction false} PutWindowLines(h: Hash<int, string>, lines: seq<string>, start: int, stop: int, upto: nat)
    requires upto <= |lines|
    requires forall p :: p in h ==> p.1 in lines
    ensures forall p :: p in PutWindow(h, lines, start, stop, upto) ==> p.1 in lines
  {
    if upto > 0 {
      PutWindowLines(h, lines, start, stop, upto - 1);
      var h' := PutWindow(h, lines, start, stop, upto - 1);
      var index := upto - 1;
      if index >= start && index <= stop {
        PutPairs(h', start + index, lines[index]);
      }
    }
  }

  /**
   * The output is the file's lines in key order, whatever the line
   * numbers asked for.
   */
  lemma OutputLinesFromFile(tree: Tree, path: string, ns: seq<int>, c: int)
    requires tree(path).Regular?
    ensures var lines := Split(tree(path).content);
      forall x :: x in Values(SortByKey(ContextHash(lines, ns, c))) ==> x in lines
  {
    var lines := Split(tree(path).content);
    ContextHashLines(lines, ns, c);
    var r := SortByKey(ContextHash(lines, ns, c));
    forall x | x in Values(r) ensures x in lines {
      var i :| 0 <= i < |r| && Values(r)[i] == x;
      assert r[i] in ContextHash(lines, ns, c);
    }
  }

  /**
   * Keys are `start + index`, not `index`: asking for lines 2 and 0 of a
   * four-line file with one line of context stores the second line under
   * key 2 (from the first window, which starts at 1) and again under key
   * 1 (from the second), so that line appears twice.
   */
  lemma ShiftedWindowsRepeatLine(a: string, b: string, c: string, d: string)
    ensures Values(SortByKey(ContextHash([a, b, c, d], [2, 0], 1))) == [a, b, b, c, d]
  {
    TwoWindowsHash(a, b, c, d);
    TwoWindowsSorted(a, b, c, d);
  }

  lemma TwoWindowsHash(a: string, b: string, c: string, d: string)
    ensures ContextHash([a, b, c, d], [2, 0], 1) == [(2, b), (3, c), (4, d), (0, a), (1, b)]
  {
    var lines := [a, b, c, d];
    PutWindowFresh(lines, 1, 3, 4);
    assert [2][..0] == [];
    var first := [(2, b), (3, c), (4, d)];
    assert ContextHash(lines, [2], 1) == first;
    assert [2, 0][..1] == [2];
    assert PutWindow(first, lines, 0, 1, 1) == first + [(0, a)] by {
      PutAbsent(first, 0, a);
    }
    assert PutWindow(first, lines, 0, 1, 2) == first + [(0, a), (1, b)] by {
      PutAbsent(first + [(0, a)], 1, b);
    }
    assert WindowStart(0, 1) == 0 && WindowStop(4, 0, 1) == 1;
    assert PutWindow(first, lines, 0, 1, 4) == PutWindow(first, lines, 0, 1, 2);
  }

  lemma TwoWindowsSorted(a: string, b: string, c: string, d: string)
    ensures SortByKey([(2, b), (3, c), (4, d), (0, a), (1, b)]) == [(0, a), (1, b), (2, b), (3, c), (4, d)]
  {
    var h3 := [(2, b), (3, c), (4, d)];
    var s4 := [(0, a), (2, b), (3, c), (4, d)];
    SortedFour(a, b, c, d);
    SortByKeySnoc(h3 + [(0, a)], (1, b));
    InsertAt(s4, (1, b), 1);
    assert s4[..1] == [(0, a)] && s4[1..] == h3;
    assert h3 + [(0, a)] + [(1, b)] == [(2, b), (3, c), (4, d), (0, a), (1, b)];
  }

  lemma SortedFour(a: string, b: string, c: string, d: string)
    ensures SortByKey([(2, b), (3, c), (4, d)] + [(0, a)]) == [(0, a), (2, b), (3, c), (4, d)]
  {
    var h3 := [(2, b), (3, c), (4, d)];
    SortedThree(b, c, d);
    SortByKeySnoc(h3, (0, a));
    InsertAt(h3, (0, a), 0);
    assert h3[..0] == [] && h3[0..] == h3;
  }

  lemma SortedThree(b: string, c: string, d: string)
    ensures SortByKey([(2, b), (3, c), (4, d)]) == [(2, b), (3, c), (4, d)]
  {
    SortByKeySorted([(2, b), (3, c), (4, d)]);
  }
}
