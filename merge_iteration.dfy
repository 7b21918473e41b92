/**
 * One conflict-resolution step of the merge loop: the conflict markers of
 * the file are labelled, the first conflict block and its context window
 * are rendered as numbered lines, the numbered lines of the model's reply
 * are validated and spliced over the window, and the resolved block is
 * recorded so that a later run can be shown its previous attempt.
 */
module MergeIteration {
  import opened Wrappers
  import opened Text
  import opened OrderedHash
  import opened NumberedLines

  /** Lines of context shown before and after the first block. */
  const ContextBefore: nat := 8
  const ContextAfter: nat := 8

  // ---------------------------------------------------------------------
  // Labelling the conflict markers
  // ---------------------------------------------------------------------

  predicate IsOursMarker(line: string) { StartsWith(line, "<<<<<<<") }
  predicate IsTheirsMarker(line: string) { StartsWith(line, "=======") }
  predicate IsEndMarker(line: string) { StartsWith(line, ">>>>>>>") }

  /** What the if/elsif chain of the labelling loop makes of a line. */
  datatype Marker = OursStart | TheirsStart | End | Plain

  function MarkerOf(line: string): Marker {
    if IsOursMarker(line) then OursStart
    else if IsTheirsMarker(line) then TheirsStart
    else if IsEndMarker(line) then End
    else Plain
  }

  function Markers(ls: seq<string>): (ms: seq<Marker>)
    ensures |ms| == |ls| && forall i :: 0 <= i < |ls| ==> ms[i] == MarkerOf(ls[i])
  {
    seq(|ls|, i requires 0 <= i < |ls| => MarkerOf(ls[i]))
  }

  /** A marker that switches labelling on (either side of a block). */
  predicate Opens(m: Marker) { m == OursStart || m == TheirsStart }

  datatype Side = Ours | Theirs

  /** `entry[:merge] = true` with `entry[:merge_id]` and the side flag. */
  datatype Label = Label(side: Side, mergeId: nat)

  /** One value of `labeled_lines`. */
  datatype Entry = Entry(line: string, index: nat, merge: Option<Label>)

  /** The scan's variables: the two in-block flags and `pending_merge_blocks`. */
  datatype Scan = Scan(ours: bool, theirs: bool, pending: nat)

  /** The flags once the line's own marker has been looked at. */
  function Flags(st: Scan, m: Marker): (bool, bool) {
    match m
    case OursStart => (true, false)
    case TheirsStart => (false, true)
    case _ => (st.ours, st.theirs)
  }

  function LabelAt(st: Scan, m: Marker): Option<Label> {
    var (ours, theirs) := Flags(st, m);
    if ours then Some(Label(Ours, st.pending))
    else if theirs then Some(Label(Theirs, st.pending))
    else None
  }

  /** The variables after a line: an end marker clears both flags and counts a block. */
  function Next(st: Scan, m: Marker): Scan {
    var (ours, theirs) := Flags(st, m);
    if m == End then Scan(false, false, st.pending + 1) else Scan(ours, theirs, st.pending)
  }

  /** The variables before line i. */
  function ScanTo(ms: seq<Marker>, i: nat): Scan
    requires i <= |ms|
  {
    if i == 0 then Scan(false, false, 0) else Next(ScanTo(ms, i - 1), ms[i - 1])
  }

  /** The entry `labeled_lines[i]` holds. */
  function EntryAt(ls: seq<string>, i: nat): Entry
    requires i < |ls|
  {
    var ms := Markers(ls);
    Entry(ls[i], i, LabelAt(ScanTo(ms, i), ms[i]))
  }

  /** The entries `labeled_lines` holds, keyed by their position. */
  function Entries(ls: seq<string>): (es: seq<Entry>)
    ensures |es| == |ls| && forall i :: 0 <= i < |ls| ==> es[i] == EntryAt(ls, i)
  {
    seq(|ls|, i requires 0 <= i < |ls| => EntryAt(ls, i))
  }

  /** The `file_array.each_with_index` loop that labels the lines. */
  method LabelLines(fileArray: seq<string>) returns (labeled: seq<Entry>, pending: nat)
    ensures labeled == Entries(fileArray)
    ensures pending == ScanTo(Markers(fileArray), |fileArray|).pending
  {
    ghost var ms := Markers(fileArray);
    labeled := [];
    var ours, theirs := false, false;
    pending := 0;
    for index := 0 to |fileArray|
      invariant Scan(ours, theirs, pending) == ScanTo(ms, index)
      invariant |labeled| == index
      invariant forall k :: 0 <= k < index ==> labeled[k] == EntryAt(fileArray, k)
    {
      var line := fileArray[index];
      var increment := false;
      match MarkerOf(line) {
        case OursStart =>
          ours, theirs := true, false;
        case TheirsStart =>
          ours, theirs := false, true;
        case End =>
          increment := true;
        case Plain =>
      }
      var merge := if ours then Some(Label(Ours, pending))
        else if theirs then Some(Label(Theirs, pending))
        else None;
      assert Entry(line, index, merge) == EntryAt(fileArray, index);
      labeled := labeled + [Entry(line, index, merge)];
      if increment {
        ours, theirs := false, false;
        pending := pending + 1;
      }
    }
    assert labeled == Entries(fileArray);
  }

  /** Number of end markers. */
  function EndMarkers(ms: seq<Marker>): nat {
    if ms == [] then 0
    else EndMarkers(ms[..|ms| - 1]) + (if ms[|ms| - 1] == End then 1 else 0)
  }

  /** No end marker among the lines j .. i-1. */
  predicate NoEndIn(ms: seq<Marker>, j: nat, i: nat)
    requires j <= i <= |ms|
  {
    forall k :: j <= k < i ==> ms[k] != End
  }

  /** `pending_merge_blocks` counts the end markers seen so far. */
  lemma {:induction false} PendingCountsEndMarkers(ms: seq<Marker>, i: nat)
    requires i <= |ms|
    ensures ScanTo(ms, i).pending == EndMarkers(ms[..i])
  {
    if i > 0 {
      PendingCountsEndMarkers(ms, i - 1);
      assert ms[..i][..i - 1] == ms[..i - 1];
    }
  }

  /** Some opening marker among the lines lo .. i-1 has no end marker after it before line i. */
  predicate OpenSince(ms: seq<Marker>, i: nat)
    requires i <= |ms|
  {
    exists j :: 0 <= j < i && Opens(ms[j]) && NoEndIn(ms, j, i)
  }

  /**
   * Before line i at most one flag is on, and one is on exactly when an
   * opening marker (either side) occurred with no end marker after it.
   */
  lemma {:induction false} FlagsOn(ms: seq<Marker>, i: nat)
    requires i <= |ms|
    ensures !(ScanTo(ms, i).ours && ScanTo(ms, i).theirs)
    ensures (ScanTo(ms, i).ours || ScanTo(ms, i).theirs) <==> OpenSince(ms, i)
  {
    if i > 0 {
      FlagsOn(ms, i - 1);
      var m := ms[i - 1];
      if Opens(m) {
        assert NoEndIn(ms, i - 1, i);
      } else if m == End {
        forall j | 0 <= j < i
          ensures !NoEndIn(ms, j, i)
        {
          assert ms[i - 1] == End;
        }
      } else {
        if OpenSince(ms, i) {
          var j :| 0 <= j < i && Opens(ms[j]) && NoEndIn(ms, j, i);
          assert j < i - 1 && NoEndIn(ms, j, i - 1);
        }
        if OpenSince(ms, i - 1) {
          var j :| 0 <= j < i - 1 && Opens(ms[j]) && NoEndIn(ms, j, i - 1);
          assert NoEndIn(ms, j, i);
        }
      }
    }
  }

  /**
   * Line i is labelled exactly when it opens a block itself or an opening
   * marker above it has no end marker after it.
   */
  lemma LabelledIff(ms: seq<Marker>, i: nat)
    requires i < |ms|
    ensures LabelAt(ScanTo(ms, i), ms[i]).Some? <==> Opens(ms[i]) || OpenSince(ms, i)
  {
    FlagsOn(ms, i);
  }

  /** A labelled line's `merge_id` is the number of end markers above it. */
  lemma MergeIdCountsEndMarkers(ms: seq<Marker>, i: nat)
    requires i < |ms|
    ensures LabelAt(ScanTo(ms, i), ms[i]).Some? ==>
      LabelAt(ScanTo(ms, i), ms[i]).value.mergeId == EndMarkers(ms[..i])
  {
    PendingCountsEndMarkers(ms, i);
  }

  lemma {:induction false} EndMarkersZero(ms: seq<Marker>)
    ensures EndMarkers(ms) == 0 <==> forall k :: 0 <= k < |ms| ==> ms[k] != End
  {
    if ms != [] {
      var init := ms[..|ms| - 1];
      EndMarkersZero(init);
      assert forall k :: 0 <= k < |init| ==> init[k] == ms[k];
    }
  }

  // ---------------------------------------------------------------------
  // The first block and its window
  // ---------------------------------------------------------------------

  predicate InFirstBlock(e: Entry) {
    e.merge.Some? && e.merge.value.mergeId == 0
  }

  /** `labeled_lines.select { |k, v| v[:merge_id] == 0 }.keys` */
  function FirstBlockKeys(entries: seq<Entry>): seq<nat> {
    if entries == [] then []
    else
      var e := entries[|entries| - 1];
      FirstBlockKeys(entries[..|entries| - 1]) + if InFirstBlock(e) then [e.index] else []
  }

  /** The selection keeps exactly the keys of the entries with `merge_id` 0. */
  lemma {:induction false} FirstBlockKeysSpec(entries: seq<Entry>)
    ensures forall j :: 0 <= j < |FirstBlockKeys(entries)| ==>
      exists i :: 0 <= i < |entries| && entries[i].index == FirstBlockKeys(entries)[j] && InFirstBlock(entries[i])
    ensures forall i :: 0 <= i < |entries| && InFirstBlock(entries[i]) ==> entries[i].index in FirstBlockKeys(entries)
  {
    if entries != [] {
      var init, e := entries[..|entries| - 1], entries[|entries| - 1];
      FirstBlockKeysSpec(init);
      var keys := FirstBlockKeys(entries);
      assert keys == FirstBlockKeys(init) + if InFirstBlock(e) then [e.index] else [];
      forall j | 0 <= j < |keys|
        ensures exists i :: 0 <= i < |entries| && entries[i].index == keys[j] && InFirstBlock(entries[i])
      {
        if j < |FirstBlockKeys(init)| {
          var i :| 0 <= i < |init| && init[i].index == FirstBlockKeys(init)[j] && InFirstBlock(init[i]);
          assert entries[i] == init[i];
        } else {
          assert keys[j] == e.index && InFirstBlock(e);
        }
      }
      forall i | 0 <= i < |entries| && InFirstBlock(entries[i])
        ensures entries[i].index in keys
      {
        if i < |init| {
          assert init[i] == entries[i];
        } else {
          assert keys[|keys| - 1] == e.index;
        }
      }
    } else {
      assert FirstBlockKeys(entries) == [];
    }
  }

  lemma KeysBelow(ls: seq<string>)
    ensures forall j :: 0 <= j < |FirstBlockKeys(Entries(ls))| ==> FirstBlockKeys(Entries(ls))[j] < |ls|
  {
    FirstBlockKeysSpec(Entries(ls));
  }

  /** The indices lo .. hi-1 in order. */
  function Range(lo: nat, hi: nat): (r: seq<nat>)
    ensures |r| == if lo <= hi then hi - lo else 0
    ensures forall k :: 0 <= k < |r| ==> r[k] == lo + k
    decreases hi
  {
    if hi <= lo then [] else Range(lo, hi - 1) + [hi - 1]
  }

  lemma {:induction false} KeysOfRange(entries: seq<Entry>, a: nat, b: nat)
    requires a <= b
    requires forall i :: 0 <= i < |entries| ==>
      entries[i].index == i && (InFirstBlock(entries[i]) <==> a <= i < b)
    ensures FirstBlockKeys(entries) ==
      Range(if a < |entries| then a else |entries|, if b < |entries| then b else |entries|)
  {
    if entries != [] {
      var n := |entries|;
      var init, e := entries[..n - 1], entries[n - 1];
      assert forall i :: 0 <= i < |init| ==> init[i] == entries[i];
      KeysOfRange(init, a, b);
      assert e.index == n - 1 && (InFirstBlock(e) <==> a <= n - 1 < b);
      RangeSnoc(FirstBlockKeys(init), a, b, n);
    }
  }

  /** One more index after the range a .. b clamped to n - 1. */
  lemma RangeSnoc(keys: seq<nat>, a: nat, b: nat, n: nat)
    requires 1 <= n && a <= b
    requires keys == Range(if a < n - 1 then a else n - 1, if b < n - 1 then b else n - 1)
    ensures keys + (if a <= n - 1 < b then [n - 1] else []) == Range(if a < n then a else n, if b < n then b else n)
  {
  }

  /**
   * `first_block_start` and `first_block_end`: the first block's smallest
   * and largest index widened by the context, clamped to the file; `nil`
   * when there is no first block.
   */
  function WindowOf(keys: seq<nat>, size: nat): (w: Option<(nat, nat)>)
    requires forall j :: 0 <= j < |keys| ==> keys[j] < size
    ensures w.None? <==> keys == []
    ensures w.Some? ==> w.value.0 <= w.value.1 < size
    ensures w.Some? ==> forall j :: 0 <= j < |keys| ==> w.value.0 <= keys[j] <= w.value.1
  {
    if keys == [] then None
    else
      var lo, hi := MinOf(keys).value, MaxOf(keys).value;
      assert lo in keys && hi in keys;
      assert forall j :: 0 <= j < |keys| ==> keys[j] in keys;
      assert forall j :: 0 <= j < |keys| ==> lo <= keys[j] <= hi;
      Some((if lo >= ContextBefore then lo - ContextBefore else 0,
            if hi + ContextAfter <= size - 1 then hi + ContextAfter else size - 1))
  }

  /** The window of the file's first block. */
  function BlockWindow(ls: seq<string>): (w: Option<(nat, nat)>)
    ensures w.Some? ==> w.value.0 <= w.value.1 < |ls|
  {
    KeysBelow(ls);
    WindowOf(FirstBlockKeys(Entries(ls)), |ls|)
  }

  /**
   * A file whose first marker is a `<<<<<<<` line at a, closed by the
   * `>>>>>>>` line at c: the first block is exactly the lines a .. c,
   * markers included, and the window is 8 lines of context either side.
   */
  lemma FirstBlockOfConflict(ls: seq<string>, a: nat, c: nat)
    requires a < c < |ls| && MarkerOf(ls[a]) == OursStart && MarkerOf(ls[c]) == End
    requires forall j :: 0 <= j < a ==> MarkerOf(ls[j]) == Plain
    requires forall j :: a < j < c ==> MarkerOf(ls[j]) != End
    ensures FirstBlockKeys(Entries(ls)) == Range(a, c + 1)
    ensures BlockWindow(ls) == Some((if a >= 8 then a - 8 else 0, if c + 8 < |ls| then c + 8 else |ls| - 1))
  {
    KeysOfConflict(ls, a, c);
    WindowOfRange(a, c, |ls|);
  }

  lemma KeysOfConflict(ls: seq<string>, a: nat, c: nat)
    requires a < c < |ls| && MarkerOf(ls[a]) == OursStart && MarkerOf(ls[c]) == End
    requires forall j :: 0 <= j < a ==> MarkerOf(ls[j]) == Plain
    requires forall j :: a < j < c ==> MarkerOf(ls[j]) != End
    ensures FirstBlockKeys(Entries(ls)) == Range(a, c + 1)
  {
    var es := Entries(ls);
    var ms := Markers(ls);
    forall i | 0 <= i < |es|
      ensures es[i].index == i && (InFirstBlock(es[i]) <==> a <= i < c + 1)
    {
      InFirstBlockAt(ms, a, c, i);
    }
    KeysOfRange(es, a, c + 1);
  }

  lemma WindowOfRange(a: nat, c: nat, size: nat)
    requires a <= c < size
    ensures WindowOf(Range(a, c + 1), size) ==
      Some((if a >= 8 then a - 8 else 0, if c + 8 < size then c + 8 else size - 1))
  {
    MinMaxOfConsecutive(Range(a, c + 1), a);
  }


  lemma InFirstBlockAt(ms: seq<Marker>, a: nat, c: nat, i: nat)
    requires a < c < |ms| && ms[a] == OursStart && ms[c] == End && i < |ms|
    requires forall j :: 0 <= j < a ==> ms[j] == Plain
    requires forall j :: a < j < c ==> ms[j] != End
    ensures var lab := LabelAt(ScanTo(ms, i), ms[i]);
      lab.Some? && lab.value.mergeId == 0 <==> a <= i <= c
  {
    LabelledIff(ms, i);
    MergeIdCountsEndMarkers(ms, i);
    EndMarkersZero(ms[..i]);
    if i <= c {
      assert forall k :: 0 <= k < i ==> ms[..i][k] == ms[k];
      if a < i {
        assert NoEndIn(ms, a, i);
      } else if i < a {
        assert !OpenSince(ms, i);
      }
    } else {
      assert ms[..i][c] == End;
    }
  }

  /** A file without any opening marker has no first block. */
  lemma NoMarkersNoBlock(ls: seq<string>)
    requires forall j :: 0 <= j < |ls| ==> !Opens(MarkerOf(ls[j]))
    ensures BlockWindow(ls) == None
  {
    var es := Entries(ls);
    var ms := Markers(ls);
    forall i | 0 <= i < |es|
      ensures !InFirstBlock(es[i])
    {
      LabelledIff(ms, i);
      assert !OpenSince(ms, i);
    }
    NoFirstBlockKeys(es);
  }

  lemma {:induction false} NoFirstBlockKeys(entries: seq<Entry>)
    requires forall i :: 0 <= i < |entries| ==> !InFirstBlock(entries[i])
    ensures FirstBlockKeys(entries) == []
  {
    if entries != [] {
      var init := entries[..|entries| - 1];
      assert forall i :: 0 <= i < |init| ==> init[i] == entries[i];
      NoFirstBlockKeys(init);
    }
  }

  // ---------------------------------------------------------------------
  // Rendering the window
  // ---------------------------------------------------------------------

  /**
   * The loop that builds `conflicted_content`: the window's lines, each as
   * `"%Wd %s\n"` of its 1-based number, W being the digit count of the
   * window's 0-based end index.
   */
  method RenderWindow(ls: seq<string>, start: nat, end: nat) returns (content: string)
    ensures content == Terminated(NumberedWindow(ls, start, if end < |ls| then end + 1 else |ls|, DigitCount(end)))
  {
    ghost var hi := if end < |ls| then end + 1 else |ls|;
    content := "";
    for index := 0 to |ls|
      invariant content == Terminated(NumberedWindow(ls, start, if index < hi then index else hi, DigitCount(end)))
    {
      var maxDigits := DigitCount(end);
      if index >= start && index <= end {
        TerminatedSnoc(NumberedWindow(ls, start, index, maxDigits), NumberedLine(index + 1, ls[index], maxDigits));
        content := content + NumberedLine(index + 1, ls[index], maxDigits) + "\n";
      }
    }
  }

  // ---------------------------------------------------------------------
  // Validating and splicing the solution
  // ---------------------------------------------------------------------

  /** Some line number between lo and hi has no line in the solution. */
  predicate HasGap(h: Hash<int, string>, lo: int, hi: int) {
    exists k :: lo <= k <= hi && k !in Keys(h)
  }

  /** The `solution_end.downto(solution_start)` loop looking for missing lines. */
  method FindMissingLines(h: Hash<int, string>, lo: int, hi: int) returns (error: bool)
    ensures error <==> HasGap(h, lo, hi)
  {
    error := false;
    var lineNumber := hi;
    while lineNumber >= lo
      invariant if hi >= lo then lo - 1 <= lineNumber <= hi else lineNumber == hi
      invariant error <==> exists k :: lineNumber < k <= hi && k !in Keys(h)
      decreases lineNumber - lo
    {
      if lineNumber !in Keys(h) {
        error := true;
      }
      lineNumber := lineNumber - 1;
    }
  }

  /**
   * The three loops that build `new_content`: the lines before the window,
   * then the solution's lines in the hash's order, then the lines after
   * the window.
   */
  method SpliceWindow(ls: seq<string>, start: nat, end: nat, h: Hash<int, string>) returns (newContent: seq<string>)
    requires start <= end < |ls|
    ensures newContent == ls[..start] + Values(h) + ls[end + 1..]
  {
    newContent := [];
    var index := 0;
    while index < |ls| && index < end
      invariant index <= end
      invariant newContent == ls[..if index < start then index else start]
    {
      if index < start {
        newContent := newContent + [ls[index]];
      }
      index := index + 1;
    }
    for j := 0 to |h|
      invariant newContent == ls[..start] + Values(h)[..j]
    {
      newContent := newContent + [h[j].1];
    }
    assert Values(h)[..|h|] == Values(h);
    for index := 0 to |ls|
      invariant newContent == ls[..start] + Values(h) + ls[end + 1..if index > end + 1 then index else end + 1]
    {
      if index > end {
        newContent := newContent + [ls[index]];
      }
    }
  }

  // ---------------------------------------------------------------------
  // One resolution step
  // ---------------------------------------------------------------------

  /** An element of `porting_step[:resolved_mergeblocks]`. */
  datatype ResolvedBlock = ResolvedBlock(
    sha: string, path: string, mergeblock: string, start: nat, end: nat, solution: string)

  datatype StepOutcome =
    | NoMergeBlocks                       // the `exit` taken when the first block is empty
    | StartMismatch(start: nat, end: nat)  // reason :solution_start_mismatch
    | MissingLines(start: nat, end: nat)   // reason :solution_missing_lines
    | WriteFailed                          // the write raised; the error propagates
    | Resolved(written: string, pending: int, block: ResolvedBlock)

  /**
   * The step as a function of the file's text (`""` when it cannot be
   * read), the model's reply and whether the write succeeds.
   */
  function Resolve(sha: string, path: string, fileContent: string, response: string, writeOk: bool): StepOutcome {
    var ls := Split(fileContent);
    match BlockWindow(ls)
    case None => NoMergeBlocks
    case Some((start, end)) =>
      Apply(sha, path, ls, start, end, Terminated(FencedLines(Split(response))), writeOk)
  }

  /** Validating the solution of the window start .. end and splicing it in. */
  function Apply(sha: string, path: string, ls: seq<string>, start: nat, end: nat, solution: string, writeOk: bool): StepOutcome
    requires start <= end < |ls|
  {
    var h := SolutionHash(Split(solution));
    if MinOf(Keys(h)) != Some(start as int) then StartMismatch(start, end)
    else if HasGap(h, start, MaxOf(Keys(h)).value) then MissingLines(start, end)
    else if !writeOk then WriteFailed
    else
      Resolved(Join(ls[..start] + Values(h) + ls[end + 1..], "\n"),
               ScanTo(Markers(ls), |ls|).pending - 1,
               ResolvedBlock(sha, path, Terminated(NumberedWindow(ls, start, end + 1, DigitCount(end))),
                             start, end, solution))
  }

  /** The step as the source performs it, loop by loop. */
  method ResolveConflict(sha: string, path: string, fileContent: string, response: string, writeOk: bool)
    returns (outcome: StepOutcome)
    ensures outcome == Resolve(sha, path, fileContent, response, writeOk)
  {
    var fileArray := Split(fileContent);
    var labeled, pending := LabelLines(fileArray);
    var firstBlock := FirstBlockKeys(labeled);
    KeysBelow(fileArray);
    var window := WindowOf(firstBlock, |fileArray|);
    if window.None? {
      return NoMergeBlocks;
    }
    var (firstBlockStart, firstBlockEnd) := window.value;
    var conflictedContent := RenderWindow(fileArray, firstBlockStart, firstBlockEnd);
    var solution := ExtractSolution(response);
    outcome := ApplySolution(sha, path, fileArray, firstBlockStart, firstBlockEnd, conflictedContent,
                             solution, pending, writeOk);
  }

  /** The validation and the splice, once the window is rendered and the solution extracted. */
  method ApplySolution(sha: string, path: string, fileArray: seq<string>, firstBlockStart: nat, firstBlockEnd: nat,
                       conflictedContent: string, solution: string, pending: nat, writeOk: bool)
    returns (outcome: StepOutcome)
    requires firstBlockStart <= firstBlockEnd < |fileArray|
    requires conflictedContent ==
      Terminated(NumberedWindow(fileArray, firstBlockStart, firstBlockEnd + 1, DigitCount(firstBlockEnd)))
    requires pending == ScanTo(Markers(fileArray), |fileArray|).pending
    ensures outcome == Apply(sha, path, fileArray, firstBlockStart, firstBlockEnd, solution, writeOk)
  {
    var solutionNumberedHash := ParseSolution(Split(solution));
    var solutionStart := MinOf(Keys(solutionNumberedHash));
    var solutionEnd := MaxOf(Keys(solutionNumberedHash));
    if solutionStart != Some(firstBlockStart as int) {
      return StartMismatch(firstBlockStart, firstBlockEnd);
    }
    var error := FindMissingLines(solutionNumberedHash, solutionStart.value, solutionEnd.value);
    if error {
      return MissingLines(firstBlockStart, firstBlockEnd);
    }
    var newContent := SpliceWindow(fileArray, firstBlockStart, firstBlockEnd, solutionNumberedHash);
    if !writeOk {
      return WriteFailed;
    }
    ApplyResolved(sha, path, fileArray, firstBlockStart, firstBlockEnd, solution);
    outcome := Resolved(Join(newContent, "\n"), pending - 1,
      ResolvedBlock(sha, path, conflictedContent, firstBlockStart, firstBlockEnd, solution));
  }

  /** The fields of an accepted step, one by one. */
  lemma ApplyResolved(sha: string, path: string, ls: seq<string>, start: nat, end: nat, solution: string)
    requires start <= end < |ls|
    requires var h := SolutionHash(Split(solution));
      MinOf(Keys(h)) == Some(start as int) && !HasGap(h, start, MaxOf(Keys(h)).value)
    ensures var r := Apply(sha, path, ls, start, end, solution, true);
      var h := SolutionHash(Split(solution));
      r.Resolved? && r.written == Join(ls[..start] + Values(h) + ls[end + 1..], "\n") &&
      r.pending == ScanTo(Markers(ls), |ls|).pending - 1 &&
      r.block == ResolvedBlock(sha, path, Terminated(NumberedWindow(ls, start, end + 1, DigitCount(end))), start, end, solution)
  {
  }

  /**
   * A step that resolves: the solution's line numbers run without a gap
   * from the window's start to their largest value, and one pending block
   * less than the file's end markers remains.
   */
  lemma ResolvedShape(sha: string, path: string, fileContent: string, response: string)
    requires Resolve(sha, path, fileContent, response, true).Resolved?
    ensures var ls := Split(fileContent);
      var b := Resolve(sha, path, fileContent, response, true).block;
      var h := SolutionHash(Split(b.solution));
      BlockWindow(ls) == Some((b.start, b.end)) &&
      h != [] &&
      (forall k :: k in Keys(h) <==> b.start <= k <= MaxOf(Keys(h)).value) &&
      Resolve(sha, path, fileContent, response, true).pending == EndMarkers(Markers(ls)) - 1
  {
    var ls := Split(fileContent);
    PendingCountsEndMarkers(Markers(ls), |ls|);
    assert Markers(ls)[..|ls|] == Markers(ls);
  }

  /** A reply with no numbered line inside a fence is rejected at the start check. */
  lemma UnnumberedReplyRejected(sha: string, path: string, fileContent: string, response: string, writeOk: bool)
    requires BlockWindow(Split(fileContent)).Some?
    requires NumberedPairs(Split(Terminated(FencedLines(Split(response))))) == []
    ensures Resolve(sha, path, fileContent, response, writeOk).StartMismatch?
  {
  }

  /**
   * Echoing the numbered window back, fenced as the streaming reply ends
   * (`"```\n" ... "```\n"`), resolves the block to the file's own lines:
   * the written text is the file's lines joined again, and the recorded
   * solution is the rendered window itself.
   */
  lemma EchoedWindowResolves(sha: string, path: string, fileContent: string, start: nat, end: nat)
    requires BlockWindow(Split(fileContent)) == Some((start, end)) && end < 999999
    ensures var ls := Split(fileContent);
      var content := Terminated(NumberedWindow(ls, start, end + 1, DigitCount(end)));
      var r := Resolve(sha, path, fileContent, "```\n" + content + "```\n", true);
      r.Resolved? && r.written == Join(ls, "\n") && r.pending == ScanTo(Markers(ls), |ls|).pending - 1 &&
      r.block == ResolvedBlock(sha, path, content, start, end, content)
  {
    var ls := Split(fileContent);
    var content := Terminated(NumberedWindow(ls, start, end + 1, DigitCount(end)));
    var response := "```\n" + content + "```\n";
    var solution := Terminated(FencedLines(Split(response)));
    assert NoNewlines(ls) && start <= end < |ls|;
    assert Resolve(sha, path, fileContent, response, true) == Apply(sha, path, ls, start, end, solution, true) by {
      ResolveApplies(sha, path, fileContent, response, true, start, end);
    }
    assert solution == content by {
      EchoedReplySolution(ls, start, end);
    }
    ApplyEchoedWindow(sha, path, ls, start, end);
  }

  /** With a non-empty first block, the step validates the fenced part of the reply against its window. */
  lemma ResolveApplies(sha: string, path: string, fileContent: string, response: string, writeOk: bool,
                       start: nat, end: nat)
    requires BlockWindow(Split(fileContent)) == Some((start, end))
    ensures Resolve(sha, path, fileContent, response, writeOk) ==
      Apply(sha, path, Split(fileContent), start, end, Terminated(FencedLines(Split(response))), writeOk)
  {
  }

  lemma EchoedReplySolution(ls: seq<string>, start: nat, end: nat)
    requires start <= end < |ls| && end < 999999 && NoNewlines(ls)
    ensures var content := Terminated(NumberedWindow(ls, start, end + 1, DigitCount(end)));
      Terminated(FencedLines(Split("```\n" + content + "```\n"))) == content
  {
    var width := DigitCount(end);
    var r := NumberedWindow(ls, start, end + 1, width);
    var fence := "```";
    assert IsFence(fence);
    DigitCountBelowMillion(end);
    WindowNoNewlines(ls, start, end + 1, width);
    EchoSplit(r, fence, "```\n" + Terminated(r) + "```\n");
    FencesOfWindow(r, width, ls, start, end);
    SingleFencedBlock([], fence, r, fence, []);
    assert [] + [fence] + r + [fence] + [] == [fence] + r + [fence];
  }

  lemma ApplyEchoedWindow(sha: string, path: string, ls: seq<string>, start: nat, end: nat)
    requires start <= end < |ls| && end < 999999 && NoNewlines(ls)
    ensures var content := Terminated(NumberedWindow(ls, start, end + 1, DigitCount(end)));
      Apply(sha, path, ls, start, end, content, true) ==
        Resolved(Join(ls, "\n"), ScanTo(Markers(ls), |ls|).pending - 1,
                 ResolvedBlock(sha, path, content, start, end, content))
  {
    var content := Terminated(NumberedWindow(ls, start, end + 1, DigitCount(end)));
    DigitCountBelowMillion(end);
    WindowRoundTrip(ls, start, end + 1, DigitCount(end));
    EchoedPairsCheck(ls, start, end);
    ApplyAccepts(sha, path, ls, start, end, content);
  }

  /** A solution whose lines start at the window, have no gap and splice back to the file is accepted unchanged. */
  lemma ApplyAccepts(sha: string, path: string, ls: seq<string>, start: nat, end: nat, solution: string)
    requires start <= end < |ls|
    requires var h := SolutionHash(Split(solution));
      MinOf(Keys(h)) == Some(start as int) && MaxOf(Keys(h)) == Some(end as int) &&
      !HasGap(h, start, end) && ls[..start] + Values(h) + ls[end + 1..] == ls
    ensures Apply(sha, path, ls, start, end, solution, true).Resolved?
    ensures Apply(sha, path, ls, start, end, solution, true).written == Join(ls, "\n")
    ensures Apply(sha, path, ls, start, end, solution, true).pending == ScanTo(Markers(ls), |ls|).pending - 1
    ensures Apply(sha, path, ls, start, end, solution, true).block ==
      ResolvedBlock(sha, path, Terminated(NumberedWindow(ls, start, end + 1, DigitCount(end))), start, end, solution)
  {
  }

  /** The window's own pairs pass both checks and splice back to the file. */
  lemma EchoedPairsCheck(ls: seq<string>, start: nat, end: nat)
    requires start <= end < |ls|
    ensures var h := WindowPairs(ls, start, end + 1);
      MinOf(Keys(h)) == Some(start as int) && MaxOf(Keys(h)) == Some(end as int) &&
      !HasGap(h, start, end) && ls[..start] + Values(h) + ls[end + 1..] == ls
  {
    EchoedPairsKeys(ls, start, end);
    EchoedPairsValues(ls, start, end);
  }

  lemma EchoedPairsKeys(ls: seq<string>, start: nat, end: nat)
    requires start <= end < |ls|
    ensures var h := WindowPairs(ls, start, end + 1);
      MinOf(Keys(h)) == Some(start as int) && MaxOf(Keys(h)) == Some(end as int) && !HasGap(h, start, end)
  {
    var h := WindowPairs(ls, start, end + 1);
    var ks := Keys(h);
    assert forall k :: 0 <= k < |ks| ==> ks[k] == start + k;
    MinMaxOfConsecutive(ks, start);
    assert !HasGap(h, start, end) by {
      forall k | start <= k <= end ensures k in ks {
        assert ks[k - start] == k;
      }
    }
  }

  lemma EchoedPairsValues(ls: seq<string>, start: nat, end: nat)
    requires start <= end < |ls|
    ensures ls[..start] + Values(WindowPairs(ls, start, end + 1)) + ls[end + 1..] == ls
  {
    var vs := Values(WindowPairs(ls, start, end + 1));
    assert vs == ls[start..end + 1];
    assert ls[..start] + ls[start..end + 1] + ls[end + 1..] == ls;
  }

  lemma EchoSplit(r: seq<string>, fence: string, response: string)
    requires fence == "```" && NoNewlines(r)
    requires response == "```\n" + Terminated(r) + "```\n"
    ensures Split(response) == [fence] + r + [fence]
  {
    var all := [fence] + r + [fence];
    TerminatedAppend([fence], r);
    TerminatedAppend([fence] + r, [fence]);
    assert Terminated([fence]) == "```\n";
    assert response == Terminated(all);
    assert NoNewlines(all) by {
      forall k | 0 <= k < |all| ensures NoNewline(all[k]) {
        if 0 < k < |all| - 1 {
          assert all[k] == r[k - 1];
        }
      }
    }
    SplitTerminated(all);
  }

  lemma FencesOfWindow(r: seq<string>, width: nat, ls: seq<string>, start: nat, end: nat)
    requires end < |ls| && start <= end && width <= 6
    requires r == NumberedWindow(ls, start, end + 1, width)
    ensures NoFences(r)
  {
    forall k | 0 <= k < |r| ensures !IsFence(r[k]) {
      var n := FormatInt(start + k + 1, width);
      assert r[k] == n + " " + ls[start + k];
      assert r[k][0] == n[0];
      assert n[0] == ' ' || IsDigit(n[0]);
    }
  }

  // ---------------------------------------------------------------------
  // The previous attempt shown to the model
  // ---------------------------------------------------------------------

  /** `porting_step` as far as the lookup reads it. */
  datatype PortingStep = PortingStep(resolvedMergeblocks: seq<ResolvedBlock>)

  /** `merge_results[sha]` as far as the lookup reads it. */
  datatype CommitResult = CommitResult(portingSteps: seq<PortingStep>)

  /**
   * The block parameter `sha` of the `prev_results.each` block shadows the
   * commit being merged, so a block matches when its own sha equals the
   * key it is stored under, and its path and window equal the current ones.
   */
  predicate Matches(key: string, b: ResolvedBlock, path: string, start: nat, end: nat) {
    b.sha == key && b.path == path && b.start == start && b.end == end
  }

  function Tagged(key: string, bs: seq<ResolvedBlock>): (r: seq<(string, ResolvedBlock)>)
    ensures |r| == |bs| && forall i :: 0 <= i < |bs| ==> r[i] == (key, bs[i])
  {
    seq(|bs|, i requires 0 <= i < |bs| => (key, bs[i]))
  }

  function StepBlocks(key: string, steps: seq<PortingStep>): seq<(string, ResolvedBlock)> {
    if steps == [] then []
    else StepBlocks(key, steps[..|steps| - 1]) + Tagged(key, steps[|steps| - 1].resolvedMergeblocks)
  }

  /** Every recorded block with the key it is stored under, in visiting order. */
  function AllBlocks(prev: Hash<string, CommitResult>): seq<(string, ResolvedBlock)> {
    if prev == [] then []
    else AllBlocks(prev[..|prev| - 1]) + StepBlocks(prev[|prev| - 1].0, prev[|prev| - 1].1.portingSteps)
  }

  /** The solution of the last matching block, if any. */
  function LastMatch(bs: seq<(string, ResolvedBlock)>, path: string, start: nat, end: nat): Option<string> {
    if bs == [] then None
    else
      var last := bs[|bs| - 1];
      if Matches(last.0, last.1, path, start, end) then Some(last.1.solution)
      else LastMatch(bs[..|bs| - 1], path, start, end)
  }

  /**
   * The lookup finds nothing exactly when no block matches, and otherwise
   * the solution of a matching block after which no block matches.
   */
  lemma {:induction false} LastMatchSpec(bs: seq<(string, ResolvedBlock)>, path: string, start: nat, end: nat)
    ensures var r := LastMatch(bs, path, start, end);
      (r.None? <==> forall i :: 0 <= i < |bs| ==> !Matches(bs[i].0, bs[i].1, path, start, end)) &&
      (r.Some? ==> exists i :: 0 <= i < |bs| && Matches(bs[i].0, bs[i].1, path, start, end) &&
                                bs[i].1.solution == r.value &&
                                forall j :: i < j < |bs| ==> !Matches(bs[j].0, bs[j].1, path, start, end))
  {
    if bs != [] {
      var init := bs[..|bs| - 1];
      LastMatchSpec(init, path, start, end);
      assert forall i :: 0 <= i < |init| ==> init[i] == bs[i];
    }
  }

  lemma LastMatchSnoc(bs: seq<(string, ResolvedBlock)>, x: (string, ResolvedBlock), path: string, start: nat, end: nat)
    ensures LastMatch(bs + [x], path, start, end) ==
      if Matches(x.0, x.1, path, start, end) then Some(x.1.solution) else LastMatch(bs, path, start, end)
  {
    assert (bs + [x])[..|bs|] == bs;
  }

  lemma TaggedSnoc(sha: string, blocks: seq<ResolvedBlock>, k: nat, before: seq<(string, ResolvedBlock)>,
                   path: string, start: nat, end: nat)
    requires k < |blocks|
    ensures LastMatch(before + Tagged(sha, blocks[..k + 1]), path, start, end) ==
      if Matches(sha, blocks[k], path, start, end) then Some(blocks[k].solution)
      else LastMatch(before + Tagged(sha, blocks[..k]), path, start, end)
  {
    assert Tagged(sha, blocks[..k + 1]) == Tagged(sha, blocks[..k]) + [(sha, blocks[k])];
    assert before + Tagged(sha, blocks[..k + 1]) == (before + Tagged(sha, blocks[..k])) + [(sha, blocks[k])];
    LastMatchSnoc(before + Tagged(sha, blocks[..k]), (sha, blocks[k]), path, start, end);
  }

  /** The innermost loop, over one porting step's resolved blocks. */
  method ScanBlocks(sha: string, blocks: seq<ResolvedBlock>, path: string, start: nat, end: nat,
                    ghost before: seq<(string, ResolvedBlock)>, current: string)
    returns (previousSolution: string)
    requires current == LastMatch(before, path, start, end).GetOr("")
    ensures previousSolution == LastMatch(before + Tagged(sha, blocks), path, start, end).GetOr("")
  {
    previousSolution := current;
    assert before + Tagged(sha, blocks[..0]) == before;
    for k := 0 to |blocks|
      invariant previousSolution == LastMatch(before + Tagged(sha, blocks[..k]), path, start, end).GetOr("")
    {
      var mergeblock := blocks[k];
      TaggedSnoc(sha, blocks, k, before, path, start, end);
      if mergeblock.sha == sha && mergeblock.path == path &&
         mergeblock.start == start && mergeblock.end == end {
        previousSolution := mergeblock.solution;
      }
    }
    assert blocks[..|blocks|] == blocks;
  }

  /**
   * The triple loop over `prev_results`: `nil` when there are no previous
   * results (the lookup is skipped), otherwise the last matching block's
   * solution, or `""` when none matches.
   */
  method PreviousSolution(prevResults: Hash<string, CommitResult>, path: string, start: nat, end: nat)
    returns (previous: Option<string>)
    ensures previous == if prevResults == [] then None
      else Some(LastMatch(AllBlocks(prevResults), path, start, end).GetOr(""))
  {
    if prevResults == [] {
      return None;
    }
    var previousSolution := "";
    for i := 0 to |prevResults|
      invariant previousSolution == LastMatch(AllBlocks(prevResults[..i]), path, start, end).GetOr("")
    {
      var (sha, result) := prevResults[i];
      assert prevResults[..i + 1][..i] == prevResults[..i];
      previousSolution := ScanSteps(sha, result.portingSteps, path, start, end,
                                    AllBlocks(prevResults[..i]), previousSolution);
    }
    assert prevResults[..|prevResults|] == prevResults;
    return Some(previousSolution);
  }

  /** The middle loop, over one commit's porting steps. */
  method ScanSteps(sha: string, steps: seq<PortingStep>, path: string, start: nat, end: nat,
                   ghost before: seq<(string, ResolvedBlock)>, current: string)
    returns (previousSolution: string)
    requires current == LastMatch(before, path, start, end).GetOr("")
    ensures previousSolution == LastMatch(before + StepBlocks(sha, steps), path, start, end).GetOr("")
  {
    previousSolution := current;
    assert before + StepBlocks(sha, steps[..0]) == before;
    for j := 0 to |steps|
      invariant previousSolution == LastMatch(before + StepBlocks(sha, steps[..j]), path, start, end).GetOr("")
    {
      previousSolution := ScanBlocks(sha, steps[j].resolvedMergeblocks, path, start, end,
                                     before + StepBlocks(sha, steps[..j]), previousSolution);
      StepBlocksSnoc(sha, steps, j, before);
    }
    assert steps[..|steps|] == steps;
  }

  lemma StepBlocksSnoc(sha: string, steps: seq<PortingStep>, j: nat, before: seq<(string, ResolvedBlock)>)
    requires j < |steps|
    ensures before + StepBlocks(sha, steps[..j]) + Tagged(sha, steps[j].resolvedMergeblocks) ==
      before + StepBlocks(sha, steps[..j + 1])
  {
    assert steps[..j + 1][..j] == steps[..j];
  }

  /**
   * A recorded block stored under its own commit is what a later lookup
   * for the same file and window shows.
   */
  lemma RecordedBlockFound(b: ResolvedBlock)
    ensures LastMatch(AllBlocks([(b.sha, CommitResult([PortingStep([b])]))]), b.path, b.start, b.end) == Some(b.solution)
  {
    SingleBlock(b.sha, b);
  }

  /** A block stored under another commit's key never matches (the shadowed `sha`). */
  lemma ForeignBlockIgnored(key: string, b: ResolvedBlock)
    requires b.sha != key
    ensures LastMatch(AllBlocks([(key, CommitResult([PortingStep([b])]))]), b.path, b.start, b.end) == None
  {
    SingleBlock(key, b);
  }

  lemma SingleBlock(key: string, b: ResolvedBlock)
    ensures AllBlocks([(key, CommitResult([PortingStep([b])]))]) == [(key, b)]
  {
    var prev := [(key, CommitResult([PortingStep([b])]))];
    assert prev[..0] == [];
    var steps := [PortingStep([b])];
    assert steps[..0] == [];
    assert StepBlocks(key, steps) == [] + Tagged(key, [b]);
    assert AllBlocks(prev) == [] + StepBlocks(key, steps);
  }
}
