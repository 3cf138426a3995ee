/**
 * The budget loop of `GitRepository.getFileDiffs`. JGit's tree scan, rename
 * detection, blob loading, binary sniff and histogram diff are inputs: each
 * entry says what reading either side would give and how large its hunks
 * are. The loop decides which entries are returned, which get an edit list,
 * which are flagged as over budget, and when the scan stops.
 *
 * `FileDiff.SIZE_LIMIT` and `FileDiff.LINE_LIMIT` are not part of this model,
 * so `DIFF_SIZE_LIMIT` and `DIFF_LINE_LIMIT` (three times each) are the
 * `Limits` parameter; `DIFF_FILE_LIMIT` is 2000.
 */
module FileDiffs {
  import opened Common

  const DiffFileLimit: nat := 2000

  datatype Limits = Limits(size: nat, lines: nat)

  /** Reading a blob: JGit's `LargeObjectException`, or its length, line count and binary sniff. */
  datatype Blob = TooLarge | Bytes(length: nat, lineCount: nat, binary: bool)

  /** One entry of the scan, with both sides' blobs and the size of its hunks once diffed. */
  datatype DiffEntry = DiffEntry(
    changeType: ChangeType, oldPath: string, newPath: string,
    oldBlob: Blob, newBlob: Blob, hunkSize: nat, hunkLines: nat)

  /** What a `FileDiff` holds of one side: not read, too large, binary (`a == null`, `isBinaryA`), or text. */
  datatype Side = NotRead | Exceeded | Binary | Text(length: nat, lineCount: nat)

  datatype DiffError = ASizeExceeded | BSizeExceeded | OthersSizeExceeded

  datatype FileDiff = FileDiff(
    changeType: ChangeType, pathA: Option<string>, pathB: Option<string>,
    a: Side, b: Side, errors: set<DiffError>, hasEditList: bool)

  /** The counters and the list built so far; `stopped` once the file limit ended the scan. */
  datatype ScanState = ScanState(size: nat, lines: nat, result: seq<FileDiff>, stopped: bool)

  function ReadSide(blob: Blob): Side {
    match blob
    case TooLarge => Exceeded
    case Bytes(length, lineCount, binary) => if binary then Binary else Text(length, lineCount)
  }

  /**
   * Lines 1772-1814: the old side is read only when commit A exists and the
   * change is DELETE, MODIFY, RENAME or COPY; the new side only when commit B
   * exists and the change is ADD, MODIFY, RENAME or COPY. A side too large to
   * load is flagged with its own error.
   */
  function Prepare(e: DiffEntry, hasTreeA: bool, hasTreeB: bool): (fd: FileDiff)
    ensures fd.changeType == e.changeType && !fd.hasEditList && OthersSizeExceeded !in fd.errors
    ensures fd.a != NotRead <==> hasTreeA && e.changeType in {ChangeType.Delete, Modify, Rename, Copy}
    ensures fd.b != NotRead <==> hasTreeB && e.changeType in {Add, Modify, Rename, Copy}
    ensures fd.pathA.Some? <==> fd.a != NotRead
    ensures fd.pathB.Some? <==> fd.b != NotRead
    ensures ASizeExceeded in fd.errors <==> fd.a != NotRead && e.oldBlob.TooLarge?
    ensures BSizeExceeded in fd.errors <==> fd.b != NotRead && e.newBlob.TooLarge?
    ensures fd.a.Text? ==> e.oldBlob.Bytes? && !e.oldBlob.binary
    ensures fd.b.Text? ==> e.newBlob.Bytes? && !e.newBlob.binary
  {
    var readA := hasTreeA && e.changeType != Add;
    var readB := hasTreeB && e.changeType != ChangeType.Delete;
    var a := if readA then ReadSide(e.oldBlob) else NotRead;
    var b := if readB then ReadSide(e.newBlob) else NotRead;
    FileDiff(e.changeType,
      if readA then Some(e.oldPath) else None,
      if readB then Some(e.newPath) else None,
      a, b,
      (if a.Exceeded? then {ASizeExceeded} else {}) + (if b.Exceeded? then {BSizeExceeded} else {}),
      false)
  }

  /** Line 1823-1826: an edit list is computed only for MODIFY and RENAME with both sides loaded as text. */
  predicate WantsEditList(fd: FileDiff) {
    fd.a.Text? && fd.b.Text? && (fd.changeType == Modify || fd.changeType == Rename)
  }

  predicate OverBudget(st: ScanState, limits: Limits) {
    st.size > limits.size || st.lines > limits.lines
  }

  /** An over-budget entry: kept, flagged, no edit list. */
  function Flagged(fd: FileDiff): FileDiff {
    fd.(errors := fd.errors + {OthersSizeExceeded})
  }

  /**
   * One iteration of the loop. Over budget, the entry is appended flagged and
   * nothing else happens. Within budget, the entry may get an edit list, the
   * counters grow by the hunk totals (MODIFY/RENAME with an edit list), by
   * the new side (ADD) or by the old side (DELETE), and then the entry is
   * appended unless more than `DIFF_FILE_LIMIT` entries are already there, in
   * which case the scan stops without it.
   */
  function Step(st: ScanState, e: DiffEntry, hasTreeA: bool, hasTreeB: bool, limits: Limits): (r: ScanState)
    requires !st.stopped
    ensures r.size >= st.size && r.lines >= st.lines
    ensures |st.result| <= |r.result| <= |st.result| + 1 && r.result[..|st.result|] == st.result
    ensures OverBudget(st, limits) ==>
      !r.stopped && r.size == st.size && r.lines == st.lines && |r.result| == |st.result| + 1
      && OthersSizeExceeded in r.result[|st.result|].errors && !r.result[|st.result|].hasEditList
    ensures !OverBudget(st, limits) ==> (r.stopped <==> |st.result| > DiffFileLimit)
    ensures r.stopped <==> |r.result| == |st.result|
    ensures e.changeType == Copy && !OverBudget(st, limits) ==> r.size == st.size && r.lines == st.lines
  {
    var fd := Prepare(e, hasTreeA, hasTreeB);
    if OverBudget(st, limits) then
      st.(result := st.result + [Flagged(fd)])
    else
      var edit := WantsEditList(fd);
      var added := fd.(hasEditList := edit);
      var size := st.size
        + (if edit then e.hunkSize else 0)
        + (if e.changeType == Add && fd.b.Text? then fd.b.length else 0)
        + (if e.changeType == ChangeType.Delete && fd.a.Text? then fd.a.length else 0);
      var lines := st.lines
        + (if edit then e.hunkLines else 0)
        + (if e.changeType == Add && fd.b.Text? then fd.b.lineCount else 0)
        + (if e.changeType == ChangeType.Delete && fd.a.Text? then fd.a.lineCount else 0);
      if |st.result| > DiffFileLimit then ScanState(size, lines, st.result, true)
      else ScanState(size, lines, st.result + [added], false)
  }

  /** The loop over all entries, from a given state. */
  function Scan(st: ScanState, es: seq<DiffEntry>, hasTreeA: bool, hasTreeB: bool, limits: Limits): ScanState
    decreases |es|
  {
    if es == [] || st.stopped then st
    else Scan(Step(st, es[0], hasTreeA, hasTreeB, limits), es[1..], hasTreeA, hasTreeB, limits)
  }

  const Start := ScanState(0, 0, [], false)

  /** `getFileDiffs` (lines 1767-1856); commit A or B absent means that side's tree is empty. */
  method GetFileDiffs(entries: seq<DiffEntry>, hasTreeA: bool, hasTreeB: bool, limits: Limits)
    returns (result: seq<FileDiff>)
    ensures result == Scan(Start, entries, hasTreeA, hasTreeB, limits).result
  {
    result := [];
    var size: nat := 0;
    var lines: nat := 0;
    var i := 0;
    while i < |entries|
      invariant 0 <= i <= |entries|
      invariant Scan(Start, entries, hasTreeA, hasTreeB, limits)
             == Scan(ScanState(size, lines, result, false), entries[i..], hasTreeA, hasTreeB, limits)
    {
      var e := entries[i];
      assert entries[i..][0] == e && entries[i..][1..] == entries[i + 1..];
      ghost var next := Step(ScanState(size, lines, result, false), e, hasTreeA, hasTreeB, limits);
      assert Scan(Start, entries, hasTreeA, hasTreeB, limits) == Scan(next, entries[i + 1..], hasTreeA, hasTreeB, limits);
      var fileDiff := Prepare(e, hasTreeA, hasTreeB);
      if size > limits.size || lines > limits.lines {
        fileDiff := fileDiff.(errors := fileDiff.errors + {OthersSizeExceeded});
        result := result + [fileDiff];
        assert next == ScanState(size, lines, result, false);
        i := i + 1;
        continue;
      }
      if fileDiff.a.Text? && fileDiff.b.Text? && (e.changeType == Modify || e.changeType == Rename) {
        fileDiff := fileDiff.(hasEditList := true);
        size := size + e.hunkSize;
        lines := lines + e.hunkLines;
      }
      if fileDiff.b.Text? && e.changeType == Add {
        lines := lines + fileDiff.b.lineCount;
        size := size + fileDiff.b.length;
      }
      if fileDiff.a.Text? && e.changeType == ChangeType.Delete {
        lines := lines + fileDiff.a.lineCount;
        size := size + fileDiff.a.length;
      }
      if |result| > DiffFileLimit {
        assert next.stopped && next.result == result;
        break;
      }
      result := result + [fileDiff];
      assert next == ScanState(size, lines, result, false);
      i := i + 1;
    }
  }

  /** The counters never decrease, and entries are only ever appended. */
  lemma {:induction false} ScanGrows(st: ScanState, es: seq<DiffEntry>, hasTreeA: bool, hasTreeB: bool, limits: Limits)
    ensures var r := Scan(st, es, hasTreeA, hasTreeB, limits);
      r.size >= st.size && r.lines >= st.lines
      && |st.result| <= |r.result| <= |st.result| + |es| && r.result[..|st.result|] == st.result
    decreases |es|
  {
    if es != [] && !st.stopped {
      var next := Step(st, es[0], hasTreeA, hasTreeB, limits);
      ScanGrows(next, es[1..], hasTreeA, hasTreeB, limits);
      var r := Scan(next, es[1..], hasTreeA, hasTreeB, limits);
      assert r.result[..|st.result|] == r.result[..|next.result|][..|st.result|];
    }
  }

  /** Every entry prepared and flagged, in order. */
  function FlaggedAll(es: seq<DiffEntry>, hasTreeA: bool, hasTreeB: bool): (r: seq<FileDiff>)
    ensures |r| == |es|
    decreases |es|
  {
    if es == [] then []
    else [Flagged(Prepare(es[0], hasTreeA, hasTreeB))] + FlaggedAll(es[1..], hasTreeA, hasTreeB)
  }

  /** Over budget, a step appends the flagged entry and changes nothing else. */
  lemma StepOverBudget(st: ScanState, e: DiffEntry, hasTreeA: bool, hasTreeB: bool, limits: Limits)
    requires !st.stopped && OverBudget(st, limits)
    ensures Step(st, e, hasTreeA, hasTreeB, limits) == st.(result := st.result + [Flagged(Prepare(e, hasTreeA, hasTreeB))])
  {
  }

  /**
   * Once the size or line budget is exceeded, every later entry is appended
   * flagged, without edit list, the counters stay as they are and the file
   * limit is no longer checked.
   */
  lemma {:induction false} ScanOverBudget(st: ScanState, es: seq<DiffEntry>, hasTreeA: bool, hasTreeB: bool, limits: Limits)
    requires !st.stopped && OverBudget(st, limits)
    ensures Scan(st, es, hasTreeA, hasTreeB, limits) == st.(result := st.result + FlaggedAll(es, hasTreeA, hasTreeB))
    decreases |es|
  {
    if es != [] {
      var head := Flagged(Prepare(es[0], hasTreeA, hasTreeB));
      var next := Step(st, es[0], hasTreeA, hasTreeB, limits);
      var rest := FlaggedAll(es[1..], hasTreeA, hasTreeB);
      StepOverBudget(st, es[0], hasTreeA, hasTreeB, limits);
      ScanOverBudget(next, es[1..], hasTreeA, hasTreeB, limits);
      assert Scan(st, es, hasTreeA, hasTreeB, limits) == Scan(next, es[1..], hasTreeA, hasTreeB, limits);
      assert FlaggedAll(es, hasTreeA, hasTreeB) == [head] + rest;
      assert next.result + rest == st.result + FlaggedAll(es, hasTreeA, hasTreeB);
    } else {
      assert st.result + [] == st.result;
    }
  }

  /**
   * How a returned entry relates to the entry it came from, given whether the
   * counters were over budget when it was scanned: the sides and paths are as
   * read, it is flagged `OTHERS_SIZE_EXCEEDED` exactly when over budget, and it
   * has an edit list exactly when within budget and it is a MODIFY or RENAME
   * with both sides loaded as text.
   */
  predicate Emitted(fd: FileDiff, e: DiffEntry, overBudget: bool, hasTreeA: bool, hasTreeB: bool) {
    var p := Prepare(e, hasTreeA, hasTreeB);
    && fd.changeType == e.changeType && fd.pathA == p.pathA && fd.pathB == p.pathB
    && fd.a == p.a && fd.b == p.b
    && (OthersSizeExceeded in fd.errors <==> overBudget)
    && fd.errors - {OthersSizeExceeded} == p.errors
    && fd.hasEditList == (!overBudget && WantsEditList(p))
  }

  /** The state of the scan just before `es[j]`. */
  lemma ScanPrefixUnfold(st: ScanState, es: seq<DiffEntry>, j: nat, hasTreeA: bool, hasTreeB: bool, limits: Limits)
    requires !st.stopped && 1 <= j <= |es|
    ensures Scan(st, es[..j], hasTreeA, hasTreeB, limits)
         == Scan(Step(st, es[0], hasTreeA, hasTreeB, limits), es[1..][..j - 1], hasTreeA, hasTreeB, limits)
  {
    assert es[..j][0] == es[0] && es[..j][1..] == es[1..][..j - 1];
  }

  /**
   * Every returned entry is the one at the same position among the scanned
   * entries, as `Emitted` says for the budget state the scan was in just
   * before it.
   */
  lemma {:induction false} ScanEmits(st: ScanState, es: seq<DiffEntry>, hasTreeA: bool, hasTreeB: bool, limits: Limits)
    ensures var r := Scan(st, es, hasTreeA, hasTreeB, limits);
      |r.result| <= |st.result| + |es|
      && forall k :: |st.result| <= k < |r.result| ==>
           Emitted(r.result[k], es[k - |st.result|],
                   OverBudget(Scan(st, es[..k - |st.result|], hasTreeA, hasTreeB, limits), limits), hasTreeA, hasTreeB)
    decreases |es|
  {
    ScanGrows(st, es, hasTreeA, hasTreeB, limits);
    if es != [] && !st.stopped {
      var next := Step(st, es[0], hasTreeA, hasTreeB, limits);
      ScanEmits(next, es[1..], hasTreeA, hasTreeB, limits);
      ScanGrows(next, es[1..], hasTreeA, hasTreeB, limits);
      var r := Scan(next, es[1..], hasTreeA, hasTreeB, limits);
      assert r == Scan(st, es, hasTreeA, hasTreeB, limits);
      if !next.stopped {
        StepEmits(st, es[0], hasTreeA, hasTreeB, limits);
        assert |next.result| == |st.result| + 1;
        forall k | |st.result| <= k < |r.result|
          ensures Emitted(r.result[k], es[k - |st.result|],
                          OverBudget(Scan(st, es[..k - |st.result|], hasTreeA, hasTreeB, limits), limits), hasTreeA, hasTreeB)
        {
          var j := k - |st.result|;
          if j == 0 {
            assert es[..0] == [];
            assert Scan(st, es[..0], hasTreeA, hasTreeB, limits) == st;
            assert r.result[k] == r.result[..|next.result|][k] == next.result[k];
          } else {
            ScanPrefixUnfold(st, es, j, hasTreeA, hasTreeB, limits);
            assert es[1..][k - |next.result|] == es[j];
          }
        }
      }
    }
  }

  /** The entry a step appends is the prepared entry, as `Emitted` says for the state before the step. */
  lemma StepEmits(st: ScanState, e: DiffEntry, hasTreeA: bool, hasTreeB: bool, limits: Limits)
    requires !st.stopped
    ensures var next := Step(st, e, hasTreeA, hasTreeB, limits);
      !next.stopped ==> Emitted(next.result[|st.result|], e, OverBudget(st, limits), hasTreeA, hasTreeB)
  {
  }

  /** A blob that loads as text. */
  predicate TextBlob(b: Blob) {
    b.Bytes? && !b.binary
  }

  /**
   * Within budget, ADD adds the new side's length and line count when it
   * loads as text, DELETE the old side's, MODIFY and RENAME the hunk totals
   * when both sides load as text, and COPY nothing. A binary or too large
   * side adds nothing.
   */
  lemma StepCounters(st: ScanState, e: DiffEntry, hasTreeA: bool, hasTreeB: bool, limits: Limits)
    requires !st.stopped && !OverBudget(st, limits)
    ensures var r := Step(st, e, hasTreeA, hasTreeB, limits);
      && (e.changeType == Add ==>
            var loaded := hasTreeB && TextBlob(e.newBlob);
            r.size == st.size + (if loaded then e.newBlob.length else 0)
            && r.lines == st.lines + (if loaded then e.newBlob.lineCount else 0))
      && (e.changeType == ChangeType.Delete ==>
            var loaded := hasTreeA && TextBlob(e.oldBlob);
            r.size == st.size + (if loaded then e.oldBlob.length else 0)
            && r.lines == st.lines + (if loaded then e.oldBlob.lineCount else 0))
      && (e.changeType == Modify || e.changeType == Rename ==>
            var diffed := hasTreeA && hasTreeB && TextBlob(e.oldBlob) && TextBlob(e.newBlob);
            r.size == st.size + (if diffed then e.hunkSize else 0)
            && r.lines == st.lines + (if diffed then e.hunkLines else 0))
      && (e.changeType == Copy ==> r.size == st.size && r.lines == st.lines)
  {
  }

  /**
   * The scan returns every entry unless the file limit stopped it, and it
   * stops only when it already holds `DIFF_FILE_LIMIT + 1` entries.
   */
  lemma ScanStopsAtFileLimit(es: seq<DiffEntry>, hasTreeA: bool, hasTreeB: bool, limits: Limits)
    ensures var r := Scan(Start, es, hasTreeA, hasTreeB, limits);
      (r.stopped ==> |r.result| == DiffFileLimit + 1) && (!r.stopped ==> |r.result| == |es|)
  {
    ScanStopsFrom(Start, es, hasTreeA, hasTreeB, limits);
  }

  /** Within budget the list never holds more than `DIFF_FILE_LIMIT + 1` entries, and a stopped scan holds exactly that many. */
  predicate FileCountInv(st: ScanState, limits: Limits) {
    (|st.result| > DiffFileLimit + 1 ==> OverBudget(st, limits))
    && (st.stopped ==> |st.result| == DiffFileLimit + 1)
  }

  lemma {:induction false} ScanStopsFrom(st: ScanState, es: seq<DiffEntry>, hasTreeA: bool, hasTreeB: bool, limits: Limits)
    requires FileCountInv(st, limits)
    ensures var r := Scan(st, es, hasTreeA, hasTreeB, limits);
      (r.stopped ==> |r.result| == DiffFileLimit + 1)
      && (!r.stopped ==> !st.stopped && |r.result| == |st.result| + |es|)
    decreases |es|
  {
    if es != [] && !st.stopped {
      var next := Step(st, es[0], hasTreeA, hasTreeB, limits);
      assert FileCountInv(next, limits);
      ScanStopsFrom(next, es[1..], hasTreeA, hasTreeB, limits);
    }
  }
}
