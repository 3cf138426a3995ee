/**
 * `GitRepository.getHistory`: one page of the commit log that ends at a
 * revision. The log itself (JGit's `LogCommand`, optionally restricted to a
 * path) is an input: `log` is the whole log from the start commit, most
 * recent first, or `None` when the start revision does not resolve. The
 * page arguments are Java `int`s, negative ones included.
 */
module History {
  import opened Common

  /**
   * What `getHistory` gives: null when the start revision does not resolve,
   * the page, or the `IndexOutOfBoundsException` of `LinkedList.remove(0)`
   * on an empty window.
   */
  datatype HistoryResult<C> = Unresolved | Listed(page: seq<C>) | IndexOutOfBounds

  /** The argument of `setMaxCount`, `pageNumber * pageSize + pageSize` (Java `int` arguments). */
  function MaxCount(pageNumber: int, pageSize: int): int {
    pageNumber * pageSize + pageSize
  }

  /**
   * The number of log entries the walk visits. JGit's `LogCommand` applies a
   * maximum count only when it is not negative, so a negative one leaves the
   * walk unbounded.
   */
  function VisitCount(logLength: nat, pageNumber: int, pageSize: int): (n: nat)
    ensures n <= logLength
    ensures MaxCount(pageNumber, pageSize) < 0 ==> n == logLength
    ensures MaxCount(pageNumber, pageSize) >= 0 ==>
      n <= MaxCount(pageNumber, pageSize) && (n == logLength || n == MaxCount(pageNumber, pageSize))
  {
    var limit := MaxCount(pageNumber, pageSize);
    if limit < 0 || logLength < limit then logLength else limit
  }

  /** How many of `n` visited commits a window of `pageSize` keeps: `min(pageSize, n)`, none for a size below one. */
  function Keep(n: nat, pageSize: int): (k: nat)
    ensures k <= n
  {
    if pageSize <= 0 then 0 else if n < pageSize then n else pageSize
  }

  /** The window removes from an empty list exactly when it sees a commit while its size is below one. */
  predicate WindowThrows(logLength: nat, pageNumber: int, pageSize: int) {
    VisitCount(logLength, pageNumber, pageSize) > 0 && pageSize <= 0
  }

  /**
   * The page as the source defines it: the last `min(pageSize, n)` of the
   * first `n` visited commits, in log order.
   */
  function Page<C>(log: seq<C>, pageNumber: int, pageSize: int): (r: seq<C>)
    ensures pageSize >= 0 ==> |r| <= pageSize
    ensures pageSize <= 0 ==> r == []
  {
    var n := VisitCount(|log|, pageNumber, pageSize);
    log[n - Keep(n, pageSize)..n]
  }

  /**
   * The sliding window of the source over the first `n` commits: every
   * visited commit is appended to a list, and once the list holds
   * `pageSize` commits the oldest is removed first. The list ends as the
   * last `min(pageSize, n)` of them. A size below one makes the first visit
   * remove from an empty list, which throws.
   */
  method Window<C>(commits: seq<C>, n: nat, pageSize: int) returns (r: Option<seq<C>>)
    requires n <= |commits|
    ensures r.None? <==> n > 0 && pageSize <= 0
    ensures r.Some? ==> |r.value| == Keep(n, pageSize) && r.value == commits[n - |r.value|..n]
  {
    var list: seq<C> := [];
    var i := 0;
    while i < n
      invariant 0 <= i <= n
      invariant i > 0 ==> pageSize > 0
      invariant i == 0 ==> list == []
      invariant i > 0 && i < pageSize ==> |list| == i
      invariant i > 0 && i >= pageSize ==> |list| == pageSize
      invariant list == commits[i - |list|..i]
    {
      ghost var lo := i - |list|;
      if |list| >= pageSize {
        if list == [] {
          return None;
        }
        assert list[1..] == commits[lo + 1..i];
        list := list[1..];
        lo := lo + 1;
      }
      assert list + [commits[i]] == commits[lo..i + 1];
      list := list + [commits[i]];
      i := i + 1;
    }
    return Some(list);
  }

  /**
   * `getHistory` (lines 787-816): null when the start revision does not
   * resolve; otherwise the walk visits `VisitCount` commits through the
   * window, which either throws or returns `Page`.
   */
  method GetHistory<C>(log: Option<seq<C>>, pageNumber: int, pageSize: int) returns (r: HistoryResult<C>)
    ensures r == Unresolved <==> log.None?
    ensures r == IndexOutOfBounds <==> log.Some? && WindowThrows(|log.value|, pageNumber, pageSize)
    ensures r.Listed? ==> log.Some? && r.page == Page(log.value, pageNumber, pageSize)
  {
    if log.None? {
      return Unresolved;
    }
    var commits := log.value;
    var n := VisitCount(|commits|, pageNumber, pageSize);
    var list := Window(commits, n, pageSize);
    if list.None? {
      return IndexOutOfBounds;
    }
    return Listed(list.value);
  }

  /**
   * The window throws exactly for a non-empty log, a negative size and a
   * page number other than -1: page -1 makes the maximum count zero, any
   * other page makes the walk visit at least one commit.
   */
  lemma WindowThrowsIff(logLength: nat, pageNumber: int, pageSize: int)
    ensures WindowThrows(logLength, pageNumber, pageSize) <==> logLength > 0 && pageSize < 0 && pageNumber != -1
  {
    var m := MaxCount(pageNumber, pageSize);
    assert m == (pageNumber + 1) * pageSize;
    if pageNumber == -1 {
      assert m == 0;
    } else if pageSize < 0 && pageNumber > -1 {
      assert m < 0;
    } else if pageSize < 0 {
      assert pageNumber + 1 <= -1;
      assert m >= -pageSize;
    } else if pageSize == 0 {
      assert m == 0;
    }
  }

  /**
   * A page number below -1 with a positive size makes the maximum count
   * negative, so the walk is unbounded and the page is the last `pageSize`
   * commits of the whole log.
   */
  lemma NegativePageIsLogTail<C>(log: seq<C>, pageNumber: int, pageSize: int)
    requires pageNumber < -1 && pageSize > 0
    ensures Page(log, pageNumber, pageSize) == log[|log| - Keep(|log|, pageSize)..]
  {
    assert MaxCount(pageNumber, pageSize) == (pageNumber + 1) * pageSize;
    assert pageNumber + 1 <= -1;
    assert MaxCount(pageNumber, pageSize) <= -pageSize;
  }

  /** Page -1 makes the maximum count zero: nothing is visited and the page is empty, whatever the size. */
  lemma PageMinusOneIsEmpty<C>(log: seq<C>, pageSize: int)
    ensures VisitCount(|log|, -1, pageSize) == 0 && Page(log, -1, pageSize) == []
  {
    assert MaxCount(-1, pageSize) == 0;
  }

  /** When the log is long enough, page `p` is exactly entries `p*size .. p*size+size` of the log. */
  lemma PageIsSlice<C>(log: seq<C>, pageNumber: nat, pageSize: nat)
    requires pageNumber * pageSize + pageSize <= |log|
    ensures Page(log, pageNumber, pageSize) == log[pageNumber * pageSize..pageNumber * pageSize + pageSize]
  {
  }

  /** Consecutive pages of a long enough log follow each other without gap or overlap. */
  lemma {:induction false} PagesConcatenate<C>(log: seq<C>, pages: nat, pageSize: nat)
    requires pages * pageSize <= |log|
    ensures Pages(log, pages, pageSize) == log[..pages * pageSize]
    decreases pages
  {
    if pages > 0 {
      var p := pages - 1;
      var lo, hi := p * pageSize, pages * pageSize;
      assert hi == lo + pageSize;
      PagesConcatenate(log, p, pageSize);
      PageIsSlice(log, p, pageSize);
      assert log[..lo] + log[lo..hi] == log[..hi];
    }
  }

  /** Pages `0 .. pages-1`, one after the other. */
  function Pages<C>(log: seq<C>, pages: nat, pageSize: nat): seq<C>
    decreases pages
  {
    if pages == 0 then [] else Pages(log, pages - 1, pageSize) + Page(log, pages - 1, pageSize)
  }

  /** Linear history A -> B -> C, asked for page 0 of size 2 until C: the log is [C, B, A] and the page is [C, B]. */
  method LinearHistoryExample() returns (r: HistoryResult<string>)
    ensures r == Listed(["C", "B"])
  {
    var log := ["C", "B", "A"];
    PageIsSlice(log, 0, 2);
    assert log[0..2] == ["C", "B"];
    r := GetHistory(Some(log), 0, 2);
  }
}
