/**
 * `parse_values` of bestStructs.py: the bounded top-n merge over report files.
 *
 * pandas' `nsmallest(n, col)` / `nlargest(n, col)` return the n best rows
 * ordered by the column. pandas does not guarantee which of several rows with
 * equal values come first, nor which of them survive the cut to n; the model
 * takes them in the order they were seen, so `Best` is a stable sort followed
 * by taking the first n rows.
 */
module Ranking {

  import opened Paths

  /** One parsed line of a report: the accepted-steps column and the criterion column. */
  datatype Entry = Entry(step: int, value: real)

  /** A report file and its parsed lines, in file order. */
  datatype Report = Report(path: string, entries: seq<Entry>)

  /** A ranked row: the report file, its report number, the step and the criterion value. */
  datatype Row = Row(file: string, report: string, step: int, value: real)

  /** `sort_order == "min"` ranks ascending; every other value ranks descending. */
  predicate Ascending(sortOrder: string) { sortOrder == "min" }

  /** `x` ranks strictly ahead of `y`. */
  predicate Ahead(x: Row, y: Row, asc: bool) {
    if asc then x.value < y.value else x.value > y.value
  }

  /** No row ranks strictly ahead of one listed before it. */
  predicate Sorted(s: seq<Row>, asc: bool) {
    forall i, j :: 0 <= i < j < |s| ==> !Ahead(s[j], s[i], asc)
  }

  // ---------------------------------------------------------------------------
  // Stable merge and sort
  // ---------------------------------------------------------------------------

  /** Merges two lists, taking from `a` unless the head of `b` ranks strictly ahead. */
  function Merge(a: seq<Row>, b: seq<Row>, asc: bool): seq<Row>
    decreases |a| + |b|
  {
    if a == [] then b
    else if b == [] then a
    else if Ahead(b[0], a[0], asc) then [b[0]] + Merge(a, b[1..], asc)
    else [a[0]] + Merge(a[1..], b, asc)
  }

  /** Stable sort: each row is merged in after every row that does not rank behind it. */
  function Sort(s: seq<Row>, asc: bool): seq<Row>
    decreases |s|
  {
    if s == [] then [] else Merge(Sort(s[..|s| - 1], asc), [s[|s| - 1]], asc)
  }

  /** The first `n` rows (`s[:n]`; nothing when `n` is not positive). */
  function Take(s: seq<Row>, n: int): (r: seq<Row>)
    ensures |r| == if n <= 0 then 0 else if n < |s| then n else |s|
  {
    if n <= 0 then [] else if n < |s| then s[..n] else s
  }

  /** `nsmallest(n, criteria)` when `asc`, `nlargest(n, criteria)` otherwise. */
  function Best(s: seq<Row>, n: int, asc: bool): (r: seq<Row>)
    ensures |r| == if n <= 0 then 0 else if n < |s| then n else |s|
    ensures Sorted(r, asc)
    ensures multiset(r) <= multiset(s)
  {
    var t := Sort(s, asc);
    SortSorted(s, asc);
    TakeSorted(t, n, asc);
    TakePrefix(t, n);
    assert |t| == |multiset(t)| == |multiset(s)| == |s|;
    assert t == Take(t, n) + t[|Take(t, n)|..];
    Take(t, n)
  }

  // ---------------------------------------------------------------------------
  // Sortedness and permutation
  // ---------------------------------------------------------------------------

  /** Merging keeps every row of both sides and adds none. */
  lemma {:induction false} MergePermutes(a: seq<Row>, b: seq<Row>, asc: bool)
    ensures multiset(Merge(a, b, asc)) == multiset(a) + multiset(b)
    decreases |a| + |b|
  {
    if a == [] || b == [] {
    } else if Ahead(b[0], a[0], asc) {
      MergePermutes(a, b[1..], asc);
      MergeTakesB(a, b, asc);
      assert b == [b[0]] + b[1..];
      assert multiset(b) == multiset([b[0]]) + multiset(b[1..]);
    } else {
      MergePermutes(a[1..], b, asc);
      MergeTakesA(a, b, asc);
      assert a == [a[0]] + a[1..];
      assert multiset(a) == multiset([a[0]]) + multiset(a[1..]);
    }
  }

  lemma SortedCons(h: Row, r: seq<Row>, asc: bool)
    requires Sorted(r, asc)
    requires forall y :: y in r ==> !Ahead(y, h, asc)
    ensures Sorted([h] + r, asc)
  {
    var s := [h] + r;
    forall i, j | 0 <= i < j < |s| ensures !Ahead(s[j], s[i], asc) {
      assert s[j] == r[j - 1];
      if i > 0 { assert s[i] == r[i - 1]; }
    }
  }

  lemma {:induction false} MergeSorted(a: seq<Row>, b: seq<Row>, asc: bool)
    requires Sorted(a, asc) && Sorted(b, asc)
    ensures Sorted(Merge(a, b, asc), asc)
    decreases |a| + |b|
  {
    if a == [] || b == [] {
    } else if Ahead(b[0], a[0], asc) {
      var r := Merge(a, b[1..], asc);
      MergeSorted(a, b[1..], asc);
      MergePermutes(a, b[1..], asc);
      forall y | y in r ensures !Ahead(y, b[0], asc) {
        assert y in multiset(r);
        if y in a {
          var j :| 0 <= j < |a| && a[j] == y;
          assert j > 0 ==> !Ahead(a[j], a[0], asc);
        } else {
          var j :| 0 <= j < |b[1..]| && b[1..][j] == y;
          assert b[j + 1] == y;
        }
      }
      SortedCons(b[0], r, asc);
    } else {
      var r := Merge(a[1..], b, asc);
      MergeSorted(a[1..], b, asc);
      MergePermutes(a[1..], b, asc);
      forall y | y in r ensures !Ahead(y, a[0], asc) {
        assert y in multiset(r);
        if y in b {
          var j :| 0 <= j < |b| && b[j] == y;
          assert j > 0 ==> !Ahead(b[j], b[0], asc);
        } else {
          var j :| 0 <= j < |a[1..]| && a[1..][j] == y;
          assert a[j + 1] == y;
        }
      }
      SortedCons(a[0], r, asc);
    }
  }

  /** `Sort` orders its input and is a permutation of it. */
  lemma {:induction false} SortSorted(s: seq<Row>, asc: bool)
    ensures Sorted(Sort(s, asc), asc)
    ensures multiset(Sort(s, asc)) == multiset(s)
    decreases |s|
  {
    if s != [] {
      SortSorted(s[..|s| - 1], asc);
      MergeSorted(Sort(s[..|s| - 1], asc), [s[|s| - 1]], asc);
      MergePermutes(Sort(s[..|s| - 1], asc), [s[|s| - 1]], asc);
      assert s == s[..|s| - 1] + [s[|s| - 1]];
    }
  }

  /** When nothing in `b` ranks ahead of anything in `a`, merging is concatenation. */
  lemma {:induction false} MergeNoneAhead(a: seq<Row>, b: seq<Row>, asc: bool)
    requires forall i, j :: 0 <= i < |a| && 0 <= j < |b| ==> !Ahead(b[j], a[i], asc)
    ensures Merge(a, b, asc) == a + b
    decreases |a|
  {
    if a != [] && b != [] {
      MergeNoneAhead(a[1..], b, asc);
      assert [a[0]] + (a[1..] + b) == a + b;
    }
  }

  /** Sorting a sorted list changes nothing. */
  lemma {:induction false} SortOfSorted(s: seq<Row>, asc: bool)
    requires Sorted(s, asc)
    ensures Sort(s, asc) == s
    decreases |s|
  {
    if s != [] {
      var init := s[..|s| - 1];
      SortOfSorted(init, asc);
      MergeNoneAhead(init, [s[|s| - 1]], asc);
      assert init + [s[|s| - 1]] == s;
    }
  }

  // ---------------------------------------------------------------------------
  // Stability: sorting a concatenation merges the sorted parts, left part first on ties
  // ---------------------------------------------------------------------------

  lemma {:induction false} MergeAssociative(a: seq<Row>, b: seq<Row>, c: seq<Row>, asc: bool)
    ensures Merge(Merge(a, b, asc), c, asc) == Merge(a, Merge(b, c, asc), asc)
    decreases |a| + |b| + |c|
  {
    if a == [] || b == [] || c == [] {
    } else if Ahead(c[0], a[0], asc) && Ahead(c[0], b[0], asc) {
      MergeAssociative(a, b, c[1..], asc);
      var bc := Merge(b, c[1..], asc);
      assert Merge(b, c, asc) == [c[0]] + bc;
      assert ([c[0]] + bc)[1..] == bc;
    } else if Ahead(b[0], a[0], asc) {
      MergeAssociative(a, b[1..], c, asc);
      var bc := Merge(b[1..], c, asc);
      assert Merge(b, c, asc) == [b[0]] + bc;
      assert ([b[0]] + bc)[1..] == bc;
      var ab := Merge(a, b[1..], asc);
      assert Merge(a, b, asc) == [b[0]] + ab;
      assert ([b[0]] + ab)[1..] == ab;
    } else {
      MergeAssociative(a[1..], b, c, asc);
      var ab := Merge(a[1..], b, asc);
      assert Merge(a, b, asc) == [a[0]] + ab;
      assert ([a[0]] + ab)[1..] == ab;
    }
  }

  /**
   * Stability: the sorted concatenation is the merge of the sorted parts, and
   * the merge keeps rows of `a` ahead of equal rows of `b`.
   */
  lemma {:induction false} SortAppend(a: seq<Row>, b: seq<Row>, asc: bool)
    ensures Sort(a + b, asc) == Merge(Sort(a, asc), Sort(b, asc), asc)
    decreases |b|
  {
    if b == [] {
      assert a + b == a;
    } else {
      var init, x := b[..|b| - 1], b[|b| - 1];
      assert (a + b)[..|a + b| - 1] == a + init;
      SortAppend(a, init, asc);
      MergeAssociative(Sort(a, asc), Sort(init, asc), [x], asc);
    }
  }

  // ---------------------------------------------------------------------------
  // Truncation commutes with merging
  // ---------------------------------------------------------------------------

  lemma TakePrefix(s: seq<Row>, n: int)
    ensures Take(s, n) == s[..|Take(s, n)|]
  {
  }

  lemma TakeCons(s: seq<Row>, n: int)
    requires n > 0 && s != []
    ensures Take(s, n) != [] && Take(s, n)[0] == s[0] && Take(s, n)[1..] == Take(s[1..], n - 1)
  {
  }

  lemma TakeOfCons(h: Row, s: seq<Row>, n: int)
    requires n > 0
    ensures Take([h] + s, n) == [h] + Take(s, n - 1)
  {
  }

  lemma TakeTake(s: seq<Row>, m: int, n: int)
    requires n <= m
    ensures Take(Take(s, m), n) == Take(s, n)
  {
  }

  lemma MergeTakesB(a: seq<Row>, b: seq<Row>, asc: bool)
    requires a != [] && b != [] && Ahead(b[0], a[0], asc)
    ensures Merge(a, b, asc) == [b[0]] + Merge(a, b[1..], asc)
  {
  }

  lemma MergeTakesA(a: seq<Row>, b: seq<Row>, asc: bool)
    requires a != [] && b != [] && !Ahead(b[0], a[0], asc)
    ensures Merge(a, b, asc) == [a[0]] + Merge(a[1..], b, asc)
  {
  }

  lemma TakeSameHead(h: Row, m1: seq<Row>, m2: seq<Row>, n: int)
    requires n > 0 && Take(m1, n - 1) == Take(m2, n - 1)
    ensures Take([h] + m1, n) == Take([h] + m2, n)
  {
    TakeOfCons(h, m1, n);
    TakeOfCons(h, m2, n);
  }

  /** Only the first `n` rows of each side can reach the first `n` rows of a merge. */
  lemma {:induction false} TakeMerge(a: seq<Row>, b: seq<Row>, n: int, asc: bool)
    ensures Take(Merge(a, b, asc), n) == Take(Merge(Take(a, n), Take(b, n), asc), n)
    decreases if n < 0 then 0 else n, 1
  {
    if n <= 0 {
    } else if a == [] {
      TakeTake(b, n, n);
    } else if b == [] {
      TakeTake(a, n, n);
    } else if Ahead(b[0], a[0], asc) {
      TakeMergeFromB(a, b, n, asc);
    } else {
      TakeMergeFromA(a, b, n, asc);
    }
  }

  lemma {:induction false} TakeMergeFromB(a: seq<Row>, b: seq<Row>, n: int, asc: bool)
    requires n > 0 && a != [] && b != [] && Ahead(b[0], a[0], asc)
    ensures Take(Merge(a, b, asc), n) == Take(Merge(Take(a, n), Take(b, n), asc), n)
    decreases n, 0
  {
    var ta, b1 := Take(a, n), b[1..];
    var tb1 := Take(b1, n - 1);
    assert Take(Merge(a, b1, asc), n - 1) == Take(Merge(ta, tb1, asc), n - 1) by {
      var ta1 := Take(a, n - 1);
      TakeMerge(a, b1, n - 1, asc);
      TakeMerge(ta, tb1, n - 1, asc);
      TakeTake(a, n, n - 1);
      TakeTake(b1, n - 1, n - 1);
      assert Take(Merge(a, b1, asc), n - 1) == Take(Merge(ta1, tb1, asc), n - 1);
      assert Take(Merge(ta, tb1, asc), n - 1) == Take(Merge(ta1, tb1, asc), n - 1);
    }
    assert Merge(Take(a, n), Take(b, n), asc) == [b[0]] + Merge(ta, tb1, asc) by {
      TakeCons(a, n);
      TakeCons(b, n);
      MergeTakesB(Take(a, n), Take(b, n), asc);
    }
    MergeTakesB(a, b, asc);
    TakeSameHead(b[0], Merge(a, b1, asc), Merge(ta, tb1, asc), n);
  }

  lemma {:induction false} TakeMergeFromA(a: seq<Row>, b: seq<Row>, n: int, asc: bool)
    requires n > 0 && a != [] && b != [] && !Ahead(b[0], a[0], asc)
    ensures Take(Merge(a, b, asc), n) == Take(Merge(Take(a, n), Take(b, n), asc), n)
    decreases n, 0
  {
    var a1, tb := a[1..], Take(b, n);
    var ta1 := Take(a1, n - 1);
    assert Take(Merge(a1, b, asc), n - 1) == Take(Merge(ta1, tb, asc), n - 1) by {
      var tb1 := Take(b, n - 1);
      TakeMerge(a1, b, n - 1, asc);
      TakeMerge(ta1, tb, n - 1, asc);
      TakeTake(a1, n - 1, n - 1);
      TakeTake(b, n, n - 1);
      assert Take(Merge(a1, b, asc), n - 1) == Take(Merge(ta1, tb1, asc), n - 1);
      assert Take(Merge(ta1, tb, asc), n - 1) == Take(Merge(ta1, tb1, asc), n - 1);
    }
    assert Merge(Take(a, n), Take(b, n), asc) == [a[0]] + Merge(ta1, tb, asc) by {
      TakeCons(a, n);
      TakeCons(b, n);
      MergeTakesA(Take(a, n), Take(b, n), asc);
    }
    MergeTakesA(a, b, asc);
    TakeSameHead(a[0], Merge(a1, b, asc), Merge(ta1, tb, asc), n);
  }

  lemma TakeSorted(s: seq<Row>, n: int, asc: bool)
    requires Sorted(s, asc)
    ensures Sorted(Take(s, n), asc)
  {
  }

  // ---------------------------------------------------------------------------
  // What the best-n selection promises
  // ---------------------------------------------------------------------------

  /**
   * The two-level reduction loses nothing: the best n of (best n of `a`) and
   * (best n of `b`) are exactly the best n of `a + b`, rows of equal value
   * included, in first-seen order.
   */
  lemma BestOfBest(a: seq<Row>, b: seq<Row>, n: int, asc: bool)
    ensures Best(Best(a, n, asc) + Best(b, n, asc), n, asc) == Best(a + b, n, asc)
  {
    var sa, sb := Sort(a, asc), Sort(b, asc);
    SortSorted(a, asc);
    SortSorted(b, asc);
    TakeSorted(sa, n, asc);
    TakeSorted(sb, n, asc);
    SortOfSorted(Take(sa, n), asc);
    SortOfSorted(Take(sb, n), asc);
    SortAppend(Take(sa, n), Take(sb, n), asc);
    TakeMerge(sa, sb, n, asc);
    SortAppend(a, b, asc);
  }

  /**
   * The selection keeps the n best rows: it has min(n, |s|) rows, is sorted, and
   * together with the rows it leaves out is a permutation of `s`, none of the
   * left-out rows ranking strictly ahead of a kept one.
   */
  lemma BestIsTopN(s: seq<Row>, n: int, asc: bool)
    ensures |Best(s, n, asc)| == if n <= 0 then 0 else if n < |s| then n else |s|
    ensures Sorted(Best(s, n, asc), asc)
    ensures multiset(Best(s, n, asc)) + multiset(Sort(s, asc)[|Best(s, n, asc)|..]) == multiset(s)
    ensures forall x, y :: x in Best(s, n, asc) && y in Sort(s, asc)[|Best(s, n, asc)|..] ==> !Ahead(y, x, asc)
  {
    var t := Sort(s, asc);
    SortSorted(s, asc);
    TakeSorted(t, n, asc);
    TakePrefix(t, n);
    assert |t| == |multiset(t)| == |multiset(s)| == |s|;
    var k := |Take(t, n)|;
    assert Best(s, n, asc) == t[..k];
    assert t == t[..k] + t[k..];
    SortedSplit(t, k, asc);
  }

  /** Cutting a sorted list leaves nothing behind the cut ranked ahead of what precedes it. */
  lemma SortedSplit(t: seq<Row>, k: int, asc: bool)
    requires Sorted(t, asc) && 0 <= k <= |t|
    ensures forall x, y :: x in t[..k] && y in t[k..] ==> !Ahead(y, x, asc)
  {
    forall x, y | x in t[..k] && y in t[k..] ensures !Ahead(y, x, asc) {
      var i :| 0 <= i < k && t[..k][i] == x;
      var j :| 0 <= j < |t[k..]| && t[k..][j] == y;
      assert t[i] == x && t[k + j] == y;
    }
  }

  /**
   * First-seen wins at the cut: once n rows are held, rows seen later that do not
   * rank strictly ahead of the worst held row (equal values included) displace nothing.
   */
  lemma LaterTiesKeepEarlier(seen: seq<Row>, later: seq<Row>, n: int, asc: bool)
    requires n > 0 && |Best(seen, n, asc)| == n
    requires forall y :: y in later ==> !Ahead(y, Best(seen, n, asc)[n - 1], asc)
    ensures Best(seen + later, n, asc) == Best(seen, n, asc)
  {
    var held := Best(seen, n, asc);
    var sl := Sort(later, asc);
    SortSorted(seen, asc);
    SortSorted(later, asc);
    TakeSorted(Sort(seen, asc), n, asc);
    SortAppend(seen, later, asc);
    TakeMerge(Sort(seen, asc), sl, n, asc);
    forall i, j | 0 <= i < |held| && 0 <= j < |Take(sl, n)| ensures !Ahead(Take(sl, n)[j], held[i], asc) {
      TakePrefix(sl, n);
      assert Take(sl, n)[j] == sl[j];
      assert sl[j] in multiset(sl);
      assert sl[j] in later;
      assert i < n - 1 ==> !Ahead(held[n - 1], held[i], asc);
    }
    MergeNoneAhead(held, Take(sl, n), asc);
    assert Take(held + Take(sl, n), n) == held;
  }

  // ---------------------------------------------------------------------------
  // The per-report loop
  // ---------------------------------------------------------------------------

  /** A report's entries tagged with its file and report number (the two inserted columns). */
  function Tagged(r: Report): seq<Row> {
    seq(|r.entries|, i requires 0 <= i < |r.entries| =>
      Row(r.path, ReportNumber(r.path), r.entries[i].step, r.entries[i].value))
  }

  /** `x` is a line of report `r`, tagged with its file and report number. */
  predicate LineOf(x: Row, r: Report) {
    x.file == r.path && x.report == ReportNumber(x.file) && Entry(x.step, x.value) in r.entries
  }

  /** `x` is a line of one of `reports`, tagged with that report's file and report number. */
  predicate FromReport(x: Row, reports: seq<Report>) {
    exists k :: 0 <= k < |reports| && LineOf(x, reports[k])
  }

  /** Every row of every report, reports in order. */
  function AllRows(reports: seq<Report>): seq<Row>
    decreases |reports|
  {
    if reports == [] then [] else AllRows(reports[..|reports| - 1]) + Tagged(reports[|reports| - 1])
  }

  /** Each row of `AllRows` is a line of some report, tagged with that report's file and number. */
  lemma {:induction false} AllRowsProvenance(reports: seq<Report>, x: Row)
    requires x in AllRows(reports)
    ensures FromReport(x, reports)
    decreases |reports|
  {
    var k := |reports| - 1;
    var init := reports[..k];
    var earlier, last := AllRows(init), Tagged(reports[k]);
    assert AllRows(reports) == earlier + last;
    if x in earlier {
      AllRowsProvenance(init, x);
      FromPrefix(reports, k, x);
    } else {
      assert x in last;
      FromTagged(reports, k, x);
    }
  }

  lemma FromPrefix(reports: seq<Report>, k: int, x: Row)
    requires 0 <= k <= |reports| && FromReport(x, reports[..k])
    ensures FromReport(x, reports)
  {
    var j :| 0 <= j < k && LineOf(x, reports[..k][j]);
    assert reports[..k][j] == reports[j];
    assert LineOf(x, reports[j]);
  }

  lemma FromTagged(reports: seq<Report>, k: int, x: Row)
    requires 0 <= k < |reports| && x in Tagged(reports[k])
    ensures FromReport(x, reports)
  {
    TaggedLines(reports[k]);
    assert LineOf(x, reports[k]);
  }

  /**
   * The rows a report contributes are exactly its lines, one row per line, each
   * tagged with the report's path and the report number read from that path.
   */
  lemma TaggedLines(r: Report)
    ensures |Tagged(r)| == |r.entries|
    ensures forall x :: x in Tagged(r) <==> LineOf(x, r)
  {
    forall x | LineOf(x, r) ensures x in Tagged(r) {
      LineIsTagged(r, x);
    }
    forall x | x in Tagged(r) ensures LineOf(x, r) {
      TaggedIsLine(r, x);
    }
  }

  lemma LineIsTagged(r: Report, x: Row)
    requires LineOf(x, r)
    ensures x in Tagged(r)
  {
    var i :| 0 <= i < |r.entries| && r.entries[i] == Entry(x.step, x.value);
    assert Tagged(r)[i] == x;
  }

  lemma TaggedIsLine(r: Report, x: Row)
    requires x in Tagged(r)
    ensures LineOf(x, r)
  {
    var i :| 0 <= i < |Tagged(r)| && Tagged(r)[i] == x;
    assert r.entries[i] == Entry(x.step, x.value);
  }

  /** The global selection is bounded by n, sorted, and made of report lines. */
  lemma RankedRows(reports: seq<Report>, n: int, asc: bool)
    ensures |Best(AllRows(reports), n, asc)| <= (if n < 0 then 0 else n)
    ensures Sorted(Best(AllRows(reports), n, asc), asc)
    ensures forall x :: x in Best(AllRows(reports), n, asc) ==> FromReport(x, reports)
  {
    var best := Best(AllRows(reports), n, asc);
    BestIsTopN(AllRows(reports), n, asc);
    forall x | x in best ensures FromReport(x, reports) {
      assert x in multiset(best);
      assert x in multiset(AllRows(reports));
      AllRowsProvenance(reports, x);
    }
  }

  /**
   * `parse_values`: for each report, its local best n rows are tagged, appended
   * after the running set, and the whole is cut back to the best n. The result
   * is the global best n rows over all reports, sorted in the chosen direction,
   * and every row names the report file it came from.
   */
  method ParseValues(reports: seq<Report>, n: int, sortOrder: string) returns (best: seq<Row>)
    ensures best == Best(AllRows(reports), n, Ascending(sortOrder))
    ensures |best| <= (if n < 0 then 0 else n)
    ensures Sorted(best, Ascending(sortOrder))
    ensures forall x :: x in best ==> FromReport(x, reports)
  {
    best := [];
    var i := 0;
    while i < |reports|
      invariant 0 <= i <= |reports|
      invariant best == Best(AllRows(reports[..i]), n, Ascending(sortOrder))
    {
      var tagged := Tagged(reports[i]);
      assert AllRows(reports[..i + 1]) == AllRows(reports[..i]) + tagged by {
        assert reports[..i + 1][..i] == reports[..i];
      }
      BestOfBest(AllRows(reports[..i]), tagged, n, Ascending(sortOrder));
      if sortOrder == "min" {
        var reportValues := Best(tagged, n, true);
        best := Best(best + reportValues, n, true);
      } else {
        var reportValues := Best(tagged, n, false);
        best := Best(best + reportValues, n, false);
      }
      i := i + 1;
    }
    assert reports[..i] == reports;
    RankedRows(reports, n, Ascending(sortOrder));
  }
}
