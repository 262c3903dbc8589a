/**
 * Frames and the merge engine of `src/features/highlight-editor/selection.ts`:
 * `groupSelections` cuts the list at separators, `mergeGroup` turns one
 * frame into its canonical form (decompose, full lines win over columns,
 * coalesce consecutive numbers, back to half-open columns, sort by start),
 * and `Selections.toString` renders all frames.
 */
module Merge {
  import opened Text
  import opened Selection

  // ---------------------------------------------------------------------
  // Frames: groupSelections

  predicate NoSeparator(group: seq<Entry>)
  {
    forall i :: 0 <= i < |group| ==> !group[i].Separator?
  }

  /** The entries that are not separators, in order. */
  function NonSeparators(items: seq<Entry>): (r: seq<Entry>)
    ensures NoSeparator(r)
  {
    if |items| == 0 then []
    else if items[0].Separator? then NonSeparators(items[1..])
    else [items[0]] + NonSeparators(items[1..])
  }

  function SeparatorCount(items: seq<Entry>): nat
  {
    if |items| == 0 then 0 else (if items[0].Separator? then 1 else 0) + SeparatorCount(items[1..])
  }

  function Flatten(groups: seq<seq<Entry>>): seq<Entry>
  {
    if |groups| == 0 then [] else groups[0] + Flatten(groups[1..])
  }

  /**
   * The runs of entries between separators, like a split on separators:
   * one more run than there are separators, possibly empty ones.
   */
  function Segments(items: seq<Entry>): (r: seq<seq<Entry>>)
    ensures |r| == SeparatorCount(items) + 1
    ensures forall i :: 0 <= i < |r| ==> NoSeparator(r[i])
  {
    if |items| == 0 then [[]]
    else
      var rest := Segments(items[1..]);
      if items[0].Separator? then [[]] + rest
      else [[items[0]] + rest[0]] + rest[1..]
  }

  /** The runs between separators concatenate to the non-separator entries. */
  lemma {:induction false} SegmentsFlatten(items: seq<Entry>)
    ensures Flatten(Segments(items)) == NonSeparators(items)
  {
    if |items| > 0 {
      SegmentsFlatten(items[1..]);
      var rest := Segments(items[1..]);
      if items[0].Separator? {
        assert ([[]] + rest)[1..] == rest;
      } else {
        var r := [[items[0]] + rest[0]] + rest[1..];
        assert r[1..] == rest[1..];
        assert Flatten(rest) == rest[0] + Flatten(rest[1..]);
      }
    }
  }

  function DropTrailingEmpty(groups: seq<seq<Entry>>): seq<seq<Entry>>
  {
    if |groups| > 0 && groups[|groups| - 1] == [] then groups[..|groups| - 1] else groups
  }

  /** The `forEach` of `groupSelections`: closed groups and the group being filled. */
  function GroupFrom(items: seq<Entry>, groups: seq<seq<Entry>>, current: seq<Entry>): seq<seq<Entry>>
  {
    if |items| == 0 then (if |current| > 0 then groups + [current] else groups)
    else if items[0].Separator? then GroupFrom(items[1..], groups + [current], [])
    else GroupFrom(items[1..], groups, current + [items[0]])
  }

  /** `groupSelections`: every separator closes a group, even an empty one; a trailing empty group is left out. */
  function GroupSelections(items: seq<Entry>): seq<seq<Entry>>
  {
    GroupFrom(items, [], [])
  }

  lemma {:induction false} GroupFromSegments(items: seq<Entry>, groups: seq<seq<Entry>>, current: seq<Entry>)
    ensures GroupFrom(items, groups, current) ==
      groups + DropTrailingEmpty([current + Segments(items)[0]] + Segments(items)[1..])
  {
    if |items| == 0 {
      var segs := Segments(items);
      assert segs == [[]];
      assert current + segs[0] == current;
      assert [current + segs[0]] + segs[1..] == [current];
    } else if items[0].Separator? {
      GroupFromSegments(items[1..], groups + [current], []);
      SeparatorStep(items, current);
    } else {
      GroupFromSegments(items[1..], groups, current + [items[0]]);
      EntryStep(items, current);
    }
  }

  lemma SeparatorStep(items: seq<Entry>, current: seq<Entry>)
    requires |items| > 0 && items[0].Separator?
    ensures var rest := Segments(items[1..]);
      DropTrailingEmpty([current + Segments(items)[0]] + Segments(items)[1..])
      == [current] + DropTrailingEmpty([[] + rest[0]] + rest[1..])
  {
    var rest := Segments(items[1..]);
    var segs := Segments(items);
    assert segs == [[]] + rest;
    assert [] + rest[0] == rest[0];
    assert [[] + rest[0]] + rest[1..] == rest;
    assert current + segs[0] == current;
    assert [current + segs[0]] + segs[1..] == [current] + rest;
    DropTrailingEmptyCons(current, rest);
  }

  lemma DropTrailingEmptyCons(x: seq<Entry>, rest: seq<seq<Entry>>)
    requires |rest| >= 1
    ensures DropTrailingEmpty([x] + rest) == [x] + DropTrailingEmpty(rest)
  {
    var all := [x] + rest;
    assert all[|all| - 1] == rest[|rest| - 1];
    assert all[..|all| - 1] == [x] + rest[..|rest| - 1];
  }

  lemma EntryStep(items: seq<Entry>, current: seq<Entry>)
    requires |items| > 0 && !items[0].Separator?
    ensures var rest := Segments(items[1..]);
      [current + Segments(items)[0]] + Segments(items)[1..]
      == [current + [items[0]] + rest[0]] + rest[1..]
  {
    var rest := Segments(items[1..]);
    var segs := Segments(items);
    assert segs == [[items[0]] + rest[0]] + rest[1..];
    ExtendFirstSegment(items[0], current, segs, rest);
  }

  lemma ExtendFirstSegment(x: Entry, current: seq<Entry>, segs: seq<seq<Entry>>, rest: seq<seq<Entry>>)
    requires |rest| >= 1 && segs == [[x] + rest[0]] + rest[1..]
    ensures [current + segs[0]] + segs[1..] == [current + [x] + rest[0]] + rest[1..]
  {
    assert current + segs[0] == current + [x] + rest[0];
    assert segs[1..] == rest[1..];
  }

  lemma FlattenDropTrailingEmpty(groups: seq<seq<Entry>>)
    ensures Flatten(DropTrailingEmpty(groups)) == Flatten(groups)
  {
    if |groups| > 0 && groups[|groups| - 1] == [] {
      FlattenAppend(groups[..|groups| - 1], [[]]);
      assert groups[..|groups| - 1] + [[]] == groups;
    }
  }

  lemma {:induction false} FlattenAppend(a: seq<seq<Entry>>, b: seq<seq<Entry>>)
    ensures Flatten(a + b) == Flatten(a) + Flatten(b)
  {
    if |a| > 0 {
      assert (a + b)[1..] == a[1..] + b;
      FlattenAppend(a[1..], b);
    } else {
      assert a + b == b;
    }
  }

  /**
   * The frames are the runs between separators with a trailing empty run
   * dropped: no frame holds a separator, the frames concatenate to the
   * non-separator entries in order, and there is one frame per separator
   * plus one for a non-empty tail.
   */
  lemma GroupSelectionsSpec(items: seq<Entry>)
    ensures GroupSelections(items) == DropTrailingEmpty(Segments(items))
    ensures forall i :: 0 <= i < |GroupSelections(items)| ==> NoSeparator(GroupSelections(items)[i])
    ensures Flatten(GroupSelections(items)) == NonSeparators(items)
    ensures |GroupSelections(items)| ==
      SeparatorCount(items) + (if Segments(items)[|Segments(items)| - 1] == [] then 0 else 1)
  {
    var segs := Segments(items);
    GroupSelectionsSegments(items);
    DropTrailingEmptyFacts(segs);
    FlattenDropTrailingEmpty(segs);
    SegmentsFlatten(items);
  }

  lemma GroupSelectionsSegments(items: seq<Entry>)
    ensures GroupSelections(items) == DropTrailingEmpty(Segments(items))
  {
    var segs := Segments(items);
    GroupFromSegments(items, [], []);
    assert [] + segs[0] == segs[0];
    assert [[] + segs[0]] + segs[1..] == segs;
  }

  lemma DropTrailingEmptyFacts(segs: seq<seq<Entry>>)
    requires |segs| >= 1
    ensures var g := DropTrailingEmpty(segs);
      && |g| == |segs| - (if segs[|segs| - 1] == [] then 1 else 0)
      && forall i :: 0 <= i < |g| ==> g[i] == segs[i]
  {
  }

  // ---------------------------------------------------------------------
  // Sorting a set of numbers and coalescing consecutive numbers

  /**
   * Searching upwards from a lower bound `k` of `s` reaches a least
   * element no later than the element `y`.
   */
  lemma {:induction false} MinAbove(s: set<nat>, y: nat, k: nat)
    requires y in s && k <= y
    requires forall x :: x in s ==> k <= x
    ensures exists m :: m in s && forall x :: x in s ==> m <= x
    decreases y - k
  {
    if k !in s {
      forall x | x in s ensures k + 1 <= x {
        assert x != k;
      }
      MinAbove(s, y, k + 1);
    }
  }

  /** Every non-empty set of numbers has a least element. */
  lemma MinExists(s: set<nat>)
    requires s != {}
    ensures exists m :: m in s && forall x :: x in s ==> m <= x
  {
    var y :| y in s;
    MinAbove(s, y, 0);
  }

  function Min(s: set<nat>): (m: nat)
    requires s != {}
    ensures m in s && forall x :: x in s ==> m <= x
  {
    MinExists(s);
    var m :| m in s && forall x :: x in s ==> m <= x;
    m
  }

  predicate Increasing(xs: seq<nat>)
  {
    forall i, j :: 0 <= i < j < |xs| ==> xs[i] < xs[j]
  }

  /** `[...set].sort((a, b) => a - b)`: the elements in ascending order. */
  function SortAsc(s: set<nat>): (r: seq<nat>)
    ensures Increasing(r)
    ensures forall x :: x in r <==> x in s
    decreases |s|
  {
    if s == {} then []
    else
      var m := Min(s);
      [m] + SortAsc(s - {m})
  }

  /** A maximal run of consecutive numbers `lo .. hi`. */
  datatype Run = Run(lo: nat, hi: nat)

  /** Non-empty runs, in order, neither overlapping nor touching. */
  predicate CanonicalRuns(runs: seq<Run>)
  {
    && (forall i :: 0 <= i < |runs| ==> runs[i].lo <= runs[i].hi)
    && (forall i, j :: 0 <= i < j < |runs| ==> runs[i].hi + 1 < runs[j].lo)
  }

  /** Some run covers `x`. */
  ghost predicate InRuns(runs: seq<Run>, x: nat)
  {
    exists i :: 0 <= i < |runs| && runs[i].lo <= x <= runs[i].hi
  }

  /** The runs with the last one extended up to `x`. */
  function WithLastExtended(runs: seq<Run>, x: nat): seq<Run>
    requires |runs| > 0
  {
    runs[..|runs| - 1] + [Run(runs[|runs| - 1].lo, x)]
  }

  /** Extending the last run by the number just past it keeps the runs canonical. */
  lemma ExtendLastRunCanonical(runs: seq<Run>, x: nat)
    requires CanonicalRuns(runs) && |runs| > 0 && x == runs[|runs| - 1].hi + 1
    ensures CanonicalRuns(WithLastExtended(runs, x))
  {
    var n := |runs| - 1;
    var r := WithLastExtended(runs, x);
    assert forall i :: 0 <= i < n ==> r[i] == runs[i];
    assert r[n] == Run(runs[n].lo, x);
    forall i, j | 0 <= i < j < |r| ensures r[i].hi + 1 < r[j].lo {
      assert runs[i].hi + 1 < runs[j].lo;
    }
  }

  /** ... and adds exactly `x` to what they cover. */
  lemma ExtendLastRunCover(runs: seq<Run>, x: nat)
    requires CanonicalRuns(runs) && |runs| > 0 && x == runs[|runs| - 1].hi + 1
    ensures forall y: nat :: InRuns(WithLastExtended(runs, x), y) <==> InRuns(runs, y) || y == x
  {
    forall y: nat ensures InRuns(WithLastExtended(runs, x), y) <==> InRuns(runs, y) || y == x {
      ExtendLastRunCoverAt(runs, x, y);
    }
  }

  lemma ExtendLastRunCoverAt(runs: seq<Run>, x: nat, y: nat)
    requires CanonicalRuns(runs) && |runs| > 0 && x == runs[|runs| - 1].hi + 1
    ensures InRuns(WithLastExtended(runs, x), y) <==> InRuns(runs, y) || y == x
  {
    var n := |runs| - 1;
    var r := WithLastExtended(runs, x);
    if InRuns(r, y) {
      var i :| 0 <= i < |r| && r[i].lo <= y <= r[i].hi;
      if i < n {
        assert r[i] == runs[i];
        assert runs[i].lo <= y <= runs[i].hi;
      } else if y != x {
        assert runs[n].lo <= y <= runs[n].hi;
      }
    }
    if InRuns(runs, y) {
      var i :| 0 <= i < |runs| && runs[i].lo <= y <= runs[i].hi;
      if i < n {
        assert r[i] == runs[i];
      }
      assert r[i].lo <= y <= r[i].hi;
    }
    if y == x {
      assert r[n].lo <= y <= r[n].hi;
    }
  }

  /** A new one-number run far enough past the last run keeps the runs canonical. */
  lemma AppendRunCanonical(runs: seq<Run>, x: nat)
    requires CanonicalRuns(runs) && (|runs| > 0 ==> runs[|runs| - 1].hi + 1 < x)
    ensures CanonicalRuns(runs + [Run(x, x)])
  {
    var r := runs + [Run(x, x)];
    assert forall i :: 0 <= i < |runs| ==> r[i] == runs[i];
    forall i, j | 0 <= i < j < |r| ensures r[i].hi + 1 < r[j].lo {
      if j < |runs| {
        assert runs[i].hi + 1 < runs[j].lo;
      } else if i < |runs| - 1 {
        assert runs[i].hi + 1 < runs[|runs| - 1].lo;
      }
    }
  }

  /** ... and adds exactly `x` to what they cover. */
  lemma AppendRunCover(runs: seq<Run>, x: nat)
    ensures forall y: nat :: InRuns(runs + [Run(x, x)], y) <==> InRuns(runs, y) || y == x
  {
    var r := runs + [Run(x, x)];
    assert forall i :: 0 <= i < |runs| ==> r[i] == runs[i];
    forall y: nat ensures InRuns(r, y) <==> InRuns(runs, y) || y == x {
      if InRuns(r, y) {
        var i :| 0 <= i < |r| && r[i].lo <= y <= r[i].hi;
        if i < |runs| {
          assert runs[i].lo <= y <= runs[i].hi;
        }
      }
      if InRuns(runs, y) {
        var i :| 0 <= i < |runs| && runs[i].lo <= y <= runs[i].hi;
        assert r[i].lo <= y <= r[i].hi;
      }
      if y == x {
        assert r[|runs|].lo <= y <= r[|runs|].hi;
      }
    }
  }

  /**
   * The `forEach` over sorted numbers with a `currentRange`: a number one
   * past the current run extends it, any other number starts a new run.
   */
  function Coalesce(xs: seq<nat>): (runs: seq<Run>)
    requires Increasing(xs)
    ensures CanonicalRuns(runs)
    ensures forall x :: InRuns(runs, x) <==> x in xs
    ensures |xs| == 0 <==> |runs| == 0
    ensures |xs| > 0 ==> runs[|runs| - 1].hi == xs[|xs| - 1]
  {
    if |xs| == 0 then []
    else
      var init := xs[..|xs| - 1];
      var x := xs[|xs| - 1];
      var runs := Coalesce(init);
      assert xs == init + [x];
      assert forall y :: y in xs <==> y in init || y == x;
      if |runs| > 0 && x == runs[|runs| - 1].hi + 1 then
        ExtendLastRunCanonical(runs, x);
        ExtendLastRunCover(runs, x);
        WithLastExtended(runs, x)
      else
        assert |runs| > 0 ==> runs[|runs| - 1].hi < x;
        AppendRunCanonical(runs, x);
        AppendRunCover(runs, x);
        runs + [Run(x, x)]
  }

  // ---------------------------------------------------------------------
  // Decomposition of a frame (decomposeGroup)

  /** The `forEach` of `decomposeGroup`: every entry adds what it covers. */
  function DecomposeAll(group: seq<Entry>): Coverage
  {
    if |group| == 0 then NoCoverage
    else Decompose(group[|group| - 1], DecomposeAll(group[..|group| - 1]))
  }

  /** Some entry of the list highlights line `l` in full. */
  predicate CoversLine(group: seq<Entry>, l: nat)
  {
    exists e :: e in group && l in EntryLines(e)
  }

  /** Some entry of the list is a partial column entry of line `k`. */
  predicate HasColumnsAt(group: seq<Entry>, k: nat)
  {
    exists e :: e in group && IsPartial(e) && e.start == k
  }

  /** Some partial column entry of line `k` covers cell `c`. */
  predicate CoversCell(group: seq<Entry>, k: nat, c: nat)
  {
    exists e :: e in group && IsPartial(e) && e.start == k && c in AllCells(e.columns)
  }

  /** The accumulated coverage is what the members of the list cover, whatever their order. */
  lemma {:induction false} DecomposeAllMeaning(group: seq<Entry>)
    ensures forall l :: l in DecomposeAll(group).lines <==> CoversLine(group, l)
    ensures forall k :: k in DecomposeAll(group).columns <==> HasColumnsAt(group, k)
    ensures forall k, c :: k in DecomposeAll(group).columns ==>
      (c in DecomposeAll(group).columns[k] <==> CoversCell(group, k, c))
  {
    if |group| > 0 {
      var init := group[..|group| - 1];
      var last := group[|group| - 1];
      DecomposeAllMeaning(init);
      assert group == init + [last];
      assert forall e :: e in group <==> e in init || e == last;
      var before := DecomposeAll(init);
      var after := DecomposeAll(group);
      assert after == Decompose(last, before);
      forall l ensures l in after.lines <==> CoversLine(group, l) {
        if l in after.lines && l !in before.lines {
          assert l in EntryLines(last);
        }
        if CoversLine(group, l) {
          var e :| e in group && l in EntryLines(e);
          if e != last {
            assert CoversLine(init, l);
          }
        }
      }
      forall k ensures k in after.columns <==> HasColumnsAt(group, k) {
        if HasColumnsAt(group, k) {
          var e :| e in group && IsPartial(e) && e.start == k;
          if e != last {
            assert HasColumnsAt(init, k);
          }
        }
      }
      forall k, c | k in after.columns ensures c in after.columns[k] <==> CoversCell(group, k, c) {
        if CoversCell(group, k, c) {
          var e :| e in group && IsPartial(e) && e.start == k && c in AllCells(e.columns);
          if e != last {
            assert CoversCell(init, k, c);
          }
        }
        if c in after.columns[k] {
          if !(IsPartial(last) && k == last.start && c in AllCells(last.columns)) {
            assert k in before.columns && c in before.columns[k];
          }
        }
      }
    }
  }

  /**
   * `decomposeGroup`: the lines covered in full, and per line not covered in
   * full, the cells its partial column entries cover (full lines win).
   */
  function DecomposeGroup(group: seq<Entry>): (cov: Coverage)
    ensures forall l :: l in cov.lines <==> CoversLine(group, l)
    ensures forall k :: k in cov.columns <==> HasColumnsAt(group, k) && !CoversLine(group, k)
    ensures forall k, c :: k in cov.columns ==> (c in cov.columns[k] <==> CoversCell(group, k, c))
  {
    DecomposeAllMeaning(group);
    var all := DecomposeAll(group);
    Coverage(all.lines, all.columns - all.lines)
  }

  /** Two lists with the same members decompose alike. */
  lemma SameMembersSameCoverage(a: seq<Entry>, b: seq<Entry>)
    requires forall e :: e in a <==> e in b
    ensures DecomposeGroup(a) == DecomposeGroup(b)
  {
    var ca := DecomposeGroup(a);
    var cb := DecomposeGroup(b);
    assert forall l :: CoversLine(a, l) <==> CoversLine(b, l);
    assert forall k :: HasColumnsAt(a, k) <==> HasColumnsAt(b, k);
    assert forall k, c :: CoversCell(a, k, c) <==> CoversCell(b, k, c);
    assert ca.lines == cb.lines;
    assert ca.columns.Keys == cb.columns.Keys;
    forall k | k in ca.columns ensures ca.columns[k] == cb.columns[k] {
      assert forall c :: c in ca.columns[k] <==> c in cb.columns[k];
    }
  }

  // ---------------------------------------------------------------------
  // Sorting by start line: a stable insertion sort, as `Array.prototype.sort` is stable

  predicate SortedByStart(s: seq<Entry>)
    requires NoSeparator(s)
  {
    forall i, j :: 0 <= i < j < |s| ==> s[i].start <= s[j].start
  }

  predicate StrictlySortedByStart(s: seq<Entry>)
    requires NoSeparator(s)
  {
    forall i, j :: 0 <= i < j < |s| ==> s[i].start < s[j].start
  }

  /** Inserts `x` after every entry whose start is not greater than its own. */
  function Insert(x: Entry, ys: seq<Entry>): (r: seq<Entry>)
    requires !x.Separator? && NoSeparator(ys)
    ensures multiset(r) == multiset(ys) + multiset{x}
    ensures NoSeparator(r)
  {
    if |ys| == 0 then [x]
    else if ys[|ys| - 1].start <= x.start then ys + [x]
    else
      var init := ys[..|ys| - 1];
      assert ys == init + [ys[|ys| - 1]];
      Insert(x, init) + [ys[|ys| - 1]]
  }

  lemma AppendSorted(r: seq<Entry>, y: Entry)
    requires !y.Separator? && NoSeparator(r) && SortedByStart(r)
    requires forall z :: z in r ==> z.start <= y.start
    ensures NoSeparator(r + [y]) && SortedByStart(r + [y])
  {
    var t := r + [y];
    forall i, j | 0 <= i < j < |t| ensures t[i].start <= t[j].start {
      if j == |r| {
        assert t[i] in r;
      }
    }
  }

  lemma AppendStrictlySorted(r: seq<Entry>, y: Entry)
    requires !y.Separator? && NoSeparator(r) && StrictlySortedByStart(r)
    requires forall z :: z in r ==> z.start < y.start
    ensures NoSeparator(r + [y]) && StrictlySortedByStart(r + [y])
  {
    var t := r + [y];
    forall i, j | 0 <= i < j < |t| ensures t[i].start < t[j].start {
      if j == |r| {
        assert t[i] in r;
      }
    }
  }

  lemma InsertMembers(x: Entry, ys: seq<Entry>)
    requires !x.Separator? && NoSeparator(ys)
    ensures forall z :: z in Insert(x, ys) ==> z == x || z in ys
  {
    var r := Insert(x, ys);
    forall z | z in r ensures z == x || z in ys {
      assert z in multiset(r);
    }
  }

  lemma {:induction false} InsertSorted(x: Entry, ys: seq<Entry>)
    requires !x.Separator? && NoSeparator(ys)
    requires SortedByStart(ys)
    ensures SortedByStart(Insert(x, ys))
  {
    if |ys| > 0 {
      var init := ys[..|ys| - 1];
      var y := ys[|ys| - 1];
      if y.start <= x.start {
        assert forall z :: z in ys ==> z.start <= x.start;
        AppendSorted(ys, x);
      } else {
        InsertSorted(x, init);
        InsertMembers(x, init);
        AppendSorted(Insert(x, init), y);
      }
    }
  }

  lemma {:induction false} InsertStrictlySorted(x: Entry, ys: seq<Entry>)
    requires !x.Separator? && NoSeparator(ys)
    requires StrictlySortedByStart(ys)
    requires forall y :: y in ys ==> y.start != x.start
    ensures StrictlySortedByStart(Insert(x, ys))
  {
    if |ys| > 0 {
      var init := ys[..|ys| - 1];
      var y := ys[|ys| - 1];
      if y.start <= x.start {
        assert forall z :: z in ys ==> z.start < x.start;
        AppendStrictlySorted(ys, x);
      } else {
        InsertStrictlySorted(x, init);
        InsertMembers(x, init);
        AppendStrictlySorted(Insert(x, init), y);
      }
    }
  }

  /** The stable sort of `mergeGroup` by `compare`, on a list without separators. */
  function SortByStart(s: seq<Entry>): (r: seq<Entry>)
    requires NoSeparator(s)
    ensures multiset(r) == multiset(s)
    ensures NoSeparator(r)
    ensures SortedByStart(r)
  {
    if |s| == 0 then []
    else
      var init := s[..|s| - 1];
      assert s == init + [s[|s| - 1]];
      var sorted := SortByStart(init);
      InsertSorted(s[|s| - 1], sorted);
      Insert(s[|s| - 1], sorted)
  }

  /** Entries with pairwise different starts come out strictly sorted. */
  lemma {:induction false} SortByStartStrict(s: seq<Entry>)
    requires NoSeparator(s)
    requires forall i, j :: 0 <= i < j < |s| ==> s[i].start != s[j].start
    ensures StrictlySortedByStart(SortByStart(s))
  {
    if |s| > 0 {
      var init := s[..|s| - 1];
      var x := s[|s| - 1];
      assert s == init + [x];
      SortByStartStrict(init);
      var sorted := SortByStart(init);
      forall y | y in sorted ensures y.start != x.start {
        assert y in multiset(sorted);
        assert y in init;
      }
      InsertStrictlySorted(x, sorted);
    }
  }

  // ---------------------------------------------------------------------
  // Reconstruction (reconstructRanges, reconstructColumns) and mergeGroup

  predicate IsLineEntry(e: Entry)
  {
    e.Single? || e.Range?
  }

  /** The last line a line entry covers. */
  function LastLine(e: Entry): nat
    requires IsLineEntry(e)
  {
    if e.Range? then e.end else e.start
  }

  /** `addEntry`: a run of width one is a single line, a wider one a range. */
  function LineEntry(r: Run): Entry
  {
    if r.lo == r.hi then Single(r.lo) else Range(r.lo, r.hi)
  }

  function LineEntries(runs: seq<Run>): (r: seq<Entry>)
    ensures |r| == |runs| && forall i :: 0 <= i < |runs| ==> r[i] == LineEntry(runs[i])
  {
    seq(|runs|, i requires 0 <= i < |runs| => LineEntry(runs[i]))
  }

  lemma LineEntriesShape(runs: seq<Run>)
    requires CanonicalRuns(runs)
    ensures var r := LineEntries(runs);
      forall i :: 0 <= i < |r| ==> r[i].Single? || (r[i].Range? && r[i].start < r[i].end)
  {
    var r := LineEntries(runs);
    forall i | 0 <= i < |r| ensures r[i].Single? || (r[i].Range? && r[i].start < r[i].end) {
      assert r[i] == LineEntry(runs[i]);
    }
  }

  lemma LineEntriesApart(runs: seq<Run>)
    requires CanonicalRuns(runs)
    ensures var r := LineEntries(runs);
      forall i, j :: 0 <= i < j < |r| ==> LastLine(r[i]) + 1 < r[j].start
  {
    var r := LineEntries(runs);
    forall i, j | 0 <= i < j < |r| ensures LastLine(r[i]) + 1 < r[j].start {
      assert r[i] == LineEntry(runs[i]) && r[j] == LineEntry(runs[j]);
      assert runs[i].hi + 1 < runs[j].lo;
    }
  }

  /** The lines of a run's entry are exactly the run. */
  lemma LineEntryLines(run: Run, l: nat)
    requires run.lo <= run.hi
    ensures l in EntryLines(LineEntry(run)) <==> run.lo <= l <= run.hi
  {
  }

  lemma LineEntriesCoverAll(runs: seq<Run>, l: nat)
    requires CanonicalRuns(runs)
    requires InRuns(runs, l)
    ensures exists i :: 0 <= i < |LineEntries(runs)| && l in EntryLines(LineEntries(runs)[i])
  {
    var i :| 0 <= i < |runs| && runs[i].lo <= l <= runs[i].hi;
    LineEntryLines(runs[i], l);
    assert LineEntries(runs)[i] == LineEntry(runs[i]);
  }

  lemma LineEntriesCoverOnly(runs: seq<Run>, l: nat, i: nat)
    requires CanonicalRuns(runs)
    requires i < |LineEntries(runs)| && l in EntryLines(LineEntries(runs)[i])
    ensures InRuns(runs, l)
  {
    assert LineEntries(runs)[i] == LineEntry(runs[i]);
    LineEntryLines(runs[i], l);
  }

  lemma LineEntriesCover(runs: seq<Run>, lines: set<nat>)
    requires CanonicalRuns(runs)
    requires forall x :: InRuns(runs, x) <==> x in lines
    ensures var r := LineEntries(runs);
      forall l :: l in lines <==> exists i :: 0 <= i < |r| && l in EntryLines(r[i])
  {
    var r := LineEntries(runs);
    forall l ensures l in lines <==> exists i :: 0 <= i < |r| && l in EntryLines(r[i]) {
      if l in lines {
        LineEntriesCoverAll(runs, l);
      }
      if exists i :: 0 <= i < |r| && l in EntryLines(r[i]) {
        var i :| 0 <= i < |r| && l in EntryLines(r[i]);
        LineEntriesCoverOnly(runs, l, i);
      }
    }
  }

  /**
   * Line entries that write down exactly `lines`: single lines and proper
   * ranges, in order, neither overlapping nor touching.
   */
  ghost predicate RangesFor(ranges: seq<Entry>, lines: set<nat>)
  {
    && (forall i :: 0 <= i < |ranges| ==> ranges[i].Single? || (ranges[i].Range? && ranges[i].start < ranges[i].end))
    && (forall i, j :: 0 <= i < j < |ranges| ==> LastLine(ranges[i]) + 1 < ranges[j].start)
    && (forall l :: l in lines <==> exists i :: 0 <= i < |ranges| && l in EntryLines(ranges[i]))
  }

  /**
   * `reconstructRanges`: the maximal runs of consecutive lines, in order,
   * width-one runs as single lines.
   */
  function ReconstructRanges(lines: set<nat>): (r: seq<Entry>)
    ensures RangesFor(r, lines)
  {
    var runs := Coalesce(SortAsc(lines));
    LineEntriesShape(runs);
    LineEntriesApart(runs);
    LineEntriesCover(runs, lines);
    LineEntries(runs)
  }

  /** Column intervals that are non-empty, in order, and neither overlap nor touch. */
  predicate CanonicalIntervals(columns: seq<Interval>)
  {
    && (forall i :: 0 <= i < |columns| ==> columns[i].from < columns[i].to)
    && (forall i, j :: 0 <= i < j < |columns| ==> columns[i].to < columns[j].from)
  }

  function HalfOpen(runs: seq<Run>): (r: seq<Interval>)
    ensures |r| == |runs| && forall i :: 0 <= i < |runs| ==> r[i] == Interval(runs[i].lo, runs[i].hi + 1)
  {
    seq(|runs|, i requires 0 <= i < |runs| => Interval(runs[i].lo, runs[i].hi + 1))
  }

  lemma HalfOpenFacts(runs: seq<Run>, cells: set<nat>)
    requires CanonicalRuns(runs)
    requires forall x :: InRuns(runs, x) <==> x in cells
    ensures CanonicalIntervals(HalfOpen(runs))
    ensures AllCells(HalfOpen(runs)) == cells
  {
    HalfOpenCanonical(runs);
    forall c ensures c in AllCells(HalfOpen(runs)) <==> c in cells {
      HalfOpenCell(runs, c);
    }
  }

  /** Canonical runs give canonical half-open intervals. */
  lemma HalfOpenCanonical(runs: seq<Run>)
    requires CanonicalRuns(runs)
    ensures CanonicalIntervals(HalfOpen(runs))
  {
    var r := HalfOpen(runs);
    forall i | 0 <= i < |r| ensures r[i].from < r[i].to {
      assert r[i] == Interval(runs[i].lo, runs[i].hi + 1);
    }
    forall i, j | 0 <= i < j < |r| ensures r[i].to < r[j].from {
      assert runs[i].hi + 1 < runs[j].lo;
    }
  }

  /** A cell is in some half-open interval exactly when it is in the corresponding run. */
  lemma HalfOpenCell(runs: seq<Run>, c: nat)
    ensures c in AllCells(HalfOpen(runs)) <==> InRuns(runs, c)
  {
    var r := HalfOpen(runs);
    if InRuns(runs, c) {
      var i :| 0 <= i < |runs| && runs[i].lo <= c <= runs[i].hi;
      assert c in IntervalCells(r[i]);
    }
    if c in AllCells(r) {
      var i :| 0 <= i < |r| && c in IntervalCells(r[i]);
      assert runs[i].lo <= c <= runs[i].hi;
    }
  }

  /**
   * `reconstructColumns`: the maximal runs of consecutive cells, turned back
   * into half-open intervals (`to` is one past the last cell).
   */
  function ReconstructColumns(cells: set<nat>): (r: seq<Interval>)
    ensures CanonicalIntervals(r)
    ensures AllCells(r) == cells
  {
    var runs := Coalesce(SortAsc(cells));
    HalfOpenFacts(runs, cells);
    HalfOpen(runs)
  }

  /** The partial column entry that holds the given cells of line `k`. */
  function ColumnEntry(k: nat, cells: set<nat>): (e: Entry)
    ensures IsPartial(e) && e.start == k
    ensures CanonicalIntervals(e.columns) && AllCells(e.columns) == cells
  {
    Columns(k, ReconstructColumns(cells), false)
  }

  function ColumnEntriesOf(columns: map<nat, set<nat>>, keys: seq<nat>): (r: seq<Entry>)
    requires forall i :: 0 <= i < |keys| ==> keys[i] in columns
    ensures |r| == |keys|
    ensures forall i :: 0 <= i < |keys| ==> r[i] == ColumnEntry(keys[i], columns[keys[i]])
  {
    seq(|keys|, i requires 0 <= i < |keys| => ColumnEntry(keys[i], columns[keys[i]]))
  }

  /**
   * Column entries that write down exactly the cell map `columns`: one
   * partial entry per line of the map, in ascending line order, each with
   * canonical intervals covering that line's cells.
   */
  ghost predicate ColumnsFor(entries: seq<Entry>, columns: map<nat, set<nat>>)
  {
    && (forall i :: 0 <= i < |entries| ==>
          && entries[i].Columns? && !entries[i].fullLine && entries[i].start in columns
          && CanonicalIntervals(entries[i].columns) && AllCells(entries[i].columns) == columns[entries[i].start])
    && (forall k :: k in columns ==> exists i :: 0 <= i < |entries| && entries[i].start == k)
    && (forall i, j :: 0 <= i < j < |entries| ==> entries[i].start < entries[j].start)
  }

  lemma ColumnEntriesOfFacts(columns: map<nat, set<nat>>, keys: seq<nat>)
    requires Increasing(keys) && forall i :: 0 <= i < |keys| ==> keys[i] in columns
    requires forall k :: k in columns ==> k in keys
    ensures ColumnsFor(ColumnEntriesOf(columns, keys), columns)
  {
    var r := ColumnEntriesOf(columns, keys);
    forall i | 0 <= i < |r|
      ensures r[i].Columns? && !r[i].fullLine && r[i].start == keys[i] && r[i].start in columns
      ensures CanonicalIntervals(r[i].columns) && AllCells(r[i].columns) == columns[r[i].start]
    {
      var e := ColumnEntry(keys[i], columns[keys[i]]);
      assert r[i] == e;
    }
    forall k | k in columns ensures exists i :: 0 <= i < |r| && r[i].start == k {
      var i :| 0 <= i < |keys| && keys[i] == k;
      assert r[i].start == k;
    }
    forall i, j | 0 <= i < j < |r| ensures r[i].start < r[j].start {
      assert keys[i] < keys[j];
    }
  }

  /** One partial column entry per line of the column map, in ascending line order. */
  function ColumnEntries(columns: map<nat, set<nat>>): (r: seq<Entry>)
    ensures ColumnsFor(r, columns)
  {
    var keys := SortAsc(columns.Keys);
    ColumnEntriesOfFacts(columns, keys);
    ColumnEntriesOf(columns, keys)
  }

  /** The entries `mergeGroup` sorts: reconstructed ranges first, then column entries. */
  function Reconstruct(cov: Coverage): (r: seq<Entry>)
    ensures NoSeparator(r)
  {
    ReconstructRanges(cov.lines) + ColumnEntries(cov.columns)
  }

  /** `mergeGroup`: the canonical form of one frame. */
  function MergeGroup(group: seq<Entry>): seq<Entry>
  {
    SortByStart(Reconstruct(DecomposeGroup(group)))
  }

  /** Single lines, proper ranges and partial column entries only. */
  predicate ProperEntries(out: seq<Entry>)
  {
    forall i :: 0 <= i < |out| ==>
      out[i].Single? || (out[i].Range? && out[i].start < out[i].end) || IsPartial(out[i])
  }

  /** Every column entry holds canonical intervals. */
  predicate CanonicalColumnEntries(out: seq<Entry>)
  {
    forall i :: 0 <= i < |out| && out[i].Columns? ==> CanonicalIntervals(out[i].columns)
  }

  /** Line entries neither overlap nor touch. */
  predicate LinesApart(out: seq<Entry>)
  {
    forall i, j :: 0 <= i < j < |out| && IsLineEntry(out[i]) && IsLineEntry(out[j]) ==>
      LastLine(out[i]) + 1 < out[j].start
  }

  /** No column entry sits on a line that a line entry covers. */
  predicate ColumnsOffLines(out: seq<Entry>)
  {
    forall i, j :: 0 <= i < |out| && 0 <= j < |out| && out[i].Columns? && IsLineEntry(out[j]) ==>
      out[i].start !in EntryLines(out[j])
  }

  /**
   * The canonical form: proper entries strictly sorted by start, canonical
   * column intervals, line entries apart, and full lines winning over columns.
   */
  predicate Canonical(out: seq<Entry>)
  {
    && NoSeparator(out)
    && StrictlySortedByStart(out)
    && ProperEntries(out)
    && CanonicalColumnEntries(out)
    && LinesApart(out)
    && ColumnsOffLines(out)
  }

  // ---------------------------------------------------------------------
  // Facts about lists assembled from reconstructed line and column entries

  /**
   * `out` holds exactly the entries of `ranges` and `entries`, which write
   * down the lines and the cell map of a coverage whose column lines are
   * not full lines.
   */
  ghost predicate AssembledFrom(out: seq<Entry>, ranges: seq<Entry>, entries: seq<Entry>,
                                lines: set<nat>, columns: map<nat, set<nat>>)
  {
    && RangesFor(ranges, lines)
    && ColumnsFor(entries, columns)
    && columns.Keys !! lines
    && (forall e :: e in out <==> e in ranges || e in entries)
  }

  /** What a member of an assembled list is, depending on where it comes from. */
  lemma MemberOfAssembled(out: seq<Entry>, ranges: seq<Entry>, entries: seq<Entry>,
                          lines: set<nat>, columns: map<nat, set<nat>>, e: Entry)
    requires AssembledFrom(out, ranges, entries, lines, columns)
    requires e in out
    ensures e in ranges <==> IsLineEntry(e)
    ensures IsLineEntry(e) ==> e.start in lines && forall l :: l in EntryLines(e) ==> l in lines
    ensures IsLineEntry(e) ==> e.Single? || e.start < e.end
    ensures e.Columns? ==> && !e.fullLine && e.start in columns && CanonicalIntervals(e.columns)
                           && AllCells(e.columns) == columns[e.start]
    ensures !e.Separator?
  {
    if e in ranges {
      var p :| 0 <= p < |ranges| && ranges[p] == e;
      assert e.start in EntryLines(ranges[p]);
    } else {
      var p :| 0 <= p < |entries| && entries[p] == e;
    }
  }

  /** Reconstructed line entries are ordered by their starts and keep a gap. */
  lemma RangesApart(ranges: seq<Entry>, lines: set<nat>, a: Entry, b: Entry)
    requires RangesFor(ranges, lines)
    requires a in ranges && b in ranges
    requires a.start < b.start
    ensures IsLineEntry(a) && IsLineEntry(b) && LastLine(a) + 1 < b.start
  {
    var p :| 0 <= p < |ranges| && ranges[p] == a;
    var q :| 0 <= q < |ranges| && ranges[q] == b;
  }

  /** The ranges followed by the column entries have pairwise different starts. */
  lemma DistinctStarts(ranges: seq<Entry>, entries: seq<Entry>, lines: set<nat>, columns: map<nat, set<nat>>)
    requires RangesFor(ranges, lines) && ColumnsFor(entries, columns) && columns.Keys !! lines
    ensures var all := ranges + entries;
      forall i, j :: 0 <= i < j < |all| ==> !all[i].Separator? && !all[j].Separator? && all[i].start != all[j].start
  {
    var all := ranges + entries;
    forall i, j | 0 <= i < j < |all| ensures !all[i].Separator? && !all[j].Separator? && all[i].start != all[j].start {
      if j < |ranges| {
        assert all[i] == ranges[i] && all[j] == ranges[j];
        assert LastLine(ranges[i]) + 1 < ranges[j].start;
      } else if i >= |ranges| {
        assert all[i] == entries[i - |ranges|] && all[j] == entries[j - |ranges|];
      } else {
        assert all[i] == ranges[i] && all[j] == entries[j - |ranges|];
        assert all[i].start in EntryLines(ranges[i]);
      }
    }
  }

  lemma ProperEntriesOf(out: seq<Entry>, ranges: seq<Entry>, entries: seq<Entry>,
                        lines: set<nat>, columns: map<nat, set<nat>>)
    requires AssembledFrom(out, ranges, entries, lines, columns)
    ensures ProperEntries(out) && CanonicalColumnEntries(out)
  {
    forall i | 0 <= i < |out|
      ensures out[i].Single? || (out[i].Range? && out[i].start < out[i].end) || IsPartial(out[i])
      ensures out[i].Columns? ==> CanonicalIntervals(out[i].columns)
    {
      MemberOfAssembled(out, ranges, entries, lines, columns, out[i]);
    }
  }

  lemma LinesApartOf(out: seq<Entry>, ranges: seq<Entry>, entries: seq<Entry>,
                     lines: set<nat>, columns: map<nat, set<nat>>)
    requires AssembledFrom(out, ranges, entries, lines, columns)
    requires NoSeparator(out) && StrictlySortedByStart(out)
    ensures LinesApart(out)
  {
    forall i, j | 0 <= i < j < |out| && IsLineEntry(out[i]) && IsLineEntry(out[j])
      ensures LastLine(out[i]) + 1 < out[j].start
    {
      MemberOfAssembled(out, ranges, entries, lines, columns, out[i]);
      MemberOfAssembled(out, ranges, entries, lines, columns, out[j]);
      RangesApart(ranges, lines, out[i], out[j]);
    }
  }

  lemma ColumnsOffLinesOf(out: seq<Entry>, ranges: seq<Entry>, entries: seq<Entry>,
                          lines: set<nat>, columns: map<nat, set<nat>>)
    requires AssembledFrom(out, ranges, entries, lines, columns)
    ensures ColumnsOffLines(out)
  {
    forall i, j | 0 <= i < |out| && 0 <= j < |out| && out[i].Columns? && IsLineEntry(out[j])
      ensures out[i].start !in EntryLines(out[j])
    {
      MemberOfAssembled(out, ranges, entries, lines, columns, out[i]);
      MemberOfAssembled(out, ranges, entries, lines, columns, out[j]);
    }
  }

  lemma LinesOfAssembled(out: seq<Entry>, ranges: seq<Entry>, entries: seq<Entry>,
                         lines: set<nat>, columns: map<nat, set<nat>>)
    requires AssembledFrom(out, ranges, entries, lines, columns)
    ensures forall l :: CoversLine(out, l) <==> l in lines
  {
    forall l ensures CoversLine(out, l) <==> l in lines {
      if CoversLine(out, l) {
        var e :| e in out && l in EntryLines(e);
        MemberOfAssembled(out, ranges, entries, lines, columns, e);
      }
      if l in lines {
        var i :| 0 <= i < |ranges| && l in EntryLines(ranges[i]);
        assert ranges[i] in out;
      }
    }
  }

  lemma ColumnLinesOfAssembled(out: seq<Entry>, ranges: seq<Entry>, entries: seq<Entry>,
                               lines: set<nat>, columns: map<nat, set<nat>>)
    requires AssembledFrom(out, ranges, entries, lines, columns)
    ensures forall k :: HasColumnsAt(out, k) <==> k in columns
  {
    forall k ensures HasColumnsAt(out, k) <==> k in columns {
      if HasColumnsAt(out, k) {
        var e :| e in out && IsPartial(e) && e.start == k;
        MemberOfAssembled(out, ranges, entries, lines, columns, e);
      }
      if k in columns {
        var i :| 0 <= i < |entries| && entries[i].start == k;
        assert entries[i] in out;
      }
    }
  }

  lemma CellsOfAssembled(out: seq<Entry>, ranges: seq<Entry>, entries: seq<Entry>,
                         lines: set<nat>, columns: map<nat, set<nat>>, k: nat, c: nat)
    requires AssembledFrom(out, ranges, entries, lines, columns)
    requires k in columns
    ensures CoversCell(out, k, c) <==> c in columns[k]
  {
    if CoversCell(out, k, c) {
      var e :| e in out && IsPartial(e) && e.start == k && c in AllCells(e.columns);
      MemberOfAssembled(out, ranges, entries, lines, columns, e);
    }
    if c in columns[k] {
      var i :| 0 <= i < |entries| && entries[i].start == k;
      assert entries[i] in out;
    }
  }

  // ---------------------------------------------------------------------
  // The properties of mergeGroup

  lemma SortByStartMembers(s: seq<Entry>)
    requires NoSeparator(s)
    ensures forall e :: e in SortByStart(s) <==> e in s
  {
    var r := SortByStart(s);
    forall e ensures e in r <==> e in s {
      assert e in r <==> e in multiset(r);
      assert e in s <==> e in multiset(s);
    }
  }

  lemma DecomposeGroupDisjoint(group: seq<Entry>)
    ensures DecomposeGroup(group).columns.Keys !! DecomposeGroup(group).lines
  {
  }

  /** The merged frame is assembled from the reconstruction of the frame's coverage. */
  lemma MergeGroupAssembled(group: seq<Entry>)
    ensures var cov := DecomposeGroup(group);
      AssembledFrom(MergeGroup(group), ReconstructRanges(cov.lines), ColumnEntries(cov.columns), cov.lines, cov.columns)
  {
    var cov := DecomposeGroup(group);
    DecomposeGroupDisjoint(group);
    SortByStartMembers(Reconstruct(cov));
  }

  /** `mergeGroup` produces the canonical form. */
  lemma MergeGroupCanonical(group: seq<Entry>)
    ensures Canonical(MergeGroup(group))
  {
    var cov := DecomposeGroup(group);
    var ranges := ReconstructRanges(cov.lines);
    var entries := ColumnEntries(cov.columns);
    var out := MergeGroup(group);
    MergeGroupAssembled(group);
    DistinctStarts(ranges, entries, cov.lines, cov.columns);
    SortByStartStrict(ranges + entries);
    ProperEntriesOf(out, ranges, entries, cov.lines, cov.columns);
    LinesApartOf(out, ranges, entries, cov.lines, cov.columns);
    ColumnsOffLinesOf(out, ranges, entries, cov.lines, cov.columns);
  }

  /** An assembled list decomposes back into the lines and cell map it was assembled from. */
  lemma DecomposeAssembled(out: seq<Entry>, ranges: seq<Entry>, entries: seq<Entry>,
                           lines: set<nat>, columns: map<nat, set<nat>>)
    requires AssembledFrom(out, ranges, entries, lines, columns)
    ensures DecomposeGroup(out) == Coverage(lines, columns)
  {
    AssembledLines(out, ranges, entries, lines, columns);
    AssembledColumns(out, ranges, entries, lines, columns);
  }

  lemma AssembledLines(out: seq<Entry>, ranges: seq<Entry>, entries: seq<Entry>,
                       lines: set<nat>, columns: map<nat, set<nat>>)
    requires AssembledFrom(out, ranges, entries, lines, columns)
    ensures DecomposeGroup(out).lines == lines
  {
    LinesOfAssembled(out, ranges, entries, lines, columns);
  }

  lemma AssembledColumns(out: seq<Entry>, ranges: seq<Entry>, entries: seq<Entry>,
                         lines: set<nat>, columns: map<nat, set<nat>>)
    requires AssembledFrom(out, ranges, entries, lines, columns)
    ensures DecomposeGroup(out).columns == columns
  {
    AssembledColumnLines(out, ranges, entries, lines, columns);
    var merged := DecomposeGroup(out).columns;
    forall k | k in merged ensures merged[k] == columns[k] {
      CellsOfAssembledAt(out, ranges, entries, lines, columns, k);
    }
  }

  /** An assembled list has cells on exactly the lines of the map. */
  lemma AssembledColumnLines(out: seq<Entry>, ranges: seq<Entry>, entries: seq<Entry>,
                             lines: set<nat>, columns: map<nat, set<nat>>)
    requires AssembledFrom(out, ranges, entries, lines, columns)
    ensures DecomposeGroup(out).columns.Keys == columns.Keys
  {
    LinesOfAssembled(out, ranges, entries, lines, columns);
    ColumnLinesOfAssembled(out, ranges, entries, lines, columns);
    ColumnKeysOf(out, lines, columns);
  }

  /** Cells sit on exactly the column lines that are not full lines. */
  lemma ColumnKeysOf(out: seq<Entry>, lines: set<nat>, columns: map<nat, set<nat>>)
    requires forall l :: CoversLine(out, l) <==> l in lines
    requires forall k :: HasColumnsAt(out, k) <==> k in columns
    requires columns.Keys !! lines
    ensures DecomposeGroup(out).columns.Keys == columns.Keys
  {
    var merged := DecomposeGroup(out).columns;
    forall k ensures k in merged <==> k in columns {
      assert k in merged <==> HasColumnsAt(out, k) && !CoversLine(out, k);
    }
  }

  /** The cells of one line of an assembled list are that line's cells in the map. */
  lemma CellsOfAssembledAt(out: seq<Entry>, ranges: seq<Entry>, entries: seq<Entry>,
                           lines: set<nat>, columns: map<nat, set<nat>>, k: nat)
    requires AssembledFrom(out, ranges, entries, lines, columns)
    requires k in DecomposeGroup(out).columns && k in columns
    ensures DecomposeGroup(out).columns[k] == columns[k]
  {
    forall c ensures CoversCell(out, k, c) <==> c in columns[k] {
      CellsOfAssembled(out, ranges, entries, lines, columns, k, c);
    }
    CellsAt(out, columns, k);
  }

  /** A line's cell set is the set of cells the list covers on it. */
  lemma CellsAt(out: seq<Entry>, columns: map<nat, set<nat>>, k: nat)
    requires k in DecomposeGroup(out).columns && k in columns
    requires forall c :: CoversCell(out, k, c) <==> c in columns[k]
    ensures DecomposeGroup(out).columns[k] == columns[k]
  {
    var cells := DecomposeGroup(out).columns[k];
    forall c ensures c in cells <==> c in columns[k] {
    }
  }

  /**
   * `mergeGroup` changes how a frame is written, never what it highlights:
   * the merged frame covers the same lines and, per line, the same cells.
   */
  lemma MergeGroupCoverage(group: seq<Entry>)
    ensures DecomposeGroup(MergeGroup(group)) == DecomposeGroup(group)
  {
    var cov := DecomposeGroup(group);
    MergeGroupAssembled(group);
    DecomposeAssembled(MergeGroup(group), ReconstructRanges(cov.lines), ColumnEntries(cov.columns), cov.lines, cov.columns);
  }

  /** Merging a merged frame changes nothing. */
  lemma MergeGroupIdempotent(group: seq<Entry>)
    ensures MergeGroup(MergeGroup(group)) == MergeGroup(group)
  {
    MergeGroupCoverage(group);
  }

  /** The order and repetition of a frame's entries do not affect its merged form. */
  lemma MergeGroupIgnoresOrder(a: seq<Entry>, b: seq<Entry>)
    requires forall e :: e in a <==> e in b
    ensures MergeGroup(a) == MergeGroup(b)
  {
    SameMembersSameCoverage(a, b);
  }

  // ---------------------------------------------------------------------
  // Rendering: Selections.toString

  /** The `toString` of every entry of a merged frame. */
  function EntryTexts(group: seq<Entry>): (r: seq<string>)
    ensures |r| == |group| && forall i :: 0 <= i < |group| ==> r[i] == ToString(group[i])
  {
    seq(|group|, i requires 0 <= i < |group| => ToString(group[i]))
  }

  /** One frame: its merged entries joined by commas. */
  function FrameText(group: seq<Entry>): string
  {
    Join(EntryTexts(MergeGroup(group)), ',')
  }

  function FrameTexts(groups: seq<seq<Entry>>): (r: seq<string>)
    ensures |r| == |groups| && forall i :: 0 <= i < |groups| ==> r[i] == FrameText(groups[i])
  {
    seq(|groups|, i requires 0 <= i < |groups| => FrameText(groups[i]))
  }

  /** `Selections.toString`: the merged frames joined by `|`. */
  function SelectionsText(s: Selections): string
  {
    Join(FrameTexts(GroupSelections(s.items)), '|')
  }

  lemma FrameTextHasNoBar(group: seq<Entry>)
    ensures '|' !in FrameText(group)
  {
    var texts := EntryTexts(MergeGroup(group));
    forall i | 0 <= i < |texts| ensures '|' !in texts[i] {
      ToStringHasNoBar(MergeGroup(group)[i]);
    }
    JoinAvoids(texts, ',', '|');
  }

  /**
   * The rendered list splits back on `|` into one merged text per frame;
   * a list with no frame renders as the empty string.
   */
  lemma SelectionsTextFrames(s: Selections)
    ensures |GroupSelections(s.items)| == 0 ==> SelectionsText(s) == ""
    ensures |GroupSelections(s.items)| > 0 ==>
      Split(SelectionsText(s), '|') == FrameTexts(GroupSelections(s.items))
  {
    var groups := GroupSelections(s.items);
    var texts := FrameTexts(groups);
    if |groups| > 0 {
      forall i | 0 <= i < |texts| ensures '|' !in texts[i] {
        FrameTextHasNoBar(groups[i]);
      }
      SplitJoin(texts, '|');
    }
  }

  /** A frame renders the same whatever the order and repetition of its entries. */
  lemma FrameTextIgnoresOrder(a: seq<Entry>, b: seq<Entry>)
    requires forall e :: e in a <==> e in b
    ensures FrameText(a) == FrameText(b)
  {
    MergeGroupIgnoresOrder(a, b);
  }

  /** A caret inside line `k` covers no full line and no cell, and still marks line `k`. */
  lemma CaretCoverage(g: seq<Entry>, k: nat, f: nat)
    requires g == [Columns(k, [Interval(f, f)], false)]
    ensures DecomposeGroup(g) == Coverage({}, map[k := {}])
  {
    var cov := DecomposeGroup(g);
    assert forall e :: e in g ==> e == g[0];
    assert AllCells(g[0].columns) == {};
    assert HasColumnsAt(g, k) by { assert g[0] in g; }
    assert cov.lines == {} by {
      forall l ensures !CoversLine(g, l) {
      }
    }
    forall c ensures !CoversCell(g, k, c) {
    }
    assert cov.columns.Keys == {k};
    assert cov.columns[k] == {};
  }

  /** The only canonical list that marks line `k` and covers nothing is `k` with no intervals. */
  lemma EmptyColumnCanonical(out: seq<Entry>, k: nat)
    requires Canonical(out)
    requires DecomposeGroup(out) == Coverage({}, map[k := {}])
    ensures out == [Columns(k, [], false)]
  {
    var cov := DecomposeGroup(out);
    forall i | 0 <= i < |out| ensures IsPartial(out[i]) && out[i].start == k {
      assert out[i] in out;
      assert !CoversLine(out, out[i].start);
      assert out[i].start !in EntryLines(out[i]);
      assert HasColumnsAt(out, out[i].start);
      assert out[i].start in cov.columns;
    }
    assert |out| > 0 by {
      assert k in cov.columns;
      var e :| e in out && IsPartial(e) && e.start == k;
    }
    FirstTwoStarts(out);
    var cols := out[0].columns;
    forall c ensures c !in AllCells(cols) {
      assert out[0] in out;
      assert !CoversCell(out, k, c);
    }
    NoCellsNoIntervals(cols);
  }

  /** Non-empty intervals that cover no cell are no intervals at all. */
  lemma NoCellsNoIntervals(cols: seq<Interval>)
    requires CanonicalIntervals(cols)
    requires AllCells(cols) == {}
    ensures cols == []
  {
    FirstIntervalCell(cols);
  }

  lemma FirstIntervalCell(cols: seq<Interval>)
    requires CanonicalIntervals(cols)
    ensures |cols| > 0 ==> cols[0].from in AllCells(cols)
  {
    if |cols| > 0 {
      assert cols[0].from in IntervalCells(cols[0]);
    }
  }

  lemma FirstTwoStarts(out: seq<Entry>)
    requires NoSeparator(out) && StrictlySortedByStart(out)
    ensures |out| >= 2 ==> out[0].start < out[1].start
  {
  }

  /** A lone empty column entry renders as its line number and empty parentheses. */
  lemma EmptyColumnText(out: seq<Entry>, k: nat)
    requires out == [Columns(k, [], false)]
    ensures Join(EntryTexts(out), ',') == NatToString(k) + "()"
  {
    assert EntryTexts(out) == [ToString(out[0])];
  }

  /**
   * A caret placed inside one line, with no character selected, merges into
   * a column entry of that line with no intervals, which renders as `k()`:
   * the line keeps an empty cell set, and no interval is left to print.
   */
  lemma ZeroWidthColumn(g: seq<Entry>, k: nat, f: nat)
    requires g == [Columns(k, [Interval(f, f)], false)]
    ensures MergeGroup(g) == [Columns(k, [], false)]
    ensures FrameText(g) == NatToString(k) + "()"
  {
    MergeGroupCanonical(g);
    MergeGroupCoverage(g);
    CaretCoverage(g, k, f);
    EmptyColumnCanonical(MergeGroup(g), k);
    EmptyColumnText(MergeGroup(g), k);
  }
}
