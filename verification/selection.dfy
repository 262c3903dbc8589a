/**
 * One editor selection and the ordered list of them
 * (`src/features/highlight-editor/selection.ts`): construction from a
 * text selection, rendering, decomposition into covered lines and column
 * cells, comparison, the full-line toggle and the list mutations.
 */
module Selection {
  import opened Wrappers
  import opened Text

  /** A half-open column interval `[from, to)` of one line. */
  datatype Interval = Interval(from: nat, to: nat)

  /** `ListEntry`: a line range, a single line, column intervals of one line, or a frame separator. */
  datatype Entry =
    | Range(start: nat, end: nat)
    | Single(start: nat)
    | Columns(start: nat, columns: seq<Interval>, fullLine: bool)
    | Separator

  datatype Position = Position(row: nat, position: nat)

  /** The `code-selection` event: where the text selection starts and ends. */
  datatype SelectionDetail = SelectionDetail(startPosition: Position, endPosition: Position)

  /** What the `Selection` constructor is given when it is given something. */
  datatype Init = FromDetail(detail: SelectionDetail) | FromEntry(entry: Entry)

  // ---------------------------------------------------------------------
  // What one entry covers

  /** The numbers `lo .. hi`, both included (`addRange`); empty when `hi < lo`. */
  function Span(lo: nat, hi: int): (r: set<nat>)
    ensures forall x :: x in r <==> lo <= x <= hi
    decreases hi - lo
  {
    if hi < lo then {} else {lo} + Span(lo + 1, hi)
  }

  /** The lines an entry highlights in full. */
  function EntryLines(e: Entry): set<nat>
  {
    match e
    case Range(start, end) => Span(start, end)
    case Single(start) => {start}
    case Columns(start, _, fullLine) => if fullLine then {start} else {}
    case Separator => {}
  }

  /** True of a column entry that does not cover its whole line. */
  predicate IsPartial(e: Entry)
  {
    e.Columns? && !e.fullLine
  }

  /** The 0-based cells `from .. to - 1` of a half-open interval. */
  function IntervalCells(iv: Interval): set<nat>
  {
    Span(iv.from, iv.to - 1)
  }

  /** The cells of all intervals of a column entry. */
  function AllCells(columns: seq<Interval>): (cells: set<nat>)
    ensures forall c :: c in cells <==> exists i :: 0 <= i < |columns| && c in IntervalCells(columns[i])
  {
    if |columns| == 0 then {}
    else
      var rest := AllCells(columns[1..]);
      assert forall i :: 1 <= i < |columns| ==> columns[i] == columns[1..][i - 1];
      IntervalCells(columns[0]) + rest
  }

  /** Which lines and, per line, which column cells a list of entries highlights. */
  datatype Coverage = Coverage(lines: set<nat>, columns: map<nat, set<nat>>)

  const NoCoverage := Coverage({}, map[])

  /**
   * `decompose`: adds what `e` covers to `cov`. A partial column entry
   * creates its line's cell set even when its intervals are empty.
   */
  function Decompose(e: Entry, cov: Coverage): (r: Coverage)
    ensures r.lines == cov.lines + EntryLines(e)
    ensures r.columns.Keys == cov.columns.Keys + (if IsPartial(e) then {e.start} else {})
    ensures forall l :: l in r.columns ==>
      r.columns[l] == (if l in cov.columns then cov.columns[l] else {})
                      + (if IsPartial(e) && l == e.start then AllCells(e.columns) else {})
  {
    match e
    case Range(start, end) => cov.(lines := cov.lines + Span(start, end))
    case Columns(start, columns, fullLine) =>
      if fullLine then cov.(lines := cov.lines + {start})
      else
        var existing := if start in cov.columns then cov.columns[start] else {};
        cov.(columns := cov.columns[start := existing + AllCells(columns)])
    case Single(start) => cov.(lines := cov.lines + {start})
    case Separator => cov
  }

  // ---------------------------------------------------------------------
  // Construction, rendering, comparison

  /** `parseSelection`: one row gives a column entry, two rows a line range. */
  function ParseSelection(d: SelectionDetail): Entry
  {
    if d.startPosition.row == d.endPosition.row then
      Columns(d.startPosition.row, [Interval(d.startPosition.position, d.endPosition.position)], false)
    else
      Range(d.startPosition.row, d.endPosition.row)
  }

  /**
   * A selection within one row covers exactly the cells from its start up to
   * (excluding) its end; across rows, exactly the rows from start to end.
   */
  lemma ParseSelectionCovers(d: SelectionDetail)
    ensures d.startPosition.row == d.endPosition.row ==>
      && Decompose(ParseSelection(d), NoCoverage).lines == {}
      && Decompose(ParseSelection(d), NoCoverage).columns ==
           map[d.startPosition.row := Span(d.startPosition.position, d.endPosition.position - 1)]
    ensures d.startPosition.row != d.endPosition.row ==>
      && Decompose(ParseSelection(d), NoCoverage).columns == map[]
      && (forall l :: l in Decompose(ParseSelection(d), NoCoverage).lines <==>
            d.startPosition.row <= l <= d.endPosition.row)
  {
    var e := ParseSelection(d);
    if e.Columns? {
      assert e.columns[1..] == [];
      assert AllCells(e.columns) == IntervalCells(e.columns[0]);
      var cells := Span(d.startPosition.position, d.endPosition.position - 1);
      assert Decompose(e, NoCoverage).columns == map[][e.start := {} + cells];
      assert {} + cells == cells;
    }
  }

  /** The `Selection` constructor: no argument gives a separator. */
  function NewSelection(init: Option<Init>): (e: Entry)
    ensures e.Separator? <==> init.None? || (init.value.FromEntry? && init.value.entry.Separator?)
    ensures init.Some? && init.value.FromDetail? ==> e.Range? || (e.Columns? && |e.columns| == 1 && !e.fullLine)
  {
    match init
    case None => Separator
    case Some(FromDetail(d)) => ParseSelection(d)
    case Some(FromEntry(entry)) => entry
  }

  predicate IsSeparator(e: Entry) { e.Separator? }

  predicate IsColumn(e: Entry) { e.Columns? }

  /** The `fullLine` getter: false for everything but a full-line column entry. */
  predicate FullLine(e: Entry) { e.Columns? && e.fullLine }

  /** `changeFullLine`: sets the flag of a column entry; anything else is left as it is. */
  function ChangeFullLine(e: Entry, state: bool): (r: Entry)
    ensures r.Columns? <==> e.Columns?
    ensures e.Columns? ==> r.start == e.start && r.columns == e.columns && FullLine(r) == state
    ensures !e.Columns? ==> r == e
  {
    if e.Columns? then e.(fullLine := state) else e
  }

  /** Setting the flag twice is the same as setting it once to the second value. */
  lemma ChangeFullLineTwice(e: Entry, a: bool, b: bool)
    ensures ChangeFullLine(ChangeFullLine(e, a), b) == ChangeFullLine(e, b)
  {
  }

  /** A full-line column entry covers its line in full and no cells; a partial one the reverse. */
  lemma ChangeFullLineCoverage(e: Entry)
    requires e.Columns?
    ensures EntryLines(ChangeFullLine(e, true)) == {e.start}
    ensures !IsPartial(ChangeFullLine(e, true))
    ensures EntryLines(ChangeFullLine(e, false)) == {} && IsPartial(ChangeFullLine(e, false))
  {
  }

  function IntervalText(iv: Interval): string
  {
    NatToString(iv.from) + "-" + NatToString(iv.to)
  }

  function IntervalTexts(columns: seq<Interval>): (r: seq<string>)
    ensures |r| == |columns| && forall i :: 0 <= i < |columns| ==> r[i] == IntervalText(columns[i])
  {
    seq(|columns|, i requires 0 <= i < |columns| => IntervalText(columns[i]))
  }

  /** `toString`: `s-e`, `s`, `s(f1-t1,f2-t2,...)` for partial columns, and "" for a separator. */
  function ToString(e: Entry): string
  {
    match e
    case Range(start, end) => NatToString(start) + "-" + NatToString(end)
    case Columns(start, columns, fullLine) =>
      if fullLine then NatToString(start)
      else NatToString(start) + "(" + Join(IntervalTexts(columns), ',') + ")"
    case Single(start) => NatToString(start)
    case Separator => ""
  }

  /**
   * Every rendering but the separator's starts with the line number, followed
   * by nothing, `-` (a range) or `(` (partial columns); separators render empty.
   */
  lemma ToStringStartsWithLine(e: Entry)
    ensures e.Separator? <==> ToString(e) == ""
    ensures !e.Separator? ==>
      var s := ToString(e);
      var n := NatToString(e.start);
      && s[..|n|] == n
      && (|s| == |n| <==> e.Single? || FullLine(e))
      && (e.Range? ==> s[|n|] == '-')
      && (IsPartial(e) ==> s[|n|] == '(' && s[|s| - 1] == ')')
      && DigitRun(s) == |n|
  {
    if !e.Separator? {
      var s := ToString(e);
      var n := NatToString(e.start);
      DigitRunOfDigitsThen(n, s[|n|..]);
      assert s == n + s[|n|..];
    }
  }

  /** Renderings of entries hold no `|`, so frames can be joined by it. */
  lemma ToStringHasNoBar(e: Entry)
    ensures '|' !in ToString(e)
  {
    match e
    case Range(start, end) =>
      assert '|' !in NatToString(start) && '|' !in NatToString(end);
    case Single(start) =>
      assert '|' !in NatToString(start);
    case Columns(start, columns, fullLine) =>
      assert '|' !in NatToString(start);
      forall i | 0 <= i < |columns| ensures '|' !in IntervalTexts(columns)[i] {
        assert '|' !in NatToString(columns[i].from) && '|' !in NatToString(columns[i].to);
      }
      JoinAvoids(IntervalTexts(columns), ',', '|');
    case Separator =>
  }

  /** `compare`: by start line; a separator compares equal to everything. */
  function Compare(a: Entry, b: Entry): (r: int)
    ensures a.Separator? || b.Separator? ==> r == 0
    ensures !a.Separator? && !b.Separator? ==> (r < 0 <==> a.start < b.start) && (r == 0 <==> a.start == b.start)
  {
    if a.Separator? || b.Separator? then 0 else a.start - b.start
  }

  /** Comparison is antisymmetric. */
  lemma CompareAntisymmetric(a: Entry, b: Entry)
    ensures Compare(a, b) == -Compare(b, a)
  {
  }

  // ---------------------------------------------------------------------
  // The list (`Selections`)

  /** The ordered entries and the number of `onChange` notifications fired so far. */
  datatype Selections = Selections(items: seq<Entry>, changes: nat)

  const NoSelections := Selections([], 0)

  datatype Direction = Up | Down

  /** `addSelection`: appends one entry and notifies once. */
  function AddSelection(s: Selections, e: Entry): (r: Selections)
    ensures |r.items| == |s.items| + 1 && r.items[..|s.items|] == s.items && r.items[|s.items|] == e
    ensures r.changes == s.changes + 1
  {
    Selections(s.items + [e], s.changes + 1)
  }

  /** `addSeparator`: appends a separator and notifies once. */
  function AddSeparator(s: Selections): (r: Selections)
    ensures |r.items| == |s.items| + 1 && r.items[..|s.items|] == s.items && r.items[|s.items|].Separator?
    ensures r.changes == s.changes + 1
  {
    AddSelection(s, NewSelection(None))
  }

  /**
   * `deleteSelection`: the slices before and after `index`; an index past
   * the end removes nothing. Notifies once either way.
   */
  function DeleteSelection(s: Selections, index: nat): (r: Selections)
    ensures index < |s.items| ==>
      && |r.items| == |s.items| - 1
      && (forall j :: 0 <= j < index ==> r.items[j] == s.items[j])
      && (forall j :: index <= j < |r.items| ==> r.items[j] == s.items[j + 1])
      && multiset(r.items) + multiset{s.items[index]} == multiset(s.items)
    ensures index >= |s.items| ==> r.items == s.items
    ensures r.changes == s.changes + 1
  {
    var before := if index <= |s.items| then s.items[..index] else s.items;
    var after := if index + 1 <= |s.items| then s.items[index + 1..] else [];
    assert index < |s.items| ==> s.items == before + [s.items[index]] + after;
    Selections(before + after, s.changes + 1)
  }

  /** Deleting the entry just added gives the list back. */
  lemma DeleteAfterAdd(s: Selections, e: Entry)
    ensures DeleteSelection(AddSelection(s, e), |s.items|).items == s.items
  {
  }

  /** Whether `moveSelection(index, direction)` has a neighbour to swap with. */
  predicate CanMove(s: Selections, index: nat, direction: Direction)
  {
    (direction == Up && index > 0) || (direction == Down && index + 1 < |s.items|)
  }

  function Neighbour(index: nat, direction: Direction): int
  {
    if direction == Up then index - 1 else index + 1
  }

  /**
   * `moveSelection`: swaps the entry with its neighbour in the given
   * direction when there is one; at the boundaries the list is unchanged.
   * Notifies once in both cases.
   */
  function MoveSelection(s: Selections, index: nat, direction: Direction): (r: Selections)
    requires direction == Down || index < |s.items|
    ensures CanMove(s, index, direction) ==>
      var other := Neighbour(index, direction);
      && 0 <= other < |s.items|
      && |r.items| == |s.items|
      && r.items[index] == s.items[other] && r.items[other] == s.items[index]
      && (forall j :: 0 <= j < |s.items| && j != index && j != other ==> r.items[j] == s.items[j])
      && multiset(r.items) == multiset(s.items)
    ensures !CanMove(s, index, direction) ==> r.items == s.items
    ensures r.changes == s.changes + 1
  {
    if CanMove(s, index, direction) then
      var other := Neighbour(index, direction);
      var swapped := s.items[index := s.items[other]][other := s.items[index]];
      Selections(swapped, s.changes + 1)
    else
      Selections(s.items, s.changes + 1)
  }

  /** Moving an entry up and then back down restores the list. */
  lemma MoveUpThenDown(s: Selections, index: nat)
    requires 0 < index < |s.items|
    ensures MoveSelection(MoveSelection(s, index, Up), index - 1, Down).items == s.items
  {
  }

  /** `Selections.changeFullLine`: changes the entry at `index` and nothing else; notifies once. */
  function ChangeFullLineAt(s: Selections, index: nat, state: bool): (r: Selections)
    requires index < |s.items|
    ensures |r.items| == |s.items|
    ensures r.items[index] == ChangeFullLine(s.items[index], state)
    ensures forall j :: 0 <= j < |s.items| && j != index ==> r.items[j] == s.items[j]
    ensures r.changes == s.changes + 1
  {
    Selections(s.items[index := ChangeFullLine(s.items[index], state)], s.changes + 1)
  }
}
