/**
 * The earlier list editor (`src/features/highlight-editor/code-selection-manager.ts`):
 * a list of plain entries without separators, the latest editor selection
 * waiting to be added, and the `s:f-t,...` text it shows for an entry.
 */
module SelectionManager {
  import opened Wrappers
  import opened Text
  import S = Selection

  /** `ListEntry` of this editor: one line, a line range, or column intervals of one line. */
  datatype ListEntry =
    | Single(start: nat)
    | Range(start: nat, end: nat)
    | Columns(start: nat, columns: seq<S.Interval>, fullLine: bool)

  /** The component state: the list and the latest selection not yet added. */
  datatype Manager = Manager(selections: seq<ListEntry>, latest: Option<ListEntry>)

  const Empty := Manager([], None)

  datatype Direction = Up | Down

  /** `parseSelection`: a selection within one row is a column entry, otherwise a line range. */
  function ParseSelection(d: S.SelectionDetail): (e: ListEntry)
    ensures e.Columns? <==> d.startPosition.row == d.endPosition.row
    ensures e.start == d.startPosition.row
    ensures e.Range? ==> e.end == d.endPosition.row
    ensures e.Columns? ==>
      e.columns == [S.Interval(d.startPosition.position, d.endPosition.position)] && !e.fullLine
  {
    if d.startPosition.row == d.endPosition.row then
      Columns(d.startPosition.row, [S.Interval(d.startPosition.position, d.endPosition.position)], false)
    else
      Range(d.startPosition.row, d.endPosition.row)
  }

  /** The entry of the later editor that carries the same data. */
  function AsSelection(e: ListEntry): S.Entry
  {
    match e
    case Single(start) => S.Single(start)
    case Range(start, end) => S.Range(start, end)
    case Columns(start, columns, fullLine) => S.Columns(start, columns, fullLine)
  }

  /** Both editors read a text selection the same way. */
  lemma ParseSelectionAgrees(d: S.SelectionDetail)
    ensures AsSelection(ParseSelection(d)) == S.ParseSelection(d)
  {
  }

  /** `handleCodeSelection`: the latest selection is replaced; the list is untouched. */
  function HandleCodeSelection(m: Manager, d: S.SelectionDetail): (r: Manager)
    ensures r.selections == m.selections
    ensures r.latest == Some(ParseSelection(d))
  {
    m.(latest := Some(ParseSelection(d)))
  }

  /** `addSelectionToList`: appends the latest selection, if any, and clears it. */
  function AddSelectionToList(m: Manager): (r: Manager)
    ensures m.latest.None? ==> r == m
    ensures m.latest.Some? ==>
      && |r.selections| == |m.selections| + 1
      && r.selections[..|m.selections|] == m.selections
      && r.selections[|m.selections|] == m.latest.value
      && r.latest.None?
  {
    if m.latest.None? then m
    else Manager(m.selections + [m.latest.value], None)
  }

  /** A selection that was just made ends up at the end of the list, once added. */
  lemma AddAfterSelecting(m: Manager, d: S.SelectionDetail)
    ensures AddSelectionToList(HandleCodeSelection(m, d)) == Manager(m.selections + [ParseSelection(d)], None)
  {
  }

  /** Adding twice in a row adds once: the second call finds no latest selection. */
  lemma AddTwice(m: Manager)
    ensures AddSelectionToList(AddSelectionToList(m)) == AddSelectionToList(m)
  {
  }

  /** `deleteSelection`: the slices before and after `index`; an index past the end removes nothing. */
  function DeleteSelection(m: Manager, index: nat): (r: Manager)
    ensures r.latest == m.latest
    ensures index < |m.selections| ==>
      && |r.selections| == |m.selections| - 1
      && (forall j :: 0 <= j < index ==> r.selections[j] == m.selections[j])
      && (forall j :: index <= j < |r.selections| ==> r.selections[j] == m.selections[j + 1])
    ensures index >= |m.selections| ==> r.selections == m.selections
  {
    var before := if index <= |m.selections| then m.selections[..index] else m.selections;
    var after := if index + 1 <= |m.selections| then m.selections[index + 1..] else [];
    m.(selections := before + after)
  }

  /** Deleting the entry that was just added gives the list back. */
  lemma DeleteAfterAdd(m: Manager)
    requires m.latest.Some?
    ensures DeleteSelection(AddSelectionToList(m), |m.selections|).selections == m.selections
  {
  }

  predicate CanMove(m: Manager, index: nat, direction: Direction)
  {
    (direction == Up && index > 0) || (direction == Down && index + 1 < |m.selections|)
  }

  /** `moveSelection`: swaps with the neighbour in the given direction, if there is one. */
  function MoveSelection(m: Manager, index: nat, direction: Direction): (r: Manager)
    requires direction == Down || index < |m.selections|
    ensures r.latest == m.latest && |r.selections| == |m.selections|
    ensures CanMove(m, index, direction) ==>
      var other := if direction == Up then index - 1 else index + 1;
      && r.selections[index] == m.selections[other] && r.selections[other] == m.selections[index]
      && (forall j :: 0 <= j < |m.selections| && j != index && j != other ==> r.selections[j] == m.selections[j])
    ensures !CanMove(m, index, direction) ==> r == m
    ensures multiset(r.selections) == multiset(m.selections)
  {
    if CanMove(m, index, direction) then
      var other := if direction == Up then index - 1 else index + 1;
      m.(selections := m.selections[index := m.selections[other]][other := m.selections[index]])
    else m
  }

  /** Moving an entry down and then back up restores the list. */
  lemma MoveDownThenUp(m: Manager, index: nat)
    requires index + 1 < |m.selections|
    ensures MoveSelection(MoveSelection(m, index, Down), index + 1, Up) == m
  {
  }

  /**
   * `toggleFullLine`: flips the flag of the column entry at `index`; any
   * other entry, and an index with no entry (negative or past the end), is
   * left alone.
   */
  function ToggleFullLine(m: Manager, index: int): (r: Manager)
    ensures r.latest == m.latest && |r.selections| == |m.selections|
    ensures forall j :: 0 <= j < |m.selections| && j != index ==> r.selections[j] == m.selections[j]
    ensures 0 <= index < |m.selections| && m.selections[index].Columns? ==>
      var e := m.selections[index];
      r.selections[index] == Columns(e.start, e.columns, !e.fullLine)
    ensures !(0 <= index < |m.selections| && m.selections[index].Columns?) ==> r == m
  {
    if 0 <= index < |m.selections| && m.selections[index].Columns? then
      var e := m.selections[index];
      m.(selections := m.selections[index := e.(fullLine := !e.fullLine)])
    else m
  }

  /** Toggling the same entry twice changes nothing. */
  lemma ToggleTwice(m: Manager, index: int)
    ensures ToggleFullLine(ToggleFullLine(m, index), index) == m
  {
  }

  // ---------------------------------------------------------------------
  // convertListEntryToHighlightSelectionText

  /** `s-e` for a range, `s` for one line or a full-line column entry, `s:f1-t1,f2-t2` otherwise. */
  function EntryText(e: ListEntry): string
  {
    match e
    case Range(start, end) => NatToString(start) + "-" + NatToString(end)
    case Columns(start, columns, fullLine) =>
      if fullLine then NatToString(start)
      else NatToString(start) + ":" + Join(S.IntervalTexts(columns), ',')
    case Single(start) => NatToString(start)
  }

  lemma IntervalTextsAvoidColon(columns: seq<S.Interval>)
    ensures ':' !in Join(S.IntervalTexts(columns), ',')
  {
    var texts := S.IntervalTexts(columns);
    forall i | 0 <= i < |texts| ensures ':' !in texts[i] {
      assert ':' !in NatToString(columns[i].from) && ':' !in NatToString(columns[i].to);
    }
    JoinAvoids(texts, ',', ':');
  }

  /**
   * The text holds a colon exactly for partial column entries, and the line
   * number, read back, is the entry's start: the colon, when present, is
   * the first character after it.
   */
  lemma TextColon(e: ListEntry)
    ensures ':' in EntryText(e) <==> e.Columns? && !e.fullLine
    ensures var n := NatToString(e.start);
      && EntryText(e)[..|n|] == n
      && (e.Columns? && !e.fullLine ==> |EntryText(e)| > |n| && EntryText(e)[|n|] == ':')
      && DigitsValue(n) == e.start
  {
    var n := NatToString(e.start);
    DigitsValueOfNatToString(e.start);
    assert ':' !in n;
    match e
    case Range(start, end) =>
      assert ':' !in NatToString(end);
      assert EntryText(e) == n + ("-" + NatToString(end));
    case Columns(start, columns, fullLine) =>
      if !fullLine {
        IntervalTextsAvoidColon(columns);
        assert EntryText(e) == n + (":" + Join(S.IntervalTexts(columns), ','));
      }
    case Single(start) =>
  }

  /** A line or full-line entry reads back as its line; a range splits on `-` into its two ends. */
  lemma TextOfLines(e: ListEntry)
    ensures e.Single? || (e.Columns? && e.fullLine) ==> EntryText(e) == NatToString(e.start)
    ensures e.Range? ==> Split(EntryText(e), '-') == [NatToString(e.start), NatToString(e.end)]
  {
    if e.Range? {
      var a := NatToString(e.start);
      var b := NatToString(e.end);
      assert '-' !in a && '-' !in b;
      SplitWithoutSeparator(b, '-');
      SplitAfterPiece(a, b, '-');
      assert EntryText(e) == a + ['-'] + b;
    }
  }

  /**
   * The legacy text is the later editor's rendering, except that partial
   * column entries are written `s:...` rather than `s(...)`.
   */
  lemma TextVersusToString(e: ListEntry)
    ensures !(e.Columns? && !e.fullLine) ==> EntryText(e) == S.ToString(AsSelection(e))
    ensures e.Columns? && !e.fullLine ==>
      var body := Join(S.IntervalTexts(e.columns), ',');
      && EntryText(e) == NatToString(e.start) + ":" + body
      && S.ToString(AsSelection(e)) == NatToString(e.start) + "(" + body + ")"
  {
  }
}
