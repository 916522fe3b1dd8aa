/** Conversion of the spreadsheet rows into timeline events: row 0 is the
    header; a row with fewer than three cells is skipped; every other row
    takes the current side, which then flips; a row whose date or title is
    empty is dropped after the flip. Cells are already decoded strings and a
    missing cell reads as the empty string. */
module Rows {
  import opened Text
  import opened Categories
  import opened Events

  type Row = seq<string>

  /** `row[k] || ""`: the cell, or the empty string when it is missing. */
  function Cell(row: Row, k: nat): string {
    if k < |row| then row[k] else ""
  }

  /** A row long enough to be converted (and to flip the side). */
  predicate Long(row: Row) {
    |row| >= 3
  }

  /** The category label: the fifth cell, or "injury" when it is empty or
      missing, with surrounding white space removed. */
  function CategoryLabel(row: Row): string {
    Trim(if Cell(row, 4) == "" then "injury" else Cell(row, 4))
  }

  /** The event a long row converts to when it is drawn on `side`. */
  function RowEvent(row: Row, side: Side): TimelineEvent {
    TimelineEvent(Cell(row, 0), Cell(row, 1), Cell(row, 2), MatchCategory(CategoryLabel(row)), Cell(row, 5), side)
  }

  /** A row that ends up in the timeline. */
  predicate Emits(row: Row) {
    Long(row) && Cell(row, 0) != "" && Cell(row, 1) != ""
  }

  /** Number of long data rows (indices 1 and up) before index `n`: the
      number of side flips that happened before row `n` is read. */
  function LongRowsBefore(data: seq<Row>, n: nat): (r: nat)
    ensures r <= n
  {
    if n <= 1 then 0
    else LongRowsBefore(data, n - 1) + (if n - 1 < |data| && Long(data[n - 1]) then 1 else 0)
  }

  /** The long data rows below index `n`. */
  function LongRowSet(data: seq<Row>, n: nat): set<nat> {
    set k: nat | 1 <= k < n && k < |data| && Long(data[k])
  }

  /** `LongRowsBefore` counts exactly the long data rows below `n`. */
  lemma {:induction false} LongRowsBeforeCounts(data: seq<Row>, n: nat)
    ensures LongRowsBefore(data, n) == |LongRowSet(data, n)|
    decreases n
  {
    if n <= 1 {
      assert LongRowSet(data, n) == {};
    } else {
      LongRowsBeforeCounts(data, n - 1);
      var below := LongRowSet(data, n - 1);
      assert n - 1 !in below;
      if n - 1 < |data| && Long(data[n - 1]) {
        assert LongRowSet(data, n) == below + {n - 1};
      } else {
        assert LongRowSet(data, n) == below;
      }
    }
  }

  /** The side row `i` is drawn on: sides alternate over the long rows,
      starting on the left. */
  function SideAt(data: seq<Row>, i: nat): Side {
    if LongRowsBefore(data, i) % 2 == 0 then Left else Right
  }

  /** The indices below `n` of the rows that end up in the timeline, in
      increasing order. */
  function EmittedBelow(data: seq<Row>, n: nat): seq<nat> {
    if n <= 1 then []
    else if n - 1 < |data| && Emits(data[n - 1]) then EmittedBelow(data, n - 1) + [n - 1]
    else EmittedBelow(data, n - 1)
  }

  /** `EmittedBelow` lists exactly the emitting rows from 1 to `n - 1`, in
      increasing order. */
  lemma {:induction false} EmittedBelowSpec(data: seq<Row>, n: nat)
    ensures forall k :: 0 <= k < |EmittedBelow(data, n)| ==>
              1 <= EmittedBelow(data, n)[k] < n && EmittedBelow(data, n)[k] < |data|
              && Emits(data[EmittedBelow(data, n)[k]])
    ensures forall k, l :: 0 <= k < l < |EmittedBelow(data, n)| ==> EmittedBelow(data, n)[k] < EmittedBelow(data, n)[l]
    ensures forall j :: 1 <= j < n && j < |data| && Emits(data[j]) ==> j in EmittedBelow(data, n)
  {
    if n > 1 {
      EmittedBelowSpec(data, n - 1);
    }
  }

  /** The indices of all rows that end up in the timeline. */
  function EmittedRows(data: seq<Row>): seq<nat> {
    EmittedBelow(data, |data|)
  }

  /** Row `j` of the response, or an empty row past its end. */
  function RowAt(data: seq<Row>, j: nat): Row {
    if j < |data| then data[j] else []
  }

  /** The reference result: the rows `rows` names, each converted with the
      side the alternation assigns to it. */
  function ConvertRows(data: seq<Row>, rows: seq<nat>): (r: seq<TimelineEvent>)
    ensures |r| == |rows|
  {
    if |rows| == 0 then []
    else ConvertRows(data, rows[..|rows| - 1])
         + [RowEvent(RowAt(data, rows[|rows| - 1]), SideAt(data, rows[|rows| - 1]))]
  }

  lemma {:induction false} ConvertRowsSnoc(data: seq<Row>, rows: seq<nat>, j: nat)
    ensures ConvertRows(data, rows + [j]) == ConvertRows(data, rows) + [RowEvent(RowAt(data, j), SideAt(data, j))]
  {
    assert (rows + [j])[..|rows|] == rows;
  }

  /** Element `k` of the reference result converts the row `rows[k]`. */
  lemma {:induction false} ConvertRowsAt(data: seq<Row>, rows: seq<nat>, k: nat)
    requires k < |rows|
    ensures ConvertRows(data, rows)[k] == RowEvent(RowAt(data, rows[k]), SideAt(data, rows[k]))
    decreases |rows|
  {
    if k < |rows| - 1 {
      ConvertRowsAt(data, rows[..|rows| - 1], k);
    }
  }

  /** One row of the loop: the rows emitted below `i + 1` and the side of
      row `i + 1`. */
  lemma {:induction false} RowStep(data: seq<Row>, i: nat)
    requires 1 <= i < |data|
    ensures EmittedBelow(data, i + 1)
            == if Emits(data[i]) then EmittedBelow(data, i) + [i] else EmittedBelow(data, i)
    ensures SideAt(data, i + 1) == if Long(data[i]) then SideAt(data, i).Flip() else SideAt(data, i)
  {
  }

  /** Every converted emitted row has a non-empty date and title. */
  lemma {:induction false} EmittedHaveDateAndTitle(data: seq<Row>)
    ensures forall k :: 0 <= k < |EmittedRows(data)| ==>
              ConvertRows(data, EmittedRows(data))[k].date != ""
              && ConvertRows(data, EmittedRows(data))[k].title != ""
  {
    EmittedBelowSpec(data, |data|);
    forall k | 0 <= k < |EmittedRows(data)|
      ensures ConvertRows(data, EmittedRows(data))[k].date != ""
              && ConvertRows(data, EmittedRows(data))[k].title != ""
    {
      ConvertRowsAt(data, EmittedRows(data), k);
    }
  }

  /** The row loop of the fetch handler over the decoded response: the
      result is the reference conversion of the emitted rows, so every
      event has a date and a title. */
  method ParseRows(data: seq<Row>) returns (events: seq<TimelineEvent>)
    ensures events == ConvertRows(data, EmittedRows(data))
    ensures forall k :: 0 <= k < |events| ==> events[k].date != "" && events[k].title != ""
  {
    events := [];
    var side := Left;
    var i := 1;
    while i < |data|
      invariant 1 <= i <= if |data| == 0 then 1 else |data|
      invariant side == SideAt(data, i)
      invariant events == ConvertRows(data, EmittedBelow(data, i))
    {
      RowStep(data, i);
      var row := data[i];
      if Long(row) {
        var event := RowEvent(row, side);
        side := side.Flip();
        if event.date != "" && event.title != "" {
          ConvertRowsSnoc(data, EmittedBelow(data, i), i);
          events := events + [event];
        }
      }
      i := i + 1;
    }
    if |data| == 0 {
      assert EmittedBelow(data, i) == EmittedRows(data);
    }
    EmittedHaveDateAndTitle(data);
  }

  /** A long row flips the side for the next long row even when it is
      dropped for an empty date or title; short rows in between do not
      flip it. */
  lemma {:induction false} SideFlipsPerLongRow(data: seq<Row>, i: nat, j: nat)
    requires 1 <= i < j <= |data|
    requires Long(data[i])
    requires forall k :: i < k < j ==> !Long(data[k])
    ensures SideAt(data, j) == SideAt(data, i).Flip()
    decreases j - i
  {
    if j == i + 1 {
    } else {
      SideFlipsPerLongRow(data, i, j - 1);
    }
  }

  /** The first long data row is drawn on the left. */
  lemma {:induction false} FirstLongRowIsLeft(data: seq<Row>, j: nat)
    requires 1 <= j < |data|
    requires forall k :: 1 <= k < j ==> !Long(data[k])
    ensures SideAt(data, j) == Left
    decreases j
  {
    if j > 1 {
      FirstLongRowIsLeft(data, j - 1);
    }
  }

  /** A row whose category cell is empty or missing is an injury. */
  lemma {:induction false} MissingCategoryIsInjury(row: Row)
    requires Cell(row, 4) == ""
    ensures RowEvent(row, Left).category == Injury
  {
    InjuryLabel("injury");
  }

  lemma {:induction false} InjuryLabel(s: string)
    requires s == "injury"
    ensures Trim(s) == s
    ensures MatchCategory(s) == Injury
  {
    assert !IsSpace(s[0]) && !IsSpace(s[|s| - 1]);
    ToLowerFixesLower(s);
    assert OccursAt(s, Key(Injury), 0);
    IncludesIffOccurs(s, Key(Injury));
  }
}
