/**
 The listing table: column widths from the cells, shrinking to the terminal, padded rows, and the
 tab-separated form.
 */
module TableLayout {
  import opened Common
  import opened Text
  import opened CellText

  const MAX_TABLE_COLUMN_WIDTH: nat := 48
  const FLOOR: nat := 2

  datatype TableMode = Table | Tsv

  function Max(a: nat, b: nat): nat {
    if a >= b then a else b
  }

  function Sum(widths: seq<nat>): nat {
    if widths == [] then 0 else widths[0] + Sum(widths[1..])
  }

  // ----- Shrinking -----

  function Separators(columns: nat): nat {
    if columns > 0 then 2 * (columns - 1) else 0
  }

  function Available(columns: nat, maxTotal: nat): nat {
    var separators := Separators(columns);
    if maxTotal >= separators then maxTotal - separators else 0
  }

  /** A column's part of the available width, never below the floor. */
  function Share(width: nat, available: nat, total: nat): (r: nat)
    requires total > 0
    ensures r >= FLOOR
  {
    Max(width * available / total, FLOOR)
  }

  function Proportional(widths: seq<nat>, available: nat, total: nat): (r: seq<nat>)
    requires total > 0
    ensures |r| == |widths| && forall i :: 0 <= i < |r| ==> r[i] == Share(widths[i], available, total)
  {
    seq(|widths|, i requires 0 <= i < |widths| => Share(widths[i], available, total))
  }

  /** The last of the widest columns. */
  function Widest(widths: seq<nat>): (m: nat)
    requires widths != []
    ensures m < |widths| && (forall i :: 0 <= i < |widths| ==> widths[i] <= widths[m])
    ensures forall i :: m < i < |widths| ==> widths[i] < widths[m]
  {
    var last := |widths| - 1;
    if last == 0 then 0
    else
      var m := Widest(widths[..last]);
      if widths[last] >= widths[m] then last else m
  }

  lemma {:induction false} SumUpdate(widths: seq<nat>, i: nat, x: nat)
    requires i < |widths|
    ensures Sum(widths[i := x]) == Sum(widths) - widths[i] + x
  {
    if i > 0 {
      assert widths[i := x][1..] == widths[1..][i - 1 := x];
      SumUpdate(widths[1..], i - 1, x);
    } else {
      assert widths[0 := x][1..] == widths[1..];
    }
  }

  function Trimmed(widths: seq<nat>, available: nat): seq<nat>
    decreases Sum(widths)
  {
    if Sum(widths) <= available || widths == [] then widths
    else
      var m := Widest(widths);
      if widths[m] <= FLOOR then widths
      else
        SumUpdate(widths, m, widths[m] - 1);
        Trimmed(widths[m := widths[m] - 1], available)
  }

  function Shrunk(widths: seq<nat>, maxTotal: Option<nat>): seq<nat> {
    if maxTotal.None? then widths
    else
      var available := Available(|widths|, maxTotal.value);
      if Sum(widths) <= available then widths
      else Trimmed(Proportional(widths, available, Sum(widths)), available)
  }

  method SumOf(a: array<nat>) returns (total: nat)
    ensures total == Sum(a[..])
  {
    total := 0;
    var i := a.Length;
    assert a[a.Length..] == [];
    while i > 0
      invariant 0 <= i <= a.Length && total == Sum(a[i..])
    {
      i := i - 1;
      assert a[i..][1..] == a[i + 1..];
      total := total + a[i];
    }
    assert a[0..] == a[..];
  }

  method WidestIndex(a: array<nat>) returns (m: nat)
    requires a.Length > 0
    ensures m == Widest(a[..])
  {
    m := 0;
    var i := 1;
    while i < a.Length
      invariant 1 <= i <= a.Length && m == Widest(a[..i])
    {
      assert a[..i + 1][..i] == a[..i];
      if a[i] >= a[m] {
        m := i;
      }
      i := i + 1;
    }
    assert a[..a.Length] == a[..];
  }

  method ScaleColumns(a: array<nat>, available: nat, total: nat)
    requires total > 0
    modifies a
    ensures a[..] == Proportional(old(a[..]), available, total)
  {
    var i := 0;
    while i < a.Length
      invariant 0 <= i <= a.Length
      invariant forall k :: 0 <= k < i ==> a[k] == Share(old(a[k]), available, total)
      invariant forall k :: i <= k < a.Length ==> a[k] == old(a[k])
    {
      a[i] := Share(a[i], available, total);
      i := i + 1;
    }
  }

  lemma TrimOnce(widths: seq<nat>, available: nat)
    requires Sum(widths) > available && widths != [] && widths[Widest(widths)] > FLOOR
    ensures var m := Widest(widths);
      var next := widths[m := widths[m] - 1];
      Trimmed(widths, available) == Trimmed(next, available) && Sum(next) == Sum(widths) - 1
  {
    SumUpdate(widths, Widest(widths), widths[Widest(widths)] - 1);
  }

  lemma TrimDone(widths: seq<nat>, available: nat)
    ensures widths == [] || widths[Widest(widths)] <= FLOOR ==> Trimmed(widths, available) == widths
  {
  }

  /** Takes one from the widest column, unless every column is at the floor. */
  method TrimWidest(a: array<nat>, available: nat) returns (done: bool)
    requires Sum(a[..]) > available
    modifies a
    ensures Trimmed(a[..], available) == Trimmed(old(a[..]), available)
    ensures if done then Trimmed(a[..], available) == a[..] else Sum(a[..]) == Sum(old(a[..])) - 1
  {
    ghost var before := a[..];
    TrimDone(before, available);
    if a.Length == 0 {
      return true;
    }
    var m := WidestIndex(a);
    if a[m] <= FLOOR {
      return true;
    }
    TrimOnce(before, available);
    a[m] := a[m] - 1;
    assert a[..] == before[m := before[m] - 1];
    done := false;
  }

  method TrimColumns(a: array<nat>, available: nat)
    modifies a
    ensures a[..] == Trimmed(old(a[..]), available)
  {
    ghost var goal := Trimmed(a[..], available);
    var total := SumOf(a);
    while total > available
      invariant total == Sum(a[..]) && Trimmed(a[..], available) == goal
      decreases total
    {
      var done := TrimWidest(a, available);
      if done {
        return;
      }
      total := SumOf(a);
    }
  }

  method ShrinkWidthsToFit(a: array<nat>, maxTotal: Option<nat>)
    modifies a
    ensures a[..] == Shrunk(old(a[..]), maxTotal)
  {
    if maxTotal.None? {
      return;
    }
    var available := Available(a.Length, maxTotal.value);
    var total := SumOf(a);
    if total <= available {
      return;
    }
    ScaleColumns(a, available, total);
    TrimColumns(a, available);
  }

  ghost predicate AtLeast(widths: seq<nat>, low: nat) {
    forall i :: 0 <= i < |widths| ==> widths[i] >= low
  }

  lemma {:induction false} SumAtLeast(widths: seq<nat>, low: nat)
    requires AtLeast(widths, low)
    ensures Sum(widths) >= low * |widths|
  {
    if widths != [] {
      SumAtLeast(widths[1..], low);
    }
  }

  lemma {:induction false} SumOfFloors(widths: seq<nat>)
    requires AtLeast(widths, FLOOR) && forall i :: 0 <= i < |widths| ==> widths[i] <= FLOOR
    ensures Sum(widths) == FLOOR * |widths|
  {
    if widths != [] {
      SumOfFloors(widths[1..]);
    }
  }

  /** A trimmed column ends no more than one below every other column. */
  ghost predicate Levelled(before: seq<nat>, after: seq<nat>) {
    && |after| == |before|
    && (forall i :: 0 <= i < |after| ==> after[i] <= before[i])
    && (forall i, j :: 0 <= i < |after| && 0 <= j < |after| && after[i] < before[i] ==> after[j] <= after[i] + 1)
  }

  lemma {:induction false} TrimmingLevels(start: seq<nat>, widths: seq<nat>, available: nat)
    requires Levelled(start, widths) && AtLeast(widths, FLOOR)
    ensures var r := Trimmed(widths, available);
      && Levelled(start, r) && AtLeast(r, FLOOR)
      && (Sum(r) <= available || forall i :: 0 <= i < |r| ==> r[i] == FLOOR)
      && (Sum(widths) > available && Sum(r) <= available ==> Sum(r) == available)
    decreases Sum(widths)
  {
    if Sum(widths) > available && widths != [] {
      var m := Widest(widths);
      if widths[m] > FLOOR {
        SumUpdate(widths, m, widths[m] - 1);
        TrimmingLevels(start, widths[m := widths[m] - 1], available);
      }
    }
  }

  /**
   Shrinking leaves no column below two, fits exactly when that is possible at all, and takes from
   the widest columns first.
   */
  lemma ShrunkFits(widths: seq<nat>, maxTotal: nat)
    ensures var available := Available(|widths|, maxTotal);
      var r := Shrunk(widths, Some(maxTotal));
      && |r| == |widths|
      && (Sum(r) <= available <==> Sum(widths) <= available || FLOOR * |widths| <= available)
      && (Sum(widths) > available ==> AtLeast(r, FLOOR) && Levelled(Proportional(widths, available, Sum(widths)), r))
  {
    var available := Available(|widths|, maxTotal);
    if Sum(widths) > available {
      var p := Proportional(widths, available, Sum(widths));
      TrimmingLevels(p, p, available);
      var r := Trimmed(p, available);
      SumAtLeast(r, FLOOR);
      if Sum(r) > available {
        SumOfFloors(r);
      }
    }
  }

  // ----- Column widths from the cells -----

  function Cap(w: WidthTable, cell: string): nat {
    Min(VisibleWidth(w, cell), MAX_TABLE_COLUMN_WIDTH)
  }

  function HeaderWidths(w: WidthTable, headers: seq<string>): (r: seq<nat>)
    ensures |r| == |headers| && forall j :: 0 <= j < |r| ==> r[j] == Cap(w, headers[j])
  {
    seq(|headers|, j requires 0 <= j < |headers| => Cap(w, headers[j]))
  }

  /** Widths after one row: cells beyond the last column are ignored. */
  function Widened(w: WidthTable, widths: seq<nat>, row: seq<string>): (r: seq<nat>)
    ensures |r| == |widths|
    ensures forall j :: 0 <= j < |r| ==> r[j] == if j < |row| then Max(widths[j], Cap(w, row[j])) else widths[j]
  {
    seq(|widths|, j requires 0 <= j < |widths| => if j < |row| then Max(widths[j], Cap(w, row[j])) else widths[j])
  }

  function NaturalWidths(w: WidthTable, headers: seq<string>, rows: seq<seq<string>>): (r: seq<nat>)
    ensures |r| == |headers|
  {
    if rows == [] then HeaderWidths(w, headers)
    else Widened(w, NaturalWidths(w, headers, rows[..|rows| - 1]), rows[|rows| - 1])
  }

  /** A column is as wide as its widest cell, up to the cap, and no wider. */
  lemma {:induction false} NaturalWidthIsWidestCell(w: WidthTable, headers: seq<string>, rows: seq<seq<string>>, j: nat)
    requires j < |headers|
    ensures var r := NaturalWidths(w, headers, rows)[j];
      && Cap(w, headers[j]) <= r
      && (forall i :: 0 <= i < |rows| && j < |rows[i]| ==> Cap(w, rows[i][j]) <= r)
      && (r == Cap(w, headers[j]) || exists i :: 0 <= i < |rows| && j < |rows[i]| && r == Cap(w, rows[i][j]))
  {
    if rows != [] {
      var init := rows[..|rows| - 1];
      NaturalWidthIsWidestCell(w, headers, init, j);
      var before, last := NaturalWidths(w, headers, init)[j], rows[|rows| - 1];
      var r := NaturalWidths(w, headers, rows)[j];
      if r == before && before != Cap(w, headers[j]) {
        var i :| 0 <= i < |init| && j < |init[i]| && before == Cap(w, init[i][j]);
        assert rows[i] == init[i];
      } else if r != before {
        assert r == Cap(w, rows[|rows| - 1][j]);
      }
      forall i | 0 <= i < |rows| && j < |rows[i]|
        ensures Cap(w, rows[i][j]) <= r
      {
        if i < |init| {
          assert init[i] == rows[i];
        }
      }
    }
  }

  method WidenByRow(w: WidthTable, a: array<nat>, row: seq<string>)
    modifies a
    ensures a[..] == Widened(w, old(a[..]), row)
  {
    var j := 0;
    while j < |row| && j < a.Length
      invariant 0 <= j <= |row| && j <= a.Length
      invariant forall k :: 0 <= k < j ==> a[k] == Max(old(a[k]), Cap(w, row[k]))
      invariant forall k :: j <= k < a.Length ==> a[k] == old(a[k])
    {
      var visible := MeasureVisible(w, row[j]);
      a[j] := Max(a[j], Min(visible, MAX_TABLE_COLUMN_WIDTH));
      j := j + 1;
    }
  }

  method MeasureColumns(w: WidthTable, headers: seq<string>, rows: seq<seq<string>>) returns (a: array<nat>)
    ensures fresh(a) && a[..] == NaturalWidths(w, headers, rows)
  {
    a := new nat[|headers|];
    var j := 0;
    while j < |headers|
      invariant 0 <= j <= |headers| && forall k :: 0 <= k < j ==> a[k] == Cap(w, headers[k])
    {
      var visible := MeasureVisible(w, headers[j]);
      a[j] := Min(visible, MAX_TABLE_COLUMN_WIDTH);
      j := j + 1;
    }
    assert a[..] == HeaderWidths(w, headers);
    var i := 0;
    while i < |rows|
      invariant 0 <= i <= |rows| && a[..] == NaturalWidths(w, headers, rows[..i])
    {
      assert rows[..i + 1][..i] == rows[..i];
      WidenByRow(w, a, rows[i]);
      i := i + 1;
    }
    assert rows[..i] == rows;
  }

  // ----- Rows -----

  function Spaces(n: nat): string {
    seq(n, _ => ' ')
  }

  function Padded(w: WidthTable, cell: string, width: nat): string {
    var shown := Truncated(w, cell, width);
    var used := VisibleWidth(w, shown);
    shown + Spaces(if used < width then width - used else 0)
  }

  /** The first `k` columns of a row, padded and separated by two spaces. */
  function Columns(w: WidthTable, widths: seq<nat>, cells: seq<string>, k: nat): string
    requires k <= |widths| && k <= |cells|
  {
    if k == 0 then ""
    else if k == 1 then Padded(w, cells[0], widths[0])
    else Columns(w, widths, cells, k - 1) + "  " + Padded(w, cells[k - 1], widths[k - 1])
  }

  function Line(w: WidthTable, widths: seq<nat>, cells: seq<string>): string {
    TrimEnd(Columns(w, widths, cells, Min(|widths|, |cells|)))
  }

  method PadCell(w: WidthTable, cell: string, width: nat) returns (padded: string)
    ensures padded == Padded(w, cell, width)
  {
    var rendered := TruncateVisible(w, cell, width);
    var used := MeasureVisible(w, rendered);
    padded := rendered + Spaces(if used < width then width - used else 0);
  }

  method PadRow(w: WidthTable, widths: array<nat>, cells: seq<string>) returns (line: string)
    ensures line == Line(w, widths[..], cells)
  {
    line := "";
    var k := 0;
    while k < widths.Length && k < |cells|
      invariant 0 <= k <= widths.Length && k <= |cells| && line == Columns(w, widths[..], cells, k)
    {
      var padded := PadCell(w, cells[k], widths[k]);
      line := if k == 0 then padded else line + "  " + padded;
      k := k + 1;
    }
    line := TrimEnd(line);
  }

  lemma {:induction false} SpacesWidth(w: WidthTable, n: nat)
    ensures Closed(Spaces(n)) && VisibleWidth(w, Spaces(n)) == n
  {
    if n > 0 {
      SpacesWidth(w, n - 1);
      assert Spaces(n)[1..] == Spaces(n - 1);
    }
  }

  /** The cell can be shown in its column: it fits, or is cut without crossing a hidden sequence. */
  ghost predicate Showable(w: WidthTable, cell: string, width: nat) {
    Truncates(w, cell, width)
  }

  lemma PaddedWidth(w: WidthTable, cell: string, width: nat)
    requires Showable(w, cell, width) && Closed(cell)
    ensures Closed(Padded(w, cell, width)) && VisibleWidth(w, Padded(w, cell, width)) == width
  {
    TruncatedFits(w, cell, width);
    TruncatedStaysWhole(w, cell, width);
    var shown := Truncated(w, cell, width);
    var gap := width - VisibleWidth(w, shown);
    SpacesWidth(w, gap);
    ClosedConcat(w, shown, Spaces(gap));
  }

  lemma PaddedNoWider(w: WidthTable, cell: string, width: nat)
    requires Showable(w, cell, width)
    ensures VisibleWidth(w, Padded(w, cell, width)) <= width
    ensures !Open(cell) ==> !Open(Padded(w, cell, width))
    ensures ESC !in cell ==> ESC !in Padded(w, cell, width)
  {
    TruncatedFits(w, cell, width);
    TruncatedStaysWhole(w, cell, width);
    var shown := Truncated(w, cell, width);
    var gap := width - VisibleWidth(w, shown);
    SpacesWidth(w, gap);
    PlainConcat(w, shown, Spaces(gap));
    if !Open(cell) {
      ClosedIsNotOpen(Spaces(gap));
      ShutConcat(w, shown, Spaces(gap));
    }
  }

  ghost predicate AllShowable(w: WidthTable, widths: seq<nat>, cells: seq<string>, k: nat) {
    k <= |widths| && k <= |cells| && forall j :: 0 <= j < k ==> Showable(w, cells[j], widths[j])
  }

  lemma {:induction false} SumTake(widths: seq<nat>, k: nat)
    requires k < |widths|
    ensures Sum(widths[..k + 1]) == Sum(widths[..k]) + widths[k]
    decreases k
  {
    if k > 0 {
      SumTake(widths[1..], k - 1);
      assert widths[..k + 1][1..] == widths[1..][..k] && widths[..k][1..] == widths[1..][..k - 1];
    }
  }

  lemma AppendNoWider(w: WidthTable, before: string, cell: string)
    requires !Open(before) || ESC !in cell
    ensures VisibleWidth(w, before + "  " + cell) <= VisibleWidth(w, before) + 2 + VisibleWidth(w, cell)
    ensures !Open(before) && !Open(cell) ==> !Open(before + "  " + cell)
  {
    SpacesWidth(w, 2);
    assert Spaces(2) == "  ";
    var added := "  " + cell;
    ClosedConcat(w, "  ", cell);
    assert before + "  " + cell == before + added;
    if !Open(before) {
      ClosedShut(w, "  ", cell);
      ShutConcat(w, before, added);
    } else {
      PlainConcat(w, before, added);
    }
  }

  lemma ClosedShut(w: WidthTable, a: string, b: string)
    requires a == "  "
    ensures Open(a + b) <==> Open(b)
  {
    PlainFront(w, ' ', b);
    PlainFront(w, ' ', [' '] + b);
    assert a + b == [' '] + ([' '] + b);
  }

  lemma AppendColumn(w: WidthTable, before: string, cell: string)
    requires Closed(before) && Closed(cell)
    ensures Closed(before + "  " + cell)
    ensures VisibleWidth(w, before + "  " + cell) == VisibleWidth(w, before) + 2 + VisibleWidth(w, cell)
  {
    SpacesWidth(w, 2);
    assert Spaces(2) == "  ";
    ClosedConcat(w, before, "  ");
    ClosedConcat(w, before + "  ", cell);
  }

  /** Columns that each take their width, and two for every separator. */
  ghost function Spent(widths: seq<nat>, k: nat): nat
    requires k <= |widths|
  {
    if k == 0 then 0 else if k == 1 then widths[0] else Spent(widths, k - 1) + 2 + widths[k - 1]
  }

  lemma {:induction false} SpentIsSum(widths: seq<nat>, k: nat)
    requires k <= |widths|
    ensures Spent(widths, k) == Sum(widths[..k]) + Separators(k)
  {
    if k > 0 {
      SpentIsSum(widths, k - 1);
      SumTake(widths, k - 1);
    }
  }

  /** Columns line up: up to any column, every row spends exactly the same width. */
  lemma {:induction false} ColumnsAlign(w: WidthTable, widths: seq<nat>, cells: seq<string>, k: nat)
    requires AllShowable(w, widths, cells, k) && forall j :: 0 <= j < k ==> Closed(cells[j])
    ensures Closed(Columns(w, widths, cells, k)) && VisibleWidth(w, Columns(w, widths, cells, k)) == Spent(widths, k)
    decreases k
  {
    if k > 0 {
      PaddedWidth(w, cells[k - 1], widths[k - 1]);
      if k > 1 {
        ColumnsAlign(w, widths, cells, k - 1);
        AppendColumn(w, Columns(w, widths, cells, k - 1), Padded(w, cells[k - 1], widths[k - 1]));
      }
    }
  }

  // ----- Rows with unterminated sequences -----

  /** What an open sequence does not swallow. */
  function Unswallowed(text: string): string {
    text[CsiLength(text)..]
  }

  /** A cell can follow: nothing is open before it, or what is not swallowed of it takes no more than its place. */
  ghost predicate Follows(w: WidthTable, before: string, cell: string, width: nat) {
    Open(before) ==> VisibleWidth(w, Unswallowed("  " + Padded(w, cell, width))) <= 2 + width
  }

  /** A column takes more than its width and its separator exactly when its cell cannot follow. */
  lemma ColumnTakesIff(w: WidthTable, before: string, cell: string, width: nat)
    requires Showable(w, cell, width)
    ensures VisibleWidth(w, before + "  " + Padded(w, cell, width)) <= VisibleWidth(w, before) + 2 + width <==>
      Follows(w, before, cell, width)
  {
    var padded := Padded(w, cell, width);
    PaddedNoWider(w, cell, width);
    if Open(before) {
      assert before + "  " + padded == before + ("  " + padded);
      OpenConcat(w, before, "  " + padded);
    } else {
      AppendNoWider(w, before, padded);
    }
  }

  /** Each of the first `k` cells can follow the columns before it. */
  ghost predicate AllFollow(w: WidthTable, widths: seq<nat>, cells: seq<string>, k: nat)
    requires k <= |widths| && k <= |cells|
  {
    forall j :: 1 <= j < k ==> Follows(w, Columns(w, widths, cells, j), cells[j], widths[j])
  }

  /** Cells may end inside a sequence, as long as the next can follow: up to any column the row spends no more. */
  lemma {:induction false} ColumnsNoWider(w: WidthTable, widths: seq<nat>, cells: seq<string>, k: nat)
    requires AllShowable(w, widths, cells, k) && AllFollow(w, widths, cells, k)
    ensures VisibleWidth(w, Columns(w, widths, cells, k)) <= Spent(widths, k)
    decreases k
  {
    if k == 1 {
      PaddedNoWider(w, cells[0], widths[0]);
    } else if k > 1 {
      ColumnsNoWider(w, widths, cells, k - 1);
      ColumnTakesIff(w, Columns(w, widths, cells, k - 1), cells[k - 1], widths[k - 1]);
    }
  }

  /** No column of a row takes more than its place exactly when each cell can follow. */
  lemma RowKeepsPlacesIff(w: WidthTable, widths: seq<nat>, cells: seq<string>, k: nat)
    requires AllShowable(w, widths, cells, k)
    ensures AllFollow(w, widths, cells, k) <==> forall j :: 1 <= j < k ==> KeepsPlace(w, widths, cells, j)
  {
    forall j | 1 <= j < k
      ensures Follows(w, Columns(w, widths, cells, j), cells[j], widths[j]) <==> KeepsPlace(w, widths, cells, j)
    {
      ColumnTakesIff(w, Columns(w, widths, cells, j), cells[j], widths[j]);
    }
  }

  ghost predicate KeepsPlace(w: WidthTable, widths: seq<nat>, cells: seq<string>, j: nat)
    requires j < |widths| && j < |cells|
  {
    VisibleWidth(w, Columns(w, widths, cells, j + 1)) <= VisibleWidth(w, Columns(w, widths, cells, j)) + 2 + widths[j]
  }

  /** A cell without escapes can follow anything. */
  lemma PlainFollows(w: WidthTable, before: string, cell: string, width: nat)
    requires Showable(w, cell, width) && ESC !in cell
    ensures Follows(w, before, cell, width)
  {
    PaddedNoWider(w, cell, width);
    AppendNoWider(w, before, Padded(w, cell, width));
    ColumnTakesIff(w, before, cell, width);
  }

  /** Behind a cell with an unterminated sequence, none of the first `k` cells has an escape. */
  ghost predicate Shuts(cells: seq<string>, k: nat)
    requires k <= |cells|
  {
    forall i, j :: 0 <= i < j < k && Open(cells[i]) ==> ESC !in cells[j]
  }

  lemma {:induction false} ShutColumns(w: WidthTable, widths: seq<nat>, cells: seq<string>, k: nat)
    requires AllShowable(w, widths, cells, k) && forall i :: 0 <= i < k ==> !Open(cells[i])
    ensures !Open(Columns(w, widths, cells, k))
    decreases k
  {
    if k > 0 {
      PaddedNoWider(w, cells[k - 1], widths[k - 1]);
      if k > 1 {
        ShutColumns(w, widths, cells, k - 1);
        AppendNoWider(w, Columns(w, widths, cells, k - 1), Padded(w, cells[k - 1], widths[k - 1]));
      }
    }
  }

  /** Such rows keep their places. */
  lemma ShutRowsFollow(w: WidthTable, widths: seq<nat>, cells: seq<string>, k: nat)
    requires AllShowable(w, widths, cells, k) && Shuts(cells, k)
    ensures AllFollow(w, widths, cells, k)
  {
    forall j | 1 <= j < k
      ensures Follows(w, Columns(w, widths, cells, j), cells[j], widths[j])
    {
      if i :| 0 <= i < j && Open(cells[i]) {
        PlainFollows(w, Columns(w, widths, cells, j), cells[j], widths[j]);
      } else {
        ShutColumns(w, widths, cells, j);
      }
    }
  }

  lemma {:induction false} SumOfPrefix(widths: seq<nat>, k: nat)
    requires k <= |widths|
    ensures Sum(widths[..k]) <= Sum(widths)
    decreases |widths| - k
  {
    if k < |widths| {
      SumTake(widths, k);
      SumOfPrefix(widths, k + 1);
    } else {
      assert widths[..k] == widths;
    }
  }

  lemma LineWidth(w: WidthTable, widths: seq<nat>, cells: seq<string>)
    requires var k := Min(|widths|, |cells|); AllShowable(w, widths, cells, k) && AllFollow(w, widths, cells, k)
    ensures VisibleWidth(w, Line(w, widths, cells)) <= Sum(widths) + Separators(|widths|)
  {
    var k := Min(|widths|, |cells|);
    var line := Columns(w, widths, cells, k);
    ColumnsNoWider(w, widths, cells, k);
    SpentIsSum(widths, k);
    SumOfPrefix(widths, k);
    TrimEndIsPrefix(line);
    PrefixIsNoWider(w, line, |TrimEnd(line)|);
  }

  // ----- The whole table -----

  function SanitizeAll(cells: seq<string>): (r: seq<string>)
    ensures |r| == |cells| && forall j :: 0 <= j < |r| ==> r[j] == Sanitize(cells[j])
  {
    seq(|cells|, j requires 0 <= j < |cells| => Sanitize(cells[j]))
  }

  function SanitizeRows(rows: seq<seq<string>>): (r: seq<seq<string>>)
    ensures |r| == |rows| && forall i :: 0 <= i < |r| ==> r[i] == SanitizeAll(rows[i])
  {
    seq(|rows|, i requires 0 <= i < |rows| => SanitizeAll(rows[i]))
  }

  function FinalWidths(w: WidthTable, headers: seq<string>, rows: seq<seq<string>>, maxTotal: Option<nat>): seq<nat> {
    Shrunk(NaturalWidths(w, SanitizeAll(headers), SanitizeRows(rows)), maxTotal)
  }

  /** `cells` is the header row or one of the rows. */
  ghost predicate IsRow(headers: seq<string>, rows: seq<seq<string>>, cells: seq<string>) {
    cells == headers || cells in rows
  }

  /** Each cell with a column is cut without crossing, if it is cut, and can follow the columns before it. */
  ghost predicate Sound(w: WidthTable, widths: seq<nat>, cells: seq<string>) {
    var k := Min(|widths|, |cells|);
    && (forall j :: 0 <= j < k && widths[j] > 0 ==> Truncates(w, cells[j], widths[j]))
    && AllFollow(w, widths, cells, k)
  }

  /** A row of a table, sound in the columns it gets. */
  ghost predicate SoundRow(w: WidthTable, headers: seq<string>, rows: seq<seq<string>>, maxTotal: Option<nat>,
                           cells: seq<string>) {
    IsRow(headers, rows, cells) && Sound(w, FinalWidths(w, headers, rows, maxTotal), SanitizeAll(cells))
  }

  lemma SanitizedRow(headers: seq<string>, rows: seq<seq<string>>, cells: seq<string>)
    requires IsRow(headers, rows, cells)
    ensures IsRow(SanitizeAll(headers), SanitizeRows(rows), SanitizeAll(cells))
  {
    if cells in rows {
      var i :| 0 <= i < |rows| && rows[i] == cells;
      assert SanitizeRows(rows)[i] == SanitizeAll(cells);
    }
  }

  /** No cell is given a column of no width that it does not fit. */
  lemma EveryCellHasRoom(w: WidthTable, headers: seq<string>, rows: seq<seq<string>>, maxTotal: Option<nat>,
                         cells: seq<string>, j: nat)
    requires IsRow(headers, rows, cells) && j < |headers| && j < |cells|
    ensures var widths := Shrunk(NaturalWidths(w, headers, rows), maxTotal);
      |widths| == |headers| && (widths[j] > 0 || VisibleWidth(w, cells[j]) == 0)
  {
    var natural := NaturalWidths(w, headers, rows);
    NaturalWidthIsWidestCell(w, headers, rows, j);
    assert Cap(w, cells[j]) <= natural[j];
    if maxTotal.Some? {
      ShrunkFits(natural, maxTotal.value);
    }
  }

  /** Every sound row of a table can be shown in its columns. */
  lemma EveryRowShows(w: WidthTable, headers: seq<string>, rows: seq<seq<string>>, maxTotal: Option<nat>,
                      cells: seq<string>)
    requires SoundRow(w, headers, rows, maxTotal, cells)
    ensures var widths := FinalWidths(w, headers, rows, maxTotal);
      |widths| == |headers| && AllShowable(w, widths, SanitizeAll(cells), Min(|headers|, |cells|))
  {
    var widths := FinalWidths(w, headers, rows, maxTotal);
    FinalWidthsMatch(w, headers, rows, maxTotal);
    SanitizedRow(headers, rows, cells);
    forall j | 0 <= j < Min(|headers|, |cells|)
      ensures Showable(w, SanitizeAll(cells)[j], widths[j])
    {
      EveryCellHasRoom(w, SanitizeAll(headers), SanitizeRows(rows), maxTotal, SanitizeAll(cells), j);
    }
  }

  lemma FinalWidthsMatch(w: WidthTable, headers: seq<string>, rows: seq<seq<string>>, maxTotal: Option<nat>)
    ensures |FinalWidths(w, headers, rows, maxTotal)| == |headers|
  {
    if maxTotal.Some? {
      ShrunkFits(NaturalWidths(w, SanitizeAll(headers), SanitizeRows(rows)), maxTotal.value);
    }
  }

  /** The separators fit beside the natural widths, or beside two columns of text per column. */
  ghost predicate CanFit(w: WidthTable, headers: seq<string>, rows: seq<seq<string>>, maxTotal: nat) {
    var separators := Separators(|headers|);
    && separators <= maxTotal
    && (|| Sum(NaturalWidths(w, SanitizeAll(headers), SanitizeRows(rows))) <= maxTotal - separators
        || FLOOR * |headers| <= maxTotal - separators)
  }

  lemma FinalWidthsFit(w: WidthTable, headers: seq<string>, rows: seq<seq<string>>, maxTotal: nat)
    ensures var widths := FinalWidths(w, headers, rows, Some(maxTotal));
      |widths| == |headers| && (Sum(widths) + Separators(|headers|) <= maxTotal <==> CanFit(w, headers, rows, maxTotal))
  {
    ShrunkFits(NaturalWidths(w, SanitizeAll(headers), SanitizeRows(rows)), maxTotal);
  }

  /** The cells have complete escapes, and none is cut across a hidden sequence. */
  ghost predicate WholeRow(w: WidthTable, widths: seq<nat>, cells: seq<string>) {
    && |cells| >= |widths|
    && forall j :: 0 <= j < |widths| ==> Closed(cells[j]) && (widths[j] > 0 ==> Truncates(w, cells[j], widths[j]))
  }

  lemma WholeColumnsShow(w: WidthTable, headers: seq<string>, rows: seq<seq<string>>, maxTotal: Option<nat>,
                         cells: seq<string>)
    requires IsRow(headers, rows, cells)
    requires WholeRow(w, FinalWidths(w, headers, rows, maxTotal), SanitizeAll(cells))
    ensures var widths := FinalWidths(w, headers, rows, maxTotal);
      |widths| == |headers| && AllShowable(w, widths, SanitizeAll(cells), |headers|)
  {
    var widths := FinalWidths(w, headers, rows, maxTotal);
    FinalWidthsMatch(w, headers, rows, maxTotal);
    SanitizedRow(headers, rows, cells);
    forall j | 0 <= j < |headers|
      ensures Showable(w, SanitizeAll(cells)[j], widths[j])
    {
      EveryCellHasRoom(w, SanitizeAll(headers), SanitizeRows(rows), maxTotal, SanitizeAll(cells), j);
    }
  }

  /** A full row, before its padding is trimmed, fits the terminal exactly when the table can fit. */
  lemma FullRowFitsIff(w: WidthTable, headers: seq<string>, rows: seq<seq<string>>, maxTotal: nat, cells: seq<string>)
    requires IsRow(headers, rows, cells)
    requires WholeRow(w, FinalWidths(w, headers, rows, Some(maxTotal)), SanitizeAll(cells))
    ensures var widths := FinalWidths(w, headers, rows, Some(maxTotal));
      && |widths| == |headers| <= |cells|
      && (VisibleWidth(w, Columns(w, widths, SanitizeAll(cells), |headers|)) <= maxTotal <==>
          CanFit(w, headers, rows, maxTotal))
  {
    var widths := FinalWidths(w, headers, rows, Some(maxTotal));
    WholeColumnsShow(w, headers, rows, Some(maxTotal), cells);
    ColumnsAlign(w, widths, SanitizeAll(cells), |headers|);
    SpentIsSum(widths, |headers|);
    assert widths[..|headers|] == widths;
    FinalWidthsFit(w, headers, rows, maxTotal);
  }

  /** Every sound line of a table that can fit does fit the terminal. */
  lemma EveryLineFits(w: WidthTable, headers: seq<string>, rows: seq<seq<string>>, maxTotal: nat, cells: seq<string>)
    requires CanFit(w, headers, rows, maxTotal) && SoundRow(w, headers, rows, Some(maxTotal), cells)
    ensures VisibleWidth(w, Line(w, FinalWidths(w, headers, rows, Some(maxTotal)), SanitizeAll(cells))) <= maxTotal
  {
    EveryRowShows(w, headers, rows, Some(maxTotal), cells);
    LineWidth(w, FinalWidths(w, headers, rows, Some(maxTotal)), SanitizeAll(cells));
    FinalWidthsFit(w, headers, rows, maxTotal);
  }

  /** Cells without hidden sequences, and without escapes behind an unterminated one, are sound in any columns. */
  lemma SteadyRowIsSound(w: WidthTable, headers: seq<string>, rows: seq<seq<string>>, maxTotal: Option<nat>,
                         cells: seq<string>)
    requires IsRow(headers, rows, cells)
    requires var k := Min(|headers|, |cells|); Shuts(cells, k) && forall j :: 0 <= j < k ==> Steady(cells[j])
    ensures SoundRow(w, headers, rows, maxTotal, cells)
  {
    var widths, clean := FinalWidths(w, headers, rows, maxTotal), SanitizeAll(cells);
    var k := Min(|headers|, |cells|);
    FinalWidthsMatch(w, headers, rows, maxTotal);
    SanitizedRow(headers, rows, cells);
    forall j | 0 <= j < k
      ensures Showable(w, clean[j], widths[j])
    {
      SanitizedCell(cells[j]);
      EveryCellHasRoom(w, SanitizeAll(headers), SanitizeRows(rows), maxTotal, clean, j);
      if widths[j] > 0 {
        SteadyNeverCrosses(w, clean[j], widths[j] - 1);
      }
    }
    forall i, j | 0 <= i < j < k && Open(clean[i])
      ensures ESC !in clean[j]
    {
      SanitizedCell(cells[i]);
      SanitizedCell(cells[j]);
    }
    ShutRowsFollow(w, widths, clean, k);
  }

  lemma SanitizedCell(cell: string)
    ensures Closed(Sanitize(cell)) <==> Closed(cell)
    ensures Open(Sanitize(cell)) <==> Open(cell)
    ensures Steady(Sanitize(cell)) <==> Steady(cell)
    ensures ESC in Sanitize(cell) <==> ESC in cell
  {
    SanitizedKeepsEscapes(cell);
    if i :| 0 <= i < |cell| && cell[i] == ESC {
      assert Sanitize(cell)[i] == ESC;
    }
  }

  /** Four columns of terminal for each column, less two, are always enough. */
  lemma FourEachAreEnough(w: WidthTable, headers: seq<string>, rows: seq<seq<string>>, maxTotal: nat,
                          cells: seq<string>)
    requires |headers| >= 1 && maxTotal >= 4 * |headers| - 2 && SoundRow(w, headers, rows, Some(maxTotal), cells)
    ensures VisibleWidth(w, Line(w, FinalWidths(w, headers, rows, Some(maxTotal)), SanitizeAll(cells))) <= maxTotal
  {
    EveryLineFits(w, headers, rows, maxTotal, cells);
  }

  /** The rows, each shown by the padded form. */
  ghost function Lines(w: WidthTable, widths: seq<nat>, rows: seq<seq<string>>): (r: seq<string>)
    ensures |r| == |rows|
  {
    if rows == [] then []
    else Lines(w, widths, rows[..|rows| - 1]) + [Line(w, widths, SanitizeAll(rows[|rows| - 1]))]
  }

  lemma {:induction false} LineAt(w: WidthTable, widths: seq<nat>, rows: seq<seq<string>>, i: nat)
    requires i < |rows|
    ensures Lines(w, widths, rows)[i] == Line(w, widths, SanitizeAll(rows[i]))
  {
    if i < |rows| - 1 {
      LineAt(w, widths, rows[..|rows| - 1], i);
    }
  }

  lemma LinesSnoc(w: WidthTable, widths: seq<nat>, rows: seq<seq<string>>, i: nat)
    requires i < |rows|
    ensures Lines(w, widths, rows[..i + 1]) == Lines(w, widths, rows[..i]) + [Line(w, widths, SanitizeAll(rows[i]))]
  {
    assert rows[..i + 1][..i] == rows[..i];
  }

  ghost predicate AlignedLines(w: WidthTable, widths: seq<nat>, headers: seq<string>, rows: seq<seq<string>>,
                               lines: seq<string>) {
    lines == [Line(w, widths, SanitizeAll(headers))] + Lines(w, widths, rows)
  }

  ghost predicate TsvLines(headers: seq<string>, rows: seq<seq<string>>, lines: seq<string>) {
    && |lines| == |rows| + 1 && lines[0] == Join(SanitizeAll(headers), '\t')
    && forall i :: 0 <= i < |rows| ==> lines[i + 1] == Join(SanitizeAll(rows[i]), '\t')
  }

  method RenderTsv(headers: seq<string>, rows: seq<seq<string>>) returns (lines: seq<string>)
    ensures TsvLines(headers, rows, lines)
  {
    lines := [Join(SanitizeAll(headers), '\t')];
    for i := 0 to |rows|
      invariant TsvLines(headers, rows[..i], lines)
    {
      lines := lines + [Join(SanitizeAll(rows[i]), '\t')];
    }
    assert rows[..|rows|] == rows;
  }

  method PadRest(w: WidthTable, widths: array<nat>, rows: seq<seq<string>>) returns (lines: seq<string>)
    ensures lines == Lines(w, widths[..], rows)
  {
    lines := [];
    var i := 0;
    while i < |rows|
      invariant 0 <= i <= |rows| && lines == Lines(w, widths[..], rows[..i])
    {
      LinesSnoc(w, widths[..], rows, i);
      var line := PadRow(w, widths, SanitizeAll(rows[i]));
      lines := lines + [line];
      i := i + 1;
    }
    assert rows[..i] == rows;
  }

  method PadRows(w: WidthTable, widths: array<nat>, headers: seq<string>, rows: seq<seq<string>>)
    returns (lines: seq<string>)
    ensures AlignedLines(w, widths[..], headers, rows, lines)
  {
    var first := PadRow(w, widths, SanitizeAll(headers));
    var rest := PadRest(w, widths, rows);
    lines := [first] + rest;
  }

  method RenderAligned(w: WidthTable, headers: seq<string>, rows: seq<seq<string>>, maxTotal: Option<nat>)
    returns (lines: seq<string>)
    ensures AlignedLines(w, FinalWidths(w, headers, rows, maxTotal), headers, rows, lines)
  {
    var widths := MeasureColumns(w, SanitizeAll(headers), SanitizeRows(rows));
    ShrinkWidthsToFit(widths, maxTotal);
    lines := PadRows(w, widths, headers, rows);
  }

  ghost predicate SoundTable(w: WidthTable, headers: seq<string>, rows: seq<seq<string>>, maxTotal: Option<nat>) {
    && SoundRow(w, headers, rows, maxTotal, headers)
    && forall i :: 0 <= i < |rows| ==> SoundRow(w, headers, rows, maxTotal, rows[i])
  }

  /** The header row, then the rows. */
  ghost function RowAt(headers: seq<string>, rows: seq<seq<string>>, i: nat): seq<string>
    requires i <= |rows|
  {
    if i == 0 then headers else rows[i - 1]
  }

  lemma AlignedLineAt(w: WidthTable, widths: seq<nat>, headers: seq<string>, rows: seq<seq<string>>,
                      lines: seq<string>, i: nat)
    requires AlignedLines(w, widths, headers, rows, lines) && i < |lines|
    ensures i <= |rows| && lines[i] == Line(w, widths, SanitizeAll(RowAt(headers, rows, i)))
  {
    if i > 0 {
      LineAt(w, widths, rows, i - 1);
    }
  }

  lemma AlignedLinesFit(w: WidthTable, headers: seq<string>, rows: seq<seq<string>>, maxTotal: nat, lines: seq<string>)
    requires CanFit(w, headers, rows, maxTotal) && SoundTable(w, headers, rows, Some(maxTotal))
    requires AlignedLines(w, FinalWidths(w, headers, rows, Some(maxTotal)), headers, rows, lines)
    ensures forall i :: 0 <= i < |lines| ==> VisibleWidth(w, lines[i]) <= maxTotal
  {
    forall i | 0 <= i < |lines|
      ensures VisibleWidth(w, lines[i]) <= maxTotal
    {
      AlignedLineAt(w, FinalWidths(w, headers, rows, Some(maxTotal)), headers, rows, lines, i);
      EveryLineFits(w, headers, rows, maxTotal, RowAt(headers, rows, i));
    }
  }

  ghost predicate FitsSoundly(w: WidthTable, headers: seq<string>, rows: seq<seq<string>>, maxTotal: nat) {
    CanFit(w, headers, rows, maxTotal) && SoundTable(w, headers, rows, Some(maxTotal))
  }

  method RenderTable(w: WidthTable, mode: TableMode, headers: seq<string>, rows: seq<seq<string>>,
                     maxTotal: Option<nat>)
    returns (lines: seq<string>)
    ensures mode == Tsv ==> TsvLines(headers, rows, lines)
    ensures mode == Table ==> AlignedLines(w, FinalWidths(w, headers, rows, maxTotal), headers, rows, lines)
    ensures mode == Table && maxTotal.Some? && FitsSoundly(w, headers, rows, maxTotal.value) ==>
      forall i :: 0 <= i < |lines| ==> VisibleWidth(w, lines[i]) <= maxTotal.value
  {
    match mode {
      case Tsv => lines := RenderTsv(headers, rows);
      case Table =>
        lines := RenderAligned(w, headers, rows, maxTotal);
        if maxTotal.Some? && FitsSoundly(w, headers, rows, maxTotal.value) {
          AlignedLinesFit(w, headers, rows, maxTotal.value, lines);
        }
    }
  }

  // ----- Where the bound fails -----

  /** A sequence of `n` digits and a letter, and one more letter. */
  function LongSequence(n: nat): string {
    [ESC, '['] + Digits(n)
  }

  function Digits(n: nat): string {
    if n == 0 then ['m', 'a'] else ['1'] + Digits(n - 1)
  }

  lemma {:induction false} DigitsWidth(w: WidthTable, n: nat)
    requires w('1') == 1 && w('m') == 1 && w('a') == 1
    ensures VisibleWidth(w, Digits(n)) == n + 2 && Terminated(Digits(n)) && Digits(n)[CsiLength(Digits(n))..] == ['a']
  {
    if n == 0 {
      OneCharacter(w, 'a');
      PlainFront(w, 'm', ['a']);
      assert ['m', 'a'] == ['m'] + ['a'];
    } else {
      DigitsWidth(w, n - 1);
      PlainFront(w, '1', Digits(n - 1));
      assert Digits(n)[1..] == Digits(n - 1);
      CsiStep(Digits(n));
    }
  }

  lemma LongSequenceFits(w: WidthTable, n: nat)
    requires w('1') == 1 && w('m') == 1 && w('a') == 1
    ensures Closed(LongSequence(n)) && VisibleWidth(w, LongSequence(n)) == 1
    ensures Padded(w, LongSequence(n), 1) == LongSequence(n)
  {
    DigitsWidth(w, n);
    var long := LongSequence(n);
    assert long[2..] == Digits(n);
    DropOn(long, 2, CsiLength(Digits(n)));
    OneCharacter(w, 'a');
  }

  /** An open sequence goes on over the separator and ends at the bracket of the next one. */
  lemma OpeningIsSwallowed(n: nat)
    ensures CsiLength("  " + LongSequence(n)) == 4
  {
    var long := LongSequence(n);
    var tail := "  " + long;
    CsiStep(tail);
    CsiStep(tail[1..]);
    assert tail[1..][1..] == long;
    CsiStep(long);
    assert long[1..][0] == '[';
  }

  lemma LongSequenceShows(w: WidthTable, before: string, n: nat)
    requires w('1') == 1 && w('m') == 1 && w('a') == 1 && Open(before)
    ensures VisibleWidth(w, before + "  " + LongSequence(n)) == VisibleWidth(w, before) + n + 2
  {
    var long := LongSequence(n);
    var tail := "  " + long;
    OpeningIsSwallowed(n);
    OpenConcat(w, before, tail);
    assert before + tail == before + "  " + long && tail[4..] == Digits(n);
    DigitsWidth(w, n);
  }

  /** Whatever complete cell comes next, in whatever column it can be shown in, the row keeps within its columns. */
  ghost predicate TakesAny(w: WidthTable, widths: seq<nat>, cells: seq<string>, k: nat)
    requires k <= |widths| && k <= |cells|
  {
    forall next: string, width: nat :: Showable(w, next, width) && Closed(next) ==>
      var columns := Columns(w, widths[..k] + [width], cells[..k] + [next], k + 1);
      VisibleWidth(w, columns) <= Spent(widths[..k] + [width], k + 1)
  }

  ghost predicate Agree<T>(a: seq<T>, b: seq<T>, k: nat) {
    k <= |a| && k <= |b| && forall j :: 0 <= j < k ==> a[j] == b[j]
  }

  lemma {:induction false} ColumnsAgree(w: WidthTable, a: seq<nat>, b: seq<nat>,
                                        cells: seq<string>, others: seq<string>, k: nat)
    requires Agree(a, b, k) && Agree(cells, others, k)
    ensures Columns(w, a, cells, k) == Columns(w, b, others, k)
    decreases k
  {
    if k > 1 {
      ColumnsAgree(w, a, b, cells, others, k - 1);
    }
  }

  lemma {:induction false} SpentAgrees(a: seq<nat>, b: seq<nat>, k: nat)
    requires Agree(a, b, k)
    ensures Spent(a, k) == Spent(b, k)
  {
    if k > 1 {
      SpentAgrees(a, b, k - 1);
    }
  }

  lemma NextColumn(w: WidthTable, widths: seq<nat>, cells: seq<string>, k: nat, width: nat, next: string)
    requires 0 < k <= |widths| && k <= |cells|
    ensures Columns(w, widths[..k] + [width], cells[..k] + [next], k + 1) ==
      Columns(w, widths, cells, k) + "  " + Padded(w, next, width)
    ensures Spent(widths[..k] + [width], k + 1) == Spent(widths, k) + 2 + width
  {
    var a, row := widths[..k] + [width], cells[..k] + [next];
    ColumnsAgree(w, a, widths, row, cells, k);
    SpentAgrees(a, widths, k);
    assert a[k] == width && row[k] == next;
  }

  /** The columns of a row can take any complete cell behind them exactly when they do not end inside a sequence. */
  lemma TakesAnyIff(w: WidthTable, widths: seq<nat>, cells: seq<string>, k: nat)
    requires AllShowable(w, widths, cells, k) && AllFollow(w, widths, cells, k)
    requires w('1') == 1 && w('m') == 1 && w('a') == 1
    ensures TakesAny(w, widths, cells, k) <==> !Open(Columns(w, widths, cells, k))
  {
    if Open(Columns(w, widths, cells, k)) {
      OpenRowOverflows(w, widths, cells, k);
    } else {
      forall next: string, width: nat | Showable(w, next, width) && Closed(next)
        ensures VisibleWidth(w, Columns(w, widths[..k] + [width], cells[..k] + [next], k + 1))
          <= Spent(widths[..k] + [width], k + 1)
      {
        ShutRowTakes(w, widths, cells, k, width, next);
      }
    }
  }

  lemma ShutRowTakes(w: WidthTable, widths: seq<nat>, cells: seq<string>, k: nat, width: nat, next: string)
    requires AllShowable(w, widths, cells, k) && AllFollow(w, widths, cells, k) && !Open(Columns(w, widths, cells, k))
    requires Showable(w, next, width)
    ensures VisibleWidth(w, Columns(w, widths[..k] + [width], cells[..k] + [next], k + 1))
      <= Spent(widths[..k] + [width], k + 1)
  {
    if k == 0 {
      PaddedNoWider(w, next, width);
    } else {
      NextColumn(w, widths, cells, k, width, next);
      ColumnsNoWider(w, widths, cells, k);
      ColumnTakesIff(w, Columns(w, widths, cells, k), next, width);
    }
  }

  lemma OpenRowOverflows(w: WidthTable, widths: seq<nat>, cells: seq<string>, k: nat)
    requires k <= |widths| && k <= |cells| && Open(Columns(w, widths, cells, k))
    requires w('1') == 1 && w('m') == 1 && w('a') == 1
    ensures !TakesAny(w, widths, cells, k)
  {
    var n := Spent(widths, k) + 2;
    var next := LongSequence(n);
    LongSequenceFits(w, n);
    NextColumn(w, widths, cells, k, 1, next);
    LongSequenceShows(w, Columns(w, widths, cells, k), n);
    assert Showable(w, next, 1) && Closed(next);
  }

  lemma LoneSequenceFits(w: WidthTable, bare: string, red: string)
    requires VisibleWidth(w, bare) == 0 && VisibleWidth(w, red) == 1 && Sanitize(bare) == bare && Sanitize(red) == red
    ensures CanFit(w, ["", ""], [[bare, red]], 3) && FinalWidths(w, ["", ""], [[bare, red]], Some(3)) == [0, 1]
    ensures SanitizeAll([bare, red]) == [bare, red]
  {
    var headers, cells := ["", ""], [bare, red];
    assert SanitizeAll(headers) == headers && SanitizeAll(cells) == cells && SanitizeRows([cells]) == [cells];
    assert [cells][..0] == [];
    assert NaturalWidths(w, headers, [cells]) == [0, 1];
    assert Sum([0, 1]) == 1 by {
      assert [0, 1][1..] == [1] && [1][1..] == [];
    }
  }

  lemma TwoCellLine(w: WidthTable, bare: string, red: string)
    requires VisibleWidth(w, bare) == 0 && VisibleWidth(w, red) == 1 && red != [] && !IsWhite(red[|red| - 1])
    ensures Line(w, [0, 1], [bare, red]) == bare + "  " + red
  {
    assert Padded(w, bare, 0) == bare && Padded(w, red, 1) == red;
    assert Columns(w, [0, 1], [bare, red], 2) == bare + "  " + red;
  }

  lemma ShortSequences()
    ensures var bare, red := [ESC, '['], LongSequence(2);
      && Sanitize(bare) == bare && Sanitize(red) == red && Open(bare) && bare[2..] == []
      && red[|red| - 1] == 'a'
  {
    assert Digits(2) == ['1'] + Digits(1) && Digits(1) == ['1'] + Digits(0);
    assert LongSequence(2) == [ESC, '[', '1', '1', 'm', 'a'];
    assert [ESC, '['][2..] == [];
  }

  /**
   A cell that ends inside a sequence swallows the opening of the next one: a table three columns wide,
   on a terminal of three, gets a line of four.
   */
  lemma UnterminatedCellOverflows(w: WidthTable) returns (headers: seq<string>, rows: seq<seq<string>>)
    requires w('1') == 1 && w('m') == 1 && w('a') == 1
    ensures CanFit(w, headers, rows, 3) && |rows| == 1
    ensures VisibleWidth(w, Line(w, FinalWidths(w, headers, rows, Some(3)), SanitizeAll(rows[0]))) == 4
  {
    var bare, red := [ESC, '['], LongSequence(2);
    headers, rows := ["", ""], [[bare, red]];
    ShortSequences();
    LongSequenceFits(w, 2);
    LongSequenceShows(w, bare, 2);
    LoneSequenceFits(w, bare, red);
    TwoCellLine(w, bare, red);
  }

  /** Each tab-separated line splits back into its cells: no cell adds or hides a column or a line. */
  lemma TsvKeepsColumns(cells: seq<string>)
    requires cells != []
    ensures Split(Join(SanitizeAll(cells), '\t'), '\t') == SanitizeAll(cells)
    ensures forall j :: 0 <= j < |cells| ==> Free(SanitizeAll(cells)[j], '\n') && Free(SanitizeAll(cells)[j], '\r')
  {
    SplitOfJoin(SanitizeAll(cells), '\t');
  }
}
