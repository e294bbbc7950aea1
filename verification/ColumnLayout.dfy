/**
 The iterators over one column and over several side by side
 (3rd/Clara/include/clara.hpp, `Column::iterator` and `Columns::iterator`).
 */
module ColumnLayout {
  import opened Common
  import opened ColumnWrap

  // ---- One column -----------------------------------------------------------------------

  /** What the source asserts of a column, and that the iteration over its lines ends. */
  predicate Wrappable(col: Column) {
    col.WellSized() && Terminates(col)
  }

  ghost function LinesOf(col: Column): seq<string>
    requires Wrappable(col)
  {
    LinesFit(col);
    Lines(col.text, Pieces(col))
  }

  ghost function LinesFrom(col: Column, pos: nat): seq<string>
    requires col.WellSized() && pos < |col.text| && Free(col, pos)
    requires pos == 0 ==> Measure(col, 0).len > 0
  {
    ContentFrom(col, pos);
    Lines(col.text, PiecesFrom(col, pos))
  }

  lemma LinesFromStep(col: Column, pos: nat)
    requires col.WellSized() && pos < |col.text| && Free(col, pos)
    requires pos == 0 ==> Measure(col, 0).len > 0
    ensures pos < NextPos(col, pos) && Free(col, NextPos(col, pos))
    ensures var lines := LinesFrom(col, pos);
            && lines != [] && lines[0] == Render(col.text, Measure(col, pos))
            && |lines[0]| <= col.width && '\n' !in lines[0]
            && lines[1..] ==
               if NextPos(col, pos) < |col.text| then LinesFrom(col, NextPos(col, pos)) else []
  {
    MeasureFits(col, pos);
    FreeStep(col, pos);
    ContentFrom(col, pos);
    var rest := if NextPos(col, pos) < |col.text| then PiecesFrom(col, NextPos(col, pos)) else [];
    assert PiecesFrom(col, pos) == [Measure(col, pos)] + rest;
    assert PiecesFrom(col, pos)[1..] == rest;
  }

  lemma FirstLine(col: Column)
    requires Wrappable(col)
    ensures Measure(col, 0).len == 0 ==> LinesOf(col) == []
    ensures Measure(col, 0).len > 0 ==>
              && 0 < |col.text| && Free(col, 0)
              && LinesOf(col) == LinesFrom(col, 0) != [] && |LinesOf(col)[0]| <= col.width
  {
    hide Measure, Free, Terminates, PiecesFrom, Render;
    if Measure(col, 0).len > 0 {
      FreeFromStart(col);
      LinesFromStep(col, 0);
    }
  }

  /** The part of `calcLength` that looks for the end of the paragraph. */
  method FindLineEnd(text: string, pos: nat) returns (end: nat)
    requires pos <= |text|
    ensures end == LineEnd(text, pos)
  {
    end := pos;
    while end < |text| && text[end] != '\n'
      invariant pos <= end <= |text|
      invariant LineEnd(text, pos) == LineEnd(text, end)
    {
      end := end + 1;
    }
  }

  /** The part of `calcLength` that looks for a place to break within `width` characters. */
  method FitLength(text: string, pos: nat, width: nat) returns (l: nat)
    requires pos + width <= |text|
    ensures l == TrimLen(text, pos, BreakLen(text, pos, width))
  {
    hide IsBoundary, IsWhitespace;
    l := width;
    while l > 0 && !IsBoundary(text, pos + l)
      invariant l <= width
      invariant BreakLen(text, pos, l) == BreakLen(text, pos, width)
    {
      l := l - 1;
    }
    while l > 0 && IsWhitespace(text[pos + l - 1])
      invariant l <= width
      invariant TrimLen(text, pos, l) == TrimLen(text, pos, BreakLen(text, pos, width))
    {
      l := l - 1;
    }
  }

  /** The part of `operator++` that skips the blanks behind a line. */
  method SkipWhitespace(text: string, from: nat) returns (pos: nat)
    requires from <= |text|
    ensures pos == SkipBlanks(text, from)
  {
    pos := from;
    while pos < |text| && IsWhitespace(text[pos])
      invariant pos <= |text| && SkipBlanks(text, pos) == SkipBlanks(text, from)
    {
      pos := pos + 1;
    }
  }

  class ColumnIterator {
    const column: Column
    var stringIndex: nat
    var pos: nat
    var len: nat
    var end: nat
    var suffix: bool
    /** For the proofs: the lines from here on. */
    ghost var rest: seq<string>

    ghost predicate Valid()
      reads this
    {
      && Wrappable(column)
      && stringIndex <= 1
      && (stringIndex == 1 ==> pos == 0 && rest == [])
      && (stringIndex == 0 ==>
            && pos < |column.text| && Free(column, pos)
            && (pos == 0 ==> len > 0)
            && Measured()
            && rest == LinesFrom(column, pos)
            && rest != [] && |rest[0]| <= column.width)
    }

    /** `len`, `end` and `suffix` are those of the line at `pos`. */
    ghost predicate Measured()
      requires column.WellSized() && pos <= |column.text|
      reads this
    {
      && end == LineEnd(column.text, pos)
      && Measure(column, pos) == Piece(pos, len, column.IndentAt(pos), suffix)
    }

    /** Equal to `column.end()`. */
    predicate AtEnd()
      reads this
    {
      pos == 0 && stringIndex == 1
    }

    constructor (col: Column)
      requires Wrappable(col)
      ensures Valid() && column == col && rest == LinesOf(col)
    {
      hide Measure, Free, Terminates, LineEnd, LinesOf, LinesFrom, Render;
      column := col;
      stringIndex, pos, len, end, suffix := 0, 0, 0, 0, false;
      new;
      CalcLength();
      rest := LinesOf(col);
      FirstLine(col);
      if len == 0 {
        stringIndex := stringIndex + 1;
      }
    }

    method CalcLength()
      requires column.WellSized() && pos <= |column.text|
      modifies this`len, this`end, this`suffix
      ensures Measured()
    {
      hide BreakLen, TrimLen, LineEnd, Free;
      var text := column.text;
      suffix := false;
      var width := column.width - column.IndentAt(pos);
      end := FindLineEnd(text, pos);
      if end < pos + width {
        len := end - pos;
      } else {
        var l := FitLength(text, pos, width);
        if l > 0 {
          len := l;
        } else {
          suffix := true;
          len := width - 1;
        }
      }
    }

    /** `operator*`: the current line. */
    method Current() returns (line: string)
      requires Valid() && !AtEnd()
      ensures rest != [] && line == rest[0]
      ensures |line| <= column.width && '\n' !in line
    {
      hide Stuck, Free, LineEnd, IsWhitespace, LinesFrom, Measure, NextPos;
      LinesFromStep(column, pos);
      var plain := column.text[pos..pos + len];
      line := Spaces(column.IndentAt(pos)) + if suffix then plain + "-" else plain;
      assert line == Render(column.text, Measure(column, pos));
    }

    /** The part of `operator++` that moves behind the line and what separates it from the next. */
    method MovePos()
      requires column.WellSized() && pos < |column.text| && Measured()
      modifies this`pos
      ensures pos == NextPos(column, old(pos))
    {
      hide LineEnd, IsWhitespace, Measure, SkipBlanks;
      var text := column.text;
      pos := pos + len;
      if pos < |text| && text[pos] == '\n' {
        pos := pos + 1;
      } else {
        pos := SkipWhitespace(text, pos);
      }
    }

    /** `operator++`. */
    method Next()
      requires Valid() && !AtEnd()
      modifies this
      ensures Valid() && rest == old(rest)[1..]
    {
      hide Free, Terminates, Measure, NextPos, LinesFrom, Render, LineEnd;
      LinesFromStep(column, pos);
      MovePos();
      rest := rest[1..];
      if pos == |column.text| {
        pos := 0;
        stringIndex := stringIndex + 1;
      }
      if stringIndex < 1 {
        CalcLength();
        LinesFromStep(column, pos);
      }
    }
  }

  /** All lines of a column: the loop of `operator<<`. */
  method AllLines(col: Column) returns (lines: seq<string>)
    requires Wrappable(col)
    ensures lines == LinesOf(col)
  {
    var it := new ColumnIterator(col);
    lines := [];
    while !it.AtEnd()
      invariant it.Valid() && it.column == col && fresh(it)
      invariant lines + it.rest == LinesOf(col)
      decreases |it.rest|
    {
      hide Wrappable, LinesFrom, LinesOf;
      var line := it.Current();
      MoveOne(lines, it.rest);
      it.Next();
      lines := lines + [line];
    }
  }

  // ---- Several columns ------------------------------------------------------------------

  /** Where column `i` starts: the sum of the widths before it. */
  function Offset(cols: seq<Column>, i: nat): (r: nat)
    requires i <= |cols|
  {
    if i == 0 then 0 else Offset(cols, i - 1) + cols[i - 1].width
  }

  /** A cell is the line a column shows in a row, if it still has one, and fits its column. */
  predicate CellsFit(cols: seq<Column>, cells: seq<Option<string>>) {
    && |cells| == |cols|
    && forall i | 0 <= i < |cols| :: cells[i].Some? ==> |cells[i].value| <= cols[i].width
  }

  /** The first `i` columns of a row: every cell behind enough spaces to start at its offset. */
  function RowOf(cols: seq<Column>, cells: seq<Option<string>>, i: nat): (r: string)
    requires CellsFit(cols, cells) && i <= |cols|
    ensures |r| <= Offset(cols, i)
  {
    if i == 0 then "" else
      var before := RowOf(cols, cells, i - 1);
      match cells[i - 1]
      case None => before
      case Some(cell) => before + Spaces(Offset(cols, i - 1) - |before|) + cell
  }

  lemma RowStart(cols: seq<Column>, cells: seq<Option<string>>)
    requires CellsFit(cols, cells)
    ensures RowOf(cols, cells, 0) == "" && Offset(cols, 0) == 0 && Spaces(0) == ""
  {
  }

  /** One more cell, and the padding owed behind it. */
  lemma RowStep(cols: seq<Column>, cells: seq<Option<string>>, i: nat)
    requires CellsFit(cols, cells) && i < |cols|
    ensures var row, next := RowOf(cols, cells, i), RowOf(cols, cells, i + 1);
            var padding := Spaces(Offset(cols, i) - |row|);
            && Offset(cols, i + 1) == Offset(cols, i) + cols[i].width
            && next == (match cells[i] case None => row case Some(cell) => row + padding + cell)
            && Spaces(Offset(cols, i + 1) - |next|) ==
               match cells[i]
               case None => padding + Spaces(cols[i].width)
               case Some(cell) => Spaces(cols[i].width - |cell|)
  {
    assert cells[i].Some? ==> |cells[i].value| <= cols[i].width;
  }

  /** In every row each cell stands exactly at its column's offset, and the row is not too long. */
  lemma {:induction false} RowAligned(cols: seq<Column>, cells: seq<Option<string>>, i: nat, n: nat)
    requires CellsFit(cols, cells) && i < n <= |cols| && cells[i].Some?
    ensures var row, at, cell := RowOf(cols, cells, n), Offset(cols, i), cells[i].value;
            at + |cell| <= |row| <= Offset(cols, n) && row[at..at + |cell|] == cell
  {
    if i < n - 1 {
      RowAligned(cols, cells, i, n - 1);
    }
  }

  /** Outside the cells a row holds nothing but spaces. */
  lemma {:induction false} RowBlanks(cols: seq<Column>, cells: seq<Option<string>>, n: nat, k: nat)
    requires CellsFit(cols, cells) && n <= |cols| && k < |RowOf(cols, cells, n)|
    requires forall i | 0 <= i < n :: cells[i].Some? ==>
               !(Offset(cols, i) <= k < Offset(cols, i) + |cells[i].value|)
    ensures RowOf(cols, cells, n)[k] == ' '
  {
    if k < |RowOf(cols, cells, n - 1)| {
      RowBlanks(cols, cells, n - 1, k);
    }
  }

  /** A row ends with its last cell: nothing is padded behind it. */
  lemma {:induction false} RowEnds(cols: seq<Column>, cells: seq<Option<string>>, n: nat)
    requires CellsFit(cols, cells) && n <= |cols|
    ensures RowOf(cols, cells, n) == "" || exists i ::
              0 <= i < n && cells[i].Some? && |RowOf(cols, cells, n)| == Offset(cols, i) + |cells[i].value|
  {
    if n > 0 {
      RowEnds(cols, cells, n - 1);
      if cells[n - 1].Some? {
        assert |RowOf(cols, cells, n)| == Offset(cols, n - 1) + |cells[n - 1].value|;
      }
    }
  }

  function Heads(rests: seq<seq<string>>): seq<Option<string>> {
    seq(|rests|, i requires 0 <= i < |rests| => if rests[i] == [] then None else Some(rests[i][0]))
  }

  function Tail(rest: seq<string>): seq<string> {
    if rest == [] then [] else rest[1..]
  }

  function Tails(rests: seq<seq<string>>): (r: seq<seq<string>>)
    ensures |r| == |rests| && forall i | 0 <= i < |rests| :: r[i] == Tail(rests[i])
  {
    seq(|rests|, i requires 0 <= i < |rests| => Tail(rests[i]))
  }

  /** An iterator over `col` that has still to show `rest`. */
  ghost predicate Shows(it: ColumnIterator, col: Column, rest: seq<string>)
    reads it
  {
    it.Valid() && it.column == col && it.rest == rest
  }

  /** Moves an iterator on unless it is at its end. */
  method Advance(it: ColumnIterator)
    requires it.Valid()
    modifies it
    ensures Shows(it, it.column, Tail(old(it.rest)))
  {
    hide Wrappable, LinesFrom;
    if !it.AtEnd() {
      it.Next();
    }
  }

  ghost predicate AllWrappable(cols: seq<Column>) {
    forall i | 0 <= i < |cols| :: Wrappable(cols[i])
  }

  class ColumnsIterator {
    const columns: seq<Column>
    var iters: seq<ColumnIterator>
    /** For the proofs: what each column has still to show. */
    ghost var rests: seq<seq<string>>

    ghost predicate Valid()
      reads this, iters
    {
      && |iters| == |columns| == |rests|
      && (forall i, j | 0 <= i < j < |iters| :: iters[i] != iters[j])
      && (forall i | 0 <= i < |iters| ::
            Shows(iters[i], columns[i], rests[i]))
    }

    constructor (cols: seq<Column>)
      requires AllWrappable(cols)
      ensures Valid() && columns == cols && fresh(iters)
      ensures |rests| == |cols| && forall i | 0 <= i < |cols| :: rests[i] == LinesOf(cols[i])
    {
      hide Wrappable, LinesOf, ColumnIterator.Valid;
      columns := cols;
      iters, rests := [], [];
      new;
      while |iters| < |cols|
        invariant |iters| == |rests| <= |cols| && fresh(iters)
        invariant forall i, j | 0 <= i < j < |iters| :: iters[i] != iters[j]
        invariant forall i | 0 <= i < |iters| ::
                    Shows(iters[i], cols[i], rests[i])
        invariant forall i | 0 <= i < |iters| :: rests[i] == LinesOf(cols[i])
        decreases |cols| - |iters|
      {
        var it := new ColumnIterator(cols[|iters|]);
        rests := rests + [LinesOf(cols[|iters|])];
        iters := iters + [it];
      }
    }

    /** Equal to `end()`: every column is at its end. */
    predicate AtEnd()
      reads this, iters
    {
      forall i | 0 <= i < |iters| :: iters[i].AtEnd()
    }

    /** `operator*`: the current row. */
    method Row() returns (row: string)
      requires Valid()
      ensures CellsFit(columns, Heads(rests))
      ensures row == RowOf(columns, Heads(rests), |columns|)
    {
      hide ColumnIterator.Valid, RowOf, Offset, Spaces;
      CellsOfIterators();
      ghost var cells := Heads(rests);
      RowStart(columns, cells);
      row := "";
      var padding := "";
      var i := 0;
      while i < |columns|
        invariant i <= |columns|
        invariant row == RowOf(columns, cells, i)
        invariant padding == Spaces(Offset(columns, i) - |row|)
      {
        var width := columns[i].width;
        RowStep(columns, cells, i);
        if !iters[i].AtEnd() {
          var col := iters[i].Current();
          row := row + padding + col;
          if |col| < width {
            padding := Spaces(width - |col|);
          } else {
            padding := "";
          }
        } else {
          padding := padding + Spaces(width);
        }
        i := i + 1;
      }
    }

    lemma CellsOfIterators()
      requires Valid()
      ensures CellsFit(columns, Heads(rests))
      ensures forall i | 0 <= i < |iters| :: iters[i].AtEnd() <==> rests[i] == []
    {
      hide Wrappable, LinesFrom;
    }

    /** `operator++`: every column that is not at its end moves on. */
    method Next()
      requires Valid()
      modifies this`rests, iters
      ensures Valid() && rests == Tails(old(rests))
    {
      hide ColumnIterator.Valid, Tails, Tail;
      ghost var was, now := rests, Tails(rests);
      var i := 0;
      while i < |columns|
        invariant i <= |columns| && rests == was
        invariant forall j | 0 <= j < i :: Shows(iters[j], columns[j], now[j])
        invariant forall j | i <= j < |iters| :: Shows(iters[j], columns[j], was[j])
      {
        Advance(iters[i]);
        i := i + 1;
      }
      rests := now;
    }
  }

  // ---- The whole table ------------------------------------------------------------------

  function Drop(lines: seq<string>, r: nat): seq<string> {
    if r <= |lines| then lines[r..] else []
  }

  /** What the columns have still to show after `r` rows. */
  function RestsAt(lines: seq<seq<string>>, r: nat): (rests: seq<seq<string>>)
    ensures |rests| == |lines| && forall i | 0 <= i < |lines| :: rests[i] == Drop(lines[i], r)
  {
    seq(|lines|, i requires 0 <= i < |lines| => Drop(lines[i], r))
  }

  /** Row `r` of the table: line `r` of every column that has one. */
  function CellsAt(lines: seq<seq<string>>, r: nat): (cells: seq<Option<string>>)
    ensures |cells| == |lines|
    ensures forall i | 0 <= i < |lines| ::
              cells[i] == if r < |lines[i]| then Some(lines[i][r]) else None
  {
    seq(|lines|, i requires 0 <= i < |lines| => if r < |lines[i]| then Some(lines[i][r]) else None)
  }

  lemma RowsAdvance(lines: seq<seq<string>>, r: nat)
    ensures Heads(RestsAt(lines, r)) == CellsAt(lines, r)
    ensures Tails(RestsAt(lines, r)) == RestsAt(lines, r + 1)
  {
    hide Drop;
    forall i | 0 <= i < |lines|
      ensures Heads(RestsAt(lines, r))[i] == CellsAt(lines, r)[i]
      ensures Tail(RestsAt(lines, r)[i]) == RestsAt(lines, r + 1)[i]
    {
      DropStep(lines[i], r);
    }
  }

  lemma DropStep(lines: seq<string>, r: nat)
    ensures Drop(lines, r) == [] <==> |lines| <= r
    ensures r < |lines| ==> Drop(lines, r)[0] == lines[r]
    ensures Tail(Drop(lines, r)) == Drop(lines, r + 1)
  {
  }

  function Height(lines: seq<seq<string>>): (r: nat)
    ensures forall i | 0 <= i < |lines| :: |lines[i]| <= r
    ensures r > 0 ==> exists i | 0 <= i < |lines| :: |lines[i]| == r
  {
    if lines == [] then 0 else
      var rest := Height(lines[1..]);
      assert forall i | 1 <= i < |lines| :: lines[i] == lines[1..][i - 1];
      if |lines[0]| < rest then rest else |lines[0]|
  }

  /** `row` is row `r` of the table. */
  predicate IsRow(cols: seq<Column>, lines: seq<seq<string>>, r: nat, row: string) {
    CellsFit(cols, CellsAt(lines, r)) && row == RowOf(cols, CellsAt(lines, r), |cols|)
  }

  /** The rows of the table from the top. */
  predicate AreRows(cols: seq<Column>, lines: seq<seq<string>>, rows: seq<string>) {
    forall r | 0 <= r < |rows| :: IsRow(cols, lines, r, rows[r])
  }

  lemma AddRow(cols: seq<Column>, lines: seq<seq<string>>, rows: seq<string>, row: string)
    requires AreRows(cols, lines, rows)
    requires var cells := Heads(RestsAt(lines, |rows|));
             CellsFit(cols, cells) && row == RowOf(cols, cells, |cols|)
    ensures AreRows(cols, lines, rows + [row])
  {
    hide CellsFit, RowOf, Heads, RestsAt, CellsAt, IsRow;
    NextRow(cols, lines, |rows|, row);
  }

  lemma NextRow(cols: seq<Column>, lines: seq<seq<string>>, r: nat, row: string)
    requires var cells := Heads(RestsAt(lines, r));
             CellsFit(cols, cells) && row == RowOf(cols, cells, |cols|)
    ensures IsRow(cols, lines, r, row)
  {
    hide CellsFit, RowOf, Heads, RestsAt, CellsAt;
    RowsAdvance(lines, r);
  }

  lemma NothingDropped(lines: seq<seq<string>>)
    ensures RestsAt(lines, 0) == lines
  {
  }

  lemma EndAtHeight(it: ColumnsIterator, lines: seq<seq<string>>, r: nat)
    requires it.Valid() && it.rests == RestsAt(lines, r) && r <= Height(lines)
    ensures it.AtEnd() <==> r == Height(lines)
  {
    it.CellsOfIterators();
    hide ColumnIterator.Valid, ColumnIterator.AtEnd, Drop, Height;
    forall i | 0 <= i < |lines| ensures it.rests[i] == [] <==> |lines[i]| <= r {
      DropStep(lines[i], r);
    }
  }

  /** The lines of each column. */
  ghost function Table(cols: seq<Column>): (lines: seq<seq<string>>)
    requires AllWrappable(cols)
    ensures |lines| == |cols| && forall i | 0 <= i < |cols| :: lines[i] == LinesOf(cols[i])
  {
    seq(|cols|, i requires 0 <= i < |cols| && Wrappable(cols[i]) => LinesOf(cols[i]))
  }

  /** All rows: the loop of `operator<<`. */
  method AllRows(cols: seq<Column>) returns (rows: seq<string>)
    requires AllWrappable(cols)
    ensures |rows| == Height(Table(cols))
    ensures AreRows(cols, Table(cols), rows)
  {
    hide Wrappable, LinesOf, Height, Heads, Tails, ColumnsIterator.AtEnd, ColumnsIterator.Valid;
    hide CellsFit, RowOf, RestsAt, CellsAt, Drop;
    var it := new ColumnsIterator(cols);
    ghost var lines := Table(cols);
    assert it.rests == lines;
    rows := [];
    NothingDropped(lines);
    EndAtHeight(it, lines, 0);
    hide AreRows;
    while !it.AtEnd()
      invariant it.Valid() && it.columns == cols && fresh(it) && fresh(it.iters)
      invariant it.rests == RestsAt(lines, |rows|) && |rows| <= Height(lines)
      invariant it.AtEnd() <==> |rows| == Height(lines)
      invariant AreRows(cols, lines, rows)
      decreases Height(lines) - |rows|
    {
      RowsAdvance(lines, |rows|);
      var row := it.Row();
      it.Next();
      AddRow(cols, lines, rows, row);
      rows := rows + [row];
      EndAtHeight(it, lines, |rows|);
    }
  }
}
