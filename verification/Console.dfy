/** The text console (vga.c) against an unbounded document. */
module Console {
  import opened Types

  const LINES: nat := 25
  const COLUMNS: nat := 80
  const ATTRIBUTE: u8 := 0x1F
  const SPACE: u8 := 0x20
  const NEWLINE: u8 := 0x0A
  const RETURN: u8 := 0x0D

  // ----- the document -----

  function Blank(): (r: seq<u8>)
    ensures |r| == COLUMNS && forall k | 0 <= k < COLUMNS :: r[k] == SPACE
  {
    seq(COLUMNS, _ => SPACE)
  }

  /** Rows that are never lost; writing goes on in the last one, over what is there. */
  datatype Document = Document(rows: seq<seq<u8>>, col: nat) {
    predicate HasRows() {
      rows != [] && forall i | 0 <= i < |rows| :: |rows[i]| == COLUMNS
    }

    predicate Valid() {
      HasRows() && col < COLUMNS
    }

    function NewRow(): Document {
      Document(rows + [Blank()], 0)
    }

    /** One character: newline, carriage return, or a character at the cursor with wrapping. */
    function Put(c: u8): Document
      requires Valid()
    {
      if c == NEWLINE then NewRow()
      else if c == RETURN then this.(col := 0)
      else
        var typed := Typed(c);
        if typed.col == COLUMNS then typed.NewRow() else typed
    }

    /** The character before any wrapping. */
    function Typed(c: u8): Document
      requires Valid()
    {
      var last := |rows| - 1;
      var row: seq<u8> := rows[last][col := c];
      Document(rows[last := row], col + 1)
    }

    /** The number of rows that have left the screen. */
    function Gone(): nat {
      if |rows| > LINES then |rows| - LINES else 0
    }

    function CharAt(line: nat, column: nat): u8
      requires HasRows() && column < COLUMNS
    {
      if Gone() + line < |rows| then rows[Gone() + line][column] else SPACE
    }

    /** ... and after a new row. */
    function Scrolled(line: nat, column: nat): u8
      requires HasRows() && column < COLUMNS
    {
      if |rows| < LINES then CharAt(line, column) else if line == LINES - 1 then SPACE else CharAt(line + 1, column)
    }
  }

  /** A new row moves the last 25 rows up when there are as many. */
  lemma NewRowScrolls(d: Document)
    requires d.HasRows()
    ensures d.NewRow().Valid()
    ensures forall line, column | 0 <= line < LINES && 0 <= column < COLUMNS ::
      d.NewRow().CharAt(line, column) == d.Scrolled(line, column)
  {
    forall line, column | 0 <= line < LINES && 0 <= column < COLUMNS
      ensures d.NewRow().CharAt(line, column) == d.Scrolled(line, column)
    {
    }
  }

  /** A document that starts on a line of a cleared screen. */
  function Start(line: nat): (d: Document)
    ensures d.Valid() && |d.rows| == line + 1
  {
    Document(seq(line + 1, _ => Blank()), 0)
  }

  function Written(d: Document, text: seq<u8>): (r: Document)
    requires d.Valid()
    ensures r.Valid()
  {
    if text == [] then d else Written(d, text[..|text| - 1]).Put(text[|text| - 1])
  }

  /** Cell `column` of row `row` when text runs on through rows of eighty. */
  function Flowed(text: seq<u8>, row: nat, column: nat): u8 {
    if 80 * row + column < |text| then text[80 * row + column] else 0x20
  }

  /** Text without control characters fills rows of eighty. */
  lemma {:induction false} PlainText(text: seq<u8>)
    requires NEWLINE !in text && RETURN !in text
    ensures |Written(Start(0), text).rows| == |text| / 80 + 1 && Written(Start(0), text).col == |text| % 80
    ensures forall row, column | 0 <= row < |Written(Start(0), text).rows| && 0 <= column < 80 ::
      Written(Start(0), text).rows[row][column] == Flowed(text, row, column)
  {
    if text != [] {
      PlainText(text[..|text| - 1]);
    }
  }

  /** Rows above that no character reaches any more. */
  predicate Below(d: Document, above: seq<seq<u8>>, e: Document) {
    d.rows == above + e.rows && d.col == e.col
  }

  lemma PutBelow(d: Document, above: seq<seq<u8>>, e: Document, c: u8)
    requires d.Valid() && e.Valid() && Below(d, above, e)
    ensures Below(d.Put(c), above, e.Put(c))
  {
    var n := |d.rows| - 1;
    assert d.rows[n] == e.rows[|e.rows| - 1];
    assert (above + e.rows) + [Blank()] == above + (e.rows + [Blank()]);
    if c != NEWLINE && c != RETURN {
      var row: seq<u8> := e.rows[|e.rows| - 1][e.col := c];
      assert d.Typed(c).rows == above + e.Typed(c).rows;
      assert (above + e.Typed(c).rows) + [Blank()] == above + (e.Typed(c).rows + [Blank()]);
    }
  }

  lemma WrittenMore(d: Document, text: seq<u8>, c: u8)
    requires d.Valid()
    ensures Written(d, text + [c]) == Written(d, text).Put(c)
  {
    assert (text + [c])[..|text|] == text;
  }

  lemma {:induction false} WrittenBelow(d: Document, above: seq<seq<u8>>, e: Document, text: seq<u8>)
    requires d.Valid() && e.Valid() && Below(d, above, e)
    ensures Below(Written(d, text), above, Written(e, text))
  {
    if text != [] {
      WrittenBelow(d, above, e, text[..|text| - 1]);
      PutBelow(Written(d, text[..|text| - 1]), above, Written(e, text[..|text| - 1]), text[|text| - 1]);
    }
  }

  lemma {:induction false} WrittenAppend(d: Document, s: seq<u8>, t: seq<u8>)
    requires d.Valid()
    ensures Written(d, s + t) == Written(Written(d, s), t)
  {
    if t == [] {
      assert s + t == s;
    } else {
      var all := s + t;
      assert all[..|all| - 1] == s + t[..|t| - 1] && all[|all| - 1] == t[|t| - 1];
      WrittenAppend(d, s, t[..|t| - 1]);
    }
  }

  /** A newline splits a text: what comes before it and what comes after it are laid out each for
      itself, the one above the other. */
  lemma NewlineSplits(s: seq<u8>, t: seq<u8>)
    ensures Written(Start(0), s + [0x0A] + t).rows == Written(Start(0), s).rows + Written(Start(0), t).rows
    ensures Written(Start(0), s + [0x0A] + t).col == Written(Start(0), t).col
  {
    var d := Written(Start(0), s);
    WrittenAppend(Start(0), s + [0x0A], t);
    WrittenMore(Start(0), s, 0x0A);
    assert d.NewRow().rows == d.rows + Start(0).rows;
    WrittenBelow(d.NewRow(), d.rows, Start(0), t);
  }

  /** Starting further down leaves blank lines above. */
  lemma StartsBelow(line: nat, text: seq<u8>)
    ensures Written(Start(line), text).rows == seq(line, _ => Blank()) + Written(Start(0), text).rows
    ensures Written(Start(line), text).col == Written(Start(0), text).col
  {
    assert Start(line).rows == seq(line, _ => Blank()) + Start(0).rows;
    WrittenBelow(Start(line), seq(line, _ => Blank()), Start(0), text);
  }

  /** A line with the first characters written over. */
  function Over(t: seq<u8>, row: seq<u8>): seq<u8>
    requires |t| <= |row|
  {
    t + row[|t|..]
  }

  lemma {:induction false} Overwritten(d: Document, t: seq<u8>)
    requires d.Valid() && d.col == 0 && NEWLINE !in t && RETURN !in t && |t| < 80
    ensures Written(d, t) == Document(d.rows[|d.rows| - 1 := Over(t, d.rows[|d.rows| - 1])], |t|)
  {
    var last := d.rows[|d.rows| - 1];
    if t == [] {
      assert Over(t, last) == last;
    } else {
      var front, c := t[..|t| - 1], t[|t| - 1];
      Overwritten(d, front);
      assert Over(front, last)[|front| := c] == Over(t, last);
    }
  }

  /** A carriage return goes back to the start of the line: a shorter text is written over what is there,
      and the rest of the line stays, as do the lines above. */
  lemma ReturnOverwrites(s: seq<u8>, t: seq<u8>)
    requires 0x0A !in t && 0x0D !in t && |t| < 80
    ensures var was, now := Written(Start(0), s).rows, Written(Start(0), s + [0x0D] + t).rows;
      && |now| == |was| && now[..|now| - 1] == was[..|was| - 1]
      && now[|now| - 1] == t + was[|was| - 1][|t|..]
    ensures Written(Start(0), s + [0x0D] + t).col == |t|
  {
    var d := Written(Start(0), s);
    WrittenAppend(Start(0), s + [0x0D], t);
    WrittenMore(Start(0), s, 0x0D);
    Overwritten(d.(col := 0), t);
  }

  lemma FillsLine(d: Document, t: seq<u8>)
    requires d.Valid() && d.col == 0 && NEWLINE !in t && RETURN !in t && |t| == 80
    ensures Written(d, t) == Document(d.rows[..|d.rows| - 1] + [t, Blank()], 0)
  {
    var n, front := |d.rows| - 1, t[..79];
    Overwritten(d, front);
    var row: seq<u8> := Over(front, d.rows[n])[79 := t[79]];
    assert row == t;
    assert d.rows[n := Over(front, d.rows[n])][n := t] + [Blank()] == d.rows[..n] + [t, Blank()];
  }

  lemma LineReplaced(d: Document, e: Document, first: seq<u8>, rest: seq<u8>)
    requires d.Valid() && d.col == 0 && e.Valid() && e.col == 0 && |e.rows| == 1
    requires NEWLINE !in first && RETURN !in first && |first| == 80
    ensures Below(Written(d, first + rest), d.rows[..|d.rows| - 1], Written(e, first + rest))
  {
    var above := d.rows[..|d.rows| - 1];
    WrittenAppend(d, first, rest);
    WrittenAppend(e, first, rest);
    FillsLine(d, first);
    FillsLine(e, first);
    assert e.rows[..0] + [first, Blank()] == [first, Blank()];
    WrittenBelow(Written(d, first), above, Written(e, first), rest);
  }

  /** A text of a line or more replaces the line and goes on below. */
  lemma ReturnReplaces(s: seq<u8>, t: seq<u8>)
    requires 0x0A !in t && 0x0D !in t && |t| >= 80
    ensures var was := Written(Start(0), s).rows;
      Written(Start(0), s + [0x0D] + t).rows == was[..|was| - 1] + Written(Start(0), t).rows
    ensures Written(Start(0), s + [0x0D] + t).col == Written(Start(0), t).col
  {
    var d := Written(Start(0), s);
    WrittenAppend(Start(0), s + [0x0D], t);
    WrittenMore(Start(0), s, 0x0D);
    WholeReplaced(d.(col := 0), Start(0), t);
  }

  lemma WholeReplaced(d: Document, e: Document, t: seq<u8>)
    requires d.Valid() && d.col == 0 && e.Valid() && e.col == 0 && |e.rows| == 1
    requires NEWLINE !in t && RETURN !in t && |t| >= 80
    ensures Below(Written(d, t), d.rows[..|d.rows| - 1], Written(e, t))
  {
    var first, rest := t[..80], t[80..];
    assert t == first + rest;
    LineReplaced(d, e, first, rest);
  }

  // ----- the screen -----

  datatype Cell = Cell(character: u8, attribute: u8)

  const EMPTY := Cell(SPACE, ATTRIBUTE)

  class Screen {
    const cells: array<Cell>
    var curLine: u8
    var curCol: u8
    var crtcIndex: u8
    var crtc: map<u8, u8>

    constructor ()
      ensures Valid() && fresh(cells)
    {
      cells := new Cell[2000](_ => EMPTY);
      curLine, curCol, crtcIndex, crtc := 0, 0, 0, map[];
    }

    predicate Valid() {
      cells.Length == 2000
    }

    function Shown(line: int, column: int): Cell
      requires Valid() && 0 <= line < LINES && 0 <= column < COLUMNS
      reads cells
    {
      cells[line * 80 + column]
    }

    /** The screen is the last 25 rows of the document, and the cursor is where it goes on. */
    ghost predicate Shows(d: Document)
      reads this, cells
    {
      && Valid() && d.Valid()
      && curLine as int == |d.rows| - 1 - d.Gone() && curCol == d.col && Pictures(d)
    }

    ghost predicate Pictures(d: Document)
      requires Valid() && d.HasRows()
      reads cells
    {
      forall line, column | 0 <= line < LINES && 0 <= column < COLUMNS ::
        Shown(line, column) == Cell(d.CharAt(line, column), ATTRIBUTE)
    }

    /** The last 25 of some rows, white on blue, with blank lines below them if there are fewer. */
    predicate ShowsRows(rows: seq<seq<u8>>)
      requires Valid() && forall i | 0 <= i < |rows| :: |rows[i]| == COLUMNS
      reads this, cells
    {
      && curLine as int == (if |rows| > 25 then 25 else |rows|) - 1
      && forall line, column | 0 <= line < 25 && 0 <= column < 80 ::
        var i := line + if |rows| > 25 then |rows| - 25 else 0;
        Shown(line, column) == Cell(if i < |rows| then rows[i][column] else 0x20, 0x1F)
    }

    method SetChar(index: int, c: u8)
      requires Valid() && 0 <= index < 2000
      modifies cells
      ensures cells[index] == Cell(c, ATTRIBUTE)
      ensures forall i | 0 <= i < 2000 && i != index :: cells[i] == old(cells[i])
    {
      cells[index] := Cell(c, ATTRIBUTE);
    }

    method SetCharLc(line: int, col: int, c: u8)
      requires Valid() && 0 <= line < LINES && 0 <= col < COLUMNS
      modifies cells
      ensures forall l, k | 0 <= l < LINES && 0 <= k < COLUMNS ::
        Shown(l, k) == if l == line && k == col then Cell(c, ATTRIBUTE) else old(Shown(l, k))
    {
      SetChar(line * 80 + col, c);
    }

    method OutIndex(v: u8)
      modifies this`crtcIndex
      ensures crtcIndex == v
    {
      crtcIndex := v;
    }

    method OutData(v: u8)
      modifies this`crtc
      ensures crtc == old(crtc)[crtcIndex := v]
    {
      crtc := crtc[crtcIndex := v];
    }

    /** The cursor address that the CRT controller has been given. */
    function Programmed(): int
      reads this`crtc
    {
      if 0x0E in crtc && 0x0F in crtc then crtc[0x0E] as int * 0x100 + crtc[0x0F] else -1
    }

    method SetCursor(line: int, col: int)
      requires 0 <= line < LINES && 0 <= col < COLUMNS
      modifies this
      ensures curLine == line && curCol == col && Programmed() == line * 80 + col
    {
      var index := line * 80 + col;
      curLine, curCol := line, col;
      OutIndex(0x0F);
      OutData(index % 0x100);
      OutIndex(0x0E);
      OutData(index / 0x100 % 0x100);
    }

    /** Two cells at a time. */
    method Cls(line: u8)
      requires Valid()
      modifies this`curLine, this`curCol, cells
      ensures line < 25 ==> Shows(Start(line))
    {
      curLine, curCol := line, 0;
      for i := 0 to 1000
        invariant curLine == line && curCol == 0 && forall k | 0 <= k < 2 * i :: cells[k] == EMPTY
      {
        cells[2 * i], cells[2 * i + 1] := EMPTY, EMPTY;
      }
    }

    /** The screen as dwords of two cells, forty to a line. */
    method GetDword(i: int, ghost line: int, ghost col: int) returns (left: Cell, right: Cell)
      requires Valid() && 0 <= line < LINES && 0 <= col < 40 && i == col + line * 40
      ensures left == Shown(line, 2 * col) && right == Shown(line, 2 * col + 1)
    {
      left, right := cells[2 * i], cells[2 * i + 1];
    }

    method SetDword(i: int, left: Cell, right: Cell, ghost line: int, ghost col: int)
      requires Valid() && 0 <= line < LINES && 0 <= col < 40 && i == col + line * 40
      modifies cells
      ensures Shown(line, 2 * col) == left && Shown(line, 2 * col + 1) == right
      ensures forall l, k | 0 <= l < LINES && 0 <= k < COLUMNS && (l != line || (k != 2 * col && k != 2 * col + 1)) ::
        Shown(l, k) == old(Shown(l, k))
    {
      cells[2 * i], cells[2 * i + 1] := left, right;
    }

    method ScrollLine(line: int)
      requires Valid() && 1 <= line < LINES
      modifies cells
      ensures forall k | 0 <= k < COLUMNS :: Shown(line - 1, k) == old(Shown(line, k))
      ensures forall l, k | 0 <= l < LINES && 0 <= k < COLUMNS && l != line - 1 :: Shown(l, k) == old(Shown(l, k))
    {
      for col := 0 to 40
        invariant forall k | 0 <= k < 2 * col :: Shown(line - 1, k) == old(Shown(line, k))
        invariant forall l, k | 0 <= l < LINES && 0 <= k < COLUMNS && l != line - 1 :: Shown(l, k) == old(Shown(l, k))
      {
        var left, right := GetDword(col + line * 40, line, col);
        SetDword(col + (line - 1) * 40, left, right, line - 1, col);
      }
    }

    method Scroll()
      requires Valid()
      modifies cells
      ensures forall l, k | 0 <= l < LINES && 0 <= k < COLUMNS ::
        Shown(l, k) == if l == LINES - 1 then EMPTY else old(Shown(l + 1, k))
    {
      for line := 1 to 25
        invariant forall l, k | 0 <= l < line - 1 && 0 <= k < COLUMNS :: Shown(l, k) == old(Shown(l + 1, k))
        invariant forall l, k | line - 1 <= l < LINES && 0 <= k < COLUMNS :: Shown(l, k) == old(Shown(l, k))
      {
        ScrollLine(line);
      }
      for i := 0 to 40
        invariant forall l, k | 0 <= l < LINES - 1 && 0 <= k < COLUMNS :: Shown(l, k) == old(Shown(l + 1, k))
        invariant forall k | 0 <= k < 2 * i :: Shown(24, k) == EMPTY
      {
        SetDword(40 * 24 + i, EMPTY, EMPTY, 24, i);
      }
    }

    /** The end of vgaPutChar, on a document that is complete but for the room that a new row may
        need. */
    method Settle(ghost d: Document, ghost newRow: bool)
      requires Valid() && d.HasRows() && Pictures(d)
      requires curLine as int == |d.rows| - 1 - d.Gone() + if newRow then 1 else 0
      requires if newRow then curCol == 0 else curCol == d.col < COLUMNS
      modifies this, cells
      ensures Shows(if newRow then d.NewRow() else d) && Programmed() == curLine * 80 + curCol
    {
      if newRow {
        NewRowScrolls(d);
      }
      if curLine >= 25 {
        Scroll();
        curLine := 24;
      }
      SetCursor(curLine, curCol);
    }

    method PutChar(c: u8, ghost d: Document)
      requires Shows(d)
      modifies this, cells
      ensures Shows(d.Put(c)) && Programmed() == curLine * 80 + curCol
    {
      if c == NEWLINE {
        curCol := 0;
        curLine := curLine + 1;
      } else if c == RETURN {
        curCol := 0;
      } else {
        SetCharLc(curLine, curCol, c);
        curCol := curCol + 1;
      }
      if curCol >= 80 {
        curLine := curLine + 1;
        curCol := 0;
      }
      ghost var wraps := c != NEWLINE && c != RETURN && d.col == COLUMNS - 1;
      Settle(if c == NEWLINE then d else if c == RETURN then d.(col := 0) else d.Typed(c), c == NEWLINE || wraps);
    }

    /** After any text from a cleared screen the screen is the last 25 rows of the document. */
    method Print(line: u8, text: seq<u8>)
      requires Valid() && line < 25
      modifies this, cells
      ensures Shows(Written(Start(line), text)) && Programmed() == curLine * 80 + curCol
      ensures ShowsRows(Written(Start(line), text).rows)
    {
      Cls(line);
      SetCursor(line, 0);
      for i := 0 to |text|
        invariant Shows(Written(Start(line), text[..i])) && Programmed() == curLine * 80 + curCol
      {
        assert text[..i + 1][..i] == text[..i];
        PutChar(text[i], Written(Start(line), text[..i]));
      }
      assert text[..|text|] == text;
    }
  }
}
