/**
  What the handlers do to the screen, as functions on the contents of the lines and the cursor.

  Program output reaches the print handler in slices that end anywhere.  The two main results
  here are that printing never tears a wide character unless it is told not to wrap, and that
  the slices leave no trace on the screen.
  */
module Printing {
  import opened Common
  import opened Machine
  import opened BufferLine
  import opened Scrolling
  import opened Cursor
  import opened WideCells

  datatype Screen = Screen(view: View<Line>, pos: Pos)

  datatype Modes = Modes(wraparound: bool, insertMode: bool, attr: int, eraseAttr: int)

  /** A character as it is stored, after translation by the character set, with its width. */
  datatype Glyph = Glyph(code: nat, width: nat)

  ghost predicate Glyphs(gs: seq<Glyph>) {
    forall k :: 0 <= k < |gs| ==> gs[k].width <= 2
  }

  ghost predicate LinesOf(lines: seq<Line>, cols: nat) {
    forall k :: 0 <= k < |lines| ==> |lines[k].cells| == cols
  }

  ghost predicate ScreenOk(s: Screen, f: Frame, cols: nat) {
    && ViewOk(s.view, f)
    && cols >= 2 && 0 <= s.pos.x <= cols && 0 <= s.pos.y < f.rows
    && LinesOf(s.view.lines, cols)
  }

  ghost predicate HasRow(s: Screen) {
    0 <= s.pos.y && s.view.ybase + s.pos.y < |s.view.lines|
  }

  /** The line under the cursor. */
  function Row(s: Screen): Cells
    requires HasRow(s)
  {
    s.view.lines[s.view.ybase + s.pos.y].cells
  }

  function WithLine(s: Screen, l: Line): Screen
    requires HasRow(s)
  {
    s.(view := s.view.(lines := s.view.lines[s.view.ybase + s.pos.y := l]))
  }

  function WithRow(s: Screen, cells: Cells): Screen
    requires HasRow(s)
  {
    WithLine(s, s.view.lines[s.view.ybase + s.pos.y].(cells := cells))
  }

  // ---------------------------------------------------------------- moving to the next line

  lemma ScrolledScreenOk(s: Screen, f: Frame, cols: nat, blank: Line, x: int, y: int)
    requires ScreenOk(s, f, cols) && |blank.cells| == cols && 0 <= x <= cols && 0 <= y < f.rows
    ensures ScreenOk(Screen(Scrolled(s.view, f, blank), Pos(x, y)), f, cols)
  {
    var w := Scrolled(s.view, f, blank);
    ScrolledOk(s.view, f, blank);
    ScrolledShape(s.view, f, blank);
    hide Scrolled, ScrolledLines;
    forall k | 0 <= k < |w.lines| ensures |w.lines[k].cells| == cols {
      ScrolledAt(s.view.lines, s.view.ybase, f, blank, k);
    }
  }

  /** One row down: at the bottom of the region the region scrolls, at the bottom of the screen nothing moves. */
  function RowDown(s: Screen, f: Frame, cols: nat, blank: Line): (t: Screen)
    requires ScreenOk(s, f, cols) && |blank.cells| == cols
    ensures ScreenOk(t, f, cols) && t.pos.x == s.pos.x
  {
    ScrolledScreenOk(s, f, cols, blank, s.pos.x, s.pos.y);
    if s.pos.y == f.bottom then s.(view := Scrolled(s.view, f, blank))
    else s.(pos := s.pos.(y := Min(s.pos.y + 1, f.rows - 1)))
  }

  /** The next row continues this one. */
  function Continued(s: Screen, f: Frame, cols: nat, eraseAttr: int): (t: Screen)
    requires ScreenOk(s, f, cols)
    ensures ScreenOk(t, f, cols) && t.pos.x == 0
  {
    var down := RowDown(s, f, cols, Line(Blank(cols, eraseAttr), true));
    var home := down.(pos := down.pos.(x := 0));
    if s.pos.y == f.bottom then home
    else WithLine(home, home.view.lines[home.view.ybase + home.pos.y].(isWrapped := true))
  }

  // ---------------------------------------------------------------- printing

  function Step(g: Glyph): nat {
    if g.width == 2 then 2 else 1
  }

  /** The glyph at the cursor. */
  function Put(s: Screen, f: Frame, cols: nat, m: Modes, g: Glyph): (t: Screen)
    requires ScreenOk(s, f, cols) && g.width <= 2 && s.pos.x + Step(g) <= cols
    ensures ScreenOk(t, f, cols)
  {
    var row := if m.insertMode then CellsInserted(Row(s), s.pos.x, g.width, m.attr) else Row(s);
    WithRow(s, Written(row, s.pos.x, [g.code], g.width, m.attr)).(pos := s.pos.(x := s.pos.x + Step(g)))
  }

  function Join(s: Screen, f: Frame, cols: nat, g: Glyph): (t: Screen)
    requires ScreenOk(s, f, cols) && s.pos.x > 0
    ensures ScreenOk(t, f, cols)
  {
    WithRow(s, Combined(Row(s), s.pos.x, g.code))
  }

  function PadRow(s: Screen, f: Frame, cols: nat, attr: int): (t: Screen)
    requires ScreenOk(s, f, cols)
    ensures ScreenOk(t, f, cols) && t.pos == s.pos
  {
    WithRow(s, Row(s)[..s.pos.x] + Blank(cols - s.pos.x, attr))
  }

  predicate Fits(s: Screen, cols: nat, g: Glyph) {
    s.pos.x + g.width <= cols
  }

  predicate Spacing(s: Screen, g: Glyph) {
    g.width > 0 || s.pos.x == 0
  }

  function PrintOne(s: Screen, f: Frame, cols: nat, m: Modes, g: Glyph): (t: Screen)
    requires ScreenOk(s, f, cols) && g.width <= 2
    ensures ScreenOk(t, f, cols)
  {
    if !Spacing(s, g) then Join(s, f, cols, g)
    else if Fits(s, cols, g) then Put(s, f, cols, m, g)
    else if m.wraparound then Put(Continued(PadRow(s, f, cols, m.attr), f, cols, m.eraseAttr), f, cols, m, g)
    else
      var last := s.(pos := s.pos.(x := cols - 1));
      if g.width == 2 then last else Put(last, f, cols, m, g)
  }

  function PrintEach(s: Screen, f: Frame, cols: nat, m: Modes, gs: seq<Glyph>): (t: Screen)
    requires ScreenOk(s, f, cols) && Glyphs(gs)
    ensures ScreenOk(t, f, cols)
  {
    if |gs| == 0 then s else PrintOne(PrintEach(s, f, cols, m, gs[..|gs| - 1]), f, cols, m, gs[|gs| - 1])
  }

  /** Printing may start on the second half of a wide character, whose first half then goes. */
  function Before(s: Screen, f: Frame, cols: nat, m: Modes): (t: Screen)
    requires ScreenOk(s, f, cols)
    ensures ScreenOk(t, f, cols) && t.pos == s.pos
  {
    WithRow(s, ClearedBefore(Row(s), s.pos.x, m.attr))
  }

  /** Printing may end on the first half of a wide character, whose second half then goes. */
  function Behind(s: Screen, f: Frame, cols: nat, m: Modes): (t: Screen)
    requires ScreenOk(s, f, cols)
    ensures ScreenOk(t, f, cols) && t.pos == s.pos
  {
    WithRow(s, ClearedAt(Row(s), s.pos.x, m.attr))
  }

  /** One call of the print handler. */
  function Printed(s: Screen, f: Frame, cols: nat, m: Modes, gs: seq<Glyph>): (t: Screen)
    requires ScreenOk(s, f, cols) && Glyphs(gs)
    ensures ScreenOk(t, f, cols)
  {
    if |gs| == 0 then s else Behind(PrintEach(Before(s, f, cols, m), f, cols, m, gs), f, cols, m)
  }

  // ---------------------------------------------------------------- no wide character is torn

  ghost predicate LinesIntact(lines: seq<Line>) {
    forall k :: 0 <= k < |lines| ==> RowOk(lines[k].cells)
  }

  /** While printing: at the cursor there may be a second half whose first half was overwritten. */
  ghost predicate Intact(s: Screen)
    requires HasRow(s)
  {
    && (forall k :: 0 <= k < |s.view.lines| && k != s.view.ybase + s.pos.y ==> RowOk(s.view.lines[k].cells))
    && s.pos.x >= 0 && RowOkUpTo(Row(s), s.pos.x)
  }

  /**
    When a glyph tears a wide character: without wrapping, from behind the last column, when the
    last two columns hold a wide character; in insert mode, at the first column, when a lone
    combining character stands there and is pushed to the right.
    */
  ghost predicate Tears(s: Screen, f: Frame, cols: nat, m: Modes, g: Glyph)
    requires ScreenOk(s, f, cols)
  {
    && Spacing(s, g)
    && if Fits(s, cols, g) then m.insertMode && s.pos.x == 0 && 0 < g.width < cols && StandsAlone(Row(s)[0])
       else if m.wraparound then
         m.insertMode && g.width < cols && StandsAlone(Row(Continued(PadRow(s, f, cols, m.attr), f, cols, m.eraseAttr))[0])
       else s.pos.x == cols && Row(s)[cols - 2].width == 2 && (g.width == 2 || !m.insertMode)
  }

  lemma WithRowIntact(s: Screen, cells: Cells, x: int)
    requires HasRow(s) && (forall k :: 0 <= k < |s.view.lines| && k != s.view.ybase + s.pos.y ==> RowOk(s.view.lines[k].cells))
    ensures var t := WithRow(s, cells).(pos := s.pos.(x := x));
            HasRow(t) && Row(t) == cells && (Intact(t) <==> x >= 0 && RowOkUpTo(cells, x))
  {
    hide RowOkUpTo, RowOk;
  }

  lemma PutIntact(s: Screen, f: Frame, cols: nat, m: Modes, g: Glyph)
    requires ScreenOk(s, f, cols) && g.width <= 2 && s.pos.x + Step(g) <= cols && Spacing(s, g)
    requires Intact(s)
    ensures Intact(Put(s, f, cols, m, g))
       <==> !(m.insertMode && s.pos.x == 0 && 0 < g.width < cols && StandsAlone(Row(s)[0]))
  {
    var x, row := s.pos.x, Row(s);
    if m.insertMode && g.width > 0 {
      InsertAndWrite(row, x, [g.code], g.width, m.attr);
    } else {
      if m.insertMode {
        InsertNothing(row, m.attr);
      }
      Write(row, x, [g.code], g.width, m.attr);
    }
    var after := Written(if m.insertMode then CellsInserted(row, x, g.width, m.attr) else row, x, [g.code], g.width, m.attr);
    hide CellsInserted, Written, RowOk, RowOkUpTo;
    WithRowIntact(s, after, x + Step(g));
  }

  lemma InsertAtLast(cells: Cells, text: seq<nat>, attr: int)
    requires RowOk(cells) && |cells| >= 2 && text != []
    ensures var x := |cells| - 1;
            RowOkUpTo(Written(CellsInserted(cells, x, 1, attr), x, text, 1, attr), |cells|)
  {
    var x := |cells| - 1;
    ClearBefore(cells, x, attr);
    var cleared := ClearedBefore(cells, x, attr);
    assert CellsInserted(cleared, x, 1, attr) == CellsInserted(cells, x, 1, attr);
    InsertAndWrite(cleared, x, text, 1, attr);
  }

  lemma WriteAtLast(cells: Cells, text: seq<nat>, attr: int)
    requires RowOk(cells) && |cells| >= 2 && text != []
    ensures RowOkUpTo(Written(cells, |cells| - 1, text, 1, attr), |cells|) <==> cells[|cells| - 2].width != 2
  {
    LastColumn(cells, text, attr);
    var d := Written(cells, |cells| - 1, text, 1, attr);
    assert d[|cells| - 1].width == 1;
    assert RowOkUpTo(d, |cells|) <==> RowOk(d);
  }

  /** In the last column without wrapping: the cell before may be a first half. */
  lemma PutLast(s: Screen, f: Frame, cols: nat, m: Modes, g: Glyph)
    requires ScreenOk(s, f, cols) && g.width == 1 && s.pos.x == cols && Intact(s)
    ensures var last := s.(pos := s.pos.(x := cols - 1));
            ScreenOk(last, f, cols) && (Intact(Put(last, f, cols, m, g)) <==> m.insertMode || Row(s)[cols - 2].width != 2)
  {
    var row := Row(s);
    var x := cols - 1;
    var last := s.(pos := s.pos.(x := x));
    assert RowOk(row);
    if m.insertMode {
      InsertAtLast(row, [g.code], m.attr);
    } else {
      WriteAtLast(row, [g.code], m.attr);
    }
    var after := Written(if m.insertMode then CellsInserted(row, x, 1, m.attr) else row, x, [g.code], 1, m.attr);
    hide CellsInserted, Written, RowOk, RowOkUpTo;
    WithRowIntact(last, after, cols);
  }

  lemma JoinIntact(s: Screen, f: Frame, cols: nat, g: Glyph)
    requires ScreenOk(s, f, cols) && s.pos.x > 0 && Intact(s)
    ensures Intact(Join(s, f, cols, g))
  {
    Combine(Row(s), s.pos.x, g.code);
    hide Combined, RowOk, RowOkUpTo;
    WithRowIntact(s, Combined(Row(s), s.pos.x, g.code), s.pos.x);
  }

  lemma PadIntact(s: Screen, f: Frame, cols: nat, attr: int)
    requires ScreenOk(s, f, cols) && s.pos.x + 1 >= cols && Intact(s)
    ensures LinesIntact(PadRow(s, f, cols, attr).view.lines)
  {
    var row, x := Row(s), s.pos.x;
    var padded := row[..x] + Blank(cols - x, attr);
    assert RowOk(padded) by {
      forall k | 0 <= k < cols ensures CellOk(padded, k) {
        if k < x {
          assert CellOk(row, k);
        }
      }
    }
    hide RowOk, RowOkUpTo;
  }

  lemma RowDownIntact(s: Screen, f: Frame, cols: nat, blank: Line)
    requires ScreenOk(s, f, cols) && |blank.cells| == cols && RowOk(blank.cells) && LinesIntact(s.view.lines)
    ensures LinesIntact(RowDown(s, f, cols, blank).view.lines)
  {
    hide RowOk;
    if s.pos.y == f.bottom {
      var w := Scrolled(s.view, f, blank);
      ScrolledShape(s.view, f, blank);
      hide Scrolled, ScrolledLines;
      forall k | 0 <= k < |w.lines| ensures RowOk(w.lines[k].cells) {
        ScrolledAt(s.view.lines, s.view.ybase, f, blank, k);
      }
    }
  }

  lemma ContinuedIntact(s: Screen, f: Frame, cols: nat, eraseAttr: int)
    requires ScreenOk(s, f, cols) && LinesIntact(s.view.lines)
    ensures Intact(Continued(s, f, cols, eraseAttr)) && LinesIntact(Continued(s, f, cols, eraseAttr).view.lines)
  {
    BlankRowOk(cols, eraseAttr);
    RowDownIntact(s, f, cols, Line(Blank(cols, eraseAttr), true));
    var t := Continued(s, f, cols, eraseAttr);
    assert RowOk(Row(t)) ==> RowOkUpTo(Row(t), 0);
    hide RowOk, RowDown, RowOkUpTo;
  }

  lemma SkipIntact(s: Screen, f: Frame, cols: nat)
    requires ScreenOk(s, f, cols) && s.pos.x + 1 >= cols && Intact(s)
    ensures Intact(s.(pos := s.pos.(x := cols - 1))) <==> !(s.pos.x == cols && Row(s)[cols - 2].width == 2)
  {
    var row := Row(s);
    if s.pos.x == cols {
      assert RowOkUpTo(row, cols - 1) <==> row[cols - 2].width != 2;
    }
    hide RowOk;
  }

  /** Printing one glyph keeps every wide character whole if and only if it does not tear one. */
  lemma PrintOneIntact(s: Screen, f: Frame, cols: nat, m: Modes, g: Glyph)
    requires ScreenOk(s, f, cols) && g.width <= 2 && Intact(s)
    ensures Intact(PrintOne(s, f, cols, m, g)) <==> !Tears(s, f, cols, m, g)
  {
    hide Put, Join, PadRow, Continued, Intact, Row, RowOk;
    if !Spacing(s, g) {
      JoinIntact(s, f, cols, g);
    } else if Fits(s, cols, g) {
      PutIntact(s, f, cols, m, g);
    } else if m.wraparound {
      PadIntact(s, f, cols, m.attr);
      ContinuedIntact(PadRow(s, f, cols, m.attr), f, cols, m.eraseAttr);
      PutIntact(Continued(PadRow(s, f, cols, m.attr), f, cols, m.eraseAttr), f, cols, m, g);
    } else if g.width == 2 {
      SkipIntact(s, f, cols);
    } else {
      PutLast(s, f, cols, m, g);
    }
  }

  /** With wrapping and without inserting nothing is ever torn. */
  lemma {:induction false} PrintEachIntact(s: Screen, f: Frame, cols: nat, m: Modes, gs: seq<Glyph>)
    requires ScreenOk(s, f, cols) && Glyphs(gs) && Intact(s) && m.wraparound && !m.insertMode
    ensures Intact(PrintEach(s, f, cols, m, gs))
    decreases |gs|
  {
    hide PrintOne, Intact;
    if |gs| > 0 {
      PrintEachIntact(s, f, cols, m, gs[..|gs| - 1]);
      PrintOneIntact(PrintEach(s, f, cols, m, gs[..|gs| - 1]), f, cols, m, gs[|gs| - 1]);
    }
  }

  lemma PrintedIntact(s: Screen, f: Frame, cols: nat, m: Modes, gs: seq<Glyph>)
    requires ScreenOk(s, f, cols) && Glyphs(gs) && LinesIntact(s.view.lines) && m.wraparound && !m.insertMode
    ensures LinesIntact(Printed(s, f, cols, m, gs).view.lines)
  {
    if |gs| > 0 {
      var b := Before(s, f, cols, m);
      ClearBefore(Row(s), s.pos.x, m.attr);
      WithRowIntact(s, ClearedBefore(Row(s), s.pos.x, m.attr), s.pos.x);
      PrintEachIntact(b, f, cols, m, gs);
      var e := PrintEach(b, f, cols, m, gs);
      ClearAt(Row(e), e.pos.x, m.attr);
      hide PrintEach, RowOk, ClearedAt, Before;
    }
  }

  // ---------------------------------------------------------------- plain text

  ghost predicate Narrow(gs: seq<Glyph>) {
    forall k :: 0 <= k < |gs| ==> gs[k].width == 1
  }

  function TextCells(gs: seq<Glyph>, attr: int): (cells: Cells)
    ensures |cells| == |gs|
  {
    seq(|gs|, k requires 0 <= k < |gs| => Cell([gs[k].code], 1, attr))
  }

  lemma TextMore(row: Cells, x: nat, less: seq<Glyph>, g: Glyph, attr: int)
    requires x + |less| < |row|
    ensures (row[..x] + TextCells(less, attr) + row[x + |less|..])[x + |less| := Cell([g.code], 1, attr)]
         == row[..x] + TextCells(less + [g], attr) + row[x + |less| + 1..]
  {
    assert TextCells(less + [g], attr) == TextCells(less, attr) + [Cell([g.code], 1, attr)];
  }

  lemma PrintNarrow(s: Screen, f: Frame, cols: nat, m: Modes, g: Glyph)
    requires ScreenOk(s, f, cols) && g.width == 1 && !m.insertMode && s.pos.x < cols
    ensures PrintOne(s, f, cols, m, g) == WithRow(s, Row(s)[s.pos.x := Cell([g.code], 1, m.attr)]).(pos := s.pos.(x := s.pos.x + 1))
  {
  }

  lemma WithRowTwice(s: Screen, a: Cells, b: Cells, p: Pos, q: Pos)
    requires HasRow(s) && p.y == s.pos.y == q.y
    ensures var t := WithRow(s, a).(pos := p);
            HasRow(t) && Row(t) == a && WithRow(t, b).(pos := q) == WithRow(s, b).(pos := q)
  {
  }

  lemma RowItself(s: Screen)
    requires HasRow(s)
    ensures WithRow(s, Row(s)) == s
  {
  }

  /** Narrow text that fits the line stands in the line cell by cell, and nothing else changes. */
  lemma {:induction false} PlainText(s: Screen, f: Frame, cols: nat, m: Modes, gs: seq<Glyph>)
    requires ScreenOk(s, f, cols) && Narrow(gs) && !m.insertMode && s.pos.x + |gs| <= cols
    ensures var x := s.pos.x;
            PrintEach(s, f, cols, m, gs)
            == WithRow(s, Row(s)[..x] + TextCells(gs, m.attr) + Row(s)[x + |gs|..]).(pos := s.pos.(x := x + |gs|))
    decreases |gs|
  {
    var x, row := s.pos.x, Row(s);
    if |gs| == 0 {
      assert row[..x] + TextCells(gs, m.attr) + row[x..] == row;
      RowItself(s);
      hide WithRow, Row;
    } else {
      hide PrintOne, TextCells, WithRow, Row;
      var less, g := gs[..|gs| - 1], gs[|gs| - 1];
      assert gs == less + [g];
      PlainText(s, f, cols, m, less);
      var before := row[..x] + TextCells(less, m.attr) + row[x + |less|..];
      var after := row[..x] + TextCells(gs, m.attr) + row[x + |gs|..];
      TextMore(row, x, less, g, m.attr);
      WithRowTwice(s, before, after, s.pos.(x := x + |less|), s.pos.(x := x + |gs|));
      PrintNarrow(PrintEach(s, f, cols, m, less), f, cols, m, g);
    }
  }

  // ---------------------------------------------------------------- slices leave no trace

  lemma {:induction false} PrintEachConcat(s: Screen, f: Frame, cols: nat, m: Modes, a: seq<Glyph>, b: seq<Glyph>)
    requires ScreenOk(s, f, cols) && Glyphs(a) && Glyphs(b)
    ensures Glyphs(a + b) && PrintEach(s, f, cols, m, a + b) == PrintEach(PrintEach(s, f, cols, m, a), f, cols, m, b)
    decreases |b|
  {
    hide PrintOne;
    if |b| == 0 {
      assert a + b == a;
    } else {
      PrintEachConcat(s, f, cols, m, a, b[..|b| - 1]);
      assert (a + b)[..|a + b| - 1] == a + b[..|b| - 1];
    }
  }

  lemma BehindCells(s: Screen, f: Frame, cols: nat, m: Modes)
    requires ScreenOk(s, f, cols)
    ensures var t := Behind(s, f, cols, m);
            && t == WithRow(s, Row(t)) && Row(t) == ClearedAt(Row(s), s.pos.x, m.attr)
            && (s.pos.x == cols ==> t == s)
            && Behind(t, f, cols, m) == t
  {
  }

  lemma WrittenOverOrphan(cells: Cells, x: nat, text: seq<nat>, width: nat, attr: int)
    requires x + (if width == 2 then 2 else 1) <= |cells|
    ensures Written(ClearedAt(cells, x, attr), x, text, width, attr) == Written(cells, x, text, width, attr)
  {
  }

  lemma CellsInsertedFrom(cells: Cells, x: nat, n: nat, attr: int, k: nat)
    requires x <= |cells| && k < |cells|
    ensures var c := ClearedBefore(cells, x, attr);
            var e := if k < x then c[k] else if k < x + n then NullCell(attr) else c[k - n];
            CellsInserted(cells, x, n, attr)[k] == if k == |cells| - 1 && e.width == 2 then NullCell(attr) else e
  {
    SpreadAt(ClearedBefore(cells, x, attr), x, n, attr, k);
    hide Spread;
  }

  lemma InsertedOverOrphan(cells: Cells, x: nat, n: nat, attr: int, k: nat)
    requires x < |cells| && x + n <= |cells| && k < |cells|
    ensures var u := CellsInserted(cells, x, n, attr);
            var v := CellsInserted(ClearedAt(cells, x, attr), x, n, attr);
            if k == x + n then u[k] == v[k] || (IsHalf(u[k]) && v[k] == NullCell(attr)) else u[k] == v[k]
  {
    CellsInsertedFrom(cells, x, n, attr, k);
    CellsInsertedFrom(ClearedAt(cells, x, attr), x, n, attr, k);
    hide CellsInserted;
  }

  lemma WrittenAt(cells: Cells, x: nat, text: seq<nat>, width: nat, attr: int, k: nat)
    requires x + (if width == 2 then 2 else 1) <= |cells| && k < |cells|
    ensures Written(cells, x, text, width, attr)[k] ==
            if k == x then Cell(text, width, attr) else if width == 2 && k == x + 1 then Cell([], 0, attr) else cells[k]
  {
  }

  /** The orphan at the cursor moves along with the inserted cells. */
  lemma InsertedAndWritten(cells: Cells, x: nat, text: seq<nat>, width: nat, attr: int)
    requires x + (if width == 2 then 2 else 1) <= |cells| && width <= 2
    ensures var next := x + if width == 2 then 2 else 1;
            var u := Written(CellsInserted(cells, x, width, attr), x, text, width, attr);
            var v := Written(CellsInserted(ClearedAt(cells, x, attr), x, width, attr), x, text, width, attr);
            ClearedAt(u, next, attr) == ClearedAt(v, next, attr)
  {
    var next := x + if width == 2 then 2 else 1;
    var u, v := CellsInserted(cells, x, width, attr), CellsInserted(ClearedAt(cells, x, attr), x, width, attr);
    var p, q := Written(u, x, text, width, attr), Written(v, x, text, width, attr);
    hide CellsInserted;
    forall k | 0 <= k < |cells| ensures if k == next then p[k] == q[k] || (IsHalf(p[k]) && q[k] == NullCell(attr)) else p[k] == q[k] {
      InsertedOverOrphan(cells, x, width, attr, k);
      WrittenAt(u, x, text, width, attr, k);
      WrittenAt(v, x, text, width, attr, k);
    }
    hide Written;
  }

  lemma JoinCommutes(s: Screen, f: Frame, cols: nat, m: Modes, g: Glyph)
    requires ScreenOk(s, f, cols) && s.pos.x > 0
    ensures Join(Behind(s, f, cols, m), f, cols, g) == Behind(Join(s, f, cols, g), f, cols, m)
  {
    var x, row := s.pos.x, Row(s);
    assert ClearedAt(Combined(row, x, g.code), x, m.attr) == Combined(ClearedAt(row, x, m.attr), x, g.code);
    hide Combined, ClearedAt;
  }

  lemma PutOverOrphan(s: Screen, f: Frame, cols: nat, m: Modes, g: Glyph)
    requires ScreenOk(s, f, cols) && g.width <= 2 && s.pos.x + Step(g) <= cols && Spacing(s, g)
    ensures Behind(Put(Behind(s, f, cols, m), f, cols, m, g), f, cols, m) == Behind(Put(s, f, cols, m, g), f, cols, m)
  {
    hide Written, CellsInserted, ClearedAt;
    BehindCells(s, f, cols, m);
    var x, row, other := s.pos.x, Row(s), ClearedAt(Row(s), s.pos.x, m.attr);
    if m.insertMode {
      InsertedAndWritten(row, x, [g.code], g.width, m.attr);
    } else {
      WrittenOverOrphan(row, x, [g.code], g.width, m.attr);
    }
    var u := Written(if m.insertMode then CellsInserted(row, x, g.width, m.attr) else row, x, [g.code], g.width, m.attr);
    var v := Written(if m.insertMode then CellsInserted(other, x, g.width, m.attr) else other, x, [g.code], g.width, m.attr);
    assert ClearedAt(u, x + Step(g), m.attr) == ClearedAt(v, x + Step(g), m.attr);
  }

  lemma PadOverOrphan(s: Screen, f: Frame, cols: nat, m: Modes)
    requires ScreenOk(s, f, cols)
    ensures PadRow(Behind(s, f, cols, m), f, cols, m.attr) == PadRow(s, f, cols, m.attr)
  {
    var row := Row(s);
    assert ClearedAt(row, s.pos.x, m.attr)[..s.pos.x] == row[..s.pos.x];
    hide ClearedAt;
  }

  /** Clearing the orphan before a glyph or only after it makes no difference. */
  lemma PrintOneBehind(s: Screen, f: Frame, cols: nat, m: Modes, g: Glyph)
    requires ScreenOk(s, f, cols) && g.width <= 2
    ensures Behind(PrintOne(Behind(s, f, cols, m), f, cols, m, g), f, cols, m) == Behind(PrintOne(s, f, cols, m, g), f, cols, m)
  {
    BehindCells(s, f, cols, m);
    if !Spacing(s, g) {
      JoinCommutes(s, f, cols, m, g);
      BehindCells(Join(s, f, cols, g), f, cols, m);
    } else if Fits(s, cols, g) {
      PutOverOrphan(s, f, cols, m, g);
    } else if m.wraparound {
      PadOverOrphan(s, f, cols, m);
    }
    hide Behind, Put, Join, PadRow, Continued, Row;
  }

  lemma {:induction false} PrintEachBehind(s: Screen, f: Frame, cols: nat, m: Modes, gs: seq<Glyph>)
    requires ScreenOk(s, f, cols) && Glyphs(gs)
    ensures Behind(PrintEach(Behind(s, f, cols, m), f, cols, m, gs), f, cols, m) == Behind(PrintEach(s, f, cols, m, gs), f, cols, m)
    decreases |gs|
  {
    hide PrintOne, Behind;
    if |gs| == 0 {
      BehindCells(s, f, cols, m);
    } else {
      var less, g := gs[..|gs| - 1], gs[|gs| - 1];
      PrintEachBehind(s, f, cols, m, less);
      PrintOneBehind(PrintEach(Behind(s, f, cols, m), f, cols, m, less), f, cols, m, g);
      PrintOneBehind(PrintEach(s, f, cols, m, less), f, cols, m, g);
    }
  }

  /** The cell before the cursor is the first half of a wide character. */
  predicate InsideWide(s: Screen)
    requires HasRow(s)
  {
    0 < s.pos.x <= |Row(s)| && Row(s)[s.pos.x - 1].width == 2
  }

  /** Printing leaves the cursor inside a wide character only in the last column, when it does not wrap. */
  ghost predicate InsideOnlyAtEdge(s: Screen, cols: nat, m: Modes)
    requires HasRow(s)
  {
    InsideWide(s) ==> !m.wraparound && s.pos.x == cols - 1
  }

  lemma PrintOneEdge(s: Screen, f: Frame, cols: nat, m: Modes, g: Glyph)
    requires ScreenOk(s, f, cols) && g.width <= 2 && InsideOnlyAtEdge(s, cols, m)
    ensures InsideOnlyAtEdge(PrintOne(s, f, cols, m, g), cols, m)
  {
    hide Continued, PadRow, CellsInserted;
  }

  lemma {:induction false} PrintEachEdge(s: Screen, f: Frame, cols: nat, m: Modes, gs: seq<Glyph>)
    requires ScreenOk(s, f, cols) && Glyphs(gs) && InsideOnlyAtEdge(s, cols, m)
    ensures InsideOnlyAtEdge(PrintEach(s, f, cols, m, gs), cols, m)
    decreases |gs|
  {
    hide PrintOne, InsideOnlyAtEdge;
    if |gs| > 0 {
      PrintEachEdge(s, f, cols, m, gs[..|gs| - 1]);
      PrintOneEdge(PrintEach(s, f, cols, m, gs[..|gs| - 1]), f, cols, m, gs[|gs| - 1]);
    }
  }

  lemma BeforeEdge(s: Screen, f: Frame, cols: nat, m: Modes)
    requires ScreenOk(s, f, cols)
    ensures !InsideWide(Before(s, f, cols, m)) && (!InsideWide(s) ==> Before(s, f, cols, m) == s)
    ensures InsideWide(Behind(s, f, cols, m)) <==> InsideWide(s)
  {
  }

  lemma PrintedEdge(s: Screen, f: Frame, cols: nat, m: Modes, gs: seq<Glyph>)
    requires ScreenOk(s, f, cols) && Glyphs(gs) && |gs| > 0
    ensures InsideOnlyAtEdge(Printed(s, f, cols, m, gs), cols, m)
  {
    BeforeEdge(s, f, cols, m);
    PrintEachEdge(Before(s, f, cols, m), f, cols, m, gs);
    BeforeEdge(PrintEach(Before(s, f, cols, m), f, cols, m, gs), f, cols, m);
    hide PrintEach, Before, Behind, InsideWide;
  }

  /** Two slices print as one, unless the first leaves the cursor inside a wide character. */
  lemma PrintedTwice(s: Screen, f: Frame, cols: nat, m: Modes, a: seq<Glyph>, b: seq<Glyph>)
    requires ScreenOk(s, f, cols) && Glyphs(a) && Glyphs(b) && |a| > 0 && |b| > 0
    requires !InsideWide(Printed(s, f, cols, m, a))
    ensures Glyphs(a + b) && Printed(Printed(s, f, cols, m, a), f, cols, m, b) == Printed(s, f, cols, m, a + b)
  {
    var start := Before(s, f, cols, m);
    BeforeEdge(Printed(s, f, cols, m, a), f, cols, m);
    PrintEachConcat(start, f, cols, m, a, b);
    PrintEachBehind(PrintEach(start, f, cols, m, a), f, cols, m, b);
    hide PrintEach, Before, Behind, InsideWide;
  }

  /** With wrapping on, where the slices are cut never shows. */
  lemma SlicesLeaveNoTrace(s: Screen, f: Frame, cols: nat, m: Modes, a: seq<Glyph>, b: seq<Glyph>)
    requires ScreenOk(s, f, cols) && Glyphs(a) && Glyphs(b) && m.wraparound
    ensures Glyphs(a + b) && Printed(Printed(s, f, cols, m, a), f, cols, m, b) == Printed(s, f, cols, m, a + b)
  {
    if |a| == 0 || |b| == 0 {
      assert a + b == if |a| == 0 then b else a;
    } else {
      PrintedEdge(s, f, cols, m, a);
      PrintedTwice(s, f, cols, m, a, b);
    }
  }

  ghost predicate AllGlyphs(pieces: seq<seq<Glyph>>) {
    forall k :: 0 <= k < |pieces| ==> Glyphs(pieces[k])
  }

  /** One call of the print handler for every piece. */
  function PrintedPieces(s: Screen, f: Frame, cols: nat, m: Modes, pieces: seq<seq<Glyph>>): (t: Screen)
    requires ScreenOk(s, f, cols) && AllGlyphs(pieces)
    decreases |pieces|
  {
    if |pieces| == 0 then s else PrintedPieces(Printed(s, f, cols, m, pieces[0]), f, cols, m, pieces[1..])
  }

  lemma {:induction false} FlattenGlyphs(pieces: seq<seq<Glyph>>)
    requires AllGlyphs(pieces)
    ensures Glyphs(Flatten(pieces))
  {
    if |pieces| > 0 {
      FlattenGlyphs(pieces[1..]);
    }
  }

  /** Text looks the same however it was cut into calls of the print handler. */
  lemma {:induction false} PiecesPrintAsOne(s: Screen, f: Frame, cols: nat, m: Modes, pieces: seq<seq<Glyph>>)
    requires ScreenOk(s, f, cols) && AllGlyphs(pieces) && m.wraparound
    ensures Glyphs(Flatten(pieces)) && PrintedPieces(s, f, cols, m, pieces) == Printed(s, f, cols, m, Flatten(pieces))
    decreases |pieces|
  {
    hide Printed;
    FlattenGlyphs(pieces);
    if |pieces| == 0 {
      NothingPrinted(s, f, cols, m);
    } else {
      FlattenGlyphs(pieces[1..]);
      PiecesPrintAsOne(Printed(s, f, cols, m, pieces[0]), f, cols, m, pieces[1..]);
      SlicesLeaveNoTrace(s, f, cols, m, pieces[0], Flatten(pieces[1..]));
    }
  }

  lemma NothingPrinted(s: Screen, f: Frame, cols: nat, m: Modes)
    requires ScreenOk(s, f, cols)
    ensures Printed(s, f, cols, m, []) == s
  {
  }

  // ---------------------------------------------------------------- without wrapping a cut can show

  ghost predicate WideHoldText(cells: Cells) {
    forall k :: 0 <= k < |cells| && cells[k].width == 2 ==> cells[k].text != []
  }

  /** The cursor stays at the edge, and the width of the cell before the last one stays what it is. */
  ghost predicate AtEdge(s: Screen, cols: nat, width: nat)
    requires HasRow(s)
  {
    && |Row(s)| == cols >= 2 && cols - 1 <= s.pos.x <= cols
    && Row(s)[cols - 2].width == width && (width == 2 ==> Row(s)[cols - 2].text != [])
  }

  lemma PrintOneHoldsText(s: Screen, f: Frame, cols: nat, m: Modes, g: Glyph)
    requires ScreenOk(s, f, cols) && g.width <= 2 && WideHoldText(Row(s)) && !m.wraparound
    ensures WideHoldText(Row(PrintOne(s, f, cols, m, g)))
  {
    if !Spacing(s, g) {
      JoinHoldsText(s, f, cols, g);
    } else if Fits(s, cols, g) {
      PutHoldsText(s, f, cols, m, g);
    } else if g.width < 2 {
      PutHoldsText(s.(pos := s.pos.(x := cols - 1)), f, cols, m, g);
    }
    hide Put, Join, WideHoldText;
  }

  lemma JoinHoldsText(s: Screen, f: Frame, cols: nat, g: Glyph)
    requires ScreenOk(s, f, cols) && s.pos.x > 0 && WideHoldText(Row(s))
    ensures WideHoldText(Row(Join(s, f, cols, g)))
  {
  }

  lemma PutHoldsText(s: Screen, f: Frame, cols: nat, m: Modes, g: Glyph)
    requires ScreenOk(s, f, cols) && g.width <= 2 && s.pos.x + Step(g) <= cols && WideHoldText(Row(s))
    ensures WideHoldText(Row(Put(s, f, cols, m, g)))
  {
    var row := if m.insertMode then CellsInserted(Row(s), s.pos.x, g.width, m.attr) else Row(s);
    if m.insertMode {
      InsertedHoldsText(Row(s), s.pos.x, g.width, m.attr);
    }
    assert WideHoldText(Written(row, s.pos.x, [g.code], g.width, m.attr));
    hide CellsInserted, Written;
    RowWritten(s, Written(row, s.pos.x, [g.code], g.width, m.attr), s.pos.x + Step(g));
  }

  lemma InsertedHoldsText(cells: Cells, x: nat, n: nat, attr: int)
    requires WideHoldText(cells) && x <= |cells|
    ensures WideHoldText(CellsInserted(cells, x, n, attr))
  {
    var d, c := CellsInserted(cells, x, n, attr), ClearedBefore(cells, x, attr);
    forall k | 0 <= k < |d| && d[k].width == 2 ensures d[k].text != [] {
      SpreadAt(c, x, n, attr, k);
    }
  }

  lemma {:induction false} PrintEachHoldsText(s: Screen, f: Frame, cols: nat, m: Modes, gs: seq<Glyph>)
    requires ScreenOk(s, f, cols) && Glyphs(gs) && WideHoldText(Row(s)) && !m.wraparound
    ensures WideHoldText(Row(PrintEach(s, f, cols, m, gs)))
    decreases |gs|
  {
    hide PrintOne, WideHoldText, Row;
    if |gs| > 0 {
      PrintEachHoldsText(s, f, cols, m, gs[..|gs| - 1]);
      PrintOneHoldsText(PrintEach(s, f, cols, m, gs[..|gs| - 1]), f, cols, m, gs[|gs| - 1]);
    }
  }

  lemma PrintedHoldsText(s: Screen, f: Frame, cols: nat, m: Modes, gs: seq<Glyph>)
    requires ScreenOk(s, f, cols) && Glyphs(gs) && WideHoldText(Row(s)) && !m.wraparound
    ensures WideHoldText(Row(Printed(s, f, cols, m, gs)))
  {
    if |gs| > 0 {
      assert WideHoldText(Row(Before(s, f, cols, m)));
      PrintEachHoldsText(Before(s, f, cols, m), f, cols, m, gs);
      hide PrintEach, Before;
    }
  }

  lemma PrintOneAtEdge(s: Screen, f: Frame, cols: nat, m: Modes, g: Glyph, width: nat)
    requires ScreenOk(s, f, cols) && g.width <= 2 && AtEdge(s, cols, width) && 1 <= width <= 2 && !m.wraparound && !m.insertMode
    ensures AtEdge(PrintOne(s, f, cols, m, g), cols, width) && PrintOne(s, f, cols, m, g).view.ybase == s.view.ybase
    ensures PrintOne(s, f, cols, m, g).pos.y == s.pos.y
  {
  }

  lemma {:induction false} PrintEachAtEdge(s: Screen, f: Frame, cols: nat, m: Modes, gs: seq<Glyph>, width: nat)
    requires ScreenOk(s, f, cols) && Glyphs(gs) && AtEdge(s, cols, width) && 1 <= width <= 2 && !m.wraparound && !m.insertMode
    ensures AtEdge(PrintEach(s, f, cols, m, gs), cols, width)
    decreases |gs|
  {
    hide PrintOne, AtEdge;
    if |gs| > 0 {
      PrintEachAtEdge(s, f, cols, m, gs[..|gs| - 1], width);
      PrintOneAtEdge(PrintEach(s, f, cols, m, gs[..|gs| - 1]), f, cols, m, gs[|gs| - 1], width);
    }
  }

  lemma BehindAtEdge(s: Screen, f: Frame, cols: nat, m: Modes, width: nat)
    requires ScreenOk(s, f, cols) && AtEdge(s, cols, width)
    ensures AtEdge(Behind(s, f, cols, m), cols, width)
  {
  }

  lemma BeforeAtEdge(s: Screen, f: Frame, cols: nat, m: Modes)
    requires ScreenOk(s, f, cols) && InsideWide(s) && s.pos.x == cols - 1 && WideHoldText(Row(s))
    ensures AtEdge(s, cols, 2) && AtEdge(Before(s, f, cols, m), cols, 1)
  {
  }

  // ---------------------------------------------------------------- inserting without wrapping

  /** Wide characters find no room in the last column; the first glyph that is not wide is narrow. */
  predicate NarrowFirst(gs: seq<Glyph>) {
    exists k :: 0 <= k < |gs| && gs[k].width == 1 && forall j :: 0 <= j < k ==> gs[j].width == 2
  }

  lemma InsertedAtLast(cells: Cells, attr: int)
    requires |cells| >= 2
    ensures var d, x := CellsInserted(cells, |cells| - 1, 1, attr), |cells| - 1;
            && |d| == |cells| && d[x] == NullCell(attr)
            && d[x - 1] == if cells[x - 1].width == 2 then NullCell(attr) else cells[x - 1]
    ensures CellsInserted(ClearedBefore(cells, |cells| - 1, attr), |cells| - 1, 1, attr) == CellsInserted(cells, |cells| - 1, 1, attr)
  {
  }

  /** An insertion in the last column clears the first half that `Before` would have cleared. */
  lemma NarrowAtEdge(s: Screen, f: Frame, cols: nat, m: Modes, g: Glyph)
    requires ScreenOk(s, f, cols) && s.pos.x == cols - 1 && g.width == 1 && m.insertMode
    ensures PrintOne(Before(s, f, cols, m), f, cols, m, g) == PrintOne(s, f, cols, m, g)
  {
    InsertedAtLast(Row(s), m.attr);
    hide CellsInserted, Written, ClearedBefore;
  }

  lemma {:induction false} WideAtEdge(s: Screen, f: Frame, cols: nat, m: Modes, gs: seq<Glyph>)
    requires ScreenOk(s, f, cols) && s.pos.x == cols - 1 && !m.wraparound && forall j :: 0 <= j < |gs| ==> gs[j].width == 2
    ensures PrintEach(s, f, cols, m, gs) == s
    decreases |gs|
  {
    if |gs| > 0 {
      WideAtEdge(s, f, cols, m, gs[..|gs| - 1]);
    }
  }

  /** Two screens whose cells before the last column have come apart for good. */
  ghost predicate Apart(s: Screen, t: Screen, cols: nat)
    requires HasRow(s) && HasRow(t)
  {
    && cols >= 2 && |Row(s)| == |Row(t)| == cols && s.pos == t.pos && cols - 1 <= s.pos.x <= cols
    && s.view.ybase == t.view.ybase
    && (s.pos.x == cols ==> Row(s)[cols - 1].width == 1 && Row(t)[cols - 1].width == 1)
    && var c, d := Row(s)[cols - 2], Row(t)[cols - 2];
       || (c.width == 2 && c.text != [] && d.width == 1 && d.text != [] && s.pos.x == cols - 1)
       || (c.width == 1 && d.width == 1 && |c.text| < |d.text|)
  }

  /** What one glyph does at the edge, to the last two cells. */
  lemma EdgeStep(s: Screen, f: Frame, cols: nat, m: Modes, g: Glyph)
    requires ScreenOk(s, f, cols) && g.width <= 2 && m.insertMode && !m.wraparound
    requires cols - 1 <= s.pos.x <= cols && Row(s)[cols - 2].width > 0 && (s.pos.x == cols ==> Row(s)[cols - 1].width == 1)
    ensures var t := PrintOne(s, f, cols, m, g);
            && |Row(t)| == cols && t.view.ybase == s.view.ybase && t.pos.y == s.pos.y
            && t.pos.x == (if g.width == 2 then cols - 1 else if g.width == 1 then cols else s.pos.x)
            && (t.pos.x == cols ==> Row(t)[cols - 1].width == 1)
            && var c := Row(s)[cols - 2];
               Row(t)[cols - 2] == if g.width == 2 then c
                                   else if g.width == 1 then (if c.width == 2 then NullCell(m.attr) else c)
                                   else if s.pos.x == cols then c else Joined(c, g.code)
  {
    if g.width == 1 {
      NarrowAtLast(s, f, cols, m, g);
    }
    hide Put, CellsInserted;
  }

  lemma NarrowAtLast(s: Screen, f: Frame, cols: nat, m: Modes, g: Glyph)
    requires ScreenOk(s, f, cols) && g.width == 1 && m.insertMode && !m.wraparound && cols - 1 <= s.pos.x <= cols
    ensures var t, c := PrintOne(s, f, cols, m, g), Row(s)[cols - 2];
            && |Row(t)| == cols && t.view.ybase == s.view.ybase && t.pos == Cursor.Pos(cols, s.pos.y) && Row(t)[cols - 1].width == 1
            && Row(t)[cols - 2] == if c.width == 2 then NullCell(m.attr) else c
  {
    var last := s.(pos := s.pos.(x := cols - 1));
    assert PrintOne(s, f, cols, m, g) == Put(last, f, cols, m, g);
    hide CellsInserted, Written, PrintOne;
    assert Row(last) == Row(s);
    WrittenAtLast(Row(s), [g.code], m.attr);
    RowWritten(last, Written(CellsInserted(Row(s), cols - 1, 1, m.attr), cols - 1, [g.code], 1, m.attr), cols);
    hide WithRow;
  }

  lemma RowWritten(s: Screen, cells: Cells, x: int)
    requires HasRow(s)
    ensures var t := WithRow(s, cells).(pos := s.pos.(x := x)); HasRow(t) && Row(t) == cells
  {
  }

  lemma WrittenAtLast(cells: Cells, text: seq<nat>, attr: int)
    requires |cells| >= 2
    ensures var d, x := Written(CellsInserted(cells, |cells| - 1, 1, attr), |cells| - 1, text, 1, attr), |cells| - 1;
            |d| == |cells| && d[x].width == 1 && d[x - 1] == if cells[x - 1].width == 2 then NullCell(attr) else cells[x - 1]
  {
    InsertedAtLast(cells, attr);
    hide CellsInserted;
  }

  lemma PrintOneApart(s: Screen, t: Screen, f: Frame, cols: nat, m: Modes, g: Glyph)
    requires ScreenOk(s, f, cols) && ScreenOk(t, f, cols) && Apart(s, t, cols) && g.width <= 2 && m.insertMode && !m.wraparound
    ensures Apart(PrintOne(s, f, cols, m, g), PrintOne(t, f, cols, m, g), cols)
  {
    EdgeStep(s, f, cols, m, g);
    EdgeStep(t, f, cols, m, g);
    hide PrintOne, ScreenOk;
  }

  lemma {:induction false} PrintEachApart(s: Screen, t: Screen, f: Frame, cols: nat, m: Modes, gs: seq<Glyph>)
    requires ScreenOk(s, f, cols) && ScreenOk(t, f, cols) && Apart(s, t, cols) && Glyphs(gs) && m.insertMode && !m.wraparound
    ensures Apart(PrintEach(s, f, cols, m, gs), PrintEach(t, f, cols, m, gs), cols)
    decreases |gs|
  {
    hide PrintOne, Apart;
    if |gs| > 0 {
      var less := gs[..|gs| - 1];
      PrintEachApart(s, t, f, cols, m, less);
      PrintOneApart(PrintEach(s, f, cols, m, less), PrintEach(t, f, cols, m, less), f, cols, m, gs[|gs| - 1]);
    }
  }

  lemma BehindApart(s: Screen, t: Screen, f: Frame, cols: nat, m: Modes)
    requires ScreenOk(s, f, cols) && ScreenOk(t, f, cols) && Apart(s, t, cols)
    ensures Behind(s, f, cols, m) != Behind(t, f, cols, m)
  {
    assert Row(Behind(s, f, cols, m))[cols - 2] == Row(s)[cols - 2];
    assert Row(Behind(t, f, cols, m))[cols - 2] == Row(t)[cols - 2];
  }

  /** A combining character joins the wide character, or the cleared cell. */
  lemma JoinsApart(s: Screen, f: Frame, cols: nat, m: Modes, g: Glyph)
    requires ScreenOk(s, f, cols) && s.pos.x == cols - 1 && InsideWide(s) && Row(s)[cols - 2].text != [] && g.width == 0
    ensures Apart(PrintOne(s, f, cols, m, g), PrintOne(Before(s, f, cols, m), f, cols, m, g), cols)
  {
  }

  lemma FirstNotWide(gs: seq<Glyph>) returns (k: nat)
    ensures k <= |gs| && (forall j :: 0 <= j < k ==> gs[j].width == 2) && (k < |gs| ==> gs[k].width != 2)
  {
    k := 0;
    while k < |gs| && gs[k].width == 2
      invariant k <= |gs| && forall j :: 0 <= j < k ==> gs[j].width == 2
    {
      k := k + 1;
    }
  }

  /** From inside a wide character in the last column, with or without its first half. */
  lemma InsertedAtEdge(s: Screen, f: Frame, cols: nat, m: Modes, b: seq<Glyph>)
    requires ScreenOk(s, f, cols) && Glyphs(b) && |b| > 0 && m.insertMode && !m.wraparound
    requires InsideWide(s) && s.pos.x == cols - 1 && Row(s)[cols - 2].text != []
    ensures Behind(PrintEach(Before(s, f, cols, m), f, cols, m, b), f, cols, m) == Behind(PrintEach(s, f, cols, m, b), f, cols, m)
       <==> NarrowFirst(b)
  {
    var start := Before(s, f, cols, m);
    var k := FirstNotWide(b);
    WideAtEdge(s, f, cols, m, b[..k]);
    WideAtEdge(start, f, cols, m, b[..k]);
    assert b == b[..k] + b[k..];
    PrintEachConcat(s, f, cols, m, b[..k], b[k..]);
    PrintEachConcat(start, f, cols, m, b[..k], b[k..]);
    if k == |b| {
      assert b[k..] == [];
      BehindBefore(s, f, cols, m);
    } else {
      FirstThenRest(s, f, cols, m, b[k..]);
      FirstThenRest(start, f, cols, m, b[k..]);
      if b[k].width == 1 {
        NarrowAtEdge(s, f, cols, m, b[k]);
      } else {
        JoinsApart(s, f, cols, m, b[k]);
        PrintEachApart(PrintOne(s, f, cols, m, b[k]), PrintOne(start, f, cols, m, b[k]), f, cols, m, b[k + 1..]);
        BehindApart(PrintEach(s, f, cols, m, b), PrintEach(start, f, cols, m, b), f, cols, m);
      }
    }
    hide PrintEach, PrintOne, Before, Behind, InsideWide;
  }

  lemma BehindBefore(s: Screen, f: Frame, cols: nat, m: Modes)
    requires ScreenOk(s, f, cols) && InsideWide(s)
    ensures Behind(Before(s, f, cols, m), f, cols, m) != Behind(s, f, cols, m)
  {
    assert Row(Behind(s, f, cols, m))[s.pos.x - 1] == Row(s)[s.pos.x - 1];
    assert Row(Behind(Before(s, f, cols, m), f, cols, m))[s.pos.x - 1].width == 1;
  }

  lemma FirstThenRest(s: Screen, f: Frame, cols: nat, m: Modes, gs: seq<Glyph>)
    requires ScreenOk(s, f, cols) && Glyphs(gs) && |gs| > 0
    ensures PrintEach(s, f, cols, m, gs) == PrintEach(PrintOne(s, f, cols, m, gs[0]), f, cols, m, gs[1..])
  {
    assert gs == [gs[0]] + gs[1..];
    assert [gs[0]][..0] == [];
    assert PrintEach(s, f, cols, m, []) == s;
    PrintEachConcat(s, f, cols, m, [gs[0]], gs[1..]);
    hide PrintOne;
  }

  /**
    A cut between two slices leaves no trace if and only if the first slice does not leave the
    cursor inside a wide character, or the second one would clear that character anyway.
    */
  lemma CutsShowExactly(s: Screen, f: Frame, cols: nat, m: Modes, a: seq<Glyph>, b: seq<Glyph>)
    requires ScreenOk(s, f, cols) && Glyphs(a) && Glyphs(b) && |a| > 0 && |b| > 0
    requires WideHoldText(Row(s)) || m.wraparound
    ensures Glyphs(a + b)
    ensures Printed(Printed(s, f, cols, m, a), f, cols, m, b) == Printed(s, f, cols, m, a + b)
       <==> !InsideWide(Printed(s, f, cols, m, a)) || (m.insertMode && NarrowFirst(b))
  {
    var t := Printed(s, f, cols, m, a);
    if InsideWide(t) {
      PrintedEdge(s, f, cols, m, a);
      assert !m.wraparound;
      PrintedHoldsText(s, f, cols, m, a);
      var start := Before(s, f, cols, m);
      var e := PrintEach(start, f, cols, m, a);
      PrintEachConcat(start, f, cols, m, a, b);
      PrintEachBehind(e, f, cols, m, b);
      EdgeHoldsText(t, cols);
      if m.insertMode {
        InsertedAtEdge(t, f, cols, m, b);
      } else {
        BeforeAtEdge(t, f, cols, m);
        PrintEachAtEdge(Before(t, f, cols, m), f, cols, m, b, 1);
        BehindAtEdge(PrintEach(Before(t, f, cols, m), f, cols, m, b), f, cols, m, 1);
        PrintEachAtEdge(t, f, cols, m, b, 2);
        BehindAtEdge(PrintEach(t, f, cols, m, b), f, cols, m, 2);
      }
      hide PrintEach, Before, Behind, InsideWide, NarrowFirst;
    } else {
      PrintedTwice(s, f, cols, m, a, b);
    }
  }

  lemma EdgeHoldsText(s: Screen, cols: nat)
    requires HasRow(s) && |Row(s)| == cols >= 2 && s.pos.x == cols - 1 && InsideWide(s) && WideHoldText(Row(s))
    ensures Row(s)[cols - 2].text != []
  {
  }

  /** The failing inputs: the cursor is behind a wide character at the end of the row, and nothing wraps. */
  ghost predicate BehindWide(s: Screen, f: Frame, cols: nat)
  {
    ScreenOk(s, f, cols) && Intact(s) && s.pos.x == cols && Row(s)[cols - 2].width == 2 && WideHoldText(Row(s))
  }

  /** A narrow glyph tears the character, and behind a wide one a cut of the output shows. */
  lemma TornAndSeen(s: Screen, f: Frame, cols: nat, m: Modes, narrow: Glyph, wide: Glyph)
    requires BehindWide(s, f, cols) && !m.wraparound && !m.insertMode && narrow.width == 1 && wide.width == 2
    ensures !Intact(PrintOne(s, f, cols, m, narrow))
    ensures Printed(Printed(s, f, cols, m, [wide]), f, cols, m, [narrow]) != Printed(s, f, cols, m, [wide, narrow])
  {
    PrintOneIntact(s, f, cols, m, narrow);
    OneWideBehind(s, f, cols, m, wide);
    CutsShowExactly(s, f, cols, m, [wide], [narrow]);
    assert [wide] + [narrow] == [wide, narrow];
    hide Printed, PrintOne, Intact;
  }

  lemma OneWideBehind(s: Screen, f: Frame, cols: nat, m: Modes, wide: Glyph)
    requires BehindWide(s, f, cols) && !m.wraparound && wide.width == 2
    ensures InsideWide(Printed(s, f, cols, m, [wide]))
  {
    BeforeEdge(s, f, cols, m);
    assert CellOk(Row(s), cols - 2);
    assert [wide][..0] == [];
    assert PrintEach(s, f, cols, m, []) == s;
    var last := s.(pos := s.pos.(x := cols - 1));
    assert PrintEach(s, f, cols, m, [wide]) == PrintOne(s, f, cols, m, wide) == last;
    BeforeEdge(last, f, cols, m);
  }

  /** Such a screen: one row of two columns. */
  lemma BehindWideIs(s: Screen, f: Frame)
    requires s == Screen(View([Line([Cell([0x4E2D], 2, 0), Cell([], 0, 0)], false)], 0, 0, false), Pos(2, 0)) && f == Frame(1, 1, 0, 0)
    ensures BehindWide(s, f, 2)
  {
    assert CellOk(Row(s), 0) && CellOk(Row(s), 1);
  }
}
