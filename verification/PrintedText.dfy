/**
  What stands on the screen after a call of the print handler, cell by cell: said of the codes that
  were handed to it, of the character set, and of the cells that were there before.
  */
module PrintedText {
  import opened Common
  import opened BufferLine
  import opened Scrolling
  import opened Cursor
  import opened WideCells
  import opened Printing
  import opened ScreenOps

  /** What stands for the codes: their stand-ins in the character set, which is asked for codes below DEL only. */
  function StandIns(charset: map<nat, nat>, data: seq<nat>): (codes: seq<nat>)
    ensures |codes| == |data|
    ensures forall k :: 0 <= k < |data| ==> codes[k] == if data[k] < 127 && data[k] in charset then charset[data[k]] else data[k]
  {
    seq(|data|, k requires 0 <= k < |data| => if data[k] in charset && data[k] < 127 then charset[data[k]] else data[k])
  }

  /** Behind `n` characters of one width. */
  function Columns(width: nat, n: nat): (c: nat) {
    if width == 2 then 2 * n else n
  }

  /** Two screens differ in the cells of the cursor's row and in the column of the cursor only. */
  ghost predicate OnlyRow(s: Screen, t: Screen)
    requires HasRow(s)
  {
    && HasRow(t) && t.pos.y == s.pos.y
    && t.view == s.view.(lines := t.view.lines)
    && |t.view.lines| == |s.view.lines|
    && (forall k :: 0 <= k < |s.view.lines| && k != s.view.ybase + s.pos.y ==> t.view.lines[k] == s.view.lines[k])
    && t.view.lines[s.view.ybase + s.pos.y].isWrapped == s.view.lines[s.view.ybase + s.pos.y].isWrapped
    && |Row(t)| == |Row(s)|
  }

  /** From column `x` on stand the characters of `codes`, each with the attribute and of the width given. */
  ghost predicate Stand(cells: Cells, x: nat, codes: seq<nat>, width: nat, attr: int)
    requires x + Columns(width, |codes|) <= |cells|
  {
    forall k :: 0 <= k < |codes| ==>
      && cells[x + Columns(width, k)] == Cell([codes[k]], width, attr)
      && (width == 2 ==> cells[x + 2 * k + 1] == Cell([], 0, attr))
  }

  /** The cell in column `c`, cleared if it is a half of a wide character whose other half is written over. */
  function Beside(cells: Cells, c: nat, x: nat, end: nat, attr: int): Cell
    requires c < |cells|
  {
    if (c + 1 == x && cells[c].width == 2) || (c == end && IsHalf(cells[c])) then NullCell(attr) else cells[c]
  }

  // ---------------------------------------------------------------- text that fits

  ghost predicate OfWidth(gs: seq<Glyph>, width: nat) {
    forall k :: 0 <= k < |gs| ==> gs[k].width == width
  }

  function CodesOf(gs: seq<Glyph>): (codes: seq<nat>)
    ensures |codes| == |gs|
  {
    seq(|gs|, k requires 0 <= k < |gs| => gs[k].code)
  }

  /** What was printed stands there, and the rest of the row is as before. */
  ghost predicate Laid(before: Cells, after: Cells, x: nat, codes: seq<nat>, width: nat, attr: int) {
    && |after| == |before| && x + Columns(width, |codes|) <= |after|
    && Stand(after, x, codes, width, attr)
    && forall c :: (0 <= c < x || x + Columns(width, |codes|) <= c < |after|) ==> after[c] == before[c]
  }

  lemma LaidMore(before: Cells, after: Cells, x: nat, codes: seq<nat>, code: nat, width: nat, attr: int)
    requires (width == 1 || width == 2) && Laid(before, after, x, codes, width, attr)
    requires x + Columns(width, |codes| + 1) <= |before|
    ensures Laid(before, Written(after, x + Columns(width, |codes|), [code], width, attr), x, codes + [code], width, attr)
  {
  }

  lemma RowExchanged(s: Screen, t: Screen, cells: Cells, x: int)
    requires HasRow(s) && OnlyRow(s, t) && |cells| == |Row(s)|
    ensures var u := WithRow(t, cells).(pos := t.pos.(x := x)); OnlyRow(s, u) && Row(u) == cells
  {
  }

  lemma {:induction false} TextLaid(s: Screen, f: Frame, cols: nat, m: Modes, gs: seq<Glyph>, width: nat)
    requires ScreenOk(s, f, cols) && !m.insertMode && (width == 1 || width == 2) && OfWidth(gs, width)
    requires s.pos.x + Columns(width, |gs|) <= cols
    ensures var t := PrintEach(s, f, cols, m, gs);
            && OnlyRow(s, t) && t.pos.x == s.pos.x + Columns(width, |gs|)
            && Laid(Row(s), Row(t), s.pos.x, CodesOf(gs), width, m.attr)
    decreases |gs|
  {
    if |gs| > 0 {
      var n := |gs| - 1;
      TextLaid(s, f, cols, m, gs[..n], width);
      OneMoreLaid(s, f, cols, m, gs, n, width);
    }
  }

  lemma OneMoreLaid(s: Screen, f: Frame, cols: nat, m: Modes, gs: seq<Glyph>, n: nat, width: nat)
    requires ScreenOk(s, f, cols) && !m.insertMode && (width == 1 || width == 2) && OfWidth(gs, width)
    requires |gs| == n + 1 && s.pos.x + Columns(width, |gs|) <= cols
    requires var t := PrintEach(s, f, cols, m, gs[..n]);
             && OnlyRow(s, t) && t.pos.x == s.pos.x + Columns(width, n)
             && Laid(Row(s), Row(t), s.pos.x, CodesOf(gs[..n]), width, m.attr)
    ensures var t := PrintEach(s, f, cols, m, gs);
            && OnlyRow(s, t) && t.pos.x == s.pos.x + Columns(width, |gs|)
            && Laid(Row(s), Row(t), s.pos.x, CodesOf(gs), width, m.attr)
  {
    hide ScreenOk, Laid, OnlyRow, Row, WithRow, Written, PrintOne, CodesOf;
    var t := PrintEach(s, f, cols, m, gs[..n]);
    CodesMore(gs, n);
    Placing(t, f, cols, m, gs[n]);
    Sizes(s, f, cols);
    Sizes(t, f, cols);
    LaidMore(Row(s), Row(t), s.pos.x, CodesOf(gs[..n]), gs[n].code, width, m.attr);
    RowExchanged(s, t, Written(Row(t), t.pos.x, [gs[n].code], width, m.attr), t.pos.x + width);
  }

  lemma CodesMore(gs: seq<Glyph>, n: nat)
    requires |gs| == n + 1
    ensures CodesOf(gs) == CodesOf(gs[..n]) + [gs[n].code]
  {
  }

  lemma Sizes(s: Screen, f: Frame, cols: nat)
    requires ScreenOk(s, f, cols)
    ensures HasRow(s) && |Row(s)| == cols >= 2 && 0 <= s.pos.x <= cols
  {
  }

  lemma Placing(s: Screen, f: Frame, cols: nat, m: Modes, g: Glyph)
    requires ScreenOk(s, f, cols) && (g.width == 1 || g.width == 2) && !m.insertMode && s.pos.x + g.width <= cols
    ensures PrintOne(s, f, cols, m, g)
         == WithRow(s, Written(Row(s), s.pos.x, [g.code], g.width, m.attr)).(pos := s.pos.(x := s.pos.x + g.width))
  {
  }

  /** The text stands in its columns, torn wide characters beside it are cleared, and nothing else has changed. */
  ghost predicate StandsIn(s: Screen, t: Screen, codes: seq<nat>, width: nat, attr: int)
    requires HasRow(s)
  {
    var x, n := s.pos.x, Columns(width, |codes|);
    && OnlyRow(s, t) && t.pos.x == x + n && x >= 0 && x + n <= |Row(s)|
    && Stand(Row(t), x, codes, width, attr)
    && forall c :: (0 <= c < x || x + n <= c < |Row(s)|) ==> Row(t)[c] == Beside(Row(s), c, x, x + n, attr)
  }

  /** Text that fits the line, all narrow or all wide. */
  lemma TextStands(s: Screen, f: Frame, cols: nat, m: Modes, gs: seq<Glyph>, width: nat)
    requires ScreenOk(s, f, cols) && !m.insertMode && (width == 1 || width == 2) && OfWidth(gs, width) && |gs| > 0
    requires s.pos.x + Columns(width, |gs|) <= cols
    ensures HasRow(s) && StandsIn(s, Printed(s, f, cols, m, gs), CodesOf(gs), width, m.attr)
  {
    hide CodesOf, ScreenOk, Laid, PrintEach, Before, Behind, OnlyRow, Stand, Beside;
    Sizes(s, f, cols);
    var b := Before(s, f, cols, m);
    BeforeRow(s, f, cols, m);
    TextLaid(b, f, cols, m, gs, width);
    var u := PrintEach(b, f, cols, m, gs);
    BehindRow(u, f, cols, m);
    OnlyRowTwice(s, b, u);
    OnlyRowTwice(s, u, Behind(u, f, cols, m));
    BothEnds(Row(s), Row(u), s.pos.x, CodesOf(gs), width, m.attr);
    hide Row;
  }

  lemma BeforeRow(s: Screen, f: Frame, cols: nat, m: Modes)
    requires ScreenOk(s, f, cols)
    ensures var t := Before(s, f, cols, m);
            HasRow(s) && OnlyRow(s, t) && t.pos == s.pos && Row(t) == ClearedBefore(Row(s), s.pos.x, m.attr)
  {
  }

  lemma BehindRow(s: Screen, f: Frame, cols: nat, m: Modes)
    requires ScreenOk(s, f, cols)
    ensures var t := Behind(s, f, cols, m);
            HasRow(s) && OnlyRow(s, t) && t.pos == s.pos && Row(t) == ClearedAt(Row(s), s.pos.x, m.attr)
  {
  }

  lemma OnlyRowTwice(s: Screen, t: Screen, u: Screen)
    requires HasRow(s) && OnlyRow(s, t) && OnlyRow(t, u)
    ensures OnlyRow(s, u)
  {
  }

  lemma BothEnds(row: Cells, laid: Cells, x: nat, codes: seq<nat>, width: nat, attr: int)
    requires (width == 1 || width == 2) && |codes| > 0 && Laid(ClearedBefore(row, x, attr), laid, x, codes, width, attr)
    ensures var end := x + Columns(width, |codes|); var after := ClearedAt(laid, end, attr);
            && |after| == |row| && end <= |row| && Stand(after, x, codes, width, attr)
            && forall c :: (0 <= c < x || end <= c < |row|) ==> after[c] == Beside(row, c, x, end, attr)
  {
  }

  // ---------------------------------------------------------------- combining characters

  /** The column of the cell that a combining character at `x` joins; none is left of the first. */
  function JoinColumn(row: Cells, x: nat): (c: int)
    requires 0 < x <= |row|
    ensures -1 <= c < x
  {
    if row[x - 1].width != 0 then x - 1 else x - 2
  }

  /** A cell that `codes` have joined; an empty one becomes narrow. */
  function JoinedBy(c: Cell, codes: seq<nat>): Cell {
    Cell(c.text + codes, if c.text == [] then 1 else c.width, c.attr)
  }

  ghost predicate MarksLaid(before: Cells, after: Cells, x: nat, codes: seq<nat>) {
    && |after| == |before| && 0 < x <= |before|
    && forall c :: 0 <= c < |before| ==>
         after[c] == if c == JoinColumn(before, x) && |codes| > 0 then JoinedBy(before[c], codes) else before[c]
  }

  lemma MarksMore(before: Cells, after: Cells, x: nat, codes: seq<nat>, code: nat)
    requires MarksLaid(before, after, x, codes)
    ensures MarksLaid(before, Combined(after, x, code), x, codes + [code])
  {
    var c := JoinColumn(before, x);
    if c >= 0 {
      assert before[c].text + (codes + [code]) == (before[c].text + codes) + [code];
      assert before[c].text + [] == before[c].text;
    }
  }

  lemma Marking(s: Screen, f: Frame, cols: nat, m: Modes, g: Glyph)
    requires ScreenOk(s, f, cols) && g.width == 0 && s.pos.x > 0
    ensures PrintOne(s, f, cols, m, g) == WithRow(s, Combined(Row(s), s.pos.x, g.code))
  {
  }

  lemma {:induction false} MarksJoined(s: Screen, f: Frame, cols: nat, m: Modes, gs: seq<Glyph>)
    requires ScreenOk(s, f, cols) && s.pos.x > 0 && OfWidth(gs, 0)
    ensures var t := PrintEach(s, f, cols, m, gs);
            OnlyRow(s, t) && t.pos == s.pos && MarksLaid(Row(s), Row(t), s.pos.x, CodesOf(gs))
    decreases |gs|
  {
    if |gs| > 0 {
      var n := |gs| - 1;
      MarksJoined(s, f, cols, m, gs[..n]);
      OneMoreMark(s, f, cols, m, gs, n);
    }
  }

  lemma OneMoreMark(s: Screen, f: Frame, cols: nat, m: Modes, gs: seq<Glyph>, n: nat)
    requires ScreenOk(s, f, cols) && s.pos.x > 0 && OfWidth(gs, 0) && |gs| == n + 1
    requires var t := PrintEach(s, f, cols, m, gs[..n]);
             OnlyRow(s, t) && t.pos == s.pos && MarksLaid(Row(s), Row(t), s.pos.x, CodesOf(gs[..n]))
    ensures var t := PrintEach(s, f, cols, m, gs);
            OnlyRow(s, t) && t.pos == s.pos && MarksLaid(Row(s), Row(t), s.pos.x, CodesOf(gs))
  {
    hide ScreenOk, MarksLaid, OnlyRow, Row, WithRow, Combined, PrintOne, CodesOf;
    var t := PrintEach(s, f, cols, m, gs[..n]);
    CodesMore(gs, n);
    Marking(t, f, cols, m, gs[n]);
    Sizes(s, f, cols);
    Sizes(t, f, cols);
    MarksMore(Row(s), Row(t), s.pos.x, CodesOf(gs[..n]), gs[n].code);
    var cells := Combined(Row(t), t.pos.x, gs[n].code);
    RowExchanged(s, t, cells, t.pos.x);
    SamePlace(t, cells);
  }

  lemma SamePlace(t: Screen, cells: Cells)
    requires HasRow(t)
    ensures WithRow(t, cells).(pos := t.pos.(x := t.pos.x)) == WithRow(t, cells)
  {
  }

  /** The combining characters have joined the cell before the cursor, or the wide character there; the cursor stays. */
  ghost predicate JoinsIn(s: Screen, t: Screen, codes: seq<nat>, attr: int)
    requires HasRow(s)
  {
    var x, row := s.pos.x, Row(s);
    && OnlyRow(s, t) && t.pos == s.pos && 0 < x <= |row|
    && forall c :: 0 <= c < |row| ==>
         var there := Beside(row, c, x, x, attr);
         Row(t)[c] == if c == JoinColumn(row, x) then JoinedBy(there, codes) else there
  }

  lemma MarksJoin(s: Screen, f: Frame, cols: nat, m: Modes, gs: seq<Glyph>)
    requires ScreenOk(s, f, cols) && s.pos.x > 0 && OfWidth(gs, 0) && |gs| > 0
    ensures HasRow(s) && JoinsIn(s, Printed(s, f, cols, m, gs), CodesOf(gs), m.attr)
  {
    hide CodesOf, ScreenOk, MarksLaid, PrintEach, Before, Behind, OnlyRow;
    Sizes(s, f, cols);
    var b := Before(s, f, cols, m);
    BeforeRow(s, f, cols, m);
    MarksJoined(b, f, cols, m, gs);
    var u := PrintEach(b, f, cols, m, gs);
    BehindRow(u, f, cols, m);
    OnlyRowTwice(s, b, u);
    OnlyRowTwice(s, u, Behind(u, f, cols, m));
    BothSides(Row(s), Row(u), s.pos.x, CodesOf(gs), m.attr);
    hide Row;
  }

  lemma BothSides(row: Cells, laid: Cells, x: nat, codes: seq<nat>, attr: int)
    requires |codes| > 0 && 0 < x <= |row| && MarksLaid(ClearedBefore(row, x, attr), laid, x, codes)
    ensures var after := ClearedAt(laid, x, attr);
            && |after| == |row|
            && forall c :: 0 <= c < |row| ==>
                 var there := Beside(row, c, x, x, attr);
                 after[c] == if c == JoinColumn(row, x) then JoinedBy(there, codes) else there
  {
  }

  // ---------------------------------------------------------------- insert mode

  /** What is pushed to the right by `n` columns; a wide character is not pushed into the last one. */
  function PushedTo(row: Cells, c: nat, n: nat, attr: int): Cell
    requires n <= c < |row|
  {
    if c == |row| - 1 && row[c - n].width == 2 then NullCell(attr) else row[c - n]
  }

  ghost predicate Inserted(before: Cells, after: Cells, x: nat, codes: seq<nat>, width: nat, attr: int) {
    var n := Columns(width, |codes|);
    && |after| == |before| && x + n <= |after| && Stand(after, x, codes, width, attr)
    && (forall c :: 0 <= c < x ==> after[c] == before[c])
    && (forall c :: x + n <= c < |after| ==> after[c] == if |codes| == 0 then before[c] else PushedTo(before, c, n, attr))
  }

  lemma NotWideBefore(before: Cells, after: Cells, x: nat, codes: seq<nat>, width: nat, attr: int)
    requires (width == 1 || width == 2) && Inserted(before, after, x, codes, width, attr) && (x > 0 ==> before[x - 1].width != 2)
    ensures var y := x + Columns(width, |codes|); y > 0 ==> after[y - 1].width != 2
  {
    if |codes| > 0 {
      assert after[x + Columns(width, |codes| - 1)] == Cell([codes[|codes| - 1]], width, attr);
    }
  }

  /** Room has been made at `y`. */
  ghost predicate Opened(after: Cells, d: Cells, y: nat, width: nat, attr: int) {
    && |d| == |after| && y + width <= |after|
    && (forall c :: 0 <= c < y ==> d[c] == after[c])
    && (forall c :: y + width <= c < |d| ==> d[c] == PushedTo(after, c, width, attr))
  }

  lemma InsertedOpens(after: Cells, y: nat, width: nat, attr: int)
    requires y + width <= |after| && (y > 0 ==> after[y - 1].width != 2)
    ensures Opened(after, CellsInserted(after, y, width, attr), y, width, attr)
  {
    hide CellsInserted;
    forall c | 0 <= c < |after|
      ensures var d := CellsInserted(after, y, width, attr);
              d[c] == if c < y then after[c] else if c < y + width then d[c] else PushedTo(after, c, width, attr)
    {
      CellsInsertedAt(after, y, width, attr, c);
    }
  }

  lemma WrittenAfter(before: Cells, after: Cells, d: Cells, x: nat, codes: seq<nat>, code: nat, width: nat, attr: int)
    requires (width == 1 || width == 2) && Inserted(before, after, x, codes, width, attr)
    requires x + Columns(width, |codes| + 1) <= |before| && Opened(after, d, x + Columns(width, |codes|), width, attr)
    ensures Inserted(before, Written(d, x + Columns(width, |codes|), [code], width, attr), x, codes + [code], width, attr)
  {
    hide Written, Stand, PushedTo, Columns;
    var n := Columns(width, |codes|);
    var y := x + n;
    var u := Written(d, y, [code], width, attr);
    ColumnsMore(width, |codes|);
    WrittenCells(d, y, code, width, attr);
    StandsOn(after, u, x, codes, code, width, attr);
    PushedOn(before, after, u, y, n, width, attr);
  }

  lemma ColumnsMore(width: nat, n: nat)
    requires width == 1 || width == 2
    ensures Columns(width, n + 1) == Columns(width, n) + width && (n == 0 <==> Columns(width, n) == 0)
  {
  }

  /** What was pushed already is pushed on. */
  lemma PushedOn(before: Cells, after: Cells, u: Cells, y: nat, n: nat, width: nat, attr: int)
    requires (width == 1 || width == 2) && |u| == |after| == |before| && n <= y && y + width <= |u|
    requires forall c :: y <= c < |after| ==> after[c] == if n == 0 then before[c] else PushedTo(before, c, n, attr)
    requires forall c :: y + width <= c < |u| ==> u[c] == PushedTo(after, c, width, attr)
    ensures forall c :: y + width <= c < |u| ==> u[c] == PushedTo(before, c, n + width, attr)
  {
  }

  lemma WrittenCells(d: Cells, y: nat, code: nat, width: nat, attr: int)
    requires (width == 1 || width == 2) && y + width <= |d|
    ensures var u := Written(d, y, [code], width, attr);
            && |u| == |d| && u[y] == Cell([code], width, attr) && (width == 2 ==> u[y + 1] == Cell([], 0, attr))
            && forall c :: (0 <= c < y || y + width <= c < |d|) ==> u[c] == d[c]
  {
  }

  lemma StandsOn(after: Cells, u: Cells, x: nat, codes: seq<nat>, code: nat, width: nat, attr: int)
    requires (width == 1 || width == 2) && |u| == |after| && x + Columns(width, |codes| + 1) <= |u| && Stand(after, x, codes, width, attr)
    requires forall c :: 0 <= c < x + Columns(width, |codes|) ==> u[c] == after[c]
    requires var y := x + Columns(width, |codes|); u[y] == Cell([code], width, attr) && (width == 2 ==> u[y + 1] == Cell([], 0, attr))
    ensures Stand(u, x, codes + [code], width, attr)
  {
  }

  lemma InsertedMore(before: Cells, after: Cells, x: nat, codes: seq<nat>, code: nat, width: nat, attr: int)
    requires (width == 1 || width == 2) && Inserted(before, after, x, codes, width, attr)
    requires x + Columns(width, |codes| + 1) <= |before| && (x > 0 ==> before[x - 1].width != 2)
    ensures var y := x + Columns(width, |codes|);
            Inserted(before, Written(CellsInserted(after, y, width, attr), y, [code], width, attr), x, codes + [code], width, attr)
  {
    hide CellsInserted, Written, Opened;
    var y := x + Columns(width, |codes|);
    NotWideBefore(before, after, x, codes, width, attr);
    InsertedOpens(after, y, width, attr);
    WrittenAfter(before, after, CellsInserted(after, y, width, attr), x, codes, code, width, attr);
  }

  lemma Inserting(s: Screen, f: Frame, cols: nat, m: Modes, g: Glyph)
    requires ScreenOk(s, f, cols) && (g.width == 1 || g.width == 2) && m.insertMode && s.pos.x + g.width <= cols
    ensures PrintOne(s, f, cols, m, g)
         == WithRow(s, Written(CellsInserted(Row(s), s.pos.x, g.width, m.attr), s.pos.x, [g.code], g.width, m.attr))
              .(pos := s.pos.(x := s.pos.x + g.width))
  {
    hide CellsInserted;
  }

  lemma {:induction false} TextInserted(s: Screen, f: Frame, cols: nat, m: Modes, gs: seq<Glyph>, width: nat)
    requires ScreenOk(s, f, cols) && m.insertMode && (width == 1 || width == 2) && OfWidth(gs, width)
    requires s.pos.x + Columns(width, |gs|) <= cols && (s.pos.x > 0 ==> Row(s)[s.pos.x - 1].width != 2)
    ensures var t := PrintEach(s, f, cols, m, gs);
            && OnlyRow(s, t) && t.pos.x == s.pos.x + Columns(width, |gs|)
            && Inserted(Row(s), Row(t), s.pos.x, CodesOf(gs), width, m.attr)
    decreases |gs|
  {
    if |gs| > 0 {
      var n := |gs| - 1;
      TextInserted(s, f, cols, m, gs[..n], width);
      OneMoreInserted(s, f, cols, m, gs, n, width);
    }
  }

  lemma OneMoreInserted(s: Screen, f: Frame, cols: nat, m: Modes, gs: seq<Glyph>, n: nat, width: nat)
    requires ScreenOk(s, f, cols) && m.insertMode && (width == 1 || width == 2) && OfWidth(gs, width)
    requires |gs| == n + 1 && s.pos.x + Columns(width, |gs|) <= cols && (s.pos.x > 0 ==> Row(s)[s.pos.x - 1].width != 2)
    requires var t := PrintEach(s, f, cols, m, gs[..n]);
             && OnlyRow(s, t) && t.pos.x == s.pos.x + Columns(width, n)
             && Inserted(Row(s), Row(t), s.pos.x, CodesOf(gs[..n]), width, m.attr)
    ensures var t := PrintEach(s, f, cols, m, gs);
            && OnlyRow(s, t) && t.pos.x == s.pos.x + Columns(width, |gs|)
            && Inserted(Row(s), Row(t), s.pos.x, CodesOf(gs), width, m.attr)
  {
    hide ScreenOk, Inserted, OnlyRow, Row, WithRow, Written, CellsInserted, PrintOne, CodesOf;
    var t := PrintEach(s, f, cols, m, gs[..n]);
    CodesMore(gs, n);
    Inserting(t, f, cols, m, gs[n]);
    Sizes(s, f, cols);
    Sizes(t, f, cols);
    InsertedMore(Row(s), Row(t), s.pos.x, CodesOf(gs[..n]), gs[n].code, width, m.attr);
    RowExchanged(s, t, Written(CellsInserted(Row(t), t.pos.x, width, m.attr), t.pos.x, [gs[n].code], width, m.attr), t.pos.x + width);
  }

  /** In insert mode what stood from the cursor on is pushed to the right, and off the row at its end. */
  ghost predicate PushesIn(s: Screen, t: Screen, codes: seq<nat>, width: nat, attr: int)
    requires HasRow(s)
  {
    var x, n, row := s.pos.x, Columns(width, |codes|), Row(s);
    && OnlyRow(s, t) && t.pos.x == x + n && x >= 0 && x + n <= |row|
    && Stand(Row(t), x, codes, width, attr)
    && (forall c :: 0 <= c < x ==> Row(t)[c] == Beside(row, c, x, |row|, attr))
    && (forall c :: x + n <= c < |row| ==> Row(t)[c] == if c == x + n && IsHalf(row[x]) then NullCell(attr) else PushedTo(row, c, n, attr))
  }

  lemma TextPushes(s: Screen, f: Frame, cols: nat, m: Modes, gs: seq<Glyph>, width: nat)
    requires ScreenOk(s, f, cols) && m.insertMode && (width == 1 || width == 2) && OfWidth(gs, width) && |gs| > 0
    requires s.pos.x + Columns(width, |gs|) <= cols
    ensures HasRow(s) && PushesIn(s, Printed(s, f, cols, m, gs), CodesOf(gs), width, m.attr)
  {
    hide CodesOf, ScreenOk, Inserted, PrintEach, Before, Behind, OnlyRow, Stand, PushedTo, Beside;
    Sizes(s, f, cols);
    var b := Before(s, f, cols, m);
    BeforeRow(s, f, cols, m);
    TextInserted(b, f, cols, m, gs, width);
    var u := PrintEach(b, f, cols, m, gs);
    BehindRow(u, f, cols, m);
    OnlyRowTwice(s, b, u);
    OnlyRowTwice(s, u, Behind(u, f, cols, m));
    PushedEnds(Row(s), Row(u), s.pos.x, CodesOf(gs), width, m.attr);
    hide Row;
  }

  lemma PushedEnds(row: Cells, laid: Cells, x: nat, codes: seq<nat>, width: nat, attr: int)
    requires (width == 1 || width == 2) && |codes| > 0 && Inserted(ClearedBefore(row, x, attr), laid, x, codes, width, attr)
    ensures var n := Columns(width, |codes|); var after := ClearedAt(laid, x + n, attr);
            && |after| == |row| && x + n <= |row| && Stand(after, x, codes, width, attr)
            && (forall c :: 0 <= c < x ==> after[c] == Beside(row, c, x, |row|, attr))
            && (forall c :: x + n <= c < |row| ==> after[c] == if c == x + n && IsHalf(row[x]) then NullCell(attr) else PushedTo(row, c, n, attr))
  {
  }

  // ---------------------------------------------------------------- text that does not fit

  /** Narrow text without wrapping: each character in its column, and what is too much in the last one, one over the other. */
  ghost predicate Overlaid(before: Cells, after: Cells, x: nat, codes: seq<nat>, attr: int) {
    && |after| == |before| && x <= |before|
    && forall c :: 0 <= c < |before| ==>
         after[c] == if |codes| > 0 && c == |before| - 1 && x + |codes| >= |before| then Cell([codes[|codes| - 1]], 1, attr)
                     else if x <= c < x + |codes| then Cell([codes[c - x]], 1, attr)
                     else before[c]
  }

  lemma OverlaidMore(before: Cells, after: Cells, x: nat, codes: seq<nat>, code: nat, attr: int)
    requires Overlaid(before, after, x, codes, attr) && |before| > 0
    ensures var y := Min(x + |codes|, |before| - 1);
            Overlaid(before, Written(after, y, [code], 1, attr), x, codes + [code], attr)
  {
  }

  lemma Overwriting(s: Screen, f: Frame, cols: nat, m: Modes, g: Glyph)
    requires ScreenOk(s, f, cols) && g.width == 1 && !m.insertMode && !m.wraparound
    ensures PrintOne(s, f, cols, m, g)
         == WithRow(s, Written(Row(s), Min(s.pos.x, cols - 1), [g.code], 1, m.attr)).(pos := s.pos.(x := Min(s.pos.x + 1, cols)))
  {
    hide Written;
  }

  lemma {:induction false} TextOverlaid(s: Screen, f: Frame, cols: nat, m: Modes, gs: seq<Glyph>)
    requires ScreenOk(s, f, cols) && !m.insertMode && !m.wraparound && OfWidth(gs, 1)
    ensures var t := PrintEach(s, f, cols, m, gs);
            && OnlyRow(s, t) && t.pos.x == Min(s.pos.x + |gs|, cols) && Overlaid(Row(s), Row(t), s.pos.x, CodesOf(gs), m.attr)
    decreases |gs|
  {
    if |gs| > 0 {
      var n := |gs| - 1;
      TextOverlaid(s, f, cols, m, gs[..n]);
      OneMoreOverlaid(s, PrintEach(s, f, cols, m, gs[..n]), f, cols, m, CodesOf(gs[..n]), gs[n]);
      CodesMore(gs, n);
      hide ScreenOk, Overlaid, OnlyRow, Row, PrintOne, CodesOf, Min;
    }
  }

  lemma OneMoreOverlaid(s: Screen, t: Screen, f: Frame, cols: nat, m: Modes, codes: seq<nat>, g: Glyph)
    requires ScreenOk(s, f, cols) && ScreenOk(t, f, cols) && !m.insertMode && !m.wraparound && g.width == 1
    requires OnlyRow(s, t) && t.pos.x == Min(s.pos.x + |codes|, cols) && Overlaid(Row(s), Row(t), s.pos.x, codes, m.attr)
    ensures var u := PrintOne(t, f, cols, m, g);
            && OnlyRow(s, u) && u.pos.x == Min(s.pos.x + |codes| + 1, cols)
            && Overlaid(Row(s), Row(u), s.pos.x, codes + [g.code], m.attr)
  {
    hide ScreenOk, Overlaid, OnlyRow, Row, WithRow, Written, PrintOne, Min;
    var x := s.pos.x + |codes|;
    Sizes(s, f, cols);
    Sizes(t, f, cols);
    NextColumn(x, cols);
    Overwriting(t, f, cols, m, g);
    OverlaidMore(Row(s), Row(t), s.pos.x, codes, g.code, m.attr);
    RowExchanged(s, t, Written(Row(t), Min(x, cols - 1), [g.code], 1, m.attr), Min(x + 1, cols));
  }

  lemma NextColumn(x: nat, cols: nat)
    requires cols >= 1
    ensures 0 <= Min(x, cols - 1) < cols && Min(Min(x, cols), cols - 1) == Min(x, cols - 1) && Min(Min(x, cols) + 1, cols) == Min(x + 1, cols)
  {
  }

  /** Narrow text without wrapping, of any length: the last column shows the last character. */
  lemma TextStaysInRow(s: Screen, f: Frame, cols: nat, m: Modes, gs: seq<Glyph>)
    requires ScreenOk(s, f, cols) && !m.insertMode && !m.wraparound && OfWidth(gs, 1) && |gs| > 0 && s.pos.x + |gs| > cols
    ensures var t, x := Printed(s, f, cols, m, gs), s.pos.x;
            && HasRow(s) && OnlyRow(s, t) && t.pos.x == cols && |Row(s)| == cols
            && forall c :: 0 <= c < cols ==>
                 Row(t)[c] == if c == cols - 1 then Cell([gs[|gs| - 1].code], 1, m.attr)
                              else if x <= c then Cell([gs[c - x].code], 1, m.attr)
                              else Beside(Row(s), c, x, cols, m.attr)
  {
    hide ScreenOk, Overlaid, PrintEach, Before, Behind, OnlyRow, Beside;
    Sizes(s, f, cols);
    var b := Before(s, f, cols, m);
    BeforeRow(s, f, cols, m);
    TextOverlaid(b, f, cols, m, gs);
    var u := PrintEach(b, f, cols, m, gs);
    BehindRow(u, f, cols, m);
    OnlyRowTwice(s, b, u);
    OnlyRowTwice(s, u, Behind(u, f, cols, m));
    OverlaidEnds(Row(s), Row(u), s.pos.x, CodesOf(gs), m.attr);
    hide Row;
  }

  lemma OverlaidEnds(row: Cells, laid: Cells, x: nat, codes: seq<nat>, attr: int)
    requires |codes| > 0 && x + |codes| > |row| > 0 && Overlaid(ClearedBefore(row, x, attr), laid, x, codes, attr)
    ensures |laid| == |row| && ClearedAt(laid, |row|, attr) == laid
    ensures forall c :: 0 <= c < |row| ==>
              laid[c] == if c == |row| - 1 then Cell([codes[|codes| - 1]], 1, attr)
                         else if x <= c then Cell([codes[c - x]], 1, attr)
                         else Beside(row, c, x, |row|, attr)
  {
  }

  /** The row of the cursor, empty from the cursor on. */
  function CutLine(s: Screen, f: Frame, cols: nat, attr: int, y: nat): Line
    requires ScreenOk(s, f, cols) && y < f.rows
  {
    var line := ScreenLine(s, f, cols, y);
    if y == s.pos.y then line.(cells := seq(cols, c requires 0 <= c < cols => if c < s.pos.x then line.cells[c] else NullCell(attr))) else line
  }

  lemma PadCuts(s: Screen, f: Frame, cols: nat, attr: int, y: nat)
    requires ScreenOk(s, f, cols) && y < f.rows
    ensures var t := PadRow(s, f, cols, attr); t.pos == s.pos && ScreenLine(t, f, cols, y) == CutLine(s, f, cols, attr, y)
  {
    assert Row(s)[..s.pos.x] + Blank(cols - s.pos.x, attr) == seq(cols, c requires 0 <= c < cols => if c < s.pos.x then Row(s)[c] else NullCell(attr));
  }

  /** What row `y` shows once the cursor has gone to the next row, with the row it came from cut off. */
  function CutAndScrolled(s: Screen, f: Frame, cols: nat, m: Modes, y: nat): Line
    requires ScreenOk(s, f, cols) && y < f.rows
  {
    if s.pos.y != f.bottom || y < f.top || y > f.bottom then CutLine(s, f, cols, m.attr, y)
    else if y < f.bottom then CutLine(s, f, cols, m.attr, y + 1)
    else Line(Blank(cols, m.eraseAttr), true)
  }

  /**
    A glyph that finds no room in the line: the rest of the line is emptied, and the glyph goes to the
    first column of the next row, which continues the line; at the bottom of the region the region scrolls.
    */
  lemma GlyphWraps(s: Screen, f: Frame, cols: nat, m: Modes, g: Glyph, y: nat)
    requires ScreenOk(s, f, cols) && 1 <= g.width <= 2 && s.pos.x + g.width > cols && m.wraparound && !m.insertMode && y < f.rows
    ensures var t := PrintOne(s, f, cols, m, g);
            var row := if s.pos.y == f.bottom || s.pos.y == f.rows - 1 then s.pos.y else s.pos.y + 1;
            var before := CutAndScrolled(s, f, cols, m, y);
            && t.pos == Pos(g.width, row) && |before.cells| == cols
            && ScreenLine(t, f, cols, y) == if y == row then Line(Written(before.cells, 0, [g.code], g.width, m.attr), true) else before
  {
    var p := PadRow(s, f, cols, m.attr);
    PadCuts(s, f, cols, m.attr, y);
    if y + 1 < f.rows {
      PadCuts(s, f, cols, m.attr, y + 1);
    }
    ContinuedMeaning(p, f, cols, m.eraseAttr, y);
    PutMeaning(Continued(p, f, cols, m.eraseAttr), f, cols, m, g, y);
    hide ScreenOk, Continued, Put, PadRow, ScreenLine, CutLine, Written;
  }

  /** Text that runs over the end of the line goes on at the start of the next one. */
  lemma TextFlows(s: Screen, f: Frame, cols: nat, m: Modes, gs: seq<Glyph>)
    requires ScreenOk(s, f, cols) && !m.insertMode && m.wraparound && OfWidth(gs, 1) && s.pos.x + |gs| > cols
    ensures var room := cols - s.pos.x;
            var full := PrintEach(s, f, cols, m, gs[..room]);
            && full.pos.x == cols && OnlyRow(s, full) && Laid(Row(s), Row(full), s.pos.x, CodesOf(gs[..room]), 1, m.attr)
            && PrintEach(s, f, cols, m, gs) == PrintEach(Continued(full, f, cols, m.eraseAttr), f, cols, m, gs[room..])
  {
    var room := cols - s.pos.x;
    var full := PrintEach(s, f, cols, m, gs[..room]);
    TextLaid(s, f, cols, m, gs[..room], 1);
    hide Laid, OnlyRow, PrintOne, CodesOf;
    var rest := gs[room..];
    assert gs == gs[..room] + rest && rest == [rest[0]] + rest[1..];
    PrintEachConcat(s, f, cols, m, gs[..room], rest);
    FirstThenRest(full, f, cols, m, rest);
    FirstThenRest(Continued(full, f, cols, m.eraseAttr), f, cols, m, rest);
    FirstWraps(full, f, cols, m, rest[0]);
  }

  lemma FirstWraps(s: Screen, f: Frame, cols: nat, m: Modes, g: Glyph)
    requires ScreenOk(s, f, cols) && g.width == 1 && s.pos.x == cols && m.wraparound
    ensures PrintOne(s, f, cols, m, g) == PrintOne(Continued(s, f, cols, m.eraseAttr), f, cols, m, g)
  {
    FullRow(s, f, cols, m.attr);
    hide Continued, PadRow, Put;
  }
}
