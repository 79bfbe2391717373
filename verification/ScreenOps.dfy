/** Line feed, index, backspace and the insertion and deletion of lines, as functions on the screen. */
module ScreenOps {
  import opened Common
  import opened BufferLine
  import opened Scrolling
  import opened Cursor
  import opened WideCells
  import opened Printing

  function LimitsOf(f: Frame, cols: nat, origin: bool): Limits {
    Limits(cols, f.rows, f.top, f.bottom, origin)
  }

  function At(s: Screen, p: Pos): Screen {
    s.(pos := p)
  }

  /** On the screen, or in origin mode in the region. */
  function Confined(s: Screen, f: Frame, cols: nat, origin: bool, maxCol: nat): (t: Screen)
    requires ScreenOk(s, f, cols) && maxCol <= cols
    ensures ScreenOk(t, f, cols)
  {
    At(s, Restricted(s.pos, LimitsOf(f, cols, origin), maxCol))
  }

  function BlankLine(cols: nat, attr: int): Line {
    Line(Blank(cols, attr), false)
  }

  /** Unlike the index, a line feed ends the wrapping of the line it comes to. */
  function FedDown(s: Screen, f: Frame, cols: nat, eraseAttr: int): (t: Screen)
    requires ScreenOk(s, f, cols)
    ensures ScreenOk(t, f, cols)
  {
    var down := RowDown(s, f, cols, BlankLine(cols, eraseAttr));
    if s.pos.y == f.bottom || s.pos.y + 1 >= f.rows then down
    else WithLine(down, down.view.lines[down.view.ybase + down.pos.y].(isWrapped := false))
  }

  function LineFed(s: Screen, f: Frame, cols: nat, convertEol: bool, eraseAttr: int): (t: Screen)
    requires ScreenOk(s, f, cols)
    ensures ScreenOk(t, f, cols)
  {
    var t := FedDown(if convertEol then At(s, Pos(0, s.pos.y)) else s, f, cols, eraseAttr);
    if t.pos.x >= cols then At(t, Pos(t.pos.x - 1, t.pos.y)) else t
  }

  function Indexed(s: Screen, f: Frame, cols: nat, origin: bool, eraseAttr: int): (t: Screen)
    requires ScreenOk(s, f, cols)
    ensures ScreenOk(t, f, cols)
  {
    Confined(RowDown(Confined(s, f, cols, origin, cols - 1), f, cols, BlankLine(cols, eraseAttr)), f, cols, origin, cols - 1)
  }

  function WithLines(s: Screen, lines: seq<Line>): Screen {
    s.(view := s.view.(lines := lines))
  }

  /** From the top of the region the region moves down instead of the cursor up. */
  function ReversedHere(c: Screen, f: Frame, cols: nat, origin: bool, eraseAttr: int): (t: Screen)
    requires ScreenOk(c, f, cols)
    ensures ScreenOk(t, f, cols)
  {
    if c.pos.y == f.top then
      RegionKeepsWidths(c.view.lines, c.view.ybase + f.top, c.view.ybase + f.bottom, 1, BlankLine(cols, eraseAttr), cols);
      WithLines(c, RegionDown(c.view.lines, c.view.ybase + f.top, c.view.ybase + f.bottom, 1, BlankLine(cols, eraseAttr)))
    else At(c, Restricted(Pos(c.pos.x, c.pos.y - 1), LimitsOf(f, cols, origin), cols - 1))
  }

  function ReverseIndexed(s: Screen, f: Frame, cols: nat, origin: bool, eraseAttr: int): (t: Screen)
    requires ScreenOk(s, f, cols)
    ensures ScreenOk(t, f, cols)
  {
    ReversedHere(Confined(s, f, cols, origin, cols - 1), f, cols, origin, eraseAttr)
  }

  lemma RegionKeepsWidths(s: seq<Line>, top: nat, bottom: nat, n: nat, blank: Line, cols: nat)
    requires top <= bottom < |s| && LinesOf(s, cols) && |blank.cells| == cols
    ensures LinesOf(RegionDown(s, top, bottom, n, blank), cols) && LinesOf(RegionUp(s, top, bottom, n, blank), cols)
  {
  }

  predicate InRegion(s: Screen, f: Frame) {
    f.top <= s.pos.y <= f.bottom
  }

  /** Lines are inserted at the cursor, in the region only. */
  function InsertedHere(c: Screen, f: Frame, cols: nat, eraseAttr: int, n: nat): (t: Screen)
    requires ScreenOk(c, f, cols)
    ensures ScreenOk(t, f, cols)
  {
    if !InRegion(c, f) then c
    else
      var top, bottom := c.view.ybase + c.pos.y, c.view.ybase + f.bottom;
      RegionKeepsWidths(c.view.lines, top, bottom, n, BlankLine(cols, eraseAttr), cols);
      At(WithLines(c, RegionDown(c.view.lines, top, bottom, n, BlankLine(cols, eraseAttr))), Pos(0, c.pos.y))
  }

  function LinesInserted(s: Screen, f: Frame, cols: nat, origin: bool, eraseAttr: int, n: nat): (t: Screen)
    requires ScreenOk(s, f, cols)
    ensures ScreenOk(t, f, cols)
  {
    InsertedHere(Confined(s, f, cols, origin, cols - 1), f, cols, eraseAttr, OrOne(n))
  }

  function DeletedHere(c: Screen, f: Frame, cols: nat, eraseAttr: int, n: nat): (t: Screen)
    requires ScreenOk(c, f, cols)
    ensures ScreenOk(t, f, cols)
  {
    if !InRegion(c, f) then c
    else
      var top, bottom := c.view.ybase + c.pos.y, c.view.ybase + f.bottom;
      RegionKeepsWidths(c.view.lines, top, bottom, n, BlankLine(cols, eraseAttr), cols);
      At(WithLines(c, RegionUp(c.view.lines, top, bottom, n, BlankLine(cols, eraseAttr))), Pos(0, c.pos.y))
  }

  function LinesDeleted(s: Screen, f: Frame, cols: nat, origin: bool, eraseAttr: int, n: nat): (t: Screen)
    requires ScreenOk(s, f, cols)
    ensures ScreenOk(t, f, cols)
  {
    DeletedHere(Confined(s, f, cols, origin, cols - 1), f, cols, eraseAttr, OrOne(n))
  }

  /** The whole region moves, wherever the cursor is. */
  function RegionScrolled(s: Screen, f: Frame, cols: nat, up: bool, attr: int, n: nat): (t: Screen)
    requires ScreenOk(s, f, cols)
    ensures ScreenOk(t, f, cols)
  {
    var top, bottom := s.view.ybase + f.top, s.view.ybase + f.bottom;
    RegionKeepsWidths(s.view.lines, top, bottom, OrOne(n), BlankLine(cols, attr), cols);
    WithLines(s, if up then RegionUp(s.view.lines, top, bottom, OrOne(n), BlankLine(cols, attr))
                 else RegionDown(s.view.lines, top, bottom, OrOne(n), BlankLine(cols, attr)))
  }

  /** From the first column of a continued line to the last character of the line it continues. */
  function WrappedBack(c: Screen, f: Frame, cols: nat): (t: Screen)
    requires ScreenOk(c, f, cols)
    ensures ScreenOk(t, f, cols)
  {
    var line := c.view.lines[c.view.ybase + c.pos.y];
    if f.top < c.pos.y <= f.bottom && line.isWrapped then
      var up := At(WithLine(c, line.(isWrapped := false)), Pos(cols - 1, c.pos.y - 1));
      var edge := Row(up)[cols - 1];
      if edge.width != 0 && edge.text == [] then At(up, Pos(cols - 2, up.pos.y)) else up
    else c
  }

  /** One column back; with reverse wraparound, from the first column to the line before. */
  function Backspaced(s: Screen, f: Frame, cols: nat, origin: bool, reverseWraparound: bool): (t: Screen)
    requires ScreenOk(s, f, cols)
    ensures ScreenOk(t, f, cols)
  {
    var c := Confined(s, f, cols, origin, if reverseWraparound then cols else cols - 1);
    var t := if c.pos.x > 0 then At(c, Pos(c.pos.x - 1, c.pos.y)) else if reverseWraparound then WrappedBack(c, f, cols) else c;
    if reverseWraparound then Confined(t, f, cols, origin, cols - 1) else t
  }

  // ---------------------------------------------------------------- what they come to, row by row

  /** The line in row `y` of the screen. */
  function ScreenLine(s: Screen, f: Frame, cols: nat, y: nat): Line
    requires ScreenOk(s, f, cols) && y < f.rows
  {
    s.view.lines[s.view.ybase + y]
  }

  /** What row `y` shows when the region has scrolled. */
  function ScrolledLine(s: Screen, f: Frame, cols: nat, blank: Line, y: nat): Line
    requires ScreenOk(s, f, cols) && y < f.rows
  {
    if f.top <= y < f.bottom then ScreenLine(s, f, cols, y + 1) else if y == f.bottom then blank else ScreenLine(s, f, cols, y)
  }

  /** The cursor is no part of what is shown. */
  lemma SameLines(s: Screen, t: Screen, f: Frame, cols: nat, blank: Line, y: nat)
    requires ScreenOk(s, f, cols) && ScreenOk(t, f, cols) && s.view == t.view && y < f.rows
    ensures ScreenLine(s, f, cols, y) == ScreenLine(t, f, cols, y) && ScrolledLine(s, f, cols, blank, y) == ScrolledLine(t, f, cols, blank, y)
  {
  }

  lemma UnwrappedLine(s: Screen, f: Frame, cols: nat, y: nat)
    requires ScreenOk(s, f, cols) && y < f.rows
    ensures var t := WithLine(s, s.view.lines[s.view.ybase + s.pos.y].(isWrapped := false));
            && ScreenOk(t, f, cols) && t.pos == s.pos
            && ScreenLine(t, f, cols, y) == if y == s.pos.y then ScreenLine(s, f, cols, y).(isWrapped := false) else ScreenLine(s, f, cols, y)
  {
  }

  lemma RowDownMeaning(s: Screen, f: Frame, cols: nat, blank: Line, y: nat)
    requires ScreenOk(s, f, cols) && |blank.cells| == cols && y < f.rows
    ensures var t := RowDown(s, f, cols, blank);
            && t.pos.y == (if s.pos.y == f.bottom || s.pos.y == f.rows - 1 then s.pos.y else s.pos.y + 1)
            && ScreenLine(t, f, cols, y) == if s.pos.y == f.bottom then ScrolledLine(s, f, cols, blank, y) else ScreenLine(s, f, cols, y)
  {
    if s.pos.y == f.bottom {
      ScreenAfterScroll(s.view, Scrolled(s.view, f, blank), f, blank, y);
      hide Scrolled;
    }
  }

  /**
    A line feed: the cursor goes one row down, or at the bottom of the region the region scrolls;
    the row that is reached no longer continues the one above, and nothing else changes.
    */
  lemma LineFedMeaning(s: Screen, f: Frame, cols: nat, convertEol: bool, eraseAttr: int, y: nat)
    requires ScreenOk(s, f, cols) && y < f.rows
    ensures var t := LineFed(s, f, cols, convertEol, eraseAttr);
            && t.pos == Pos(if convertEol then 0 else Min(s.pos.x, cols - 1),
                            if s.pos.y == f.bottom || s.pos.y == f.rows - 1 then s.pos.y else s.pos.y + 1)
            && ScreenLine(t, f, cols, y) ==
               if s.pos.y == f.bottom then ScrolledLine(s, f, cols, BlankLine(cols, eraseAttr), y)
               else if y == s.pos.y + 1 then ScreenLine(s, f, cols, y).(isWrapped := false)
               else ScreenLine(s, f, cols, y)
  {
    var from := if convertEol then At(s, Pos(0, s.pos.y)) else s;
    var blank := BlankLine(cols, eraseAttr);
    RowDownMeaning(from, f, cols, blank, y);
    SameLines(s, from, f, cols, blank, y);
    var down := RowDown(from, f, cols, blank);
    UnwrappedLine(down, f, cols, y);
    var fed := FedDown(from, f, cols, eraseAttr);
    SameLines(fed, LineFed(s, f, cols, convertEol, eraseAttr), f, cols, blank, y);
    hide RowDown, ScreenLine, ScrolledLine, ScreenOk;
  }

  /** An index, where the cursor is on the screen and, in origin mode, in the region. */
  lemma IndexedMeaning(s: Screen, f: Frame, cols: nat, origin: bool, eraseAttr: int, y: nat)
    requires ScreenOk(s, f, cols) && y < f.rows && (origin ==> InRegion(s, f))
    ensures var t := Indexed(s, f, cols, origin, eraseAttr);
            && t.pos == Pos(Min(s.pos.x, cols - 1), if s.pos.y == f.bottom || s.pos.y == f.rows - 1 then s.pos.y else s.pos.y + 1)
            && ScreenLine(t, f, cols, y) ==
               if s.pos.y == f.bottom then ScrolledLine(s, f, cols, BlankLine(cols, eraseAttr), y) else ScreenLine(s, f, cols, y)
  {
    var blank, c := BlankLine(cols, eraseAttr), Confined(s, f, cols, origin, cols - 1);
    RowDownMeaning(c, f, cols, blank, y);
    SameLines(s, c, f, cols, blank, y);
    SameLines(RowDown(c, f, cols, blank), Indexed(s, f, cols, origin, eraseAttr), f, cols, blank, y);
    hide RowDown, ScreenLine, ScrolledLine;
  }

  /** A full row has nothing to pad. */
  lemma FullRow(s: Screen, f: Frame, cols: nat, attr: int)
    requires ScreenOk(s, f, cols) && s.pos.x == cols
    ensures PadRow(s, f, cols, attr) == s
  {
    assert Row(s)[..cols] + Blank(0, attr) == Row(s);
  }

  /** The next row is marked as continuing the line, and nothing else changes but for scrolling. */
  lemma ContinuedMeaning(s: Screen, f: Frame, cols: nat, eraseAttr: int, y: nat)
    requires ScreenOk(s, f, cols) && y < f.rows
    ensures var t := Continued(s, f, cols, eraseAttr);
            var blank := Line(Blank(cols, eraseAttr), true);
            var row := if s.pos.y == f.bottom || s.pos.y == f.rows - 1 then s.pos.y else s.pos.y + 1;
            var before := if s.pos.y == f.bottom then ScrolledLine(s, f, cols, blank, y) else ScreenLine(s, f, cols, y);
            t.pos == Pos(0, row) && |before.cells| == cols && ScreenLine(t, f, cols, y) == if y == row then before.(isWrapped := true) else before
  {
    var blank := Line(Blank(cols, eraseAttr), true);
    RowDownMeaning(s, f, cols, blank, y);
    var down := RowDown(s, f, cols, blank);
    hide RowDown;
  }

  lemma PutMeaning(s: Screen, f: Frame, cols: nat, m: Modes, g: Glyph, y: nat)
    requires ScreenOk(s, f, cols) && s.pos.x == 0 && 1 <= g.width <= 2 && !m.insertMode && y < f.rows
    ensures var t, before := Put(s, f, cols, m, g), ScreenLine(s, f, cols, y);
            && t.pos == Pos(g.width, s.pos.y) && |before.cells| == cols
            && ScreenLine(t, f, cols, y) == if y == s.pos.y then before.(cells := Written(before.cells, 0, [g.code], g.width, m.attr)) else before
  {
    hide Written;
  }

  /**
    A glyph behind a full line: it goes to the first column of the next row, which is marked as
    continuing the line; at the bottom of the region the region scrolls and the row is blank.
    */
  lemma GlyphBehindFullLine(s: Screen, f: Frame, cols: nat, m: Modes, g: Glyph, y: nat)
    requires ScreenOk(s, f, cols) && 1 <= g.width <= 2 && s.pos.x == cols && m.wraparound && !m.insertMode && y < f.rows
    ensures var t := PrintOne(s, f, cols, m, g);
            var scrolls := s.pos.y == f.bottom;
            var blank := Line(Blank(cols, m.eraseAttr), true);
            var row := if scrolls || s.pos.y == f.rows - 1 then s.pos.y else s.pos.y + 1;
            && t.pos == Pos(g.width, row)
            && var before := if scrolls then ScrolledLine(s, f, cols, blank, y) else ScreenLine(s, f, cols, y);
               |before.cells| == cols &&
               ScreenLine(t, f, cols, y) == if y == row then Line(Written(before.cells, 0, [g.code], g.width, m.attr), true) else before
  {
    FullRow(s, f, cols, m.attr);
    ContinuedMeaning(s, f, cols, m.eraseAttr, y);
    PutMeaning(Continued(s, f, cols, m.eraseAttr), f, cols, m, g, y);
    hide ScreenOk, Continued, Put, PadRow, ScreenLine, ScrolledLine, Written;
  }

  /** A reverse index right behind an index that did not scroll goes back to the same row. */
  lemma ReverseAfterIndex(s: Screen, f: Frame, cols: nat, origin: bool, eraseAttr: int)
    requires ScreenOk(s, f, cols) && s.pos.x < cols && (origin ==> InRegion(s, f))
    requires s.pos.y != f.bottom && s.pos.y < f.rows - 1
    ensures var back := ReverseIndexed(Indexed(s, f, cols, origin, eraseAttr), f, cols, origin, eraseAttr);
            back == s <==> s.pos.y + 1 != f.top
  {
    hide RegionDown;
    var t := Indexed(s, f, cols, origin, eraseAttr);
    assert t == At(s, Pos(s.pos.x, s.pos.y + 1));
  }

  /** A backspace takes back the advance of a narrow glyph, except in the last column without reverse wraparound. */
  lemma BackspaceAfterPrint(s: Screen, f: Frame, cols: nat, m: Modes, g: Glyph, reverseWraparound: bool)
    requires ScreenOk(s, f, cols) && s.pos.x < cols && g.width == 1
    ensures Backspaced(PrintOne(s, f, cols, m, g), f, cols, false, reverseWraparound).pos == s.pos
       <==> s.pos.x + 1 < cols || reverseWraparound
  {
    hide Written, CellsInserted, WrappedBack;
  }

  /** With reverse wraparound, a backspace right behind a wrap goes back to the full line and ends its continuation. */
  lemma BackspaceAfterWrap(s: Screen, f: Frame, cols: nat, eraseAttr: int)
    requires ScreenOk(s, f, cols) && f.top <= s.pos.y < f.bottom
    requires Row(s)[cols - 1].text != [] || Row(s)[cols - 1].width == 0
    ensures var t := Backspaced(Continued(s, f, cols, eraseAttr), f, cols, false, true);
            t.pos == Pos(cols - 1, s.pos.y) && Row(t) == Row(s) && !t.view.lines[t.view.ybase + s.pos.y + 1].isWrapped
  {
  }

  // ---------------------------------------------------------------- what they keep and undo

  lemma RegionIntact(s: seq<Line>, top: nat, bottom: nat, n: nat, blank: Line)
    requires top <= bottom < |s| && LinesIntact(s) && RowOk(blank.cells)
    ensures LinesIntact(RegionDown(s, top, bottom, n, blank)) && LinesIntact(RegionUp(s, top, bottom, n, blank))
  {
    hide RowOk;
  }

  lemma ScrolledIntact(s: Screen, f: Frame, cols: nat, up: bool, attr: int, n: nat)
    requires ScreenOk(s, f, cols) && LinesIntact(s.view.lines)
    ensures LinesIntact(RegionScrolled(s, f, cols, up, attr, n).view.lines)
  {
    BlankRowOk(cols, attr);
    RegionIntact(s.view.lines, s.view.ybase + f.top, s.view.ybase + f.bottom, OrOne(n), BlankLine(cols, attr));
    hide RegionDown, RegionUp, RowOk, LinesOf;
  }

  lemma LineFedIntact(s: Screen, f: Frame, cols: nat, convertEol: bool, eraseAttr: int)
    requires ScreenOk(s, f, cols) && LinesIntact(s.view.lines)
    ensures LinesIntact(LineFed(s, f, cols, convertEol, eraseAttr).view.lines)
  {
    BlankRowOk(cols, eraseAttr);
    RowDownIntact(if convertEol then At(s, Pos(0, s.pos.y)) else s, f, cols, BlankLine(cols, eraseAttr));
    hide RowDown, RowOk;
  }

  lemma IndexedIntact(s: Screen, f: Frame, cols: nat, origin: bool, eraseAttr: int)
    requires ScreenOk(s, f, cols) && LinesIntact(s.view.lines)
    ensures LinesIntact(Indexed(s, f, cols, origin, eraseAttr).view.lines)
  {
    BlankRowOk(cols, eraseAttr);
    RowDownIntact(Confined(s, f, cols, origin, cols - 1), f, cols, BlankLine(cols, eraseAttr));
    hide RowDown, RowOk;
  }

  lemma RegionOpsIntact(s: Screen, f: Frame, cols: nat, origin: bool, eraseAttr: int, n: nat)
    requires ScreenOk(s, f, cols) && LinesIntact(s.view.lines)
    ensures LinesIntact(ReverseIndexed(s, f, cols, origin, eraseAttr).view.lines)
    ensures LinesIntact(LinesInserted(s, f, cols, origin, eraseAttr, n).view.lines)
    ensures LinesIntact(LinesDeleted(s, f, cols, origin, eraseAttr, n).view.lines)
  {
    BlankRowOk(cols, eraseAttr);
    var c, blank := Confined(s, f, cols, origin, cols - 1), BlankLine(cols, eraseAttr);
    RegionIntact(c.view.lines, c.view.ybase + f.top, c.view.ybase + f.bottom, 1, blank);
    if InRegion(c, f) {
      RegionIntact(c.view.lines, c.view.ybase + c.pos.y, c.view.ybase + f.bottom, OrOne(n), blank);
    }
    hide RegionDown, RegionUp, RowOk, LinesOf;
  }

  lemma BackspacedIntact(s: Screen, f: Frame, cols: nat, origin: bool, reverseWraparound: bool)
    requires ScreenOk(s, f, cols) && LinesIntact(s.view.lines)
    ensures LinesIntact(Backspaced(s, f, cols, origin, reverseWraparound).view.lines)
  {
    hide RowOk, LinesOf;
  }

  /** Deleting as many lines as were inserted brings back every line that was not pushed out of the region. */
  lemma DeleteAfterInsert(s: Screen, f: Frame, cols: nat, origin: bool, eraseAttr: int, n: nat, k: nat)
    requires ScreenOk(s, f, cols) && k < |s.view.lines|
    requires InRegion(Confined(s, f, cols, origin, cols - 1), f)
    ensures var c := Confined(s, f, cols, origin, cols - 1);
            var t := LinesDeleted(LinesInserted(s, f, cols, origin, eraseAttr, n), f, cols, origin, eraseAttr, n);
            && t.pos == Pos(0, c.pos.y) && |t.view.lines| == |s.view.lines| && t.view.ybase == s.view.ybase
            && t.view.lines[k] ==
               if s.view.ybase + c.pos.y <= k <= s.view.ybase + f.bottom < k + OrOne(n) then BlankLine(cols, eraseAttr)
               else s.view.lines[k]
  {
    var c := Confined(s, f, cols, origin, cols - 1);
    UpAfterDown(c.view.lines, c.view.ybase + c.pos.y, c.view.ybase + f.bottom, OrOne(n), BlankLine(cols, eraseAttr));
    hide RegionDown, RegionUp, LinesOf;
  }
}
