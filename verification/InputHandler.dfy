/**
  The handlers that move the cursor, print, and insert or delete lines.

  `Valid` is what every handler keeps: the cursor is on the screen, the scroll region is in
  order, and the store holds exactly the scrollback and the screen, so that the line under the
  cursor always exists.
  */
module InputHandler {
  import opened Common
  import opened CircularList
  import opened BufferLine
  import opened Scrolling
  import opened Buffers
  import opened Cursor
  import opened WideCells
  import opened Printing
  import opened PrintedText
  import opened ScreenOps
  import opened RegionMoves
  import opened Terminals

  class InputHandler {
    const buffer: Buffer
    const wcwidth: nat -> nat
    var origin: bool
    var wraparound: bool
    var insertMode: bool
    var reverseWraparound: bool
    var convertEol: bool
    var charset: Charset
    var tabs: set<nat>
    var attr: int
    var eraseAttr: int
    /** Kept with the buffer, of which there is one here. */
    var saved: SavedCursor

    ghost function Limits(): Limits
      reads this`origin, buffer`scrollTop, buffer`scrollBottom
    {
      Cursor.Limits(buffer.cols, buffer.rows, buffer.scrollTop, buffer.scrollBottom, origin)
    }

    ghost function Pos(): Pos
      reads buffer`x, buffer`y
    {
      Cursor.Pos(buffer.x, buffer.y)
    }

    ghost predicate Valid()
      reads this, buffer, buffer.Repr
    {
      && this !in buffer.Repr
      && buffer.Valid()
      && LimitsOk(Limits()) && OnScreen(Pos(), Limits())
      && (forall c: nat :: wcwidth(c) <= 2)
    }

    constructor (buffer: Buffer, wcwidth: nat -> nat)
      requires buffer.Valid() && buffer.x == buffer.y == 0
      requires forall c: nat :: wcwidth(c) <= 2
      ensures Valid() && this.buffer == buffer && this.wcwidth == wcwidth
      ensures wraparound && !origin && !insertMode && !reverseWraparound && !convertEol && tabs == {}
      ensures CurrentPen() == Pen(0, 0, map[]) && saved == SavedCursor(0, 0, CurrentPen())
    {
      this.buffer, this.wcwidth := buffer, wcwidth;
      origin, wraparound, insertMode, reverseWraparound, convertEol := false, true, false, false, false;
      charset, tabs, attr, eraseAttr, saved := map[], {}, 0, 0, SavedCursor(0, 0, Pen(0, 0, map[]));
      new;
      assert this !in buffer.Repr;
    }

    // -------------------------------------------------------------- what is on the screen

    ghost function Shown(): Screen
      requires buffer.Valid()
      reads buffer, buffer.Repr
    {
      buffer.RowsNotNull();
      Screen(Scrolling.View(ValuesOf(buffer.Rows()), buffer.ybase, buffer.ydisp, buffer.isUserScrolling), Pos())
    }

    function CurrentPen(): Pen
      reads this`attr, this`eraseAttr, this`charset
    {
      Pen(attr, eraseAttr, charset)
    }

    /** The whole terminal. */
    ghost function State(): Terminal
      requires buffer.Valid()
      reads this, buffer, buffer.Repr
    {
      Terminal(Shown(), buffer.Frame(), buffer.cols, Settings(origin, wraparound, insertMode, reverseWraparound, convertEol, tabs),
               CurrentPen(), saved)
    }

    lemma StateIs()
      requires Valid()
      ensures var t := State();
              && t.s == Shown() && t.modes.wraparound == wraparound && t.modes.insertMode == insertMode && t.saved == saved
              && TerminalOk(t) && Widths(wcwidth)
    {
      ShownOk();
    }

    lemma ShownOk()
      requires Valid()
      ensures ScreenOk(Shown(), buffer.Frame(), buffer.cols)
      ensures Shown().pos == Pos() && Shown().view.ybase == buffer.ybase
      ensures buffer.Frame() == Scrolling.Frame(buffer.rows, buffer.lines.maxLength, buffer.scrollTop, buffer.scrollBottom)
    {
      buffer.RowsNotNull();
      var s := buffer.Rows();
      forall k | 0 <= k < |s| ensures |ValuesOf(s)[k].cells| == buffer.cols {
        assert s[k] in s;
      }
    }

    ghost function Modes(): Modes
      reads this
    {
      Printing.Modes(wraparound, insertMode, attr, eraseAttr)
    }

    method PutCell(x: nat, c: Cell)
      requires Valid() && x < buffer.cols
      modifies buffer.Repr
      ensures Valid() && buffer.Frame() == old(buffer.Frame()) && buffer.Repr == old(buffer.Repr)
      ensures old(HasRow(Shown()) && |Row(Shown())| == buffer.cols)
      ensures Shown() == WithRow(old(Shown()), old(Row(Shown()))[x := c])
    {
      ShownOk();
      buffer.PutCell(buffer.ybase + buffer.y, x, c);
    }

    method MakeRoom(n: nat)
      requires Valid() && buffer.x < buffer.cols
      modifies buffer.Repr
      ensures Valid() && buffer.Frame() == old(buffer.Frame()) && buffer.Repr == old(buffer.Repr)
      ensures old(HasRow(Shown()) && |Row(Shown())| == buffer.cols)
      ensures Shown() == WithRow(old(Shown()), CellsInserted(old(Row(Shown())), buffer.x, n, attr))
    {
      ShownOk();
      buffer.InsertInRow(buffer.ybase + buffer.y, buffer.x, n, attr);
    }

    method MarkWrapped(isWrapped: bool)
      requires Valid()
      modifies buffer.Repr
      ensures Valid() && buffer.Frame() == old(buffer.Frame()) && buffer.Repr == old(buffer.Repr)
      ensures old(HasRow(Shown()))
      ensures Shown() == WithLine(old(Shown()), old(Shown().view.lines[buffer.ybase + buffer.y]).(isWrapped := isWrapped))
    {
      ShownOk();
      buffer.SetWrapped(buffer.ybase + buffer.y, isWrapped);
    }

    method ScrollRegion(isWrapped: bool)
      requires Valid()
      modifies buffer.Repr
      ensures Valid() && buffer.Frame() == old(buffer.Frame()) && old(buffer.Repr) <= buffer.Repr && fresh(buffer.Repr - old(buffer.Repr))
      ensures old(ScreenOk(Shown(), buffer.Frame(), buffer.cols))
      ensures Shown() == old(Shown()).(view := Scrolled(old(Shown()).view, buffer.Frame(), Line(Blank(buffer.cols, eraseAttr), isWrapped)))
    {
      hide Scrolled, ScrolledLines;
      ShownOk();
      ghost var v, f, shown := buffer.View(), buffer.Frame(), Shown();
      ghost var added := buffer.Scroll(eraseAttr, isWrapped);
      ViewOfValues(v, f, added, shown.view.lines, Line(Blank(buffer.cols, eraseAttr), isWrapped));
      assert buffer.Frame() == f && buffer.View() == Scrolled(v, f, added);
      assert Shown().view.lines == ScrolledLines(shown.view.lines, v.ybase, f, Line(Blank(buffer.cols, eraseAttr), isWrapped));
    }

    // -------------------------------------------------------------- line feed and friends

    method Confine(maxCol: nat)
      requires Valid() && maxCol <= buffer.cols
      modifies buffer`x, buffer`y
      ensures Valid() && old(ScreenOk(Shown(), buffer.Frame(), buffer.cols))
      ensures Shown() == Confined(old(Shown()), buffer.Frame(), buffer.cols, origin, maxCol) && buffer.Frame() == old(buffer.Frame())
    {
      ShownOk();
      ghost var f := buffer.Frame();
      RestrictCursor(maxCol);
      assert buffer.Frame() == f;
    }

    method MoveTo(x: int, y: int)
      requires Valid() && OnScreen(Cursor.Pos(x, y), Limits())
      modifies buffer`x, buffer`y
      ensures Valid() && Shown() == ScreenOps.At(old(Shown()), Cursor.Pos(x, y)) && buffer.Frame() == old(buffer.Frame())
    {
      buffer.x, buffer.y := x, y;
    }

    /** Common to line feed, index and wrapping; `scrolled` tells whether the region moved. */
    method RowDown(isWrapped: bool) returns (scrolled: bool, stayed: bool)
      requires Valid()
      modifies buffer.Repr
      ensures Valid() && buffer.Frame() == old(buffer.Frame()) && old(buffer.Repr) <= buffer.Repr && fresh(buffer.Repr - old(buffer.Repr))
      ensures old(ScreenOk(Shown(), buffer.Frame(), buffer.cols))
      ensures Shown() == Printing.RowDown(old(Shown()), buffer.Frame(), buffer.cols, Line(Blank(buffer.cols, eraseAttr), isWrapped))
      ensures scrolled == (old(buffer.y) == buffer.scrollBottom) && stayed == (old(buffer.y) + 1 >= buffer.rows && !scrolled)
    {
      hide Scrolled, ScrolledLines;
      ShownOk();
      scrolled, stayed := false, false;
      buffer.y := buffer.y + 1;
      if buffer.y == buffer.scrollBottom + 1 {
        buffer.y := buffer.y - 1;
        ScrollRegion(isWrapped);
        scrolled := true;
      } else if buffer.y >= buffer.rows {
        buffer.y := buffer.rows - 1;
        stayed := true;
      }
    }

    method FeedDown()
      requires Valid()
      modifies buffer.Repr
      ensures Valid() && buffer.Frame() == old(buffer.Frame()) && old(buffer.Repr) <= buffer.Repr && fresh(buffer.Repr - old(buffer.Repr))
      ensures old(ScreenOk(Shown(), buffer.Frame(), buffer.cols))
      ensures Shown() == FedDown(old(Shown()), buffer.Frame(), buffer.cols, eraseAttr)
    {
      hide Buffer.Valid, Shown, Buffer.Frame, Printing.RowDown;
      ShownOk();
      var scrolled, stayed := RowDown(false);
      ShownOk();
      if !scrolled && !stayed {
        MarkWrapped(false);
      }
    }

    method LineFeed()
      requires Valid()
      modifies buffer.Repr
      ensures Valid() && buffer.Frame() == old(buffer.Frame()) && old(buffer.Repr) <= buffer.Repr && fresh(buffer.Repr - old(buffer.Repr))
      ensures old(ScreenOk(Shown(), buffer.Frame(), buffer.cols))
      ensures Shown() == LineFed(old(Shown()), buffer.Frame(), buffer.cols, convertEol, eraseAttr)
    {
      hide Buffer.Valid, FedDown, ScreenOk;
      ShownOk();
      ghost var f := buffer.Frame();
      if convertEol {
        MoveTo(0, buffer.y);
      }
      FeedDown();
      if buffer.x >= buffer.cols {
        MoveTo(buffer.x - 1, buffer.y);
      }
      assert buffer.Frame() == f;
    }

    method Index()
      requires Valid()
      modifies buffer.Repr
      ensures Valid() && buffer.Frame() == old(buffer.Frame()) && old(buffer.Repr) <= buffer.Repr && fresh(buffer.Repr - old(buffer.Repr))
      ensures old(ScreenOk(Shown(), buffer.Frame(), buffer.cols))
      ensures Shown() == Indexed(old(Shown()), buffer.Frame(), buffer.cols, origin, eraseAttr)
    {
      hide Buffer.Valid, Printing.RowDown, Confined, ScreenOk;
      ghost var f := buffer.Frame();
      Confine(buffer.cols - 1);
      var _, _ := RowDown(false);
      Confine(buffer.cols - 1);
    }

    method NextLine()
      requires Valid()
      modifies buffer.Repr
      ensures Valid() && buffer.Frame() == old(buffer.Frame()) && old(buffer.Repr) <= buffer.Repr && fresh(buffer.Repr - old(buffer.Repr))
      ensures old(ScreenOk(Shown(), buffer.Frame(), buffer.cols))
      ensures Shown() == Indexed(ScreenOps.At(old(Shown()), Cursor.Pos(0, old(buffer.y))), buffer.Frame(), buffer.cols, origin, eraseAttr)
    {
      hide Buffer.Valid, Indexed;
      MoveTo(0, buffer.y);
      Index();
    }

    // -------------------------------------------------------------- inserting and deleting lines

    method ReplaceRow(out: nat, at: nat, blankAttr: int)
      requires Valid() && out < |Shown().view.lines| && at < |Shown().view.lines|
      modifies buffer.Repr
      ensures Valid() && buffer.Frame() == old(buffer.Frame()) && old(buffer.Repr) <= buffer.Repr && fresh(buffer.Repr - old(buffer.Repr))
      ensures Shown() == WithLines(old(Shown()), RowReplaced(old(Shown().view.lines), out, at, ScreenOps.BlankLine(buffer.cols, blankAttr)))
    {
      hide RowReplaced;
      ghost var f := buffer.Frame();
      ghost var added := buffer.ReplaceRow(out, at, blankAttr);
      assert buffer.Frame() == f;
    }

    method MoveDownOnce(top: nat, bottom: nat)
      requires Valid() && top <= bottom < |Shown().view.lines|
      modifies buffer.Repr
      ensures Valid() && buffer.Frame() == old(buffer.Frame()) && old(buffer.Repr) <= buffer.Repr && fresh(buffer.Repr - old(buffer.Repr))
      ensures Shown() == WithLines(old(Shown()), RowReplaced(old(Shown().view.lines), bottom, top, ScreenOps.BlankLine(buffer.cols, eraseAttr)))
    {
      hide RowReplaced;
      ghost var f := buffer.Frame();
      ghost var added := buffer.MoveRegionDown(top, bottom, eraseAttr);
      assert buffer.Frame() == f;
    }

    /** The loops of the four operations: a line out at one end of the region, a blank one in at the other, `n` times. */
    method MoveLinesDown(top: nat, bottom: nat, n: nat, blankAttr: int)
      requires Valid() && top <= bottom < |Shown().view.lines|
      modifies buffer.Repr
      ensures Valid() && buffer.Frame() == old(buffer.Frame()) && old(buffer.Repr) <= buffer.Repr && fresh(buffer.Repr - old(buffer.Repr))
      ensures Shown() == WithLines(old(Shown()), RegionDown(old(Shown().view.lines), top, bottom, n, ScreenOps.BlankLine(buffer.cols, blankAttr)))
    {
      hide Buffer.Valid, RowReplaced, RegionDown;
      ghost var s, blank := Shown(), ScreenOps.BlankLine(buffer.cols, blankAttr);
      NotMoved(s.view.lines, top, bottom, blank);
      for t := 0 to n
        invariant Valid() && buffer.Frame() == old(buffer.Frame()) && old(buffer.Repr) <= buffer.Repr && fresh(buffer.Repr - old(buffer.Repr))
        invariant Shown() == WithLines(s, RegionDown(s.view.lines, top, bottom, t, blank))
      {
        DownOnce(s.view.lines, top, bottom, t, blank);
        ReplaceRow(bottom, top, blankAttr);
      }
    }

    method MoveLinesUp(top: nat, bottom: nat, n: nat)
      requires Valid() && top <= bottom < |Shown().view.lines|
      modifies buffer.Repr
      ensures Valid() && buffer.Frame() == old(buffer.Frame()) && old(buffer.Repr) <= buffer.Repr && fresh(buffer.Repr - old(buffer.Repr))
      ensures Shown() == WithLines(old(Shown()), RegionUp(old(Shown().view.lines), top, bottom, n, ScreenOps.BlankLine(buffer.cols, eraseAttr)))
    {
      hide Buffer.Valid, RowReplaced, RegionUp;
      ghost var s, blank := Shown(), ScreenOps.BlankLine(buffer.cols, eraseAttr);
      NotMoved(s.view.lines, top, bottom, blank);
      for t := 0 to n
        invariant Valid() && buffer.Frame() == old(buffer.Frame()) && old(buffer.Repr) <= buffer.Repr && fresh(buffer.Repr - old(buffer.Repr))
        invariant Shown() == WithLines(s, RegionUp(s.view.lines, top, bottom, t, blank))
      {
        UpOnce(s.view.lines, top, bottom, t, blank);
        ReplaceRow(top, bottom, eraseAttr);
      }
    }

    method InsertHere(n: nat)
      requires Valid()
      modifies buffer.Repr
      ensures Valid() && buffer.Frame() == old(buffer.Frame()) && old(buffer.Repr) <= buffer.Repr && fresh(buffer.Repr - old(buffer.Repr))
      ensures old(ScreenOk(Shown(), buffer.Frame(), buffer.cols))
      ensures Shown() == InsertedHere(old(Shown()), buffer.Frame(), buffer.cols, eraseAttr, n)
    {
      hide Buffer.Valid, Shown, Buffer.Frame, RegionDown;
      ghost var f := buffer.Frame();
      ShownOk();
      if buffer.y > buffer.scrollBottom || buffer.y < buffer.scrollTop {
        return;
      }
      MoveLinesDown(buffer.ybase + buffer.y, buffer.ybase + buffer.scrollBottom, n, eraseAttr);
      ShownOk();
      MoveTo(0, buffer.y);
      assert buffer.Frame() == f;
    }

    method InsertLines(n: nat)
      requires Valid()
      modifies buffer.Repr
      ensures Valid() && buffer.Frame() == old(buffer.Frame()) && old(buffer.Repr) <= buffer.Repr && fresh(buffer.Repr - old(buffer.Repr))
      ensures old(ScreenOk(Shown(), buffer.Frame(), buffer.cols))
      ensures Shown() == LinesInserted(old(Shown()), buffer.Frame(), buffer.cols, origin, eraseAttr, n)
      ensures var f, y := buffer.Frame(), RowMeant(old(buffer.y), buffer.Frame(), origin);
              f.top <= y <= f.bottom ==>
                Pos() == Cursor.Pos(0, y) && RowsDown(old(Shown()), Shown(), f, buffer.cols, y, f.bottom, if n == 0 then 1 else n, eraseAttr)
    {
      hide Buffer.Valid, InsertedHere, Confined, ScreenOk, RowsDown, Shown, Buffer.Frame;
      ghost var f := buffer.Frame();
      ShownOk();
      InsertLinesMeaning(Shown(), f, buffer.cols, origin, eraseAttr, n);
      Confine(buffer.cols - 1);
      InsertHere(OrOne(n));
      ShownOk();
    }

    method DeleteHere(n: nat)
      requires Valid()
      modifies buffer.Repr
      ensures Valid() && buffer.Frame() == old(buffer.Frame()) && old(buffer.Repr) <= buffer.Repr && fresh(buffer.Repr - old(buffer.Repr))
      ensures old(ScreenOk(Shown(), buffer.Frame(), buffer.cols))
      ensures Shown() == DeletedHere(old(Shown()), buffer.Frame(), buffer.cols, eraseAttr, n)
    {
      hide Buffer.Valid, Shown, Buffer.Frame, RegionUp;
      ghost var f := buffer.Frame();
      ShownOk();
      if buffer.y > buffer.scrollBottom || buffer.y < buffer.scrollTop {
        return;
      }
      MoveLinesUp(buffer.ybase + buffer.y, buffer.ybase + buffer.scrollBottom, n);
      ShownOk();
      MoveTo(0, buffer.y);
      assert buffer.Frame() == f;
    }

    method DeleteLines(n: nat)
      requires Valid()
      modifies buffer.Repr
      ensures Valid() && buffer.Frame() == old(buffer.Frame()) && old(buffer.Repr) <= buffer.Repr && fresh(buffer.Repr - old(buffer.Repr))
      ensures old(ScreenOk(Shown(), buffer.Frame(), buffer.cols))
      ensures Shown() == LinesDeleted(old(Shown()), buffer.Frame(), buffer.cols, origin, eraseAttr, n)
      ensures var f, y := buffer.Frame(), RowMeant(old(buffer.y), buffer.Frame(), origin);
              f.top <= y <= f.bottom ==>
                Pos() == Cursor.Pos(0, y) && RowsUp(old(Shown()), Shown(), f, buffer.cols, y, f.bottom, if n == 0 then 1 else n, eraseAttr)
    {
      hide Buffer.Valid, DeletedHere, Confined, ScreenOk, RowsUp, Shown, Buffer.Frame;
      ghost var f := buffer.Frame();
      ShownOk();
      DeleteLinesMeaning(Shown(), f, buffer.cols, origin, eraseAttr, n);
      Confine(buffer.cols - 1);
      DeleteHere(OrOne(n));
      ShownOk();
    }

    method ScrollUp(n: nat)
      requires Valid()
      modifies buffer.Repr
      ensures Valid() && buffer.Frame() == old(buffer.Frame()) && old(buffer.Repr) <= buffer.Repr && fresh(buffer.Repr - old(buffer.Repr))
      ensures old(ScreenOk(Shown(), buffer.Frame(), buffer.cols))
      ensures Shown() == RegionScrolled(old(Shown()), buffer.Frame(), buffer.cols, true, eraseAttr, n)
      ensures Pos() == old(Pos())
      ensures var f := buffer.Frame();
              RowsUp(old(Shown()), Shown(), f, buffer.cols, f.top, f.bottom, if n == 0 then 1 else n, eraseAttr)
    {
      hide Buffer.Valid, RegionUp, RowsUp;
      ShownOk();
      ScrollUpMeaning(Shown(), buffer.Frame(), buffer.cols, eraseAttr, n);
      MoveLinesUp(buffer.ybase + buffer.scrollTop, buffer.ybase + buffer.scrollBottom, OrOne(n));
    }

    /** Unlike the others, this one fills with the default attributes. */
    method ScrollDown(n: nat)
      requires Valid()
      modifies buffer.Repr
      ensures Valid() && buffer.Frame() == old(buffer.Frame()) && old(buffer.Repr) <= buffer.Repr && fresh(buffer.Repr - old(buffer.Repr))
      ensures old(ScreenOk(Shown(), buffer.Frame(), buffer.cols))
      ensures Shown() == RegionScrolled(old(Shown()), buffer.Frame(), buffer.cols, false, DEFAULT_ATTR, n)
      ensures Pos() == old(Pos())
      ensures var f := buffer.Frame();
              RowsDown(old(Shown()), Shown(), f, buffer.cols, f.top, f.bottom, if n == 0 then 1 else n, 0)
    {
      hide Buffer.Valid, RegionDown, RowsDown;
      ShownOk();
      ScrollDownMeaning(Shown(), buffer.Frame(), buffer.cols, DEFAULT_ATTR, n);
      MoveLinesDown(buffer.ybase + buffer.scrollTop, buffer.ybase + buffer.scrollBottom, OrOne(n), DEFAULT_ATTR);
    }

    method ReverseHere()
      requires Valid()
      modifies buffer.Repr
      ensures Valid() && buffer.Frame() == old(buffer.Frame()) && old(buffer.Repr) <= buffer.Repr && fresh(buffer.Repr - old(buffer.Repr))
      ensures old(ScreenOk(Shown(), buffer.Frame(), buffer.cols))
      ensures Shown() == ReversedHere(old(Shown()), buffer.Frame(), buffer.cols, origin, eraseAttr)
    {
      hide Buffer.Valid, RegionDown, RowReplaced;
      ghost var f, c := buffer.Frame(), Shown();
      ShownOk();
      if buffer.y == buffer.scrollTop {
        NotMoved(c.view.lines, buffer.ybase + f.top, buffer.ybase + f.bottom, ScreenOps.BlankLine(buffer.cols, eraseAttr));
        DownOnce(c.view.lines, buffer.ybase + f.top, buffer.ybase + f.bottom, 0, ScreenOps.BlankLine(buffer.cols, eraseAttr));
        MoveDownOnce(buffer.ybase + buffer.y, buffer.ybase + buffer.y + (buffer.scrollBottom - buffer.scrollTop));
      } else {
        StepUp();
      }
      assert buffer.Frame() == f;
    }

    method ReverseIndex()
      requires Valid()
      modifies buffer.Repr
      ensures Valid() && buffer.Frame() == old(buffer.Frame()) && old(buffer.Repr) <= buffer.Repr && fresh(buffer.Repr - old(buffer.Repr))
      ensures old(ScreenOk(Shown(), buffer.Frame(), buffer.cols))
      ensures Shown() == ReverseIndexed(old(Shown()), buffer.Frame(), buffer.cols, origin, eraseAttr)
      ensures var f, y := buffer.Frame(), RowMeant(old(buffer.y), buffer.Frame(), origin);
              if y == f.top then Pos().y == y && RowsDown(old(Shown()), Shown(), f, buffer.cols, f.top, f.bottom, 1, eraseAttr)
              else Pos().y == Max(0, y - 1) && Shown().view == old(Shown()).view
    {
      hide Buffer.Valid, ReversedHere, Confined, ScreenOk, RowsDown, Shown, Buffer.Frame;
      ghost var f := buffer.Frame();
      ShownOk();
      ReverseIndexMeaning(Shown(), f, buffer.cols, origin, eraseAttr);
      Confine(buffer.cols - 1);
      ReverseHere();
      ShownOk();
    }

    method StepUp()
      requires Valid()
      modifies buffer`x, buffer`y
      ensures Valid()
      ensures Shown() == ScreenOps.At(old(Shown()), Restricted(Cursor.Pos(old(buffer.x), old(buffer.y) - 1), Limits(), buffer.cols - 1))
    {
      buffer.y := buffer.y - 1;
      RestrictCursor(buffer.cols - 1);
    }

    // -------------------------------------------------------------- printing

    /** The cell at the cursor, and one column on. */
    method PutAndAdvance(text: seq<nat>, width: nat)
      requires Valid() && buffer.x < buffer.cols
      modifies buffer.Repr
      ensures Valid() && buffer.Frame() == old(buffer.Frame()) && old(buffer.Repr) <= buffer.Repr && fresh(buffer.Repr - old(buffer.Repr))
      ensures old(ScreenOk(Shown(), buffer.Frame(), buffer.cols))
      ensures old(|Row(Shown())| == buffer.cols)
      ensures Shown() == ScreenOps.At(WithRow(old(Shown()), old(Row(Shown()))[old(buffer.x) := Cell(text, width, attr)]),
                                      Cursor.Pos(old(buffer.x) + 1, old(buffer.y)))
    {
      hide Buffer.Valid;
      ShownOk();
      ghost var f := buffer.Frame();
      PutCell(buffer.x, Cell(text, width, attr));
      MoveTo(buffer.x + 1, buffer.y);
      assert buffer.Frame() == f;
    }

    method PutGlyph(g: Glyph)
      requires Valid() && g.width <= 2 && buffer.x + Printing.Step(g) <= buffer.cols
      modifies buffer.Repr
      ensures Valid() && buffer.Frame() == old(buffer.Frame()) && old(buffer.Repr) <= buffer.Repr && fresh(buffer.Repr - old(buffer.Repr))
      ensures old(ScreenOk(Shown(), buffer.Frame(), buffer.cols))
      ensures Shown() == Put(old(Shown()), buffer.Frame(), buffer.cols, Modes(), g)
    {
      hide Buffer.Valid, CellsInserted, Shown, Buffer.Frame;
      ShownOk();
      if insertMode {
        MakeRoom(g.width);
        ShownOk();
      }
      PutAndAdvance([g.code], g.width);
      if g.width == 2 {
        ShownOk();
        PutAndAdvance([], 0);
      }
    }

    method Pad()
      requires Valid()
      modifies buffer.Repr
      ensures Valid() && buffer.Frame() == old(buffer.Frame()) && old(buffer.Repr) <= buffer.Repr && fresh(buffer.Repr - old(buffer.Repr))
      ensures old(ScreenOk(Shown(), buffer.Frame(), buffer.cols))
      ensures Shown() == ScreenOps.At(Printing.PadRow(old(Shown()), buffer.Frame(), buffer.cols, attr), Cursor.Pos(buffer.cols, old(buffer.y)))
    {
      hide Buffer.Valid, Shown, Buffer.Frame;
      ShownOk();
      ghost var s, row, from := Shown(), Row(Shown()), buffer.x;
      assert row[..from] + Blank(0, attr) + row[from..] == row;
      while buffer.x < buffer.cols
        invariant Valid() && buffer.Frame() == old(buffer.Frame()) && old(buffer.Repr) <= buffer.Repr && fresh(buffer.Repr - old(buffer.Repr))
        invariant from <= buffer.x <= buffer.cols && buffer.y == old(buffer.y)
        invariant Shown() == Padded(s, row[..from], attr, row[buffer.x..])
      {
        ghost var x := buffer.x;
        ShownOk();
        PutAndAdvance([], 1);
        PaddedMore(s, row[..from], attr, row, x);
        ShownOk();
      }
      assert row[buffer.cols..] == [];
      assert row[..from] + Blank(buffer.cols - from, attr) + [] == row[..from] + Blank(buffer.cols - from, attr);
    }

    /** The rest of the line is cleared and the next line continues it. */
    method Wrap()
      requires Valid()
      modifies buffer.Repr
      ensures Valid() && buffer.Frame() == old(buffer.Frame()) && old(buffer.Repr) <= buffer.Repr && fresh(buffer.Repr - old(buffer.Repr))
      ensures old(ScreenOk(Shown(), buffer.Frame(), buffer.cols))
      ensures Shown() == Continued(Printing.PadRow(old(Shown()), buffer.Frame(), buffer.cols, attr), buffer.Frame(), buffer.cols, eraseAttr)
    {
      hide Buffer.Valid, Shown, Buffer.Frame, Printing.PadRow, Continued;
      ShownOk();
      ghost var s := Shown();
      Pad();
      ContinuedAnywhere(Printing.PadRow(s, buffer.Frame(), buffer.cols, attr), buffer.Frame(), buffer.cols, eraseAttr, buffer.cols);
      Continue();
    }

    method Continue()
      requires Valid()
      modifies buffer.Repr
      ensures Valid() && buffer.Frame() == old(buffer.Frame()) && old(buffer.Repr) <= buffer.Repr && fresh(buffer.Repr - old(buffer.Repr))
      ensures old(ScreenOk(Shown(), buffer.Frame(), buffer.cols))
      ensures Shown() == Continued(old(Shown()), buffer.Frame(), buffer.cols, eraseAttr)
    {
      hide Buffer.Valid, Shown, Buffer.Frame, Printing.RowDown;
      ShownOk();
      var scrolled, _ := RowDown(true);
      ShownOk();
      MoveTo(0, buffer.y);
      if !scrolled {
        ShownOk();
        MarkWrapped(true);
      }
    }

    method JoinGlyph(g: Glyph)
      requires Valid() && buffer.x > 0
      modifies buffer.Repr
      ensures Valid() && buffer.Frame() == old(buffer.Frame()) && old(buffer.Repr) <= buffer.Repr && fresh(buffer.Repr - old(buffer.Repr))
      ensures old(ScreenOk(Shown(), buffer.Frame(), buffer.cols))
      ensures Shown() == Join(old(Shown()), buffer.Frame(), buffer.cols, g)
    {
      hide Buffer.Valid, Shown, Buffer.Frame;
      ShownOk();
      var l := LineUnderCursor();
      if l.cells[buffer.x - 1].width != 0 {
        PutCell(buffer.x - 1, Joined(l.cells[buffer.x - 1], g.code));
      } else if buffer.x >= 2 {
        PutCell(buffer.x - 2, Joined(l.cells[buffer.x - 2], g.code));
      }
    }

    /** The branches of the loop body. */
    method PrintGlyph(g: Glyph)
      requires Valid() && g.width <= 2
      modifies buffer.Repr
      ensures Valid() && buffer.Frame() == old(buffer.Frame()) && old(buffer.Repr) <= buffer.Repr && fresh(buffer.Repr - old(buffer.Repr))
      ensures old(ScreenOk(Shown(), buffer.Frame(), buffer.cols))
      ensures Shown() == PrintOne(old(Shown()), buffer.Frame(), buffer.cols, Modes(), g)
    {
      hide Buffer.Valid, Shown, Buffer.Frame, Put, Join, Continued, Printing.PadRow;
      ShownOk();
      if g.width > 0 || buffer.x == 0 {
        if buffer.x + g.width - 1 >= buffer.cols {
          if wraparound {
            Wrap();
            ShownOk();
          } else {
            MoveTo(buffer.cols - 1, buffer.y);
            ShownOk();
            if g.width == 2 {
              return;
            }
          }
        }
        PutGlyph(g);
      } else {
        JoinGlyph(g);
      }
    }

    /** Clears the first half of a wide character whose second half will be written over. */
    method ClearFirstHalf()
      requires Valid()
      modifies buffer.Repr
      ensures Valid() && buffer.Frame() == old(buffer.Frame()) && old(buffer.Repr) <= buffer.Repr && fresh(buffer.Repr - old(buffer.Repr))
      ensures old(ScreenOk(Shown(), buffer.Frame(), buffer.cols))
      ensures Shown() == Before(old(Shown()), buffer.Frame(), buffer.cols, Modes())
    {
      hide Buffer.Valid, Shown, Buffer.Frame;
      ShownOk();
      var l := LineUnderCursor();
      if buffer.x > 0 && l.cells[buffer.x - 1].width == 2 {
        PutCell(buffer.x - 1, NullCell(attr));
      }
    }

    method ClearSecondHalf()
      requires Valid()
      modifies buffer.Repr
      ensures Valid() && buffer.Frame() == old(buffer.Frame()) && old(buffer.Repr) <= buffer.Repr && fresh(buffer.Repr - old(buffer.Repr))
      ensures old(ScreenOk(Shown(), buffer.Frame(), buffer.cols))
      ensures Shown() == Behind(old(Shown()), buffer.Frame(), buffer.cols, Modes())
    {
      hide Buffer.Valid, Shown, Buffer.Frame;
      ShownOk();
      var l := LineUnderCursor();
      if buffer.x < buffer.cols && l.cells[buffer.x].width == 0 && l.cells[buffer.x].text == [] {
        PutCell(buffer.x, NullCell(attr));
      }
    }

    function GlyphsOf(data: seq<nat>): (gs: seq<Glyph>)
      reads this
      ensures |gs| == |data|
    {
      GlyphsIn(charset, wcwidth, data)
    }

    method PrintAll(data: seq<nat>)
      requires Valid()
      requires Glyphs(GlyphsOf(data))
      modifies buffer.Repr
      ensures Valid() && buffer.Frame() == old(buffer.Frame()) && old(buffer.Repr) <= buffer.Repr && fresh(buffer.Repr - old(buffer.Repr))
      ensures old(ScreenOk(Shown(), buffer.Frame(), buffer.cols))
      ensures Glyphs(GlyphsOf(data)) && Shown() == PrintEach(old(Shown()), buffer.Frame(), buffer.cols, Modes(), GlyphsOf(data))
    {
      hide Buffer.Valid, Shown, Buffer.Frame, PrintOne;
      ShownOk();
      ghost var s, f, gs, m := Shown(), buffer.Frame(), GlyphsOf(data), Modes();
      for k := 0 to |data|
        invariant Valid() && buffer.Frame() == f && old(buffer.Repr) <= buffer.Repr && fresh(buffer.Repr - old(buffer.Repr))
        invariant GlyphsOf(data) == gs && Modes() == m
        invariant Shown() == PrintEach(s, f, buffer.cols, m, gs[..k])
      {
        assert gs[..k + 1][..k] == gs[..k];
        PrintGlyph(GlyphFor(charset, wcwidth, data[k]));
      }
      assert gs[..|data|] == gs;
    }

    /** One call of the print handler. */
    method Print(data: seq<nat>)
      requires Valid()
      modifies buffer.Repr
      ensures Valid() && buffer.Frame() == old(buffer.Frame()) && old(buffer.Repr) <= buffer.Repr && fresh(buffer.Repr - old(buffer.Repr))
      ensures old(ScreenOk(Shown(), buffer.Frame(), buffer.cols))
      ensures Glyphs(GlyphsOf(data)) && Shown() == Printed(old(Shown()), buffer.Frame(), buffer.cols, Modes(), GlyphsOf(data))
      ensures forall width :: AllOfWidth(data, width) && 1 <= width <= 2 && |data| > 0 && old(buffer.x) + Columns(width, |data|) <= buffer.cols ==>
                if insertMode then PushesIn(old(Shown()), Shown(), StandIns(charset, data), width, attr)
                else StandsIn(old(Shown()), Shown(), StandIns(charset, data), width, attr)
      ensures AllOfWidth(data, 0) && |data| > 0 && old(buffer.x) > 0 ==> JoinsIn(old(Shown()), Shown(), StandIns(charset, data), attr)
    {
      hide Buffer.Valid, Shown, Buffer.Frame, PrintEach, Before, Behind, AllOfWidth, StandsIn, PushesIn, JoinsIn, Columns;
      ShownOk();
      ghost var s := Shown();
      if |data| > 0 {
        PrintShows(s, buffer.Frame(), data);
        ClearFirstHalf();
        PrintAll(data);
        ClearSecondHalf();
      }
    }

    ghost predicate AllOfWidth(data: seq<nat>, width: int) {
      forall k :: 0 <= k < |data| ==> wcwidth(data[k]) == width
    }

    /** What the codes that are handed over, and not only the glyphs they become, do to the screen. */
    lemma PrintShows(s: Screen, f: Frame, data: seq<nat>)
      requires Valid() && ScreenOk(s, f, buffer.cols) && |data| > 0
      ensures Glyphs(GlyphsOf(data)) && HasRow(s)
      ensures var t := Printed(s, f, buffer.cols, Modes(), GlyphsOf(data));
              && (forall width :: AllOfWidth(data, width) && 1 <= width <= 2 && s.pos.x + Columns(width, |data|) <= buffer.cols ==>
                    if insertMode then PushesIn(s, t, StandIns(charset, data), width, attr)
                    else StandsIn(s, t, StandIns(charset, data), width, attr))
              && (AllOfWidth(data, 0) && s.pos.x > 0 ==> JoinsIn(s, t, StandIns(charset, data), attr))
    {
      var gs := GlyphsOf(data);
      assert CodesOf(gs) == StandIns(charset, data);
      Sizes(s, f, buffer.cols);
      hide ScreenOk, Buffer.Valid, Printed, StandsIn, PushesIn, JoinsIn, HasRow, StandIns, CodesOf;
      forall width | AllOfWidth(data, width) && 1 <= width <= 2 && s.pos.x + Columns(width, |data|) <= buffer.cols
        ensures var t := Printed(s, f, buffer.cols, Modes(), gs);
                if insertMode then PushesIn(s, t, StandIns(charset, data), width, attr)
                else StandsIn(s, t, StandIns(charset, data), width, attr)
      {
        assert OfWidth(gs, width);
        if insertMode {
          TextPushes(s, f, buffer.cols, Modes(), gs, width);
        } else {
          TextStands(s, f, buffer.cols, Modes(), gs, width);
        }
      }
      if AllOfWidth(data, 0) && s.pos.x > 0 {
        assert OfWidth(gs, 0);
        MarksJoin(s, f, buffer.cols, Modes(), gs);
      }
    }

    method LineUnderCursor() returns (l: BufferLine)
      requires Valid()
      ensures HasRow(Shown()) && l.Value() == Shown().view.lines[buffer.ybase + buffer.y]
      ensures |l.cells| == buffer.cols && l in buffer.Repr
    {
      ShownOk();
      l := buffer.LineAt(buffer.ybase + buffer.y);
    }

    // -------------------------------------------------------------- backspace

    /** From the first column of a continued line to the end of the line before it. */
    method BackToLineBefore()
      requires Valid()
      modifies buffer.Repr
      ensures Valid() && buffer.Frame() == old(buffer.Frame()) && old(buffer.Repr) <= buffer.Repr && fresh(buffer.Repr - old(buffer.Repr))
      ensures old(ScreenOk(Shown(), buffer.Frame(), buffer.cols))
      ensures Shown() == WrappedBack(old(Shown()), buffer.Frame(), buffer.cols)
    {
      hide Buffer.Valid, Shown, Buffer.Frame;
      ShownOk();
      var l := LineUnderCursor();
      if buffer.y > buffer.scrollTop && buffer.y <= buffer.scrollBottom && l.isWrapped {
        MarkWrapped(false);
        ShownOk();
        MoveTo(buffer.cols - 1, buffer.y - 1);
        ShownOk();
        var before := LineUnderCursor();
        if before.cells[buffer.x].width != 0 && before.cells[buffer.x].text == [] {
          MoveTo(buffer.x - 1, buffer.y);
        }
      }
    }

    method Backspace()
      requires Valid()
      modifies buffer.Repr
      ensures Valid() && buffer.Frame() == old(buffer.Frame()) && old(buffer.Repr) <= buffer.Repr && fresh(buffer.Repr - old(buffer.Repr))
      ensures old(ScreenOk(Shown(), buffer.Frame(), buffer.cols))
      ensures Shown() == Backspaced(old(Shown()), buffer.Frame(), buffer.cols, origin, reverseWraparound)
    {
      hide Buffer.Valid, Shown, Buffer.Frame, Confined, WrappedBack;
      ghost var s, f := Shown(), buffer.Frame();
      ShownOk();
      if !reverseWraparound {
        Confine(buffer.cols - 1);
        ShownOk();
        if buffer.x > 0 {
          MoveTo(buffer.x - 1, buffer.y);
        }
      } else {
        Confine(buffer.cols);
        ShownOk();
        if buffer.x > 0 {
          MoveTo(buffer.x - 1, buffer.y);
        } else {
          BackToLineBefore();
        }
        ShownOk();
        Confine(buffer.cols - 1);
      }
      ShownOk();
    }

    // -------------------------------------------------------------- cursor movement

    method RestrictCursor(maxCol: nat)
      requires buffer.Valid() && maxCol <= buffer.cols
      modifies buffer`x, buffer`y
      ensures buffer.Valid() && Pos() == Restricted(old(Pos()), Limits(), maxCol) && OnScreen(Pos(), Limits())
    {
      buffer.x := Min(maxCol, if buffer.x > 0 then buffer.x else 0);
      buffer.y := if origin then Min(buffer.scrollBottom, if buffer.y > buffer.scrollTop then buffer.y else buffer.scrollTop)
                  else Min(buffer.rows - 1, if buffer.y > 0 then buffer.y else 0);
    }

    method SetCursor(x: int, y: int)
      requires buffer.Valid()
      modifies buffer`x, buffer`y
      ensures buffer.Valid() && Pos() == Placed(Limits(), x, y) && OnScreen(Pos(), Limits())
    {
      if origin {
        buffer.x := x;
        buffer.y := buffer.scrollTop + y;
      } else {
        buffer.x := x;
        buffer.y := y;
      }
      RestrictCursor(buffer.cols - 1);
    }

    method MoveCursor(dx: int, dy: int)
      requires buffer.Valid()
      modifies buffer`x, buffer`y
      ensures buffer.Valid() && Pos() == MovedBy(old(Pos()), Limits(), dx, dy) && OnScreen(Pos(), Limits())
    {
      RestrictCursor(buffer.cols - 1);
      SetCursor(buffer.x + dx, buffer.y + dy);
    }

    method CursorUp(n: nat)
      requires Valid()
      modifies buffer`x, buffer`y
      ensures Valid() && Pos() == Up(old(Pos()), Limits(), n)
    {
      var room := buffer.y - buffer.scrollTop;
      if room >= 0 {
        MoveCursor(0, -Min(room, OrOne(n)));
      } else {
        MoveCursor(0, -OrOne(n));
      }
    }

    method CursorDown(n: nat)
      requires Valid()
      modifies buffer`x, buffer`y
      ensures Valid() && Pos() == Down(old(Pos()), Limits(), n)
    {
      var room := buffer.scrollBottom - buffer.y;
      if room >= 0 {
        MoveCursor(0, Min(room, OrOne(n)));
      } else {
        MoveCursor(0, OrOne(n));
      }
    }

    method CursorForward(n: nat)
      requires Valid()
      modifies buffer`x, buffer`y
      ensures Valid() && Pos() == MovedBy(old(Pos()), Limits(), OrOne(n), 0)
    {
      MoveCursor(OrOne(n), 0);
    }

    method CursorBackward(n: nat)
      requires Valid()
      modifies buffer`x, buffer`y
      ensures Valid() && Pos() == MovedBy(old(Pos()), Limits(), -OrOne(n), 0)
    {
      MoveCursor(-OrOne(n), 0);
    }

    method CursorNextLine(n: nat)
      requires Valid()
      modifies buffer`x, buffer`y
      ensures Valid() && Pos() == Down(old(Pos()), Limits(), n).(x := 0)
    {
      CursorDown(n);
      buffer.x := 0;
    }

    method CursorPrecedingLine(n: nat)
      requires Valid()
      modifies buffer`x, buffer`y
      ensures Valid() && Pos() == Up(old(Pos()), Limits(), n).(x := 0)
    {
      CursorUp(n);
      buffer.x := 0;
    }

    method CursorCharAbsolute(n: nat)
      requires Valid()
      modifies buffer`x, buffer`y
      ensures Valid() && Pos() == Placed(Limits(), OrOne(n) - 1, old(buffer.y))
    {
      SetCursor(OrOne(n) - 1, buffer.y);
    }

    /** `params` as given: one missing parameter means the first column. */
    method CursorPosition(params: seq<nat>)
      requires Valid()
      modifies buffer`x, buffer`y
      ensures Valid() && Pos() == Placed(Limits(), if |params| >= 2 then OrOne(Param(params, 1)) - 1 else 0, OrOne(Param(params, 0)) - 1)
    {
      SetCursor(if |params| >= 2 then OrOne(Param(params, 1)) - 1 else 0, OrOne(Param(params, 0)) - 1);
    }

    method LinePosAbsolute(n: nat)
      requires Valid()
      modifies buffer`x, buffer`y
      ensures Valid() && Pos() == Placed(Limits(), old(buffer.x), OrOne(n) - 1)
    {
      SetCursor(buffer.x, OrOne(n) - 1);
    }

    method VPositionRelative(n: nat)
      requires Valid()
      modifies buffer`x, buffer`y
      ensures Valid() && Pos() == MovedBy(old(Pos()), Limits(), 0, OrOne(n))
    {
      MoveCursor(0, OrOne(n));
    }

    method CarriageReturn()
      requires Valid()
      modifies buffer`x
      ensures Valid() && Pos() == old(Pos()).(x := 0)
    {
      buffer.x := 0;
    }

    method FindNextStop() returns (s: int)
      requires Valid() && buffer.x < buffer.cols
      ensures s == NextStop(tabs, buffer.x, buffer.cols) && 0 <= s < buffer.cols
    {
      NextStopMeaning(tabs, buffer.x, buffer.cols);
      var e := buffer.x + 1;
      while e < buffer.cols && e !in tabs
        invariant buffer.x < e <= buffer.cols
        invariant NextStop(tabs, buffer.x, buffer.cols) == NextStop(tabs, e - 1, buffer.cols)
      {
        e := e + 1;
      }
      s := if e >= buffer.cols then buffer.cols - 1 else e;
    }

    method FindPrevStop() returns (s: int)
      requires Valid()
      ensures s == PrevStop(tabs, buffer.x) && 0 <= s < buffer.cols
    {
      PrevStopMeaning(tabs, buffer.x, buffer.cols);
      var e := buffer.x - 1;
      while e > 0 && e !in tabs
        invariant e < buffer.x
        invariant PrevStop(tabs, buffer.x) == PrevStop(tabs, e + 1)
      {
        e := e - 1;
      }
      s := if e < 0 then 0 else e;
    }

    method Tab()
      requires Valid()
      modifies buffer`x
      ensures Valid() && buffer.y == old(buffer.y)
      ensures buffer.x == if old(buffer.x) >= buffer.cols then old(buffer.x) else NextStop(tabs, old(buffer.x), buffer.cols)
    {
      if buffer.x >= buffer.cols {
        return;
      }
      buffer.x := FindNextStop();
    }

    method CursorForwardTab(n: nat)
      requires Valid()
      modifies buffer`x
      ensures Valid() && buffer.y == old(buffer.y)
      ensures old(buffer.x) >= buffer.cols ==> buffer.x == old(buffer.x)
      ensures old(buffer.x) < buffer.cols ==> buffer.x == Stops(tabs, old(buffer.x), buffer.cols, OrOne(n))
    {
      if buffer.x >= buffer.cols {
        return;
      }
      var t := OrOne(n);
      while t > 0
        invariant t >= 0 && Valid() && buffer.x < buffer.cols && buffer.y == old(buffer.y)
        invariant Stops(tabs, old(buffer.x), buffer.cols, OrOne(n)) == Stops(tabs, buffer.x, buffer.cols, t)
      {
        t := t - 1;
        buffer.x := FindNextStop();
      }
    }

    method CursorBackwardTab(n: nat)
      requires Valid()
      modifies buffer`x
      ensures Valid() && buffer.y == old(buffer.y)
      ensures old(buffer.x) >= buffer.cols ==> buffer.x == old(buffer.x)
      ensures old(buffer.x) < buffer.cols ==> buffer.x == StopsBack(tabs, old(buffer.x), OrOne(n))
    {
      if buffer.x >= buffer.cols {
        return;
      }
      var t := OrOne(n);
      while t > 0
        invariant t >= 0 && Valid() && buffer.x < buffer.cols && buffer.y == old(buffer.y)
        invariant StopsBack(tabs, old(buffer.x), OrOne(n)) == StopsBack(tabs, buffer.x, t)
      {
        t := t - 1;
        buffer.x := FindPrevStop();
      }
    }

    /** Takes effect only if the bottom lies below the top; then the cursor goes home. */
    method SetScrollRegion(params: seq<nat>)
      requires Valid()
      modifies buffer`scrollTop, buffer`scrollBottom, buffer`x, buffer`y
      ensures Valid() && Shown().view == old(Shown()).view
      ensures var t := OrOne(Param(params, 0));
              var b := if |params| < 2 || params[1] > buffer.rows || params[1] == 0 then buffer.rows else params[1];
              if b > t then buffer.scrollTop == t - 1 && buffer.scrollBottom == b - 1 && Pos() == Placed(Limits(), 0, 0)
              else buffer.scrollTop == old(buffer.scrollTop) && buffer.scrollBottom == old(buffer.scrollBottom) && Pos() == old(Pos())
    {
      var t := OrOne(Param(params, 0));
      var b := if |params| < 2 || params[1] > buffer.rows || params[1] == 0 then buffer.rows else params[1];
      if b > t {
        buffer.scrollTop := t - 1;
        buffer.scrollBottom := b - 1;
        SetCursor(0, 0);
      }
    }

    method SaveCursor()
      requires Valid()
      modifies this`saved
      ensures Valid() && saved == SavedCursor(buffer.x, buffer.ybase + buffer.y, CurrentPen())
      ensures Shown() == old(Shown())
    {
      saved := SavedCursor(buffer.x, buffer.ybase + buffer.y, CurrentPen());
    }

    method RestoreCursor()
      requires Valid()
      modifies buffer`x, buffer`y, this`attr, this`eraseAttr, this`charset
      ensures Valid() && Shown().view == old(Shown()).view && buffer.Frame() == old(buffer.Frame())
      ensures Pos() == Restricted(Cursor.Pos(saved.x, Max0(saved.y - buffer.ybase)), Limits(), buffer.cols - 1)
      ensures CurrentPen() == saved.pen
    {
      hide Buffer.Valid, Shown, Buffer.Frame;
      PutBack(saved.x, if saved.y - buffer.ybase > 0 then saved.y - buffer.ybase else 0);
      attr, eraseAttr, charset := saved.pen.attr, saved.pen.eraseAttr, saved.pen.charset;
    }

    method PutBack(x: int, y: int)
      requires buffer.Valid()
      modifies buffer`x, buffer`y
      ensures buffer.Valid() && Pos() == Restricted(Cursor.Pos(x, y), Limits(), buffer.cols - 1) && OnScreen(Pos(), Limits())
      ensures Shown().view == old(Shown()).view && buffer.Frame() == old(buffer.Frame())
    {
      buffer.x, buffer.y := x, y;
      RestrictCursor(buffer.cols - 1);
    }

    method SetOrigin(on: bool)
      requires Valid()
      modifies this`origin, buffer`x, buffer`y
      ensures Valid() && origin == on && Pos() == Placed(Limits(), 0, 0)
      ensures Shown().view == old(Shown()).view && buffer.Frame() == old(buffer.Frame())
    {
      origin := on;
      SetCursor(0, 0);
    }

    // -------------------------------------------------------------- runs

    /** The operations that move the cursor. */
    method MoveBy(op: Op)
      requires Valid() && op.MovesCursor()
      modifies buffer`x, buffer`y
      ensures old(TerminalOk(State()))
      ensures Valid() && Pos() == Target(old(State()), op)
    {
      hide Buffer.Valid, Shown, Buffer.Frame, Stops, StopsBack, ScreenOk, Up, Down, MovedBy, Placed, OrOne, Param;
      ShownOk();
      match op
      case CUU(n) => CursorUp(n);
      case CUD(n) => CursorDown(n);
      case CUF(n) => CursorForward(n);
      case CUB(n) => CursorBackward(n);
      case CNL(n) => CursorNextLine(n);
      case CPL(n) => CursorPrecedingLine(n);
      case CHA(n) => CursorCharAbsolute(n);
      case CUP(params) => CursorPosition(params);
      case VPA(n) => LinePosAbsolute(n);
      case VPR(n) => VPositionRelative(n);
      case CR => CarriageReturn();
      case _ => MoveToStop(op);
    }

    method MoveToStop(op: Op)
      requires Valid() && (op.HT? || op.CHT? || op.CBT?)
      modifies buffer`x
      ensures old(TerminalOk(State()))
      ensures Valid() && Pos() == Target(old(State()), op)
    {
      hide Buffer.Valid, Shown, Buffer.Frame, Stops, StopsBack, ScreenOk, OrOne, NextStop;
      ShownOk();
      match op
      case HT =>
        if buffer.x < buffer.cols {
          OneStop(tabs, buffer.x, buffer.cols, 1);
        }
        Tab();
      case CHT(n) => CursorForwardTab(n);
      case CBT(n) => CursorBackwardTab(n);
    }

    /** The operations that leave the lines alone. */
    method Move(op: Op)
      requires Valid() && op.Moves()
      modifies this, buffer`x, buffer`y, buffer`scrollTop, buffer`scrollBottom
      ensures Valid() && Becomes(old(State()), State(), wcwidth, op)
    {
      if op.MovesCursor() {
        MoveRelative(op);
      } else if op.Sets() {
        SetAttributes(op);
      } else {
        match op {
          case DECSTBM(_) => ChangeRegion(op);
          case DECSC => Save(op);
          case DECRC => Restore(op);
          case DECOM(_) => ChangeOrigin(op);
        }
      }
    }

    method MoveKeeping(op: Op)
      requires Valid() && op.MovesCursor()
      modifies buffer`x, buffer`y
      ensures old(TerminalOk(State())) && Valid() && Pos() == Target(old(State()), op)
      ensures Shown().view == old(Shown()).view && buffer.Frame() == old(buffer.Frame())
    {
      hide Target;
      MoveBy(op);
    }

    method MoveRelative(op: Op)
      requires Valid() && op.MovesCursor()
      modifies buffer`x, buffer`y
      ensures Valid() && Becomes(old(State()), State(), wcwidth, op)
    {
      hide Target, Shown, Buffer.Frame, Buffer.Valid, ScreenOk, Becomes;
      ghost var t := State();
      ShownOk();
      MoveKeeping(op);
      ShownOk();
      BecomesMoved(t, State(), wcwidth, op);
    }

    method ChangeRegion(op: Op)
      requires Valid() && op.DECSTBM?
      modifies buffer`x, buffer`y, buffer`scrollTop, buffer`scrollBottom
      ensures Valid() && Becomes(old(State()), State(), wcwidth, op)
    {
      hide Shown, Buffer.Valid, ScreenOk, Becomes, Placed, OrOne, Param;
      ghost var t := State();
      ShownOk();
      SetScrollRegion(op.params);
      ShownOk();
      BecomesSet(t, State(), wcwidth, op);
    }

    method Restore(op: Op)
      requires Valid() && op.DECRC?
      modifies buffer`x, buffer`y, this`attr, this`eraseAttr, this`charset
      ensures Valid() && Becomes(old(State()), State(), wcwidth, op)
    {
      hide Shown, Buffer.Valid, Buffer.Frame, ScreenOk, Becomes, Restricted;
      ghost var t := State();
      ShownOk();
      RestoreCursor();
      ShownOk();
      BecomesSet(t, State(), wcwidth, op);
    }

    method ChangeOrigin(op: Op)
      requires Valid() && op.DECOM?
      modifies this`origin, buffer`x, buffer`y
      ensures Valid() && Becomes(old(State()), State(), wcwidth, op)
    {
      hide Shown, Buffer.Valid, Buffer.Frame, ScreenOk, Becomes, Placed;
      ghost var t := State();
      ShownOk();
      SetOrigin(op.on);
      ShownOk();
      BecomesSet(t, State(), wcwidth, op);
    }

    method Save(op: Op)
      requires Valid() && op.DECSC?
      modifies this`saved
      ensures Valid() && Becomes(old(State()), State(), wcwidth, op)
    {
      hide Shown, Buffer.Valid, Buffer.Frame, ScreenOk, Becomes;
      ghost var t := State();
      ShownOk();
      SaveCursor();
      ShownOk();
      BecomesSet(t, State(), wcwidth, op);
    }

    /** The operations that leave the buffer alone. */
    method SetAttributes(op: Op)
      requires Valid() && op.Sets()
      modifies this`attr, this`eraseAttr, this`charset, this`wraparound, this`insertMode, this`reverseWraparound
      ensures Valid() && Becomes(old(State()), State(), wcwidth, op)
    {
      hide Shown, Buffer.Frame, Buffer.Valid, ScreenOk, Becomes;
      ShownOk();
      ghost var t := State();
      SetFields(op);
      ShownOk();
      BecomesSetIn(t, State(), wcwidth, op);
    }

    method SetFields(op: Op)
      requires Valid() && op.Sets()
      modifies this`attr, this`eraseAttr, this`charset, this`wraparound, this`insertMode, this`reverseWraparound
      ensures Valid() && Shown() == old(Shown()) && buffer.Frame() == old(buffer.Frame())
      ensures attr == (if op.SGR? then op.attr else old(attr)) && eraseAttr == (if op.SGR? then op.eraseAttr else old(eraseAttr))
      ensures charset == (if op.SCS? then op.charset else old(charset))
      ensures wraparound == (if op.DECAWM? then op.on else old(wraparound))
      ensures insertMode == (if op.IRM? then op.on else old(insertMode))
      ensures reverseWraparound == (if op.DECRWM? then op.on else old(reverseWraparound))
    {
      hide Shown, Buffer.Frame;
      match op
      case SGR(a, e) => attr, eraseAttr := a, e;
      case SCS(c) => charset := c;
      case DECAWM(on) => wraparound := on;
      case IRM(on) => insertMode := on;
      case DECRWM(on) => reverseWraparound := on;
      case _ =>
    }

    /** The operations that move lines of the region. */
    method MoveLines(op: Op)
      requires Valid() && op.MovesLines()
      modifies buffer.Repr
      ensures Valid() && old(buffer.Repr) <= buffer.Repr && fresh(buffer.Repr - old(buffer.Repr))
      ensures Becomes(old(State()), State(), wcwidth, op)
    {
      hide Buffer.Valid, Shown, Buffer.Frame, ScreenOk, Becomes, ReverseIndexed, LinesInserted, LinesDeleted, RegionScrolled, RowsUp, RowsDown, RowMeant;
      ShownOk();
      ghost var t := State();
      if op.RI? {
        ReverseIndex();
      } else if op.IL? {
        InsertLines(op.n);
      } else if op.DL? {
        DeleteLines(op.n);
      } else {
        ScrollBy(op);
      }
      ShownOk();
      BecomesChanged(t, State(), wcwidth, op);
    }

    method ScrollBy(op: Op)
      requires Valid() && (op.SU? || op.SD?)
      modifies buffer.Repr
      ensures Valid() && buffer.Frame() == old(buffer.Frame()) && old(buffer.Repr) <= buffer.Repr && fresh(buffer.Repr - old(buffer.Repr))
      ensures old(ScreenOk(Shown(), buffer.Frame(), buffer.cols))
      ensures Shown() == RegionScrolled(old(Shown()), buffer.Frame(), buffer.cols, op.SU?, if op.SU? then eraseAttr else DEFAULT_ATTR, op.n)
    {
      hide Buffer.Valid, Shown, Buffer.Frame, ScreenOk, RegionScrolled, RowsUp, RowsDown;
      match op
      case SU(n) => ScrollUp(n);
      case SD(n) => ScrollDown(n);
    }

    /** The operations that write and go on to the next line. */
    method Write(op: Op)
      requires Valid() && !op.Moves() && !op.MovesLines()
      modifies buffer.Repr
      ensures Valid() && old(buffer.Repr) <= buffer.Repr && fresh(buffer.Repr - old(buffer.Repr))
      ensures Becomes(old(State()), State(), wcwidth, op)
    {
      hide Buffer.Valid, Shown, Buffer.Frame, ScreenOk, Becomes, LineFed, Indexed, Backspaced, Printed, StandsIn, PushesIn, JoinsIn, AllOfWidth;
      ShownOk();
      ghost var t := State();
      if op.LF? || op.IND? || op.NEL? {
        FeedLine(op);
      } else if op.BS? {
        Backspace();
      } else {
        Print(op.data);
      }
      BecomesChanged(t, State(), wcwidth, op);
    }

    method FeedLine(op: Op)
      requires Valid() && (op.LF? || op.IND? || op.NEL?)
      modifies buffer.Repr
      ensures Valid() && buffer.Frame() == old(buffer.Frame()) && old(buffer.Repr) <= buffer.Repr && fresh(buffer.Repr - old(buffer.Repr))
      ensures old(ScreenOk(Shown(), buffer.Frame(), buffer.cols))
      ensures Shown() == if op.LF? then LineFed(old(Shown()), buffer.Frame(), buffer.cols, convertEol, eraseAttr)
                         else Indexed(if op.IND? then old(Shown()) else ScreenOps.At(old(Shown()), Cursor.Pos(0, old(buffer.y))),
                                      buffer.Frame(), buffer.cols, origin, eraseAttr)
    {
      hide Buffer.Valid, Shown, Buffer.Frame, LineFed, Indexed;
      if op.LF? {
        LineFeed();
      } else if op.IND? {
        Index();
      } else {
        NextLine();
      }
    }

    /**
      Whatever the program sends, the cursor stays on the screen, the scroll region in order, and
      the line under the cursor there to be written; the terminal comes to what the operations make
      of it one after the other.
      */
    method Perform(ops: seq<Op>)
      requires Valid()
      modifies this, buffer.Repr
      ensures Valid() && old(buffer.Repr) <= buffer.Repr && fresh(buffer.Repr - old(buffer.Repr))
      ensures HasRow(Shown()) && |Row(Shown())| == buffer.cols
      ensures ComesTo(old(State()), State(), wcwidth, ops)
      ensures old(LinesIntact(Shown().view.lines)) && old(wraparound && !insertMode) && (forall op :: op in ops ==> !op.SetsMode())
           ==> LinesIntact(Shown().view.lines)
      ensures DECSC !in ops ==> saved == old(saved)
    {
      hide Buffer.Valid, Shown, LinesIntact, Buffer.Frame, Becomes, ComesTo, State, TerminalOk, Widths;
      StateIs();
      ShownOk();
      ghost var t0 := State();
      StartsAs(t0, wcwidth);
      for k := 0 to |ops|
        invariant Valid() && old(buffer.Repr) <= buffer.Repr && fresh(buffer.Repr - old(buffer.Repr))
        invariant ComesTo(t0, State(), wcwidth, ops[..k])
      {
        ghost var t := State();
        if ops[k].Moves() {
          Move(ops[k]);
        } else if ops[k].MovesLines() {
          MoveLines(ops[k]);
        } else {
          Write(ops[k]);
        }
        GoesOn(t0, t, State(), wcwidth, ops, k);
      }
      assert ops[..|ops|] == ops;
      RunKeeps(t0, State(), wcwidth, ops);
      ShownOk();
      StateIs();
    }

    /**
      A cursor that is saved and restored later has its attributes and character set again, and
      its place in the store as far as that is on the screen, whatever the program did in between.
      */
    method SaveAndRestore(ops: seq<Op>)
      requires Valid() && DECSC !in ops
      modifies this, buffer.Repr
      ensures Valid() && old(buffer.Repr) <= buffer.Repr && fresh(buffer.Repr - old(buffer.Repr))
      ensures attr == old(attr) && eraseAttr == old(eraseAttr) && charset == old(charset)
      ensures !origin ==> buffer.x == Min(old(buffer.x), buffer.cols - 1)
      ensures !origin && buffer.ybase <= old(buffer.ybase + buffer.y) < buffer.ybase + buffer.rows ==>
                buffer.ybase + buffer.y == old(buffer.ybase + buffer.y)
      ensures !origin && old(buffer.ybase + buffer.y) < buffer.ybase ==> buffer.y == 0
    {
      hide Buffer.Valid, Shown, State, ComesTo;
      SaveCursor();
      Perform(ops);
      RestoreCursor();
    }
  }

  lemma ContinuedAnywhere(s: Screen, f: Frame, cols: nat, eraseAttr: int, x: nat)
    requires ScreenOk(s, f, cols) && x <= cols
    ensures ScreenOk(ScreenOps.At(s, Cursor.Pos(x, s.pos.y)), f, cols)
    ensures Continued(ScreenOps.At(s, Cursor.Pos(x, s.pos.y)), f, cols, eraseAttr) == Continued(s, f, cols, eraseAttr)
  {
  }

  /** Padding under way: what was there before the cursor came, blanks, and the rest. */
  ghost function Padded(s: Screen, left: Cells, attr: int, rest: Cells): Screen
    requires HasRow(s) && |left| + |rest| <= |Row(s)|
  {
    var x := |Row(s)| - |rest|;
    ScreenOps.At(WithRow(s, left + Blank(x - |left|, attr) + rest), Cursor.Pos(x, s.pos.y))
  }

  lemma PaddedMore(s: Screen, left: Cells, attr: int, row: Cells, x: nat)
    requires HasRow(s) && row == Row(s) && |left| <= x < |row|
    ensures var p := Padded(s, left, attr, row[x..]);
            && HasRow(p) && x < |Row(p)|
            && Padded(s, left, attr, row[x + 1..])
               == ScreenOps.At(WithRow(p, Row(p)[x := NullCell(attr)]), Cursor.Pos(x + 1, s.pos.y))
  {
    assert (left + Blank(x - |left|, attr) + row[x..])[x := NullCell(attr)] == left + Blank(x + 1 - |left|, attr) + row[x + 1..];
  }

  /** The viewport moves the same for the contents of the lines as for the line objects. */
  lemma ViewOfValues(v: View<BufferLine?>, f: Frame, added: BufferLine?, values: seq<Line>, blank: Line)
    requires ViewOk(v, f) && |values| == |v.lines|
    ensures var w := Scrolled(v, f, added);
            Scrolled(Scrolling.View(values, v.ybase, v.ydisp, v.isUserScrolling), f, blank)
            == Scrolling.View(ScrolledLines(values, v.ybase, f, blank), w.ybase, w.ydisp, w.isUserScrolling)
  {
    hide ScrolledLines;
  }
}
