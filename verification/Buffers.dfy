/**
  The active buffer: the line store, the screen in it, the cursor and the scroll region.

  Lines are objects.  Scrolling takes a new object for the blank line, or takes up again the
  object of the line that falls out of a full store.
  */
module Buffers {
  import opened Common
  import opened CircularList
  import opened BufferLine
  import opened Scrolling
  import opened WideCells

  // ---------------------------------------------------------------- no line object twice

  lemma DistinctReplaced(s: seq<BufferLine?>, index: nat, count: nat, l: BufferLine)
    requires Distinct(s) && l !in s && index + count <= |s|
    ensures Distinct(Replaced(s, index, count, [l])) && Distinct(Replaced(s, index, count, []))
  {
  }

  lemma ReplacedMembers(s: seq<BufferLine?>, index: nat, count: nat, items: seq<BufferLine?>)
    requires index + count <= |s|
    ensures forall l :: l in Replaced(s, index, count, items) ==> l in s || l in items
  {
  }

  lemma DistinctLatest(s: seq<BufferLine?>, m: nat)
    requires Distinct(s)
    ensures Distinct(Latest(s, m)) && forall l :: l in Latest(s, m) ==> l in s
  {
  }

  lemma InsertedRows(s: seq<BufferLine?>, index: nat, l: BufferLine, max: nat)
    requires Distinct(s) && l !in s && index <= |s|
    ensures var t := Latest(Replaced(s, index, 0, [l]), max);
            Distinct(t) && forall r :: r in t ==> r in s || r == l
  {
    DistinctReplaced(s, index, 0, l);
    ReplacedMembers(s, index, 0, [l]);
    DistinctLatest(Replaced(s, index, 0, [l]), max);
  }

  lemma PushedRows(s: seq<BufferLine?>, l: BufferLine, max: nat)
    requires Distinct(s) && l !in s
    ensures var t := Latest(s + [l], max);
            Distinct(t) && forall r :: r in t ==> r in s || r == l
  {
    assert Replaced(s, |s|, 0, [l]) == s + [l];
    InsertedRows(s, |s|, l, max);
  }

  lemma DistinctTurned(s: seq<BufferLine?>)
    requires Distinct(s) && |s| > 0
    ensures Distinct(s[1..] + [s[0]]) && forall l :: l in s[1..] + [s[0]] ==> l in s
  {
  }

  ghost predicate NoneNull(s: seq<BufferLine?>) {
    forall k :: 0 <= k < |s| ==> s[k] != null
  }

  /** What stands in the lines. */
  ghost function ValuesOf(s: seq<BufferLine?>): (v: seq<Line>)
    requires NoneNull(s)
    reads s
    ensures |v| == |s| && forall k :: 0 <= k < |s| ==> s[k] != null && v[k] == s[k].Value()
  {
    if |s| == 0 then [] else ValuesOf(s[..|s| - 1]) + [s[|s| - 1].Value()]
  }

  /** One line is different from what it was. */
  lemma OneChanged(s: seq<BufferLine?>, v: seq<Line>, k: nat, l: Line)
    requires NoneNull(s) && k < |s| == |v| && s[k] != null && s[k].Value() == l
    requires forall j :: 0 <= j < |s| && j != k ==> s[j] != null && s[j].Value() == v[j]
    ensures ValuesOf(s) == v[k := l]
  {
  }

  class Buffer {
    const rows: nat
    const cols: nat
    const lines: CircularList<BufferLine?>
    var ybase: nat
    var ydisp: nat
    var x: int
    var y: int
    var scrollTop: nat
    var scrollBottom: nat
    var isUserScrolling: bool
    var cachedBlankLine: BufferLine?
    ghost var Repr: set<object>

    ghost function Rows(): seq<BufferLine?>
      reads lines, lines.data
      requires lines.Valid()
    {
      lines.Contents()
    }

    /** The lines are distinct objects of the right width; the cached blank line is none of them and is blank. */
    ghost predicate Stored()
      reads this`Repr, this`cachedBlankLine, Repr - {this}
    {
      && this in Repr && lines in Repr && lines.data in Repr && lines.Valid() && cols >= 2
      && (forall l :: l in Rows() ==> l != null && l in Repr && |l.cells| == cols)
      && Distinct(Rows())
      && (cachedBlankLine != null ==>
            && cachedBlankLine in Repr && cachedBlankLine !in Rows()
            && |cachedBlankLine.cells| > 0
            && cachedBlankLine.cells == Blank(|cachedBlankLine.cells|, cachedBlankLine.cells[0].attr))
    }

    ghost function Frame(): Frame
      reads this`scrollTop, this`scrollBottom, lines`maxLength
    {
      Scrolling.Frame(rows, lines.maxLength, scrollTop, scrollBottom)
    }

    ghost function View(): View<BufferLine?>
      reads this`ybase, this`ydisp, this`isUserScrolling, lines, lines.data
      requires lines.Valid()
    {
      Scrolling.View(Rows(), ybase, ydisp, isUserScrolling)
    }

    ghost predicate Valid()
      reads this, Repr
      ensures Valid() ==> this in Repr
    {
      Stored() && ViewOk(View(), Frame())
    }

    /** A screen of blank lines, of at least two columns and one row. */
    constructor (wantedCols: nat, wantedRows: nat, scrollback: nat, attr: int)
      ensures Valid() && fresh(Repr)
      ensures cols == (if wantedCols < 2 then 2 else wantedCols) && rows == (if wantedRows < 1 then 1 else wantedRows)
      ensures ybase == ydisp == 0 && x == y == 0 && Frame() == Scrolling.Frame(rows, rows + scrollback, 0, rows - 1)
      ensures forall l :: l in Rows() ==> l != null && l.Value() == Line(Blank(cols, attr), false)
    {
      var r := if wantedRows < 1 then 1 else wantedRows;
      cols, rows := if wantedCols < 2 then 2 else wantedCols, r;
      var store := new CircularList<BufferLine?>(r + scrollback);
      lines := store;
      ybase, ydisp, x, y, scrollTop, scrollBottom := 0, 0, 0, 0, 0, r - 1;
      isUserScrolling, cachedBlankLine := false, null;
      Repr := {this, store, store.data};
      new;
      FillViewportRows(attr);
    }

    method FillViewportRows(attr: int)
      requires Stored() && Rows() == [] && rows <= lines.maxLength
      modifies this`Repr, lines`startIndex, lines`length, lines`events, lines.data
      ensures Stored() && |Rows()| == rows && fresh(Repr - old(Repr)) && Frame() == old(Frame())
      ensures forall l :: l in Rows() ==> l != null && l.Value() == Line(Blank(cols, attr), false)
    {
      for k := 0 to rows
        invariant Stored() && |Rows()| == k && fresh(Repr - old(Repr)) && Frame() == old(Frame())
        invariant forall l :: l in Rows() ==> l != null && l.Value() == Line(Blank(cols, attr), false)
        invariant lines.data == old(lines.data)
      {
        var l := new BufferLine(cols, attr, false);
        PushRow(l);
      }
    }

    /** Appends a new line object. */
    method PushRow(l: BufferLine)
      requires Stored() && l !in Repr && |l.cells| == cols
      modifies this`Repr, lines`startIndex, lines`length, lines`events, lines.data
      ensures Stored() && Repr == old(Repr) + {l} && Frame() == old(Frame()) && lines.data == old(lines.data)
      ensures Rows() == Latest(old(Rows()) + [l], lines.maxLength)
    {
      hide Latest;
      PushedRows(Rows(), l, lines.maxLength);
      lines.Push(l);
      Repr := Repr + {l};
    }

    /** Inserts a new line object. */
    method InsertRow(index: nat, l: BufferLine)
      requires Stored() && l !in Repr && |l.cells| == cols && index <= |Rows()| && |Rows()| + 1 <= lines.maxLength + index
      modifies this`Repr, lines`startIndex, lines`length, lines`events, lines.data
      ensures Stored() && Repr == old(Repr) + {l} && Frame() == old(Frame()) && lines.data == old(lines.data)
      ensures Rows() == Latest(Replaced(old(Rows()), index, 0, [l]), lines.maxLength)
    {
      hide Latest, Replaced, Ring, Slot;
      InsertedRows(Rows(), index, l, lines.maxLength);
      lines.Splice(index, 0, [l]);
      Repr := Repr + {l};
    }

    method DeleteRow(index: nat)
      requires Stored() && index < |Rows()|
      modifies lines`startIndex, lines`length, lines`events, lines.data
      ensures Stored() && Frame() == old(Frame()) && lines.data == old(lines.data)
      ensures Rows() == Replaced(old(Rows()), index, 1, [])
    {
      ghost var s := Rows();
      DistinctDeleted(s, index);
      ReplacedMembers(s, index, 1, []);
      assert Latest(Replaced(s, index, 1, []), lines.maxLength) == Replaced(s, index, 1, []);
      lines.Splice(index, 1, []);
    }

    /** Turns the full store and clears the object that was the oldest line. */
    method RecycleRow(blank: BufferLine)
      requires Stored() && |Rows()| == lines.maxLength && blank == cachedBlankLine && |blank.cells| == cols
      modifies lines`startIndex, lines`events, Rows()[0]
      ensures Stored() && Frame() == old(Frame()) && lines.data == old(lines.data)
      ensures Rows() == old(Rows())[1..] + [old(Rows())[0]]
      ensures old(Rows())[0] != null && old(Rows())[0].Value() == old(blank.Value())
    {
      ghost var s := Rows();
      assert forall k :: 0 <= k < |s| ==> s[k] in s;
      DistinctTurned(s);
      var _, l := lines.Recycle();
      l.CopyFrom(blank);
    }

    /** Moves the lines of a region up by one and puts a new line object at its bottom. */
    method MoveRegionUp(top: nat, bottom: nat, l: BufferLine)
      requires Stored() && l !in Repr && |l.cells| == cols && top <= bottom < |Rows()|
      modifies this`Repr, lines`startIndex, lines`length, lines`events, lines.data
      ensures Stored() && Repr == old(Repr) + {l} && Frame() == old(Frame()) && lines.data == old(lines.data)
      ensures Rows() == Replaced(Replaced(old(Rows()), bottom + 1, 0, [l]), top, 1, [])
    {
      RegionUpRows(Rows(), top, bottom, l);
      ShiftAndSet(lines, top, bottom, l);
      Repr := Repr + {l};
    }

    /** The blank line to take a copy of; kept from the last call if it is still the right one. */
    method BlankLine(attr: int, isWrapped: bool) returns (s: BufferLine)
      requires Stored()
      modifies this`cachedBlankLine, this`Repr, cachedBlankLine
      ensures Stored() && View() == old(View()) && Frame() == old(Frame())
      ensures s.Value() == Line(Blank(cols, attr), isWrapped) && s == cachedBlankLine && s !in Rows()
      ensures old(Repr) <= Repr && fresh(Repr - old(Repr)) && (fresh(s) || s == old(cachedBlankLine))
    {
      if cachedBlankLine == null || |cachedBlankLine.cells| != cols || cachedBlankLine.cells[0].attr != attr {
        s := new BufferLine(cols, attr, isWrapped);
        cachedBlankLine := s;
        Repr := Repr + {s};
      }
      s := cachedBlankLine;
      s.isWrapped := isWrapped;
    }

    /** The whole screen scrolls: a full store takes up its oldest line object again, otherwise a copy is pushed. */
    method AppendBlank(blank: BufferLine) returns (ghost added: BufferLine)
      requires Valid() && blank == cachedBlankLine && |blank.cells| == cols
      requires scrollTop == 0 && scrollBottom == rows - 1
      modifies this`Repr, lines`startIndex, lines`length, lines`events, lines.data, Rows()[0]
      ensures Stored() && Frame() == old(Frame()) && old(Repr) <= Repr && fresh(Repr - old(Repr))
      ensures Rows() == ScrolledLines(old(Rows()), ybase, Frame(), added)
      ensures added.Value() == old(blank.Value())
      ensures fresh(added) || (added == old(Rows())[0] && |old(Rows())| == lines.maxLength)
      ensures forall l :: l in old(Rows()) && l != added ==> l != null && unchanged(l)
    {
      ghost var s, f := Rows(), Frame();
      hide ScrolledLines;
      if lines.IsFull() {
        assert s[0] in s;
        added := s[0];
        ScrolledAtEnd(s, ybase, f, added);
        RecycleRow(blank);
      } else {
        added := PushBlank(blank);
      }
      assert Frame() == f;
    }

    /** The store has room: a copy of the blank line is pushed. */
    method PushBlank(blank: BufferLine) returns (ghost added: BufferLine)
      requires Valid() && scrollTop == 0 && scrollBottom == rows - 1 && |blank.cells| == cols && |Rows()| < lines.maxLength
      modifies this`Repr, lines`startIndex, lines`length, lines`events, lines.data
      ensures Stored() && Frame() == old(Frame()) && old(Repr) <= Repr && fresh(Repr - old(Repr))
      ensures Rows() == ScrolledLines(old(Rows()), ybase, Frame(), added)
      ensures added.Value() == old(blank.Value()) && fresh(added)
    {
      hide ScrolledLines;
      ghost var s, f := Rows(), Frame();
      var l := blank.Clone();
      added := l;
      ScrolledAtEnd(s, ybase, f, l);
      PushRow(l);
      assert Frame() == f;
    }

    /** A region at the top of the screen, but not down to its bottom: a copy is inserted below the region. */
    method InsertBlank(blank: BufferLine) returns (ghost added: BufferLine)
      requires Valid() && |blank.cells| == cols && scrollTop == 0
      modifies this`Repr, lines`startIndex, lines`length, lines`events, lines.data
      ensures Stored() && Frame() == old(Frame()) && old(Repr) <= Repr && fresh(Repr - old(Repr))
      ensures Rows() == ScrolledLines(old(Rows()), ybase, Frame(), added)
      ensures added.Value() == old(blank.Value()) && fresh(added)
    {
      var l := blank.Clone();
      added := l;
      ScrolledIs(Rows(), ybase, Frame(), l);
      hide ScrolledLines;
      InsertRow(ybase + scrollBottom + 1, l);
    }

    /** A region below the top of the screen moves up. */
    method MoveBlank(blank: BufferLine) returns (ghost added: BufferLine)
      requires Valid() && |blank.cells| == cols && scrollTop > 0
      modifies this`Repr, lines`startIndex, lines`length, lines`events, lines.data
      ensures Stored() && Frame() == old(Frame()) && old(Repr) <= Repr && fresh(Repr - old(Repr))
      ensures Rows() == ScrolledLines(old(Rows()), ybase, Frame(), added)
      ensures added.Value() == old(blank.Value()) && fresh(added)
    {
      hide ScrolledLines, Replaced;
      ghost var s, f, b := Rows(), Frame(), ybase;
      var l := blank.Clone();
      added := l;
      ScrolledIs(s, b, f, l);
      assert Rows() == s && Frame() == f && ybase == b;
      MoveRegionUp(ybase + scrollTop, ybase + scrollBottom, l);
    }

    static method Advanced(top: nat, isFull: bool, isUserScrolling: bool, ybase: nat, ydisp: nat) returns (base: nat, disp: nat)
      ensures base == if top == 0 && !isFull then ybase + 1 else ybase
      ensures disp == if !isUserScrolling then base else if top == 0 && isFull then Max0(ydisp - 1) else ydisp
    {
      base, disp := ybase, ydisp;
      if top == 0 {
        if isFull {
          if isUserScrolling {
            disp := if disp > 0 then disp - 1 else 0;
          }
        } else {
          base := base + 1;
          if !isUserScrolling {
            disp := disp + 1;
          }
        }
      }
      if !isUserScrolling {
        disp := base;
      }
    }

    /** The blank line is in place; the screen and the viewport move. */
    method MoveViewport(isFull: bool, ghost v: View<BufferLine?>, ghost added: BufferLine)
      requires Stored() && ViewOk(v, Frame()) && isFull == (|v.lines| == lines.maxLength)
      requires ybase == v.ybase && ydisp == v.ydisp && isUserScrolling == v.isUserScrolling
      requires Rows() == ScrolledLines(v.lines, ybase, Frame(), added)
      modifies this`ybase, this`ydisp
      ensures Valid() && View() == Scrolled(v, Frame(), added) && Frame() == old(Frame())
    {
      ghost var f := Frame();
      ghost var w := Scrolled(v, f, added);
      ScrolledFields(v, f, added);
      hide Scrolled, ScrolledLines;
      ybase, ydisp := Advanced(scrollTop, isFull, isUserScrolling, ybase, ydisp);
      assert Frame() == f;
      assert View() == w;
    }

    method PlaceBlank(s: BufferLine) returns (ghost added: BufferLine)
      requires Valid() && s == cachedBlankLine && |s.cells| == cols
      modifies this`Repr, lines`startIndex, lines`length, lines`events, lines.data, Rows()[0]
      ensures Stored() && Frame() == old(Frame()) && old(Repr) <= Repr && fresh(Repr - old(Repr))
      ensures Rows() == ScrolledLines(old(Rows()), ybase, Frame(), added)
      ensures added.Value() == old(s.Value())
      ensures fresh(added) || (added == old(Rows())[0] && |old(Rows())| == lines.maxLength && scrollTop == 0)
      ensures forall l :: l in old(Rows()) && l != added ==> l != null && unchanged(l)
    {
      hide ScrolledLines;
      if scrollTop == 0 {
        if ybase + scrollBottom == lines.length - 1 {
          added := AppendBlank(s);
        } else {
          added := InsertBlank(s);
        }
      } else {
        added := MoveBlank(s);
      }
    }

    method ScrollObjects(attr: int, isWrapped: bool) returns (ghost added: BufferLine)
      requires Valid()
      modifies Repr
      ensures Valid() && old(Repr) <= Repr && fresh(Repr - old(Repr))
      ensures View() == Scrolled(old(View()), old(Frame()), added) && Frame() == old(Frame())
      ensures added.Value() == Line(Blank(cols, attr), isWrapped)
      ensures fresh(added) || (added == old(Rows())[0] && |old(Rows())| == lines.maxLength && scrollTop == 0)
      ensures forall l :: l in old(Rows()) && l != added ==> l != null && unchanged(l)
      ensures x == old(x) && y == old(y)
    {
      hide ScrolledLines, Scrolled;
      var s := BlankLine(attr, isWrapped);
      ghost var v := View();
      assert forall l :: l in v.lines ==> l in Repr;
      var isFull := lines.IsFull();
      assert v.lines[0] in v.lines;
      added := PlaceBlank(s);
      MoveViewport(isFull, v, added);
    }

    /** Scrolls the region by one line. */
    method Scroll(attr: int, isWrapped: bool) returns (ghost added: BufferLine)
      requires Valid()
      modifies Repr
      ensures Valid() && old(Repr) <= Repr && fresh(Repr - old(Repr))
      ensures View() == Scrolled(old(View()), old(Frame()), added) && Frame() == old(Frame())
      ensures added.Value() == Line(Blank(cols, attr), isWrapped)
      ensures fresh(added) || (added == old(Rows())[0] && |old(Rows())| == lines.maxLength && scrollTop == 0)
      ensures forall l :: l in old(Rows()) && l != added ==> l != null && unchanged(l)
      ensures NoneNull(Rows()) && old(NoneNull(Rows()))
      ensures ValuesOf(Rows()) == ScrolledLines(old(ValuesOf(Rows())), old(ybase), Frame(), Line(Blank(cols, attr), isWrapped))
      ensures x == old(x) && y == old(y)
    {
      RowsNotNull();
      ghost var s, v := Rows(), ValuesOf(Rows());
      added := ScrollObjects(attr, isWrapped);
      RowsNotNull();
      ghost var t, w := Rows(), ValuesOf(Rows());
      assert t == ScrolledLines(s, old(ybase), Frame(), added);
      ValuesScrolled(s, t, v, w, old(ybase), Frame(), added, Line(Blank(cols, attr), isWrapped));
    }

    lemma RowsNotNull()
      requires Stored()
      ensures NoneNull(Rows())
    {
      forall k | 0 <= k < |Rows()| ensures Rows()[k] != null {
        assert Rows()[k] in Rows();
      }
    }

    // -------------------------------------------------------------- single lines

    method LineAt(k: nat) returns (l: BufferLine)
      requires Stored() && k < |Rows()|
      ensures l == Rows()[k] && l in Rows() && |l.cells| == cols
    {
      var r := lines.Get(k);
      assert Rows()[k] in Rows();
      l := r;
    }

    /** Marks a line as the continuation of the one above, or not. */
    method SetWrapped(k: nat, isWrapped: bool)
      requires Valid() && k < |Rows()|
      modifies Rows()[k]
      ensures Valid() && View() == old(View()) && Frame() == old(Frame())
      ensures NoneNull(Rows()) && old(NoneNull(Rows()))
      ensures ValuesOf(Rows()) == old(ValuesOf(Rows()))[k := old(ValuesOf(Rows()))[k].(isWrapped := isWrapped)]
      ensures forall l :: l in Rows() ==> l != null && l.cells == old(l.cells)
    {
      ghost var s, f := Rows(), Frame();
      RowsNotNull();
      ghost var v := ValuesOf(s);
      var l := LineAt(k);
      l.isWrapped := isWrapped;
      assert Rows() == s && Frame() == f;
      RowsNotNull();
      OneChanged(s, v, k, v[k].(isWrapped := isWrapped));
    }

    /** Writes one cell in place. */
    method PutCell(k: nat, x: nat, c: Cell)
      requires Valid() && k < |Rows()| && x < cols
      modifies Rows()[k]
      ensures Valid() && View() == old(View()) && Frame() == old(Frame())
      ensures NoneNull(Rows()) && old(NoneNull(Rows()))
      ensures |ValuesOf(Rows())[k].cells| == cols
      ensures ValuesOf(Rows()) == old(ValuesOf(Rows()))[k := old(ValuesOf(Rows()))[k].(cells := old(ValuesOf(Rows()))[k].cells[x := c])]
    {
      ghost var s, f := Rows(), Frame();
      RowsNotNull();
      ghost var v := ValuesOf(s);
      var l := LineAt(k);
      l.cells := l.cells[x := c];
      assert Rows() == s && Frame() == f;
      RowsNotNull();
      OneChanged(s, v, k, v[k].(cells := v[k].cells[x := c]));
    }

    /** Makes room for `n` cells in place. */
    method InsertInRow(k: nat, x: nat, n: nat, attr: int)
      requires Valid() && k < |Rows()| && x < cols
      modifies Rows()[k]
      ensures Valid() && View() == old(View()) && Frame() == old(Frame())
      ensures NoneNull(Rows()) && old(NoneNull(Rows()))
      ensures |old(ValuesOf(Rows()))[k].cells| == cols
      ensures ValuesOf(Rows()) == old(ValuesOf(Rows()))[k := old(ValuesOf(Rows()))[k].(cells := CellsInserted(old(ValuesOf(Rows()))[k].cells, x, n, attr))]
    {
      hide CellsInserted;
      ghost var s, f := Rows(), Frame();
      RowsNotNull();
      ghost var v := ValuesOf(s);
      var l := LineAt(k);
      InsertCells(l, x, n, attr);
      assert Rows() == s && Frame() == f;
      RowsNotNull();
      assert forall j :: 0 <= j < |s| && j != k ==> s[j] != l;
      assert ValuesOf(s) == v[k := v[k].(cells := CellsInserted(v[k].cells, x, n, attr))];
    }

    method SwapRow(out: nat, at: nat, attr: int) returns (ghost added: BufferLine)
      requires Valid() && out < |Rows()| && at < |Rows()|
      modifies this`Repr, lines`startIndex, lines`length, lines`events, lines.data
      ensures Valid() && old(Repr) <= Repr && fresh(Repr - old(Repr)) && fresh(added) && added.Value() == Line(Blank(cols, attr), false)
      ensures View() == old(View()).(lines := RowReplaced(old(Rows()), out, at, added)) && Frame() == old(Frame())
      ensures lines.data == old(lines.data)
    {
      hide RowReplaced;
      ghost var s, f := Rows(), Frame();
      DeleteRow(out);
      ghost var t := Rows();
      assert Frame() == f;
      var l := new BufferLine(cols, attr, false);
      added := l;
      RowReplacedFits(s, out, at, added, f.max);
      assert Rows() == t;
      InsertRow(at, l);
      assert Frame() == f && Rows() == RowReplaced(s, out, at, added);
    }

    /** Takes the line at `out` out and puts a blank one in so that it stands at `at`. */
    method ReplaceRow(out: nat, at: nat, attr: int) returns (ghost added: BufferLine)
      requires Valid() && out < |Rows()| && at < |Rows()|
      modifies this`Repr, lines`startIndex, lines`length, lines`events, lines.data
      ensures Valid() && old(Repr) <= Repr && fresh(Repr - old(Repr)) && fresh(added) && added.Value() == Line(Blank(cols, attr), false)
      ensures View() == old(View()).(lines := RowReplaced(old(Rows()), out, at, added)) && Frame() == old(Frame())
      ensures NoneNull(Rows()) && old(NoneNull(Rows()))
      ensures ValuesOf(Rows()) == RowReplaced(old(ValuesOf(Rows())), out, at, Line(Blank(cols, attr), false))
      ensures lines.data == old(lines.data)
    {
      RowsNotNull();
      ghost var s, v := Rows(), ValuesOf(Rows());
      added := SwapRow(out, at, attr);
      RowsNotNull();
      ghost var t, w := Rows(), ValuesOf(Rows());
      ValuesReplaced(s, t, v, w, out, at, added, Line(Blank(cols, attr), false));
    }

    /** The same for the bottom and the top of a region, by moving the lines between. */
    method MoveRegionDown(top: nat, bottom: nat, attr: int) returns (ghost added: BufferLine)
      requires Valid() && top <= bottom < |Rows()|
      modifies this`Repr, lines`startIndex, lines`length, lines`events, lines.data
      ensures Valid() && old(Repr) <= Repr && fresh(Repr - old(Repr)) && fresh(added) && added.Value() == Line(Blank(cols, attr), false)
      ensures View() == old(View()).(lines := RowReplaced(old(Rows()), bottom, top, added)) && Frame() == old(Frame())
      ensures NoneNull(Rows()) && old(NoneNull(Rows()))
      ensures ValuesOf(Rows()) == RowReplaced(old(ValuesOf(Rows())), bottom, top, Line(Blank(cols, attr), false))
      ensures lines.data == old(lines.data)
    {
      ghost var s, f, w := Rows(), Frame(), View();
      RowsNotNull();
      ghost var v := ValuesOf(s);
      var l := new BufferLine(cols, attr, false);
      added := l;
      RowReplacedRows(s, bottom, top, l);
      ShiftDownAndSet(lines, top, bottom, l);
      Repr := Repr + {l};
      assert Frame() == f && View() == w.(lines := RowReplaced(s, bottom, top, added));
      RowsNotNull();
      ValuesReplaced(s, Rows(), v, ValuesOf(Rows()), bottom, top, added, Line(Blank(cols, attr), false));
    }

    /** The user moves the viewport. */
    method ScrollLines(amount: int)
      requires Valid()
      modifies this`isUserScrolling, this`ydisp
      ensures Valid() && View() == ScrolledBy(old(View()), amount) && Frame() == old(Frame())
    {
      ScrolledByOk(View(), Frame(), amount);
      if amount < 0 {
        if ydisp == 0 {
          return;
        }
        isUserScrolling := true;
      } else if amount + ydisp >= ybase {
        isUserScrolling := false;
      }
      var low := if ydisp + amount < ybase then ydisp + amount else ybase;
      ydisp := if low > 0 then low else 0;
    }
  }

  /** Even when an object is used again, no line shows up with the contents of another. */
  lemma ValuesScrolled(s: seq<BufferLine?>, t: seq<BufferLine?>, v: seq<Line>, w: seq<Line>,
                       ybase: nat, f: Frame, added: BufferLine?, blank: Line)
    requires FrameOk(f) && |s| == |v| == ybase + f.rows <= f.max && |t| == |w|
    requires t == ScrolledLines(s, ybase, f, added)
    requires Distinct(s) && (added !in s || (added == s[0] && |s| == f.max && f.top == 0))
    requires forall k, j :: 0 <= k < |t| && 0 <= j < |s| && t[k] == s[j] && s[j] != added ==> w[k] == v[j]
    requires forall k :: 0 <= k < |t| && t[k] == added ==> w[k] == blank
    ensures w == ScrolledLines(v, ybase, f, blank)
  {
    var want := ScrolledLines(v, ybase, f, blank);
    LengthScrolled(s, v, ybase, f, added, blank);
    forall k | 0 <= k < |t| ensures w[k] == want[k] {
      ScrolledAt(s, ybase, f, added, k);
      ScrolledAt(v, ybase, f, blank, k);
    }
  }

  lemma LengthScrolled(s: seq<BufferLine?>, v: seq<Line>, ybase: nat, f: Frame, l: BufferLine?, blank: Line)
    requires FrameOk(f) && |s| == |v| == ybase + f.rows <= f.max
    ensures |ScrolledLines(s, ybase, f, l)| == |ScrolledLines(v, ybase, f, blank)|
         == if f.top == 0 && |s| < f.max then |s| + 1 else |s|
  {
    ScrolledAt(s, ybase, f, l, 0);
    ScrolledAt(v, ybase, f, blank, 0);
  }

  lemma ScrolledFields(v: View<BufferLine?>, f: Frame, added: BufferLine?)
    requires ViewOk(v, f)
    ensures var full := |v.lines| == f.max;
            var base := if f.top == 0 && !full then v.ybase + 1 else v.ybase;
            var disp := if !v.isUserScrolling then base else if f.top == 0 && full then Max0(v.ydisp - 1) else v.ydisp;
            && Scrolled(v, f, added) == Scrolling.View(ScrolledLines(v.lines, v.ybase, f, added), base, disp, v.isUserScrolling)
            && ViewOk(Scrolled(v, f, added), f)
  {
    ScrolledOk(v, f, added);
  }

  lemma ScrolledIs(s: seq<BufferLine?>, ybase: nat, f: Frame, l: BufferLine?)
    requires FrameOk(f) && |s| == ybase + f.rows <= f.max
    ensures f.top == 0 ==> ScrolledLines(s, ybase, f, l) == Latest(Replaced(s, ybase + f.bottom + 1, 0, [l]), f.max)
    ensures f.top > 0 ==> ScrolledLines(s, ybase, f, l) == Replaced(Replaced(s, ybase + f.bottom + 1, 0, [l]), ybase + f.top, 1, [])
  {
  }

  /** With the whole screen for a region the blank line goes to the end. */
  lemma ScrolledAtEnd(s: seq<BufferLine?>, ybase: nat, f: Frame, l: BufferLine?)
    requires FrameOk(f) && |s| == ybase + f.rows <= f.max && f.top == 0 && f.bottom == f.rows - 1
    ensures ScrolledLines(s, ybase, f, l) == Latest(s + [l], f.max)
    ensures |s| == f.max ==> ScrolledLines(s, ybase, f, l) == s[1..] + [l]
  {
    assert Replaced(s, |s|, 0, [l]) == s + [l];
    if |s| == f.max {
      assert (s + [l])[1..] == s[1..] + [l];
    }
  }

  /** With a new object for the blank line the contents move just as the objects do. */
  lemma ValuesReplaced(s: seq<BufferLine?>, t: seq<BufferLine?>, v: seq<Line>, w: seq<Line>, out: nat, at: nat, added: BufferLine?, blank: Line)
    requires |s| == |v| && |t| == |w| && out < |s| && at < |s|
    requires t == RowReplaced(s, out, at, added) && added !in s
    requires forall k, j :: 0 <= k < |t| && 0 <= j < |s| && t[k] == s[j] ==> w[k] == v[j]
    requires forall k :: 0 <= k < |t| && t[k] == added ==> w[k] == blank
    ensures w == RowReplaced(v, out, at, blank)
  {
    hide RowReplaced;
    forall k | 0 <= k < |t| ensures w[k] == RowReplaced(v, out, at, blank)[k] {
      RowReplacedAt(s, out, at, added, k);
      RowReplacedAt(v, out, at, blank, k);
    }
  }

  lemma RowReplacedFits(s: seq<BufferLine?>, out: nat, at: nat, l: BufferLine, max: nat)
    requires out < |s| <= max && at < |s|
    ensures Latest(Replaced(Replaced(s, out, 1, []), at, 0, [l]), max) == RowReplaced(s, out, at, l)
  {
  }

  lemma RowReplacedRows(s: seq<BufferLine?>, out: nat, at: nat, l: BufferLine)
    requires Distinct(s) && l !in s && out < |s| && at < |s|
    ensures Distinct(RowReplaced(s, out, at, l)) && forall r :: r in RowReplaced(s, out, at, l) ==> r in s || r == l
  {
    DistinctDeleted(s, out);
    ReplacedMembers(s, out, 1, []);
    DistinctReplaced(Replaced(s, out, 1, []), at, 0, l);
    ReplacedMembers(Replaced(s, out, 1, []), at, 0, [l]);
  }

  /** Shifting the region down and setting its top is taking out its bottom and putting in above it. */
  lemma MovedDownIsReplaced(s: seq<BufferLine?>, top: nat, bottom: nat, l: BufferLine?, max: nat)
    requires top <= bottom < |s| <= max
    ensures var moved := if bottom == top then s else Latest(Moved(s, top, bottom - top, top + 1), max);
            |moved| == |s| && moved[top := l] == Replaced(Replaced(s, bottom, 1, []), top, 0, [l])
  {
    var t := Replaced(s, bottom, 1, []);
    assert t == s[..bottom] + s[bottom + 1..];
    assert Replaced(t, top, 0, [l]) == s[..top] + [l] + s[top..bottom] + s[bottom + 1..];
  }

  method ShiftDownAndSet(lines: CircularList<BufferLine?>, top: nat, bottom: nat, l: BufferLine)
    requires lines.Valid() && top <= bottom < |lines.Contents()|
    modifies lines`startIndex, lines`length, lines`events, lines.data
    ensures lines.Valid() && lines.data == old(lines.data) && lines.maxLength == old(lines.maxLength)
    ensures lines.Contents() == Replaced(Replaced(old(lines.Contents()), bottom, 1, []), top, 0, [l])
  {
    ghost var s := lines.Contents();
    ghost var moved := if bottom == top then s else Latest(Moved(s, top, bottom - top, top + 1), lines.maxLength);
    MovedDownIsReplaced(s, top, bottom, l, lines.maxLength);
    var ok := lines.ShiftElements(top, bottom - top, 1);
    assert lines.Contents() == moved;
    lines.SetAt(top, l);
  }

  method ShiftAndSet(lines: CircularList<BufferLine?>, top: nat, bottom: nat, l: BufferLine)
    requires lines.Valid() && top <= bottom < |lines.Contents()|
    modifies lines`startIndex, lines`length, lines`events, lines.data
    ensures lines.Valid() && lines.data == old(lines.data) && lines.maxLength == old(lines.maxLength)
    ensures lines.Contents() == Replaced(Replaced(old(lines.Contents()), bottom + 1, 0, [l]), top, 1, [])
  {
    ghost var s := lines.Contents();
    ghost var moved := if bottom == top then s else Latest(Moved(s, top + 1, bottom - top, top), lines.maxLength);
    MovedIsReplaced(s, top, bottom, l, lines.maxLength);
    var ok := lines.ShiftElements(top + 1, bottom - top, -1);
    assert lines.Contents() == moved;
    lines.SetAt(bottom, l);
  }

  lemma RegionUpRows(s: seq<BufferLine?>, top: nat, bottom: nat, l: BufferLine)
    requires Distinct(s) && l !in s && top <= bottom < |s|
    ensures var t := Replaced(Replaced(s, bottom + 1, 0, [l]), top, 1, []);
            |t| == |s| && Distinct(t) && forall r :: r in t ==> r in s || r == l
  {
    DistinctReplaced(s, bottom + 1, 0, l);
    ReplacedMembers(s, bottom + 1, 0, [l]);
    var t := Replaced(s, bottom + 1, 0, [l]);
    DistinctDeleted(t, top);
    ReplacedMembers(t, top, 1, []);
  }

  lemma DistinctDeleted(s: seq<BufferLine?>, index: nat)
    requires Distinct(s) && index < |s|
    ensures Distinct(Replaced(s, index, 1, []))
  {
  }

  /** Shifting the region up and setting its bottom is inserting below it and deleting its top. */
  lemma MovedIsReplaced(s: seq<BufferLine?>, top: nat, bottom: nat, l: BufferLine?, max: nat)
    requires top <= bottom < |s| <= max
    ensures var moved := if bottom == top then s else Latest(Moved(s, top + 1, bottom - top, top), max);
            |moved| == |s| && moved[bottom := l] == Replaced(Replaced(s, bottom + 1, 0, [l]), top, 1, [])
  {
    var t := Replaced(s, bottom + 1, 0, [l]);
    assert t == s[..bottom + 1] + [l] + s[bottom + 1..];
    assert Replaced(t, top, 1, []) == s[..top] + s[top + 1..bottom + 1] + [l] + s[bottom + 1..];
  }
}
