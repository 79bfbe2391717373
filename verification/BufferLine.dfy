/** One line of the terminal: cells that are updated in place. */
module BufferLine {

  /** A character with the combining characters that joined it; the second half of a wide character is an empty cell of width 0. */
  datatype Cell = Cell(text: seq<nat>, width: nat, attr: int)

  datatype Line = Line(cells: seq<Cell>, isWrapped: bool)

  function NullCell(attr: int): Cell {
    Cell([], 1, attr)
  }

  function Blank(cols: nat, attr: int): (cells: seq<Cell>)
    ensures |cells| == cols
  {
    seq(cols, _ => NullCell(attr))
  }

  class BufferLine {
    var cells: seq<Cell>
    var isWrapped: bool

    function Value(): Line
      reads this
    {
      Line(cells, isWrapped)
    }

    constructor (cols: nat, attr: int, isWrapped: bool)
      ensures Value() == Line(Blank(cols, attr), isWrapped)
    {
      cells := Blank(cols, attr);
      this.isWrapped := isWrapped;
    }

    constructor Copy(cells: seq<Cell>, isWrapped: bool)
      ensures Value() == Line(cells, isWrapped)
    {
      this.cells, this.isWrapped := cells, isWrapped;
    }

    method CopyFrom(other: BufferLine)
      modifies this
      ensures Value() == old(other.Value())
    {
      cells, isWrapped := other.cells, other.isWrapped;
    }

    method Clone() returns (r: BufferLine)
      ensures fresh(r) && r.Value() == Value()
    {
      r := new BufferLine.Copy(cells, isWrapped);
    }
  }
}
