/**
  Narrowing the terminal: a line that was wrapped over several rows is cut anew.

  The rows of a wrapped line, put one after the other, make up the logical line.  The new cuts are
  those a greedy cutter of the logical line would make, and no cut goes through a wide character.
  */
module Reflow {
  import opened BufferLine
  import opened WideCells

  // ---------------------------------------------------------------- the logical line

  /** The cells up to the last one with content, and its second half. */
  function TrimmedLength(cells: Cells): nat {
    if |cells| == 0 then 0
    else if cells[|cells| - 1].text != [] then |cells| - 1 + cells[|cells| - 1].width
    else TrimmedLength(cells[..|cells| - 1])
  }

  ghost predicate Shaped(rows: seq<Cells>, cols: nat) {
    |rows| > 0 && cols >= 2 && forall j :: 0 <= j < |rows| ==> |rows[j]| == cols
  }

  ghost predicate RowsOk(rows: seq<Cells>, cols: nat) {
    Shaped(rows, cols) && forall j :: 0 <= j < |rows| ==> RowOk(rows[j])
  }

  /** How much of a row belongs to the line: a row that a wide character did not fit into ends one cell early. */
  function RowLength(rows: seq<Cells>, i: nat, cols: nat): nat
    requires i < |rows| && Shaped(rows, cols)
  {
    if i == |rows| - 1 then TrimmedLength(rows[i])
    else if rows[i][cols - 1].text == [] && rows[i][cols - 1].width == 1 && rows[i + 1][0].width == 2 then cols - 1
    else cols
  }

  lemma {:induction false} TrimmedPart(cells: Cells, n: nat)
    requires RowOk(cells) && n <= |cells|
    requires forall k :: n <= k < |cells| ==> cells[k].text == []
    ensures TrimmedLength(cells[..n]) <= |cells| && Paired(cells[..TrimmedLength(cells[..n])])
    decreases n
  {
    if n > 0 {
      assert CellOk(cells, n - 1);
      assert cells[..n][..n - 1] == cells[..n - 1];
      if cells[n - 1].text == [] {
        TrimmedPart(cells, n - 1);
      } else {
        var t := n - 1 + cells[n - 1].width;
        forall k | 0 <= k < t ensures PairAt(cells[..t], k) {
          assert CellOk(cells, k);
        }
      }
    }
  }

  ghost predicate PairAt(cells: Cells, k: nat)
    requires k < |cells|
  {
    && (cells[k].width == 2 ==> k + 1 < |cells| && IsHalf(cells[k + 1]))
    && (IsHalf(cells[k]) ==> k > 0 && cells[k - 1].width == 2)
  }

  /** Every first half has its second half behind it and the other way round. */
  ghost predicate Paired(cells: Cells) {
    forall k :: 0 <= k < |cells| ==> PairAt(cells, k)
  }

  lemma PairedConcat(a: Cells, b: Cells)
    requires Paired(a) && Paired(b)
    ensures Paired(a + b)
  {
    forall k | 0 <= k < |a + b| ensures PairAt(a + b, k) {
      if k < |a| {
        assert PairAt(a, k);
      } else {
        assert PairAt(b, k - |a|);
      }
    }
  }

  lemma RowPart(rows: seq<Cells>, i: nat, cols: nat)
    requires RowsOk(rows, cols) && i < |rows|
    ensures RowLength(rows, i, cols) <= cols && Paired(rows[i][..RowLength(rows, i, cols)])
    ensures i < |rows| - 1 ==> RowLength(rows, i, cols) >= cols - 1
  {
    var row := rows[i];
    if i == |rows| - 1 {
      assert row[..cols] == row;
      TrimmedPart(row, cols);
    } else {
      var n := RowLength(rows, i, cols);
      forall k | 0 <= k < n ensures PairAt(row[..n], k) {
        assert CellOk(row, k);
      }
    }
  }

  function Logical(rows: seq<Cells>, cols: nat, n: nat): Cells
    requires RowsOk(rows, cols) && n <= |rows|
  {
    if n == 0 then []
    else
      RowPart(rows, n - 1, cols);
      Logical(rows, cols, n - 1) + rows[n - 1][..RowLength(rows, n - 1, cols)]
  }

  lemma {:induction false} LogicalPaired(rows: seq<Cells>, cols: nat, n: nat)
    requires RowsOk(rows, cols) && n <= |rows|
    ensures Paired(Logical(rows, cols, n))
  {
    if n > 0 {
      LogicalPaired(rows, cols, n - 1);
      RowPart(rows, n - 1, cols);
      hide RowLength, RowOk;
      PairedConcat(Logical(rows, cols, n - 1), rows[n - 1][..RowLength(rows, n - 1, cols)]);
    }
  }

  /** Where row `i` starts, and its cells in the logical line. */
  lemma {:induction false} LogicalRow(rows: seq<Cells>, cols: nat, i: nat, n: nat)
    requires RowsOk(rows, cols) && i < n <= |rows|
    ensures RowLength(rows, i, cols) <= cols
    ensures Logical(rows, cols, i + 1) <= Logical(rows, cols, n)
    ensures |Logical(rows, cols, i + 1)| == |Logical(rows, cols, i)| + RowLength(rows, i, cols) <= |Logical(rows, cols, n)|
    ensures forall k :: 0 <= k < RowLength(rows, i, cols) ==>
              Logical(rows, cols, n)[|Logical(rows, cols, i)| + k] == rows[i][k]
    decreases n
  {
    hide RowLength, RowOk;
    RowPart(rows, i, cols);
    if i + 1 < n {
      LogicalRow(rows, cols, i, n - 1);
      RowPart(rows, n - 1, cols);
      hide RowsOk, Shaped;
      assert Logical(rows, cols, n - 1) <= Logical(rows, cols, n);
    }
  }

  // ---------------------------------------------------------------- cutting the logical line

  /** Rows of `w` cells, but of one less where a wide character would be cut, and what remains. */
  function Greedy(line: Cells, w: nat, from: nat): (lengths: seq<nat>)
    requires w >= 2 && from <= |line|
    decreases |line| - from
  {
    if from == |line| then []
    else if |line| - from < w then [|line| - from]
    else
      var d := if line[from + w - 1].width == 2 then w - 1 else w;
      [d] + Greedy(line, w, from + d)
  }

  function Sum(lengths: seq<nat>): nat {
    if |lengths| == 0 then 0 else Sum(lengths[..|lengths| - 1]) + lengths[|lengths| - 1]
  }

  lemma {:induction false} SumFirst(lengths: seq<nat>)
    requires |lengths| > 0
    ensures Sum(lengths) == lengths[0] + Sum(lengths[1..])
  {
    if |lengths| > 1 {
      SumFirst(lengths[..|lengths| - 1]);
      assert lengths[..|lengths| - 1][1..] == lengths[1..][..|lengths| - 2];
    }
  }

  /** A cut at `b` has no first half before it and no second half behind it. */
  ghost predicate CleanCut(line: Cells, b: nat)
    requires b <= |line|
  {
    && (b > 0 ==> line[b - 1].width != 2)
    && (b < |line| ==> !IsHalf(line[b]))
  }

  lemma PairedCut(line: Cells, b: nat)
    requires Paired(line) && b <= |line| && (b > 0 ==> line[b - 1].width != 2)
    ensures CleanCut(line, b)
  {
    if b < |line| {
      assert PairAt(line, b);
    }
  }

  ghost predicate CutsOk(line: Cells, w: nat, from: nat, lengths: seq<nat>)
    requires w >= 2 && from <= |line|
  {
    && Sum(lengths) == |line| - from
    && (forall i :: 0 <= i < |lengths| ==> 1 <= lengths[i] <= w)
    && (forall i :: 0 <= i < |lengths| - 1 ==> w - 1 <= lengths[i])
    && (forall i :: 0 <= i <= |lengths| ==> from + Sum(lengths[..i]) <= |line| && CleanCut(line, from + Sum(lengths[..i])))
  }

  lemma CutsOkFirst(line: Cells, w: nat, from: nat, d: nat, rest: seq<nat>)
    requires w >= 2 && from + d <= |line| && 1 <= d <= w && (|rest| > 0 ==> w - 1 <= d)
    requires CleanCut(line, from) && CutsOk(line, w, from + d, rest)
    ensures CutsOk(line, w, from, [d] + rest)
  {
    var lengths := [d] + rest;
    assert lengths[1..] == rest;
    SumFirst(lengths);
    forall i | 0 <= i <= |lengths| ensures from + Sum(lengths[..i]) <= |line| && CleanCut(line, from + Sum(lengths[..i])) {
      if i > 0 {
        SumFirst(lengths[..i]);
        assert lengths[..i][1..] == rest[..i - 1];
      }
    }
    hide CleanCut;
  }

  /** The lengths add up, no row is empty or too long, and no cut goes through a wide character. */
  lemma {:induction false} GreedyCuts(line: Cells, w: nat, from: nat)
    requires w >= 2 && from <= |line| && Paired(line)
    requires from > 0 ==> line[from - 1].width != 2
    ensures CutsOk(line, w, from, Greedy(line, w, from))
    decreases |line| - from
  {
    PairedCut(line, from);
    if from < |line| {
      var d := if |line| - from < w then |line| - from else if line[from + w - 1].width == 2 then w - 1 else w;
      assert PairAt(line, from + d - 1);
      assert d < w <= |line| - from ==> PairAt(line, from + d);
      assert line[from + d - 1].width != 2;
      GreedyCuts(line, w, from + d);
      var rest := Greedy(line, w, from + d);
      assert Greedy(line, w, from) == [d] + rest;
      hide Greedy, Paired, PairAt;
      CutsOkFirst(line, w, from, d, rest);
    }
  }

  /** The body of the loop: from a place in a row to the place of the next cut. */
  method NextCut(rows: seq<Cells>, oldCols: nat, newCols: nat, line: nat, col: nat) returns (srcLine: nat, srcCol: nat, isWide: bool)
    requires RowsOk(rows, oldCols) && 2 <= newCols < oldCols && line < |rows| && col <= RowLength(rows, line, oldCols)
    requires |Logical(rows, oldCols, line)| + col + newCols <= |Logical(rows, oldCols, |rows|)|
    ensures srcLine < |rows| && srcCol <= RowLength(rows, srcLine, oldCols)
    ensures isWide <==> Logical(rows, oldCols, |rows|)[|Logical(rows, oldCols, line)| + col + newCols - 1].width == 2
    ensures |Logical(rows, oldCols, srcLine)| + srcCol == |Logical(rows, oldCols, line)| + col + if isWide then newCols - 1 else newCols
  {
    hide RowOk, RowLength, Logical;
    WalkOn(rows, oldCols, newCols, line, col);
    srcLine, srcCol := line, col + newCols;
    var rowLength := RowLength(rows, srcLine, oldCols);
    if srcCol > rowLength {
      srcCol := srcCol - rowLength;
      srcLine := srcLine + 1;
    }
    isWide := rows[srcLine][srcCol - 1].width == 2;
    if isWide {
      srcCol := srcCol - 1;
    }
  }

  /** Walks over the rows instead of the logical line. */
  method SmallerLineLengths(rows: seq<Cells>, oldCols: nat, newCols: nat) returns (lengths: seq<nat>)
    requires RowsOk(rows, oldCols) && 2 <= newCols < oldCols
    ensures lengths == Greedy(Logical(rows, oldCols, |rows|), newCols, 0)
  {
    assert Logical(rows, oldCols, 0) == [] && |rows| > 0 && Shaped(rows, oldCols);
    hide RowLength, Greedy, GreedySoFar, Logical, RowsOk, Shaped;
    ghost var line := Logical(rows, oldCols, |rows|);
    GreedyEnds(line, newCols, []);
    var needed := TotalLength(rows, oldCols);
    lengths := [];
    var srcLine: nat, srcCol: nat, available: nat := 0, 0, 0;
    while available < needed
      invariant needed == |line| && available <= needed && srcLine < |rows|
      invariant available == |Logical(rows, oldCols, srcLine)| + srcCol
      invariant srcCol <= RowLength(rows, srcLine, oldCols)
      invariant GreedySoFar(line, newCols, available, lengths)
      decreases needed - available
    {
      GreedyStep(line, newCols, available, lengths);
      if needed - available < newCols {
        lengths := lengths + [needed - available];
        return;
      }
      var isWide: bool;
      srcLine, srcCol, isWide := NextCut(rows, oldCols, newCols, srcLine, srcCol);
      var length := if isWide then newCols - 1 else newCols;
      lengths := lengths + [length];
      available := available + length;
    }
    GreedyEnds(line, newCols, lengths);
  }

  method TotalLength(rows: seq<Cells>, cols: nat) returns (n: nat)
    requires RowsOk(rows, cols)
    ensures n == |Logical(rows, cols, |rows|)|
  {
    n := 0;
    for i := 0 to |rows|
      invariant n == |Logical(rows, cols, i)|
    {
      RowPart(rows, i, cols);
      n := n + RowLength(rows, i, cols);
    }
  }

  /** The cuts made up to `from` are the greedy ones. */
  ghost predicate GreedySoFar(line: Cells, w: nat, from: nat, lengths: seq<nat>)
    requires w >= 2 && from <= |line|
  {
    lengths + Greedy(line, w, from) == Greedy(line, w, 0)
  }

  lemma GreedyStep(line: Cells, w: nat, from: nat, lengths: seq<nat>)
    requires w >= 2 && from < |line| && GreedySoFar(line, w, from, lengths)
    ensures |line| - from < w ==> lengths + [|line| - from] == Greedy(line, w, 0)
    ensures |line| - from >= w ==>
              var d := if line[from + w - 1].width == 2 then w - 1 else w;
              GreedySoFar(line, w, from + d, lengths + [d])
  {
    if |line| - from >= w {
      var d := if line[from + w - 1].width == 2 then w - 1 else w;
      assert (lengths + [d]) + Greedy(line, w, from + d) == lengths + ([d] + Greedy(line, w, from + d));
    }
  }

  lemma GreedyEnds(line: Cells, w: nat, lengths: seq<nat>)
    requires w >= 2
    ensures GreedySoFar(line, w, 0, [])
    ensures GreedySoFar(line, w, |line|, lengths) ==> lengths == Greedy(line, w, 0)
  {
  }

  /** Going on by `newCols` cells ends in this row or the next, on the same cell as in the logical line. */
  lemma WalkOn(rows: seq<Cells>, oldCols: nat, newCols: nat, i: nat, col: nat)
    requires RowsOk(rows, oldCols) && 2 <= newCols < oldCols && i < |rows| && col <= RowLength(rows, i, oldCols)
    requires |Logical(rows, oldCols, i)| + col + newCols <= |Logical(rows, oldCols, |rows|)|
    ensures var line := Logical(rows, oldCols, |rows|);
            var n := RowLength(rows, i, oldCols);
            var at := |Logical(rows, oldCols, i)| + col + newCols;
            if col + newCols <= n then col + newCols <= oldCols && rows[i][col + newCols - 1] == line[at - 1]
            else
              && i + 1 < |rows| && |Logical(rows, oldCols, i + 1)| + (col + newCols - n) == at
              && col + newCols - n <= RowLength(rows, i + 1, oldCols) <= oldCols
              && rows[i + 1][col + newCols - n - 1] == line[at - 1]
  {
    hide RowOk, RowLength, Logical;
    LogicalAll(rows, oldCols, i + 1);
    LogicalRow(rows, oldCols, i, |rows|);
    if col + newCols > RowLength(rows, i, oldCols) {
      if i + 1 < |rows| {
        LogicalRow(rows, oldCols, i + 1, |rows|);
        RowPart(rows, i + 1, oldCols);
        NextRowHolds(rows, oldCols, newCols, i, col);
      }
    }
  }

  lemma LogicalAll(rows: seq<Cells>, cols: nat, i: nat)
    requires RowsOk(rows, cols) && i <= |rows|
    ensures i == |rows| ==> Logical(rows, cols, i) == Logical(rows, cols, |rows|)
  {
  }

  /** The next row is the last one or long enough. */
  lemma NextRowHolds(rows: seq<Cells>, oldCols: nat, newCols: nat, i: nat, col: nat)
    requires RowsOk(rows, oldCols) && 2 <= newCols < oldCols && i + 1 < |rows| && col <= RowLength(rows, i, oldCols)
    requires |Logical(rows, oldCols, i)| + col + newCols <= |Logical(rows, oldCols, |rows|)|
    ensures col + newCols - RowLength(rows, i, oldCols) <= RowLength(rows, i + 1, oldCols)
  {
    hide RowOk, RowLength, Logical;
    RowPart(rows, i + 1, oldCols);
    if i + 2 == |rows| {
      LogicalRow(rows, oldCols, i, |rows|);
      LogicalRow(rows, oldCols, i + 1, |rows|);
    }
  }

  /** The new rows never start behind the old ones. */
  lemma {:induction false} NewRowsStartEarlier(rows: seq<Cells>, oldCols: nat, newCols: nat, lengths: seq<nat>, i: nat)
    requires RowsOk(rows, oldCols) && newCols < oldCols && i < |rows| && i <= |lengths|
    requires forall k :: 0 <= k < |lengths| ==> lengths[k] <= newCols
    ensures Sum(lengths[..i]) <= |Logical(rows, oldCols, i)|
  {
    if i > 0 {
      NewRowsStartEarlier(rows, oldCols, newCols, lengths, i - 1);
      RowPart(rows, i - 1, oldCols);
      hide RowLength, RowOk;
      assert lengths[..i][..i - 1] == lengths[..i - 1];
    }
  }

  /** There are at least as many new rows as old ones, unless there is nothing to show. */
  lemma EnoughRows(rows: seq<Cells>, oldCols: nat, newCols: nat, lengths: seq<nat>)
    requires RowsOk(rows, oldCols) && 2 <= newCols < oldCols
    requires lengths == Greedy(Logical(rows, oldCols, |rows|), newCols, 0)
    requires Logical(rows, oldCols, |rows|) != []
    ensures |lengths| >= |rows|
  {
    var line := Logical(rows, oldCols, |rows|);
    LogicalPaired(rows, oldCols, |rows|);
    GreedyCuts(line, newCols, 0);
    var n := |lengths|;
    if n < |rows| {
      assert lengths[..n] == lengths;
      NewRowsStartEarlier(rows, oldCols, newCols, lengths, n);
      LogicalRow(rows, oldCols, n, |rows|);
      RowPart(rows, n, oldCols);
      assert RowLength(rows, n, oldCols) == 0;
      assert n == |rows| - 1;
      assert n > 0;
      NewRowsStartEarlier(rows, oldCols, newCols, lengths, n - 1);
      LogicalRow(rows, oldCols, n - 1, |rows|);
      assert lengths[..n][..n - 1] == lengths[..n - 1];
      assert RowLength(rows, n - 1, oldCols) == oldCols - 1;
      assert rows[n][0].width == 2;
      assert CellOk(rows[n], 0);
      TrimmedNotEmpty(rows[n], 0);
      assert false;
    }
  }

  lemma {:induction false} TrimmedNotEmpty(cells: Cells, k: nat)
    requires k < |cells| && cells[k].text != [] && cells[k].width > 0
    ensures TrimmedLength(cells) > k
    decreases |cells|
  {
    if k < |cells| - 1 && cells[|cells| - 1].text == [] {
      TrimmedNotEmpty(cells[..|cells| - 1], k);
    }
  }
}
