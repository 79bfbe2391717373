/**
  Narrowing the terminal, second part: the cells of a wrapped line are moved to where the new cuts
  put them, in the same line objects, from the end to the front.

  The codes, widths and attributes of the cells all arrive.  The texts on the side are moved with
  them, all that lie behind the first cell that is copied, and may overwrite each other.
  */
module Rewrapping {
  import opened Common
  import opened BufferLine
  import opened WideCells
  import opened LineStorage
  import opened Reflow

  ghost function DataOf(lines: seq<StoredLine>): (rows: seq<Cells>)
    reads lines
    ensures |rows| == |lines| && forall i :: 0 <= i < |rows| ==> rows[i] == lines[i].data
  {
    seq(|lines|, i requires 0 <= i < |lines| reads lines => lines[i].data)
  }

  ghost function TextsOf(lines: seq<StoredLine>): (texts: seq<Texts>)
    reads lines
    ensures |texts| == |lines| && forall i :: 0 <= i < |texts| ==> texts[i] == lines[i].combined
  {
    seq(|lines|, i requires 0 <= i < |lines| reads lines => lines[i].combined)
  }

  ghost predicate AllValid(lines: seq<StoredLine>)
    reads lines
  {
    forall l :: l in lines ==> l.Valid()
  }

  /** What the loop works on: the rows before it, the logical line, and the lengths of the new rows. */
  datatype Job = Job(rows: seq<Cells>, count: nat, oldCols: nat, newCols: nat, lengths: seq<nat>)
  {
    ghost predicate Valid() {
      && 2 <= newCols < oldCols && 0 < count <= |rows| == |lengths|
      && RowsOk(rows[..count], oldCols) && (forall j :: count <= j < |rows| ==> |rows[j]| == newCols)
      && lengths == Greedy(Line(), newCols, 0)
    }

    function Line(): Cells
      requires 0 < count <= |rows| && RowsOk(rows[..count], oldCols)
    {
      Logical(rows[..count], oldCols, count)
    }

    /** Where the new row `j` starts in the logical line. */
    function Start(j: nat): nat
      requires j <= |lengths|
    {
      Sum(lengths[..j])
    }

    /** Where the old row `j` starts. */
    function OldStart(j: nat): nat
      requires 0 < count <= |rows| && RowsOk(rows[..count], oldCols) && j <= count
    {
      |Logical(rows[..count], oldCols, j)|
    }

    /** The cell at `k` in row `j` when all but `remaining` cells have been moved. */
    ghost function CellAt(remaining: nat, j: nat, k: nat): Cell
      requires Valid() && j < |rows| && k < |rows[j]|
    {
      if k < lengths[j] && remaining <= Start(j) + k < |Line()| then Line()[Start(j) + k] else rows[j][k]
    }

    ghost predicate MovedTo(now: seq<Cells>, remaining: nat)
      requires Valid()
    {
      && |now| == |rows|
      && (forall j :: 0 <= j < |rows| ==> |now[j]| == |rows[j]|)
      && forall j, k :: 0 <= j < |rows| && 0 <= k < |rows[j]| ==> now[j][k] == CellAt(remaining, j, k)
    }
  }

  lemma JobFacts(job: Job, j: nat)
    requires job.Valid() && j < |job.lengths|
    ensures 1 <= job.lengths[j] <= job.newCols <= |job.rows[j]|
    ensures job.Start(j + 1) == job.Start(j) + job.lengths[j] <= |job.Line()|
    ensures Sum(job.lengths) == |job.Line()| == job.Start(|job.lengths|)
  {
    LogicalPaired(job.rows[..job.count], job.oldCols, job.count);
    GreedyCuts(job.Line(), job.newCols, 0);
    assert job.lengths[..j + 1][..j] == job.lengths[..j];
    assert job.lengths[..|job.lengths|] == job.lengths;
    assert j < job.count ==> job.rows[..job.count][j] == job.rows[j];
    hide Greedy, Logical, CleanCut;
  }

  lemma {:induction false} StartsGrow(job: Job, i: nat, j: nat)
    requires job.Valid() && i <= j <= |job.lengths|
    ensures job.Start(i) <= job.Start(j)
    decreases j
  {
    if i < j {
      StartsGrow(job, i, j - 1);
      assert job.lengths[..j][..j - 1] == job.lengths[..j - 1];
    }
  }

  lemma OldRowFacts(job: Job, m: nat)
    requires job.Valid() && m < job.count
    ensures job.rows[..job.count][m] == job.rows[m] && |job.rows[m]| == job.oldCols && RowLength(job.rows[..job.count], m, job.oldCols) <= job.oldCols
    ensures job.Start(m) <= job.OldStart(m)
    ensures job.OldStart(m + 1) == job.OldStart(m) + RowLength(job.rows[..job.count], m, job.oldCols) <= |job.Line()|
    ensures forall k :: 0 <= k < RowLength(job.rows[..job.count], m, job.oldCols) ==> job.Line()[job.OldStart(m) + k] == job.rows[m][k]
  {
    hide RowLength, Logical, Greedy, RowOk;
    var rows := job.rows[..job.count];
    LogicalRow(rows, job.oldCols, m, job.count);
    forall k | 0 <= k < |job.lengths| ensures job.lengths[k] <= job.newCols {
      JobFacts(job, k);
    }
    NewRowsStartEarlier(rows, job.oldCols, job.newCols, job.lengths, m);
  }

  /** Cells of the old row `m` that have not been moved are still there. */
  lemma StillThere(job: Job, remaining: nat, m: nat, k: nat)
    requires job.Valid() && m < job.count && k < job.oldCols && job.OldStart(m) + k < remaining
    ensures job.CellAt(remaining, m, k) == job.rows[m][k]
  {
    OldRowFacts(job, m);
    hide Logical, Greedy, RowLength;
  }

  /** Which cells count as moved once `e` more have been moved to the new row `p`. */
  lemma OneMoreMoved(job: Job, p: nat, g: nat, e: nat, j: nat, k: nat)
    requires job.Valid() && p < |job.lengths| && e <= g <= job.lengths[p] && j < |job.rows| && k < |job.rows[j]|
    ensures if j == p && g - e <= k < g then job.Start(p) + k < |job.Line()| && job.CellAt(job.Start(p) + g - e, j, k) == job.Line()[job.Start(p) + k]
            else job.CellAt(job.Start(p) + g - e, j, k) == job.CellAt(job.Start(p) + g, j, k)
  {
    JobFacts(job, j);
    JobFacts(job, p);
    if j < p {
      StartsGrow(job, j + 1, p);
    } else if j > p {
      StartsGrow(job, p + 1, j);
    }
    hide Greedy, Logical, RowLength, RowOk;
  }

  /** Moving `e` cells from the old row `m` to the new row `p`. */
  lemma MoveCells(job: Job, before: seq<Cells>, after: seq<Cells>, p: nat, g: nat, m: nat, s: nat, e: nat)
    requires job.Valid() && p < |job.lengths| && m < job.count && e <= g <= job.lengths[p] && e <= s <= job.oldCols
    requires s <= RowLength(job.rows[..job.count], m, job.oldCols)
    requires job.Start(p) + g == job.OldStart(m) + s
    requires job.MovedTo(before, job.Start(p) + g)
    requires |after| == |before| && (forall j :: 0 <= j < |after| && j != p ==> after[j] == before[j]) && |after[p]| == |before[p]|
    requires g <= |before[p]| && s <= |before[m]|
    requires forall k :: 0 <= k < |after[p]| ==> after[p][k] == if g - e <= k < g then before[m][s - e + (k - (g - e))] else before[p][k]
    ensures job.MovedTo(after, job.Start(p) + g - e)
  {
    hide Greedy, Logical, RowLength, RowOk, Job.CellAt, Job.Start, Job.OldStart, Job.Line;
    OldRowFacts(job, m);
    forall j, k | 0 <= j < |job.rows| && 0 <= k < |job.rows[j]| ensures after[j][k] == job.CellAt(job.Start(p) + g - e, j, k) {
      OneMoreMoved(job, p, g, e, j, k);
      if j == p && g - e <= k < g {
        var col := s - e + (k - (g - e));
        StillThere(job, job.Start(p) + g, m, col);
        assert before[m][col] == job.CellAt(job.Start(p) + g, m, col);
        assert job.Line()[job.OldStart(m) + col] == job.rows[m][col];
      } else {
        assert after[j][k] == before[j][k];
      }
    }
  }

  /** Reading the length of an old row off the half moved rows gives the length it had. */
  lemma SameRowLength(job: Job, now: seq<Cells>, m: nat)
    requires job.Valid() && m + 1 < job.count && job.MovedTo(now, job.OldStart(m + 1))
    ensures Shaped(now[..job.count], job.oldCols)
    ensures RowLength(now[..job.count], m, job.oldCols) == RowLength(job.rows[..job.count], m, job.oldCols)
  {
    var r := job.OldStart(m + 1);
    JobFacts(job, m);
    OldRowFacts(job, m + 1);
    RowPart(job.rows[..job.count], m + 1, job.oldCols);
    assert now[m][job.oldCols - 1] == job.CellAt(r, m, job.oldCols - 1) == job.rows[m][job.oldCols - 1];
    assert now[m + 1][0] == job.CellAt(r, m + 1, 0) == job.rows[m + 1][0];
    hide Logical, Greedy, RowOk, TrimmedLength;
  }

  lemma OldRowsFilled(job: Job, m: nat)
    requires job.Valid() && m < job.count
    ensures m > 0 ==> job.OldStart(m) > 0
    ensures m + 1 == job.count ==> job.OldStart(m) + RowLength(job.rows[..job.count], m, job.oldCols) == |job.Line()|
  {
    if m > 0 {
      RowPart(job.rows[..job.count], m - 1, job.oldCols);
    }
    LogicalRow(job.rows[..job.count], job.oldCols, m, job.count);
    hide RowLength, Greedy, RowOk;
  }

  lemma Untouched(job: Job)
    requires job.Valid()
    ensures job.MovedTo(job.rows, |job.Line()|)
  {
    hide Logical, Greedy, RowLength, RowOk;
  }

  // ---------------------------------------------------------------- the texts on the side

  ghost predicate LinkedRows(rows: seq<Cells>, texts: seq<Texts>) {
    |texts| == |rows| && forall m :: 0 <= m < |rows| ==> Linked(rows[m], texts[m])
  }

  /** The cell `s` of the old row `m` is the cell `k` of the new row `j`. */
  ghost predicate Meets(rows: seq<Cells>, cols: nat, lengths: seq<nat>, m: nat, s: nat, j: nat, k: nat)
    requires RowsOk(rows, cols)
  {
    && m < |rows| && j < |lengths| && s < RowLength(rows, m, cols) && s < |rows[m]| && k < lengths[j]
    && |Logical(rows, cols, m)| + s == Sum(lengths[..j]) + k
  }

  /** The text that its own row brings for a cell; a row that moves to the right within its own line reads what it wrote. */
  ghost function OwnText(rows: seq<Cells>, texts: seq<Texts>, cols: nat, lengths: seq<nat>, m: nat, s: nat, j: nat): seq<nat>
    requires RowsOk(rows, cols) && m < |rows| == |texts| && j < |lengths| && s in texts[m]
  {
    var d := |Logical(rows, cols, m)| - Sum(lengths[..j]);
    if m == j && d >= 0 then TextCopied(texts[m], 0, d, true, s) else texts[m][s]
  }

  /** The row before has an old text beyond its end, and shares the new row. */
  ghost predicate Overwritten(rows: seq<Cells>, texts: seq<Texts>, cols: nat, lengths: seq<nat>, m: nat, s: nat, j: nat)
    requires RowsOk(rows, cols) && m < |rows| == |texts| && j < |lengths|
  {
    m > 0 && Sum(lengths[..j]) < |Logical(rows, cols, m)| && RowLength(rows, m - 1, cols) + s in texts[m - 1]
  }

  /** The text that a cell ends up with. */
  ghost function FinalText(rows: seq<Cells>, texts: seq<Texts>, cols: nat, lengths: seq<nat>, m: nat, s: nat, j: nat): seq<nat>
    requires RowsOk(rows, cols) && m < |rows| == |texts| && j < |lengths| && s in texts[m]
  {
    if Overwritten(rows, texts, cols, lengths, m, s, j) then texts[m - 1][RowLength(rows, m - 1, cols) + s]
    else OwnText(rows, texts, cols, lengths, m, s, j)
  }

  /** Every cell ends up with the text it had. */
  ghost predicate TextsStay(rows: seq<Cells>, texts: seq<Texts>, cols: nat, lengths: seq<nat>)
    requires RowsOk(rows, cols) && LinkedRows(rows, texts)
  {
    forall m: nat, s: nat, j: nat, k: nat :: Meets(rows, cols, lengths, m, s, j, k) && Flagged(rows[m][s]) ==>
      FinalText(rows, texts, cols, lengths, m, s, j) == texts[m][s]
  }

  /** The text of a cell when all but `remaining` cells have been moved. */
  ghost function TextAt(job: Job, texts: seq<Texts>, remaining: nat, m: nat, s: nat, j: nat): seq<nat>
    requires job.Valid() && m < job.count == |texts| && j < |job.lengths| && s in texts[m]
  {
    if remaining < job.OldStart(m) then FinalText(job.rows[..job.count], texts, job.oldCols, job.lengths, m, s, j)
    else OwnText(job.rows[..job.count], texts, job.oldCols, job.lengths, m, s, j)
  }

  ghost predicate TextMoved(job: Job, texts: seq<Texts>, now: seq<Texts>, remaining: nat, m: nat, s: nat, j: nat, k: nat)
    requires job.Valid() && LinkedRows(job.rows[..job.count], texts) && |now| == |job.rows|
    requires Meets(job.rows[..job.count], job.oldCols, job.lengths, m, s, j, k)
  {
    Flagged(job.rows[..job.count][m][s]) && remaining <= job.OldStart(m) + s ==> k in now[j] && now[j][k] == TextAt(job, texts, remaining, m, s, j)
  }

  ghost predicate TextsMovedTo(job: Job, texts: seq<Texts>, now: seq<Texts>, remaining: nat)
    requires job.Valid() && LinkedRows(job.rows[..job.count], texts)
  {
    && |now| == |job.rows|
    && forall m: nat, s: nat, j: nat, k: nat :: Meets(job.rows[..job.count], job.oldCols, job.lengths, m, s, j, k) ==> TextMoved(job, texts, now, remaining, m, s, j, k)
  }

  /** The rows up to the one that is read next have their texts as they were. */
  ghost predicate TextsUntouched(texts: seq<Texts>, now: seq<Texts>, m: int) {
    m < |texts| <= |now| && forall j :: 0 <= j <= m ==> now[j] == texts[j]
  }

  /** It is enough that only the first row of the line has combining characters. */
  lemma FirstRowStays(rows: seq<Cells>, texts: seq<Texts>, cols: nat, lengths: seq<nat>)
    requires RowsOk(rows, cols) && LinkedRows(rows, texts)
    requires forall m, s :: 1 <= m < |rows| && 0 <= s < |rows[m]| ==> !Flagged(rows[m][s])
    ensures TextsStay(rows, texts, cols, lengths)
  {
    hide RowOk, RowLength;
    forall m: nat, s: nat, j: nat, k: nat | Meets(rows, cols, lengths, m, s, j, k) && Flagged(rows[m][s])
      ensures FinalText(rows, texts, cols, lengths, m, s, j) == texts[m][s]
    {
      assert m == 0 && |Logical(rows, cols, 0)| == 0;
      assert Sum(lengths[..0]) == 0;
    }
  }

  /** Nor does a row suffer whose texts do not lie as far apart as it moves, if the row before has none behind its end. */
  lemma ApartStays(rows: seq<Cells>, texts: seq<Texts>, cols: nat, lengths: seq<nat>)
    requires RowsOk(rows, cols) && LinkedRows(rows, texts)
    requires forall m: nat, k :: m < |rows| && k in texts[m] ==> k < RowLength(rows, m, cols)
    requires forall m: nat, k, l ::
               m < |rows| && m < |lengths| && k in texts[m] && l in texts[m] && k < l ==> |Logical(rows, cols, m)| != Sum(lengths[..m]) + l - k
    ensures TextsStay(rows, texts, cols, lengths)
  {
    hide RowOk, RowLength, Logical;
    forall m: nat, s: nat, j: nat, k: nat | Meets(rows, cols, lengths, m, s, j, k) && Flagged(rows[m][s])
      ensures FinalText(rows, texts, cols, lengths, m, s, j) == texts[m][s]
    {
      assert Linked(rows[m], texts[m]);
      var d := |Logical(rows, cols, m)| - Sum(lengths[..j]);
      if m == j && d > 0 && s >= d && s - d in texts[m] {
        assert false;
      }
    }
  }

  function Narrow(code: nat): Cell {
    Cell([code], 1, 0)
  }

  /** Four letters, and on the second row an e with an acute and an o with a circumflex, spelled with combining accents. */
  function Accents(): (seq<Cells>, seq<Texts>) {
    ([[Narrow(97), Narrow(97), Narrow(97), Narrow(97)], [Narrow(COMBINED), Narrow(COMBINED), NullCell(0), NullCell(0)]],
     [map[], map[0 := [101, 769], 1 := [111, 770]]])
  }

  lemma AccentsLine()
    ensures var rows := Accents().0;
            RowsOk(rows, 4) && LinkedRows(rows, Accents().1) && RowLength(rows, 0, 4) == 4 && RowLength(rows, 1, 4) == 2
            && |Logical(rows, 4, 1)| == 4 && |Logical(rows, 4, 2)| == 6 && (forall k :: 0 <= k < 6 ==> Logical(rows, 4, 2)[k].width == 1)
  {
    var rows := Accents().0;
    assert RowOk(rows[0]) && RowOk(rows[1]);
    hide CellOk;
    assert TrimmedLength(rows[1]) == 2 by {
      assert rows[1][..3] == [Narrow(COMBINED), Narrow(COMBINED), NullCell(0)];
      assert rows[1][..3][..2] == [Narrow(COMBINED), Narrow(COMBINED)];
      assert TrimmedLength(rows[1]) == TrimmedLength(rows[1][..3]) == TrimmedLength(rows[1][..3][..2]) == 2;
    }
    assert Logical(rows, 4, 0) == [];
    assert Logical(rows, 4, 1) == rows[0][..4];
    assert Logical(rows, 4, 2) == Logical(rows, 4, 1) + rows[1][..2];
  }

  /** The failing input: narrowed from four columns to three the line loses its second accent. */
  lemma AccentLost()
    ensures var (rows, texts) := Accents();
            RowsOk(rows, 4) && LinkedRows(rows, texts) && Greedy(Logical(rows, 4, 2), 3, 0) == [3, 3] && !TextsStay(rows, texts, 4, [3, 3])
  {
    var (rows, texts) := Accents();
    AccentsLine();
    var line := Logical(rows, 4, 2);
    assert Greedy(line, 3, 6) == [];
    assert Greedy(line, 3, 3) == [3];
    hide RowOk, RowLength, Logical;
    var lengths := [3, 3];
    assert lengths[..1] == [3] && Sum([3]) == 3;
    assert Meets(rows, 4, lengths, 1, 1, 1, 2);
    assert Root(texts[1].Keys, 0, 1, 1) == Root(texts[1].Keys, 0, 1, 0) == 0;
    assert FinalText(rows, texts, 4, lengths, 1, 1, 1) == texts[1][0];
    assert texts[1][0][0] != texts[1][1][0];
  }

  lemma {:induction false} OldStartsGrow(job: Job, i: nat, j: nat)
    requires job.Valid() && i <= j <= job.count
    ensures job.OldStart(i) <= job.OldStart(j)
    decreases j
  {
    if i < j {
      OldStartsGrow(job, i, j - 1);
      OldRowFacts(job, j - 1);
    }
  }

  /** Where a cell is before and after. */
  lemma MeetsFacts(job: Job, m: nat, s: nat, j: nat, k: nat)
    requires job.Valid() && Meets(job.rows[..job.count], job.oldCols, job.lengths, m, s, j, k)
    ensures m < job.count && j < |job.lengths| && job.OldStart(m) + s == job.Start(j) + k
    ensures job.OldStart(m) <= job.OldStart(m) + s < job.OldStart(m + 1) <= |job.Line()|
    ensures job.Start(j) <= job.Start(j) + k < job.Start(j + 1)
    ensures m <= j && s < |job.rows[m]|
    ensures m + 1 < job.count ==> job.OldStart(m + 1) >= job.OldStart(m) + job.newCols
  {
    JobFacts(job, j);
    OldRowFacts(job, m);
    RowPart(job.rows[..job.count], m, job.oldCols);
    if j < m {
      StartsGrow(job, j + 1, m);
    }
    hide Logical, Greedy, RowLength, RowOk;
  }

  /** The counters in the loop: at the end of a new row, or at the end of an old one. */
  ghost predicate AtEnds(job: Job, p: nat, g: nat, m: nat, s: nat)
    requires job.Valid()
  {
    && m < job.count && p < |job.lengths| && m <= p && 0 < g <= job.lengths[p] && s <= RowLength(job.rows[..job.count], m, job.oldCols)
    && job.Start(p) + g == job.OldStart(m) + s
    && (g == job.lengths[p] || s == RowLength(job.rows[..job.count], m, job.oldCols))
  }

  /** Positions in other old rows lie before or behind. */
  lemma OldOrder(job: Job, m: nat, M: nat)
    requires job.Valid() && m < job.count && M < job.count
    ensures M > m ==> job.OldStart(m + 1) <= job.OldStart(M)
    ensures M < m ==> job.OldStart(M + 1) <= job.OldStart(m)
    ensures M > m + 1 ==> job.OldStart(m + 1) + job.newCols <= job.OldStart(M)
    ensures job.OldStart(m + 1) == job.OldStart(m) + RowLength(job.rows[..job.count], m, job.oldCols)
  {
    OldRowFacts(job, m);
    if M > m {
      OldStartsGrow(job, m + 1, M);
    } else if M < m {
      OldStartsGrow(job, M + 1, m);
    }
    if M > m + 1 {
      OldStartsGrow(job, m + 2, M);
      OldRowFacts(job, m + 1);
      RowPart(job.rows[..job.count], m + 1, job.oldCols);
    }
    hide Logical, Greedy, RowLength, RowOk;
  }

  lemma NewOrder(job: Job, p: nat, j: nat)
    requires job.Valid() && p < |job.lengths| && j < |job.lengths|
    ensures j > p ==> job.Start(p + 1) <= job.Start(j)
    ensures j < p ==> job.Start(j + 1) <= job.Start(p)
    ensures job.Start(p + 1) == job.Start(p) + job.lengths[p] <= job.Start(p) + job.newCols
  {
    JobFacts(job, p);
    if j < p {
      StartsGrow(job, j + 1, p);
    } else if j > p {
      StartsGrow(job, p + 1, j);
    }
    hide Logical, Greedy, RowLength, RowOk;
  }

  /** A cell that has been moved before stands in another new row, or is of the next old row. */
  lemma MovedBefore(job: Job, p: nat, g: nat, m: nat, s: nat, M: nat, S: nat, j: nat, k: nat)
    requires job.Valid() && AtEnds(job, p, g, m, s)
    requires Meets(job.rows[..job.count], job.oldCols, job.lengths, M, S, j, k) && job.OldStart(m) + s <= job.OldStart(M) + S
    ensures j == p ==> M == m + 1 && k == g + S && s == RowLength(job.rows[..job.count], m, job.oldCols) && job.OldStart(M) == job.OldStart(m) + s
    ensures j != p ==> p < j && job.Start(j) >= job.OldStart(m) + s
    ensures M >= m && (M > m ==> job.OldStart(M) >= job.OldStart(m) + s)
  {
    hide Logical, Greedy, RowLength, RowOk, Job.Start, Job.OldStart, Job.Valid;
    MeetsFacts(job, M, S, j, k);
    OldOrder(job, m, M);
    NewOrder(job, p, j);
  }

  /** A cell that is moved now stands in the row written to and comes from the row read. */
  lemma MovedNow(job: Job, p: nat, g: nat, m: nat, s: nat, e: nat, M: nat, S: nat, j: nat, k: nat)
    requires job.Valid() && AtEnds(job, p, g, m, s) && e <= s && e <= g
    requires Meets(job.rows[..job.count], job.oldCols, job.lengths, M, S, j, k)
    requires job.OldStart(m) + s - e <= job.OldStart(M) + S < job.OldStart(m) + s
    ensures j == p && M == m && s - e <= S < s && k == g - s + S
  {
    hide Logical, Greedy, RowLength, RowOk, Job.Start, Job.OldStart, Job.Valid;
    MeetsFacts(job, M, S, j, k);
    OldOrder(job, m, M);
    NewOrder(job, p, j);
  }

  /** The text of a cell moved before changes only if the row read now reaches into the same new row. */
  lemma TextChanges(job: Job, texts: seq<Texts>, p: nat, g: nat, m: nat, s: nat, e: nat, M: nat, S: nat, j: nat, k: nat)
    requires job.Valid() && AtEnds(job, p, g, m, s) && e <= s && e <= g && (e == s || e == g) && LinkedRows(job.rows[..job.count], texts)
    requires Meets(job.rows[..job.count], job.oldCols, job.lengths, M, S, j, k) && Flagged(job.rows[..job.count][M][S])
    requires job.OldStart(m) + s <= job.OldStart(M) + S
    ensures S in texts[M]
    ensures j != p ==> TextAt(job, texts, job.OldStart(m) + s - e, M, S, j) == TextAt(job, texts, job.OldStart(m) + s, M, S, j)
    ensures j == p ==>
              k >= g && m < p && TextAt(job, texts, job.OldStart(m) + s - e, M, S, j)
                == if k - g + s in texts[m] then texts[m][k - g + s] else TextAt(job, texts, job.OldStart(m) + s, M, S, j)
  {
    hide Logical, Greedy, RowLength, RowOk, OwnText, Linked;
    MovedBefore(job, p, g, m, s, M, S, j, k);
    MeetsFacts(job, M, S, j, k);
    assert Linked(job.rows[..job.count][M], texts[M]);
    FlagHasText(job.rows[..job.count][M], texts[M], S);
    if j == p {
      assert M == m + 1;
      RowPart(job.rows[..job.count], m, job.oldCols);
    }
  }

  lemma FlagHasText(data: Cells, texts: Texts, k: nat)
    requires Linked(data, texts) && k < |data| && Flagged(data[k])
    ensures k in texts
  {
  }

  /** One copy moves the texts of its cells, and perhaps others of the same new row. */
  lemma OneTextMoved(job: Job, texts: seq<Texts>, before: seq<Texts>, after: seq<Texts>, p: nat, g: nat, m: nat, s: nat, e: nat,
                     M: nat, S: nat, j: nat, k: nat)
    requires job.Valid() && AtEnds(job, p, g, m, s) && e <= s && e <= g && (e == s || e == g) && LinkedRows(job.rows[..job.count], texts)
    requires |before| == |after| == |job.rows| && (forall i :: 0 <= i < |after| && i != p ==> after[i] == before[i])
    requires m == p ==> s <= g
    requires TextsCopied(before[p], after[p], texts[m], s - e, g - e, m == p)
    requires Meets(job.rows[..job.count], job.oldCols, job.lengths, M, S, j, k)
    requires TextMoved(job, texts, before, job.OldStart(m) + s, M, S, j, k)
    ensures TextMoved(job, texts, after, job.OldStart(m) + s - e, M, S, j, k)
  {
    hide Logical, Greedy, RowLength, RowOk, TextAt, TextCopied, TextsCopied;
    TextThere(before[p], after[p], texts[m], s - e, g - e, m == p, k);
    if Flagged(job.rows[..job.count][M][S]) && job.OldStart(m) + s - e <= job.OldStart(M) + S {
      if job.OldStart(m) + s <= job.OldStart(M) + S {
        TextChanges(job, texts, p, g, m, s, e, M, S, j, k);
        if j == p {
          CopiedPlainly(texts[m], s - e, g - e, k - g + s);
        }
      } else {
        MovedNow(job, p, g, m, s, e, M, S, j, k);
        OwnTextCopied(job, texts, p, g, m, s, e, S);
      }
    }
  }

  lemma CopiedPlainly(src: Texts, srcCol: nat, dstCol: nat, r: nat)
    ensures r in src ==> TextCopied(src, srcCol, dstCol, false, r) == src[r]
  {
  }

  lemma OwnTextCopied(job: Job, texts: seq<Texts>, p: nat, g: nat, m: nat, s: nat, e: nat, S: nat)
    requires job.Valid() && AtEnds(job, p, g, m, s) && e <= s && e <= g && (e == s || e == g) && LinkedRows(job.rows[..job.count], texts)
    requires m == p ==> s <= g
    requires s - e <= S < s && S in texts[m]
    ensures TextCopied(texts[m], s - e, g - e, m == p, S) == TextAt(job, texts, job.OldStart(m) + s - e, m, S, p)
  {
    hide Logical, Greedy, RowLength, RowOk;
  }

  lemma MoveTexts(job: Job, texts: seq<Texts>, before: seq<Texts>, after: seq<Texts>, p: nat, g: nat, m: nat, s: nat, e: nat)
    requires job.Valid() && AtEnds(job, p, g, m, s) && e <= s && e <= g && (e == s || e == g) && LinkedRows(job.rows[..job.count], texts)
    requires |before| == |after| == |job.rows| && (forall i :: 0 <= i < |after| && i != p ==> after[i] == before[i])
    requires m == p ==> s <= g
    requires TextsUntouched(texts, before, m) && TextsCopied(before[p], after[p], before[m], s - e, g - e, m == p)
    requires TextsMovedTo(job, texts, before, job.OldStart(m) + s)
    ensures TextsMovedTo(job, texts, after, job.OldStart(m) + s - e)
    ensures TextsUntouched(texts, after, if s == e then m - 1 else m)
  {
    hide Logical, Greedy, RowLength, RowOk, TextMoved, TextsCopied, Meets;
    forall M: nat, S: nat, j: nat, k: nat | Meets(job.rows[..job.count], job.oldCols, job.lengths, M, S, j, k)
      ensures TextMoved(job, texts, after, job.OldStart(m) + s - e, M, S, j, k)
    {
      OneTextMoved(job, texts, before, after, p, g, m, s, e, M, S, j, k);
    }
  }

  /** A row that is read into itself is read to its start. */
  lemma WithinOneRow(job: Job, p: nat, g: nat, m: nat, s: nat)
    requires job.Valid() && AtEnds(job, p, g, m, s)
    ensures m < job.count && p < |job.lengths| && (m == p ==> s <= g)
    ensures g <= job.lengths[p] <= |job.rows[p]| && s <= job.oldCols == |job.rows[m]|
  {
    JobFacts(job, p);
    OldRowFacts(job, m);
    hide Logical, Greedy, RowLength, RowOk;
  }

  method RowLengthOf(lines: seq<StoredLine>, i: nat, cols: nat, ghost count: nat) returns (n: nat)
    requires i + 1 < count <= |lines| && Shaped(DataOf(lines)[..count], cols)
    ensures n == RowLength(DataOf(lines)[..count], i, cols)
  {
    ghost var rows := DataOf(lines)[..count];
    assert rows[i] == lines[i].data && rows[i + 1] == lines[i + 1].data;
    n := if lines[i].data[cols - 1].text == [] && lines[i].data[cols - 1].width == 1 && lines[i + 1].data[0].width == 2 then cols - 1
         else cols;
  }

  method LastRowLength(lines: seq<StoredLine>, count: nat, ghost job: Job) returns (n: nat)
    requires job.Valid() && job.rows == DataOf(lines) && job.count == count
    ensures n == RowLength(job.rows[..count], count - 1, job.oldCols)
  {
    n := TrimmedLength(lines[count - 1].data);
  }

  /** All but `remaining` cells have been moved, and the texts on the side with them. */
  ghost predicate HasMoved(job: Job, texts: seq<Texts>, lines: seq<StoredLine>, remaining: nat, m: int)
    requires job.Valid() && LinkedRows(job.rows[..job.count], texts)
    reads lines
  {
    && AllValid(lines) && job.MovedTo(DataOf(lines), remaining)
    && TextsMovedTo(job, texts, TextsOf(lines), remaining) && TextsUntouched(texts, TextsOf(lines), m)
  }

  method CopyInto(lines: seq<StoredLine>, p: nat, g: nat, m: nat, s: nat, e: nat, ghost job: Job, ghost texts: seq<Texts>)
    requires job.Valid() && LinkedRows(job.rows[..job.count], texts) && Distinct(lines) && |lines| == |job.rows|
    requires AtEnds(job, p, g, m, s) && e <= s && e <= g && (e == s || e == g)
    requires HasMoved(job, texts, lines, job.OldStart(m) + s, m)
    modifies lines
    ensures HasMoved(job, texts, lines, job.OldStart(m) + s - e, if s == e then m - 1 else m)
  {
    hide Greedy, Logical, RowLength, RowOk, Linked, LinkedRows, TextsCopied, CopyKeeps, TextsMovedTo, TextsUntouched, Job.MovedTo, Copied, AtEnds,
         Job.Start, Job.OldStart;
    ghost var before, was := DataOf(lines), TextsOf(lines);
    WithinOneRow(job, p, g, m, s);
    MovedSizes(job, before, job.OldStart(m) + s);
    lines[p].CopyCellsFrom(lines[m], s - e, g - e, e);
    ghost var after, now := DataOf(lines), TextsOf(lines);
    assert forall j :: 0 <= j < |lines| && j != p ==> lines[j] != lines[p];
    assert lines[m] == lines[p] <==> m == p;
    MoveBoth(job, texts, before, was, after, now, p, g, m, s, e);
  }

  lemma MoveBoth(job: Job, texts: seq<Texts>, before: seq<Cells>, was: seq<Texts>, after: seq<Cells>, now: seq<Texts>,
                 p: nat, g: nat, m: nat, s: nat, e: nat)
    requires job.Valid() && LinkedRows(job.rows[..job.count], texts) && AtEnds(job, p, g, m, s)
    requires e <= s && e <= g && (e == s || e == g)
    requires job.MovedTo(before, job.OldStart(m) + s) && TextsMovedTo(job, texts, was, job.OldStart(m) + s) && TextsUntouched(texts, was, m)
    requires |after| == |before| == |was| == |now| && (forall j :: 0 <= j < |after| && j != p ==> after[j] == before[j] && now[j] == was[j])
    requires s <= |before[m]| && g <= |before[p]| && after[p] == Copied(before[p], before[m], s - e, g - e, e)
    requires (m == p ==> s <= g) && TextsCopied(was[p], now[p], was[m], s - e, g - e, m == p)
    ensures job.MovedTo(after, job.OldStart(m) + s - e) && TextsMovedTo(job, texts, now, job.OldStart(m) + s - e)
    ensures TextsUntouched(texts, now, if s == e then m - 1 else m)
  {
    hide Greedy, Logical, RowLength, RowOk, LinkedRows, TextsCopied, TextsMovedTo, TextsUntouched, Job.MovedTo, Job.Start, Job.OldStart;
    WithinOneRow(job, p, g, m, s);
    MovedSizes(job, before, job.OldStart(m) + s);
    MoveCells(job, before, after, p, g, m, s, e);
    MoveTexts(job, texts, was, now, p, g, m, s, e);
  }

  lemma MovedSizes(job: Job, now: seq<Cells>, remaining: nat)
    requires job.Valid() && job.MovedTo(now, remaining)
    ensures |now| == |job.rows| && forall j :: 0 <= j < |now| ==> |now[j]| == |job.rows[j]|
  {
  }

  /** Both counters stand at the same cell of the logical line, `remaining` cells from its start. */
  ghost predicate InStep(job: Job, destLine: int, destCol: nat, srcLine: int, srcCol: nat, remaining: nat)
    requires job.Valid()
  {
    && -1 <= srcLine < job.count && -1 <= destLine < |job.lengths|
    && (srcLine < 0 ==> remaining == 0)
    && (srcLine >= 0 ==> destLine >= 0 && AtEnds(job, destLine, destCol, srcLine, srcCol) && job.OldStart(srcLine) + srcCol == remaining)
  }

  lemma FirstInStep(job: Job)
    requires job.Valid()
    ensures var p, m := |job.lengths| - 1, job.count - 1;
            InStep(job, p, job.lengths[p], m, RowLength(job.rows[..job.count], m, job.oldCols), |job.Line()|)
  {
    JobFacts(job, |job.lengths| - 1);
    OldRowsFilled(job, job.count - 1);
    hide Greedy, Logical, RowLength, RowOk;
  }

  /** Both counters go on by the same number of cells, into the row before where one is used up. */
  lemma NextInStep(job: Job, p: nat, g: nat, m: nat, s: nat, e: nat)
    requires job.Valid() && m < job.count && p < |job.lengths| && InStep(job, p, g, m, s, job.OldStart(m) + s)
    requires e == if s < g then s else g
    ensures g > 0
    ensures var p', m' := if g == e then p - 1 else p, if s == e then m - 1 else m;
            var g' := if g != e then g - e else if p' >= 0 then job.lengths[p'] else 0;
            var s' := if s != e then s - e else if m' >= 0 then RowLength(job.rows[..job.count], m', job.oldCols) else 0;
            && InStep(job, p', g', m', s', job.OldStart(m) + s - e)
            && (s == e && m > 0 ==> job.OldStart(m) + s - e == job.OldStart(m' + 1))
  {
    OldRowsFilled(job, m);
    assert job.Start(0) == 0;
    assert job.OldStart(0) == 0;
    if g == e && p > 0 {
      JobFacts(job, p - 1);
    }
    if s == e && m > 0 {
      OldRowFacts(job, m - 1);
      RowPart(job.rows[..job.count], m - 1, job.oldCols);
    }
    var p', m' := if g == e then p - 1 else p, if s == e then m - 1 else m;
    if m' >= 0 {
      DestNotBefore(job, p', m');
    }
    hide Greedy, Logical, RowLength, RowOk;
  }

  /** A new row that ends behind the start of an old one does not stand before it. */
  lemma DestNotBefore(job: Job, p: int, m: nat)
    requires job.Valid() && m < job.count && p < |job.lengths|
    ensures job.Start(m) <= job.OldStart(m)
    ensures 0 <= p < m ==> job.Start(p + 1) <= job.OldStart(m)
    ensures p < 0 ==> job.Start(0) <= job.OldStart(m)
  {
    OldRowFacts(job, m);
    if 0 <= p < m {
      StartsGrow(job, p + 1, m);
    } else if p < 0 {
      StartsGrow(job, 0, m);
    }
    hide Greedy, Logical, RowLength, RowOk;
  }

  lemma SourceLength(job: Job, texts: seq<Texts>, lines: seq<StoredLine>, m: nat)
    requires job.Valid() && LinkedRows(job.rows[..job.count], texts) && |lines| == |job.rows|
    requires m + 1 < job.count && HasMoved(job, texts, lines, job.OldStart(m + 1), m)
    ensures Shaped(DataOf(lines)[..job.count], job.oldCols)
    ensures RowLength(DataOf(lines)[..job.count], m, job.oldCols) == RowLength(job.rows[..job.count], m, job.oldCols)
  {
    hide Greedy, Logical, RowLength, RowOk, TextsMovedTo, TextsUntouched, LinkedRows, Shaped, Job.MovedTo, Job.OldStart;
    SameRowLength(job, DataOf(lines), m);
  }

  /** The body of the loop. */
  method MoveSome(lines: seq<StoredLine>, p: nat, g: nat, m: nat, s: nat, ghost job: Job, ghost texts: seq<Texts>, lengths: seq<nat>, oldCols: nat)
    returns (destLine: int, destCol: nat, srcLine: int, srcCol: nat)
    requires job.Valid() && LinkedRows(job.rows[..job.count], texts) && Distinct(lines) && |lines| == |job.rows|
    requires job.lengths == lengths && job.oldCols == oldCols
    requires m < job.count && p < |lengths| && InStep(job, p, g, m, s, job.OldStart(m) + s)
    requires HasMoved(job, texts, lines, job.OldStart(m) + s, m)
    modifies lines
    ensures var remaining := job.OldStart(m) + s - if s < g then s else g;
            InStep(job, destLine, destCol, srcLine, srcCol, remaining) && HasMoved(job, texts, lines, remaining, srcLine)
    ensures srcLine < m || (srcLine == m && srcCol < s)
  {
    hide Greedy, Logical, RowLength, RowOk, Linked, LinkedRows, HasMoved, AtEnds, Shaped, Job.Start, Job.OldStart;
    var cells := if s < g then s else g;
    NextInStep(job, p, g, m, s, cells);
    CopyInto(lines, p, g, m, s, cells, job, texts);
    destLine, destCol, srcLine, srcCol := p, g - cells, m, s - cells;
    if destCol == 0 {
      destLine := destLine - 1;
      if destLine >= 0 {
        destCol := lengths[destLine];
      }
    }
    if srcCol == 0 {
      srcLine := srcLine - 1;
      if srcLine >= 0 {
        SourceLength(job, texts, lines, srcLine);
        srcCol := RowLengthOf(lines, srcLine, oldCols, job.count);
      }
    }
  }

  /**
    Moves the cells of the old rows to the new ones, from the end to the front, in the same line
    objects.  No cell is overwritten before it has been moved; of the texts on the side it is known
    which one each cell ends up with.
    */
  method MoveBack(lines: seq<StoredLine>, count: nat, oldCols: nat, lengths: seq<nat>, ghost job: Job, ghost texts: seq<Texts>)
    requires job.Valid() && job.rows == DataOf(lines) && job.count == count && job.oldCols == oldCols && job.lengths == lengths
    requires LinkedRows(job.rows[..count], texts) && texts == TextsOf(lines)[..count] && AllValid(lines) && Distinct(lines)
    modifies lines
    ensures HasMoved(job, texts, lines, 0, -1)
  {
    hide Greedy, Logical, RowLength, RowOk, Linked, LinkedRows, HasMoved, AtEnds, Job.Line;
    FirstInStep(job);
    NothingMoved(job, texts, lines);
    JobFacts(job, |lengths| - 1);
    var destLine: int := |lengths| - 1;
    var destCol: nat := lengths[destLine];
    var srcLine: int := count - 1;
    var srcCol: nat := LastRowLength(lines, count, job);
    ghost var remaining: nat := |job.Line()|;
    while srcLine >= 0
      invariant InStep(job, destLine, destCol, srcLine, srcCol, remaining)
      invariant HasMoved(job, texts, lines, remaining, srcLine)
      decreases srcLine, srcCol
    {
      ghost var m, s, g := srcLine, srcCol, destCol;
      destLine, destCol, srcLine, srcCol := MoveSome(lines, destLine, destCol, srcLine, srcCol, job, texts, lengths, oldCols);
      remaining := job.OldStart(m) + s - if s < g then s else g;
    }
  }

  lemma NothingMoved(job: Job, texts: seq<Texts>, lines: seq<StoredLine>)
    requires job.Valid() && job.rows == DataOf(lines) && LinkedRows(job.rows[..job.count], texts)
    requires texts == TextsOf(lines)[..job.count] && AllValid(lines)
    ensures HasMoved(job, texts, lines, |job.Line()|, job.count - 1)
  {
    hide Greedy, Logical, RowLength, RowOk, Linked, LinkedRows, TextsMovedTo, TextsUntouched, Job.MovedTo;
    Untouched(job);
    NoTextMoved(job, texts, TextsOf(lines));
  }

  lemma NoTextMoved(job: Job, texts: seq<Texts>, now: seq<Texts>)
    requires job.Valid() && LinkedRows(job.rows[..job.count], texts) && |now| == |job.rows| && texts == now[..job.count]
    ensures TextsMovedTo(job, texts, now, |job.Line()|) && TextsUntouched(texts, now, job.count - 1)
  {
    hide Greedy, Logical, RowLength, RowOk, Linked, Meets, Job.OldStart, Job.Line;
    forall m: nat, s: nat, j: nat, k: nat | Meets(job.rows[..job.count], job.oldCols, job.lengths, m, s, j, k)
      ensures TextMoved(job, texts, now, |job.Line()|, m, s, j, k)
    {
      MeetsFacts(job, m, s, j, k);
    }
  }

  // ---------------------------------------------------------------- what is shown

  ghost function ShownRows(rows: seq<Cells>, texts: seq<Texts>): (shown: seq<Cells>)
    requires |texts| == |rows|
    ensures |shown| == |rows| && forall i :: 0 <= i < |rows| ==> shown[i] == Shown(rows[i], texts[i])
  {
    seq(|rows|, i requires 0 <= i < |rows| => Shown(rows[i], texts[i]))
  }

  lemma {:induction false} ShownTrimmed(data: Cells, texts: Texts)
    requires Linked(data, texts)
    ensures TrimmedLength(Shown(data, texts)) == TrimmedLength(data)
  {
    if |data| > 0 {
      var n := |data| - 1;
      assert Shown(data, texts)[..n] == Shown(data[..n], texts);
      ShownTrimmed(data[..n], texts);
      assert Shown(data, texts)[n] == ShownCell(data, texts, n);
    }
  }

  lemma ShownRowOk(data: Cells, texts: Texts)
    requires Linked(data, texts) && RowOk(data)
    ensures RowOk(Shown(data, texts))
  {
    var cells := Shown(data, texts);
    forall k | 0 <= k < |cells| ensures CellOk(cells, k) {
      assert CellOk(data, k);
      assert k > 0 ==> cells[k - 1] == ShownCell(data, texts, k - 1);
      assert k + 1 < |data| ==> cells[k + 1] == ShownCell(data, texts, k + 1);
    }
  }

  lemma ShownRowsOk(rows: seq<Cells>, texts: seq<Texts>, cols: nat)
    requires RowsOk(rows, cols) && LinkedRows(rows, texts)
    ensures RowsOk(ShownRows(rows, texts), cols)
    ensures forall i :: 0 <= i < |rows| ==> RowLength(ShownRows(rows, texts), i, cols) == RowLength(rows, i, cols)
  {
    var shown := ShownRows(rows, texts);
    forall i | 0 <= i < |rows| ensures RowOk(shown[i]) {
      ShownRowOk(rows[i], texts[i]);
    }
    hide RowOk, TrimmedLength;
    forall i | 0 <= i < |rows| ensures RowLength(shown, i, cols) == RowLength(rows, i, cols) {
      ShownTrimmed(rows[i], texts[i]);
      assert shown[i][cols - 1] == ShownCell(rows[i], texts[i], cols - 1);
      assert i + 1 < |rows| ==> shown[i + 1][0] == ShownCell(rows[i + 1], texts[i + 1], 0);
    }
  }

  /** The logical line as it is shown. */
  ghost function ShownLine(rows: seq<Cells>, texts: seq<Texts>, cols: nat): Cells
    requires RowsOk(rows, cols) && LinkedRows(rows, texts)
  {
    ShownRowsOk(rows, texts, cols);
    Logical(ShownRows(rows, texts), cols, |rows|)
  }

  lemma {:induction false} ShownLengths(rows: seq<Cells>, texts: seq<Texts>, cols: nat, n: nat)
    requires RowsOk(rows, cols) && LinkedRows(rows, texts) && RowsOk(ShownRows(rows, texts), cols) && n <= |rows|
    ensures |Logical(ShownRows(rows, texts), cols, n)| == |Logical(rows, cols, n)|
  {
    hide RowLength, RowOk, Linked, Shown;
    if n > 0 {
      ShownLengths(rows, texts, cols, n - 1);
      ShownRowsOk(rows, texts, cols);
      RowPart(rows, n - 1, cols);
      RowPart(ShownRows(rows, texts), n - 1, cols);
    }
  }

  lemma ShownAt(rows: seq<Cells>, texts: seq<Texts>, cols: nat, m: nat, s: nat)
    requires RowsOk(rows, cols) && LinkedRows(rows, texts) && m < |rows| && s < RowLength(rows, m, cols)
    ensures |ShownLine(rows, texts, cols)| == |Logical(rows, cols, |rows|)|
    ensures s < |rows[m]| && |Logical(rows, cols, m)| + s < |ShownLine(rows, texts, cols)|
    ensures ShownLine(rows, texts, cols)[|Logical(rows, cols, m)| + s] == ShownCell(rows[m], texts[m], s)
  {
    hide RowLength, Logical, RowOk, Linked;
    ShownRowsOk(rows, texts, cols);
    ShownLengths(rows, texts, cols, m);
    ShownLengths(rows, texts, cols, |rows|);
    LogicalRow(rows, cols, m, |rows|);
    LogicalRow(ShownRows(rows, texts), cols, m, |rows|);
  }

  lemma {:induction false} WhereFrom(rows: seq<Cells>, cols: nat, n: nat, y: nat) returns (m: nat, s: nat)
    requires RowsOk(rows, cols) && n <= |rows| && y < |Logical(rows, cols, n)|
    ensures m < n && s < RowLength(rows, m, cols) && s < |rows[m]| && |Logical(rows, cols, m)| + s == y
  {
    RowPart(rows, n - 1, cols);
    if y < |Logical(rows, cols, n - 1)| {
      m, s := WhereFrom(rows, cols, n - 1, y);
    } else {
      m, s := n - 1, y - |Logical(rows, cols, n - 1)|;
    }
    hide RowLength, RowOk;
  }

  lemma CellShown(job: Job, texts: seq<Texts>, now: seq<Cells>, nowTexts: seq<Texts>, m: nat, s: nat, j: nat, k: nat)
    requires job.Valid() && LinkedRows(job.rows[..job.count], texts)
    requires |now| == |nowTexts| == |job.rows| && job.MovedTo(now, 0) && TextsMovedTo(job, texts, nowTexts, 0) && Meets(job.rows[..job.count], job.oldCols, job.lengths, m, s, j, k)
    ensures k < |now[j]| && job.Start(j) + k < |ShownLine(job.rows[..job.count], texts, job.oldCols)|
    ensures Shown(now[j], nowTexts[j])[k] == ShownLine(job.rows[..job.count], texts, job.oldCols)[job.Start(j) + k]
            <==> (Flagged(job.rows[..job.count][m][s]) ==>
                    FinalText(job.rows[..job.count], texts, job.oldCols, job.lengths, m, s, j) == texts[m][s])
  {
    hide Greedy, Logical, RowLength, RowOk, FinalText, ShownLine;
    MeetsFacts(job, m, s, j, k);
    JobFacts(job, j);
    OldRowFacts(job, m);
    ShownAt(job.rows[..job.count], texts, job.oldCols, m, s);
    assert now[j][k] == job.CellAt(0, j, k) == job.rows[m][s];
    assert TextMoved(job, texts, nowTexts, 0, m, s, j, k);
    if Flagged(job.rows[m][s]) {
      FinallyThere(job, texts, m, s, j);
    }
  }

  lemma FinallyThere(job: Job, texts: seq<Texts>, m: nat, s: nat, j: nat)
    requires job.Valid() && LinkedRows(job.rows[..job.count], texts) && m < job.count && j < |job.lengths| && s in texts[m]
    ensures TextAt(job, texts, 0, m, s, j) == FinalText(job.rows[..job.count], texts, job.oldCols, job.lengths, m, s, j)
  {
    OldRowsFilled(job, m);
    hide Greedy, Logical, RowLength, RowOk, OwnText;
  }

  /** Row `j` of the new rows starts with its piece of the line. */
  ghost predicate HoldsPiece(cells: Cells, line: Cells, lengths: seq<nat>, j: nat) {
    && j < |lengths| && lengths[j] <= |cells|
    && Sum(lengths[..j]) <= Sum(lengths[..j + 1]) <= |line|
    && cells[..lengths[j]] == line[Sum(lengths[..j])..Sum(lengths[..j + 1])]
  }

  lemma RowHoldsPiece(job: Job, now: seq<Cells>, j: nat)
    requires job.Valid() && job.MovedTo(now, 0) && j < |now|
    ensures HoldsPiece(now[j], job.Line(), job.lengths, j) && job.lengths[j] <= job.newCols <= |now[j]|
  {
    JobFacts(job, j);
    hide Greedy, Logical, RowOk;
    forall k | 0 <= k < job.lengths[j] ensures now[j][k] == job.Line()[job.Start(j)..job.Start(j + 1)][k] {
      assert now[j][k] == job.CellAt(0, j, k);
    }
  }

  /** The new rows show their pieces of the line if and only if every cell ends up with the text it had. */
  lemma PiecesShown(job: Job, texts: seq<Texts>, now: seq<Cells>, nowTexts: seq<Texts>)
    requires job.Valid() && LinkedRows(job.rows[..job.count], texts)
    requires |now| == |nowTexts| == |job.rows| && job.MovedTo(now, 0) && TextsMovedTo(job, texts, nowTexts, 0)
    ensures (forall j :: 0 <= j < |now| ==>
               HoldsPiece(Shown(now[j], nowTexts[j]), ShownLine(job.rows[..job.count], texts, job.oldCols), job.lengths, j))
            <==> TextsStay(job.rows[..job.count], texts, job.oldCols, job.lengths)
  {
    hide Greedy, Logical, RowLength, RowOk, FinalText, ShownLine, TextsMovedTo, Job.MovedTo, HoldsPiece, Job.Start;
    var rows, line := job.rows[..job.count], ShownLine(job.rows[..job.count], texts, job.oldCols);
    if TextsStay(rows, texts, job.oldCols, job.lengths) {
      forall j: nat | j < |now| ensures HoldsPiece(Shown(now[j], nowTexts[j]), line, job.lengths, j) {
        PieceShown(job, texts, now, nowTexts, j);
      }
    }
    if forall j :: 0 <= j < |now| ==> HoldsPiece(Shown(now[j], nowTexts[j]), line, job.lengths, j) {
      forall m: nat, s: nat, j: nat, k: nat | Meets(rows, job.oldCols, job.lengths, m, s, j, k) && Flagged(rows[m][s])
        ensures FinalText(rows, texts, job.oldCols, job.lengths, m, s, j) == texts[m][s]
      {
        CellShown(job, texts, now, nowTexts, m, s, j, k);
        CellOfPiece(job, Shown(now[j], nowTexts[j]), line, m, s, j, k);
      }
    }
  }

  lemma CellOfPiece(job: Job, cells: Cells, line: Cells, m: nat, s: nat, j: nat, k: nat)
    requires job.Valid() && HoldsPiece(cells, line, job.lengths, j)
    requires Meets(job.rows[..job.count], job.oldCols, job.lengths, m, s, j, k)
    ensures k < |cells| && job.Start(j) + k < |line| && cells[k] == line[job.Start(j) + k]
  {
    JobFacts(job, j);
    hide Greedy, Logical, RowLength, RowOk;
    assert cells[..job.lengths[j]][k] == line[Sum(job.lengths[..j])..Sum(job.lengths[..j + 1])][k];
  }

  lemma PieceShown(job: Job, texts: seq<Texts>, now: seq<Cells>, nowTexts: seq<Texts>, j: nat)
    requires job.Valid() && LinkedRows(job.rows[..job.count], texts) && j < |now|
    requires |now| == |nowTexts| == |job.rows| && job.MovedTo(now, 0) && TextsMovedTo(job, texts, nowTexts, 0)
    requires TextsStay(job.rows[..job.count], texts, job.oldCols, job.lengths)
    ensures HoldsPiece(Shown(now[j], nowTexts[j]), ShownLine(job.rows[..job.count], texts, job.oldCols), job.lengths, j)
  {
    hide Greedy, Logical, RowLength, RowOk, FinalText, ShownLine, TextsMovedTo, Flagged;
    var rows := job.rows[..job.count];
    var line := ShownLine(rows, texts, job.oldCols);
    JobFacts(job, j);
    RowHoldsPiece(job, now, j);
    assert RowLength(rows, 0, job.oldCols) >= 0;
    ShownLineLength(rows, texts, job.oldCols);
    forall k: nat | k < job.lengths[j] ensures Shown(now[j], nowTexts[j])[k] == line[job.Start(j) + k] {
      var m, s := WhereFrom(rows, job.oldCols, job.count, job.Start(j) + k);
      assert Meets(rows, job.oldCols, job.lengths, m, s, j, k);
      CellShown(job, texts, now, nowTexts, m, s, j, k);
    }
  }

  lemma ShownLineLength(rows: seq<Cells>, texts: seq<Texts>, cols: nat)
    requires RowsOk(rows, cols) && LinkedRows(rows, texts)
    ensures |ShownLine(rows, texts, cols)| == |Logical(rows, cols, |rows|)|
  {
    ShownRowsOk(rows, texts, cols);
    ShownLengths(rows, texts, cols, |rows|);
  }

  /** What is behind the piece does not matter. */
  lemma SamePiece(cells: Cells, same: Cells, line: Cells, lengths: seq<nat>, j: nat)
    requires j < |lengths| && lengths[j] <= |cells| == |same| && cells[..lengths[j]] == same[..lengths[j]]
    ensures HoldsPiece(cells, line, lengths, j) <==> HoldsPiece(same, line, lengths, j)
  {
  }

  /** A cleared cell behind the piece, shown or stored. */
  lemma ClearedBehind(data: Cells, cleared: Cells, texts: Texts, line: Cells, shown: Cells, lengths: seq<nat>, j: nat, attr: int)
    requires j < |lengths| && lengths[j] <= |data|
    requires cleared == data || (lengths[j] < |data| && cleared == data[lengths[j] := NullCell(attr)])
    ensures HoldsPiece(data, line, lengths, j) <==> HoldsPiece(cleared, line, lengths, j)
    ensures HoldsPiece(Shown(data, texts), shown, lengths, j) <==> HoldsPiece(Shown(cleared, texts), shown, lengths, j)
    ensures Linked(data, texts) ==> Linked(cleared, texts)
  {
    hide HoldsPiece;
    assert data[..lengths[j]] == cleared[..lengths[j]];
    assert Shown(data, texts)[..lengths[j]] == Shown(cleared, texts)[..lengths[j]];
    SamePiece(data, cleared, line, lengths, j);
    SamePiece(Shown(data, texts), Shown(cleared, texts), shown, lengths, j);
  }

  method NewLines(count: nat, cols: nat, attr: int) returns (lines: seq<StoredLine>)
    ensures |lines| == count && Distinct(lines) && fresh(lines) && AllValid(lines)
    ensures forall l :: l in lines ==> |l.data| == cols
  {
    lines := [];
    for k := 0 to count
      invariant |lines| == k && Distinct(lines) && fresh(lines) && AllValid(lines)
      invariant forall l :: l in lines ==> |l.data| == cols
    {
      var l := new StoredLine(cols, attr, true);
      lines := lines + [l];
    }
  }

  function Cleared(data: Cells, length: nat, newCols: nat, attr: int): Cells {
    if length < newCols && length < |data| then data[length := NullCell(attr)] else data
  }

  /** Clears the cell behind a row that was cut early. */
  method ClearBehind(lines: seq<StoredLine>, lengths: seq<nat>, newCols: nat, attr: int)
    requires Distinct(lines) && |lines| == |lengths| && AllValid(lines)
    requires forall j :: 0 <= j < |lines| ==> lengths[j] <= newCols <= |lines[j].data|
    modifies lines
    ensures AllValid(lines)
    ensures forall j :: 0 <= j < |lines| ==>
              lines[j].data == Cleared(old(lines[j].data), lengths[j], newCols, attr) && lines[j].combined == old(lines[j].combined)
  {
    for t := 0 to |lines|
      invariant AllValid(lines)
      invariant forall j :: t <= j < |lines| ==> lines[j].data == old(lines[j].data)
      invariant forall j :: 0 <= j < t ==> lines[j].data == Cleared(old(lines[j].data), lengths[j], newCols, attr)
      invariant forall j :: 0 <= j < |lines| ==> lines[j].combined == old(lines[j].combined)
    {
      if lengths[t] < newCols {
        lines[t].SetCell(lengths[t], NullCell(attr));
      }
    }
  }

  lemma AllLinked(lines: seq<StoredLine>)
    requires AllValid(lines)
    ensures LinkedRows(DataOf(lines), TextsOf(lines))
  {
    forall m | 0 <= m < |lines| ensures Linked(lines[m].data, lines[m].combined) {
      assert lines[m].Valid();
    }
  }

  /** Cuts and moves. */
  method Spread(lines: seq<StoredLine>, oldCols: nat, newCols: nat, attr: int)
    returns (all: seq<StoredLine>, lengths: seq<nat>, ghost job: Job)
    requires Distinct(lines) && RowsOk(DataOf(lines), oldCols) && 2 <= newCols < oldCols && AllValid(lines)
    requires Logical(DataOf(lines), oldCols, |lines|) != []
    modifies lines
    ensures lines <= all && |all| == |lengths| && fresh(all[|lines|..]) && Distinct(all) && AllValid(all)
    ensures job.Valid() && job.rows[..job.count] == old(DataOf(lines)) && job.lengths == lengths && job.oldCols == oldCols && job.newCols == newCols
    ensures LinkedRows(old(DataOf(lines)), old(TextsOf(lines)))
    ensures job.MovedTo(DataOf(all), 0) && TextsMovedTo(job, old(TextsOf(lines)), TextsOf(all), 0)
  {
    hide Greedy, Logical, RowLength, RowOk, Job.MovedTo, TextsMovedTo;
    var rows := RowsOf(lines);
    ghost var texts := TextsOf(lines);
    AllLinked(lines);
    lengths := SmallerLineLengths(rows, oldCols, newCols);
    EnoughRows(rows, oldCols, newCols, lengths);
    var more := NewLines(|lengths| - |lines|, newCols, attr);
    all := lines + more;
    job := Job(DataOf(all), |lines|, oldCols, newCols, lengths);
    assert job.rows[..job.count] == rows;
    assert job.Valid();
    assert TextsOf(all)[..job.count] == texts;
    MoveBack(all, |lines|, oldCols, lengths, job, texts);
  }

  /**
    All for one wrapped line: new lengths, new rows, the cells moved.  The codes, widths and
    attributes all arrive; the line is shown as it was if and only if every text stays.
    */
  method Rewrap(lines: seq<StoredLine>, oldCols: nat, newCols: nat, attr: int) returns (all: seq<StoredLine>, lengths: seq<nat>)
    requires Distinct(lines) && RowsOk(DataOf(lines), oldCols) && 2 <= newCols < oldCols && AllValid(lines)
    requires LinkedRows(DataOf(lines), TextsOf(lines))
    requires Logical(DataOf(lines), oldCols, |lines|) != []
    modifies lines
    ensures lines <= all && |all| == |lengths| && fresh(all[|lines|..]) && Distinct(all) && AllValid(all)
    ensures lengths == Greedy(old(Logical(DataOf(lines), oldCols, |lines|)), newCols, 0)
    ensures forall j :: 0 <= j < |all| ==> HoldsPiece(all[j].data, old(Logical(DataOf(lines), oldCols, |lines|)), lengths, j)
    ensures (forall j :: 0 <= j < |all| ==> HoldsPiece(all[j].Cells(), old(ShownLine(DataOf(lines), TextsOf(lines), oldCols)), lengths, j))
            <==> TextsStay(old(DataOf(lines)), old(TextsOf(lines)), oldCols, lengths)
    ensures forall j :: 0 <= j < |all| && lengths[j] < newCols ==> lengths[j] < |all[j].data| && all[j].Cells()[lengths[j]] == NullCell(attr)
  {
    hide Greedy, Logical, RowLength, RowsOk, HoldsPiece, ShownLine, TextsStay, Job.MovedTo, TextsMovedTo, LinkedRows, Linked;
    ghost var rows, texts := DataOf(lines), TextsOf(lines);
    ghost var line, shown := Logical(rows, oldCols, |lines|), ShownLine(rows, texts, oldCols);
    ghost var job;
    all, lengths, job := Spread(lines, oldCols, newCols, attr);
    ghost var moved, with := DataOf(all), TextsOf(all);
    forall j | 0 <= j < |all| ensures HoldsPiece(moved[j], line, lengths, j) && lengths[j] <= newCols <= |moved[j]| {
      MovedSizes(job, moved, 0);
      RowHoldsPiece(job, moved, j);
    }
    PiecesShown(job, texts, moved, with);
    assert forall j :: |lines| <= j < |all| ==> all[j] == all[|lines|..][j - |lines|];
    ClearBehind(all, lengths, newCols, attr);
    forall j | 0 <= j < |all|
      ensures HoldsPiece(all[j].data, line, lengths, j)
      ensures HoldsPiece(all[j].Cells(), shown, lengths, j) <==> HoldsPiece(Shown(moved[j], with[j]), shown, lengths, j)
    {
      if lengths[j] < newCols {
        ClearedBehind(moved[j], all[j].data, with[j], line, shown, lengths, j, attr);
      }
    }
  }

  method RowsOf(lines: seq<StoredLine>) returns (rows: seq<Cells>)
    ensures rows == DataOf(lines)
  {
    rows := [];
    for k := 0 to |lines|
      invariant |rows| == k && forall i :: 0 <= i < k ==> rows[i] == lines[i].data
    {
      rows := rows + [lines[k].data];
    }
  }
}
