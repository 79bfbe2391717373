/**
  How a line stores its cells: one word for each cell, and the text of those that were joined by
  combining characters on the side, under their columns.

  For whoever sets, reads or joins single cells the line is a sequence of cells with text.  Copying
  cells from line to line is the exception: it moves the texts on the side one by one, upwards.
  */
module LineStorage {
  import opened BufferLine
  import opened WideCells

  type Texts = map<nat, seq<nat>>

  /** The flag in place of a code: the text of the cell is kept on the side. */
  const COMBINED := 0x20_0000

  predicate Flagged(c: Cell) {
    c.text == [COMBINED]
  }

  function ShownCell(data: Cells, texts: Texts, k: nat): Cell
    requires k < |data|
  {
    if Flagged(data[k]) && k in texts then data[k].(text := texts[k]) else data[k]
  }

  function Shown(data: Cells, texts: Texts): (cells: Cells)
    ensures |cells| == |data| && forall k :: 0 <= k < |cells| ==> cells[k] == ShownCell(data, texts, k)
  {
    seq(|data|, k requires 0 <= k < |data| => ShownCell(data, texts, k))
  }

  /** A word holds one code, or the flag; every flag has its text.  There may be texts without a flag: clearing a cell leaves them behind. */
  ghost predicate Linked(data: Cells, texts: Texts) {
    && (forall k :: 0 <= k < |data| ==> |data[k].text| <= 1)
    && (forall k :: 0 <= k < |data| && Flagged(data[k]) ==> k in texts)
    && (forall k :: k in texts ==> |texts[k]| >= 2)
  }

  predicate Storable(c: Cell) {
    c.text != [COMBINED]
  }

  // ---------------------------------------------------------------- copying texts

  /** What a copy within one line, `d` columns to the right, finds at `r`: what it has put there itself, if anything. */
  function Root(keys: set<nat>, from: nat, d: nat, r: nat): (q: nat)
    ensures q <= r && (r in keys ==> q in keys)
  {
    if d > 0 && r >= from + d && r - d in keys then Root(keys, from, d, r - d) else r
  }

  /** The text that reaches the cell `r - srcCol` columns behind `dstCol`. */
  function TextCopied(src: Texts, srcCol: nat, dstCol: nat, same: bool, r: nat): seq<nat>
    requires r in src && (same ==> srcCol <= dstCol)
  {
    src[if same then Root(src.Keys, srcCol, dstCol - srcCol, r) else r]
  }

  /** All texts from `srcCol` on have been copied, however far to the right they are. */
  ghost predicate TextsCopied(before: Texts, after: Texts, src: Texts, srcCol: nat, dstCol: nat, same: bool)
    requires same ==> srcCol <= dstCol
  {
    && (forall k: nat :: k in after <==> k in before || (k >= dstCol && k - dstCol + srcCol in src))
    && (forall k: nat :: k in after ==>
          after[k] == if k >= dstCol && k - dstCol + srcCol in src then TextCopied(src, srcCol, dstCol, same, k - dstCol + srcCol)
                      else before[k])
  }

  /** Those before `below` have been copied. */
  ghost predicate TextsCopiedBelow(before: Texts, after: Texts, src: Texts, srcCol: nat, dstCol: nat, same: bool, below: nat)
    requires same ==> srcCol <= dstCol
  {
    && (forall k: nat :: k in after <==> k in before || (dstCol <= k < dstCol + below - srcCol && k - dstCol + srcCol in src))
    && (forall k: nat :: k in after ==>
          after[k] == if dstCol <= k < dstCol + below - srcCol && k - dstCol + srcCol in src
                      then TextCopied(src, srcCol, dstCol, same, k - dstCol + srcCol) else before[k])
  }

  ghost predicate Ascending(keys: seq<nat>) {
    forall i, j :: 0 <= i < j < |keys| ==> keys[i] < keys[j]
  }

  function Insert(keys: seq<nat>, r: nat): (all: seq<nat>)
    requires Ascending(keys) && r !in keys
    ensures Ascending(all) && forall k :: k in all <==> k == r || k in keys
  {
    if keys == [] || r < keys[0] then [r] + keys
    else
      var rest := Insert(keys[1..], r);
      assert forall i :: 0 <= i < |rest| ==> rest[i] in rest;
      [keys[0]] + rest
  }

  /** From `below` on there are just the keys from the `n`th on. */
  ghost predicate Left(keys: seq<nat>, texts: Texts, n: nat, below: nat)
    requires n <= |keys|
  {
    && Ascending(keys) && (forall i :: n <= i < |keys| ==> keys[i] in texts && below <= keys[i])
    && (forall r :: r in texts && r >= below ==> r in keys[n..])
  }

  method KeysOf(texts: Texts) returns (keys: seq<nat>)
    ensures Left(keys, texts, 0, 0)
  {
    keys := [];
    var rest := texts.Keys;
    while rest != {}
      invariant Ascending(keys) && rest <= texts.Keys && forall k :: k in keys <==> k in texts.Keys - rest
      decreases |rest|
    {
      var r :| r in rest;
      rest := rest - {r};
      keys := Insert(keys, r);
    }
    assert forall i :: 0 <= i < |keys| ==> keys[i] in keys;
  }

  lemma NextKey(keys: seq<nat>, texts: Texts, n: nat, below: nat)
    requires n < |keys| && Left(keys, texts, n, below)
    ensures keys[n] in texts && below <= keys[n] && forall q :: below <= q < keys[n] ==> q !in texts
    ensures Left(keys, texts, n + 1, keys[n] + 1)
  {
    forall q | q in texts && q >= below ensures q >= keys[n] {
      var i :| n <= i < |keys| && keys[i] == q;
    }
    forall r | r in texts && r >= keys[n] + 1 ensures r in keys[n + 1..] {
      var i :| n <= i < |keys| && keys[i] == r;
      assert keys[n + 1..][i - n - 1] == r;
    }
  }

  /** What is read at `r` when all texts before it have been copied. */
  lemma TextFound(before: Texts, after: Texts, src: Texts, srcCol: nat, dstCol: nat, same: bool, below: nat, r: nat)
    requires (same ==> srcCol <= dstCol && before == src) && srcCol <= r && r in src && below <= r
    requires forall q :: below <= q < r ==> q !in src
    requires TextsCopiedBelow(before, after, src, srcCol, dstCol, same, below)
    ensures if same then r in after && after[r] == TextCopied(src, srcCol, dstCol, same, r) else src[r] == TextCopied(src, srcCol, dstCol, same, r)
  {
    if same && r >= dstCol && dstCol > srcCol && r - dstCol + srcCol in src {
      assert r - dstCol + srcCol < below;
    }
  }

  lemma TextStep(before: Texts, after: Texts, src: Texts, srcCol: nat, dstCol: nat, same: bool, below: nat, r: nat)
    requires (same ==> srcCol <= dstCol) && srcCol <= r && r in src && below <= r
    requires forall q :: below <= q < r ==> q !in src
    requires TextsCopiedBelow(before, after, src, srcCol, dstCol, same, below)
    ensures TextsCopiedBelow(before, after[r - srcCol + dstCol := TextCopied(src, srcCol, dstCol, same, r)], src, srcCol, dstCol, same, r + 1)
  {
    hide TextCopied;
  }

  lemma NothingCopied(before: Texts, src: Texts, srcCol: nat, dstCol: nat, same: bool)
    requires same ==> srcCol <= dstCol
    ensures TextsCopiedBelow(before, before, src, srcCol, dstCol, same, 0)
  {
  }

  /** One step of the loop: the text found at the next key is put where it belongs. */
  lemma CopyNext(before: Texts, after: Texts, src: Texts, srcCol: nat, dstCol: nat, same: bool, keys: seq<nat>, n: nat, below: nat)
    requires (same ==> srcCol <= dstCol && before == src) && n < |keys| && Left(keys, src, n, below)
    requires TextsCopiedBelow(before, after, src, srcCol, dstCol, same, below)
    ensures keys[n] in src && Left(keys, src, n + 1, keys[n] + 1)
    ensures keys[n] < srcCol ==> TextsCopiedBelow(before, after, src, srcCol, dstCol, same, keys[n] + 1)
    ensures keys[n] >= srcCol && same ==> keys[n] in after
    ensures keys[n] >= srcCol ==>
              TextsCopiedBelow(before, after[keys[n] - srcCol + dstCol := if same then after[keys[n]] else src[keys[n]]], src, srcCol, dstCol, same,
                               keys[n] + 1)
  {
    hide TextsCopiedBelow, TextCopied, Left;
    NextKey(keys, src, n, below);
    if keys[n] < srcCol {
      NothingToCopy(before, after, src, srcCol, dstCol, same, below, keys[n] + 1);
    } else {
      TextFound(before, after, src, srcCol, dstCol, same, below, keys[n]);
      TextStep(before, after, src, srcCol, dstCol, same, below, keys[n]);
    }
  }

  /** In front of `srcCol` there is nothing to copy. */
  lemma NothingToCopy(before: Texts, after: Texts, src: Texts, srcCol: nat, dstCol: nat, same: bool, below: nat, next: nat)
    requires (same ==> srcCol <= dstCol) && below <= next <= srcCol
    requires TextsCopiedBelow(before, after, src, srcCol, dstCol, same, below)
    ensures TextsCopiedBelow(before, after, src, srcCol, dstCol, same, next)
  {
  }

  lemma CopyDone(before: Texts, after: Texts, src: Texts, srcCol: nat, dstCol: nat, same: bool, keys: seq<nat>, below: nat)
    requires (same ==> srcCol <= dstCol) && Left(keys, src, |keys|, below)
    requires TextsCopiedBelow(before, after, src, srcCol, dstCol, same, below)
    ensures TextsCopied(before, after, src, srcCol, dstCol, same)
  {
    hide TextCopied;
    assert forall r :: r in src ==> r < below;
  }

  // ---------------------------------------------------------------- copying cells

  function Copied(dst: Cells, src: Cells, srcCol: nat, dstCol: nat, length: nat): (cells: Cells)
    requires srcCol + length <= |src| && dstCol + length <= |dst|
    ensures |cells| == |dst|
    ensures forall k :: 0 <= k < |cells| ==>
              cells[k] == if dstCol <= k < dstCol + length then src[srcCol + k - dstCol] else dst[k]
  {
    dst[..dstCol] + src[srcCol..srcCol + length] + dst[dstCol + length..]
  }

  /** The text at `r`, where there is one, is the one that belongs to the cell it lands on. */
  ghost predicate KeepsAt(dst: Cells, dstTexts: Texts, src: Cells, srcTexts: Texts, srcCol: nat, dstCol: nat, length: nat, same: bool, r: nat)
    requires srcCol + length <= |src| && Linked(dst, dstTexts) && Linked(src, srcTexts) && (same ==> srcCol <= dstCol)
    requires srcCol <= r < |dst| + srcCol - dstCol
  {
    r in srcTexts ==>
      if r < srcCol + length then Flagged(src[r]) ==> TextCopied(srcTexts, srcCol, dstCol, same, r) == srcTexts[r]
      else Flagged(dst[r + dstCol - srcCol]) ==> TextCopied(srcTexts, srcCol, dstCol, same, r) == dstTexts[r + dstCol - srcCol]
  }

  ghost predicate CopyKeeps(dst: Cells, dstTexts: Texts, src: Cells, srcTexts: Texts, srcCol: nat, dstCol: nat, length: nat, same: bool)
    requires srcCol + length <= |src| && Linked(dst, dstTexts) && Linked(src, srcTexts) && (same ==> srcCol <= dstCol)
  {
    forall r :: srcCol <= r < |dst| + srcCol - dstCol ==> KeepsAt(dst, dstTexts, src, srcTexts, srcCol, dstCol, length, same, r)
  }

  lemma TextThere(before: Texts, after: Texts, src: Texts, srcCol: nat, dstCol: nat, same: bool, k: nat)
    requires (same ==> srcCol <= dstCol) && TextsCopied(before, after, src, srcCol, dstCol, same)
    ensures k < dstCol ==> (k in after <==> k in before) && (k in after ==> after[k] == before[k])
    ensures k >= dstCol && k - dstCol + srcCol in src ==> k in after && after[k] == TextCopied(src, srcCol, dstCol, same, k - dstCol + srcCol)
    ensures k >= dstCol && k - dstCol + srcCol !in src ==> (k in after <==> k in before) && (k in after ==> after[k] == before[k])
  {
  }

  lemma CopyShowsAt(dst: Cells, dstTexts: Texts, src: Cells, srcTexts: Texts, srcCol: nat, dstCol: nat, length: nat, same: bool,
                    after: Texts, k: nat)
    requires srcCol + length <= |src| && dstCol + length <= |dst| && Linked(dst, dstTexts) && Linked(src, srcTexts) && k < |dst|
    requires same ==> srcCol <= dstCol && src == dst && srcTexts == dstTexts
    requires TextsCopied(dstTexts, after, srcTexts, srcCol, dstCol, same)
    ensures ShownCell(Copied(dst, src, srcCol, dstCol, length), after, k)
              == Copied(Shown(dst, dstTexts), Shown(src, srcTexts), srcCol, dstCol, length)[k]
            <==> (k >= dstCol ==> KeepsAt(dst, dstTexts, src, srcTexts, srcCol, dstCol, length, same, k - dstCol + srcCol))
  {
    hide TextCopied, TextsCopied, Copied, ShownCell, Shown, Linked, Flagged;
    var data := Copied(dst, src, srcCol, dstCol, length);
    TextThere(dstTexts, after, srcTexts, srcCol, dstCol, same, k);
    var meant := Copied(Shown(dst, dstTexts), Shown(src, srcTexts), srcCol, dstCol, length)[k];
    if k >= dstCol {
      var r := k - dstCol + srcCol;
      assert k == r + dstCol - srcCol;
      if r < srcCol + length {
        assert data[k] == src[r] && meant == ShownCell(src, srcTexts, r);
        CellMoved(src, srcTexts, r, data, after, k);
      } else {
        assert data[k] == dst[k] && meant == ShownCell(dst, dstTexts, k);
        CellMoved(dst, dstTexts, k, data, after, k);
      }
    } else {
      assert data[k] == dst[k] && meant == ShownCell(dst, dstTexts, k);
      CellMoved(dst, dstTexts, k, data, after, k);
    }
  }

  /** A word that is moved with its text shows as before, if the text is the same or there is no flag. */
  lemma CellMoved(src: Cells, srcTexts: Texts, r: nat, data: Cells, after: Texts, k: nat)
    requires r < |src| && k < |data| && data[k] == src[r] && Linked(src, srcTexts)
    ensures Flagged(src[r]) ==> r in srcTexts
    ensures ShownCell(data, after, k) == ShownCell(src, srcTexts, r)
       <==> (Flagged(src[r]) ==> (k in after && after[k] == srcTexts[r]) || (k !in after && srcTexts[r] == [COMBINED]))
  {
  }

  /** The copy shows what was copied if and only if every text that lands on a cell is the one that belongs there. */
  lemma CopyShowsExactly(dst: Cells, dstTexts: Texts, src: Cells, srcTexts: Texts, srcCol: nat, dstCol: nat, length: nat, same: bool, after: Texts)
    requires srcCol + length <= |src| && dstCol + length <= |dst| && Linked(dst, dstTexts) && Linked(src, srcTexts)
    requires same ==> srcCol <= dstCol && src == dst && srcTexts == dstTexts
    requires TextsCopied(dstTexts, after, srcTexts, srcCol, dstCol, same)
    ensures Shown(Copied(dst, src, srcCol, dstCol, length), after)
              == Copied(Shown(dst, dstTexts), Shown(src, srcTexts), srcCol, dstCol, length)
            <==> CopyKeeps(dst, dstTexts, src, srcTexts, srcCol, dstCol, length, same)
  {
    hide TextsCopied, KeepsAt, Linked, ShownCell;
    var now := Shown(Copied(dst, src, srcCol, dstCol, length), after);
    var meant := Copied(Shown(dst, dstTexts), Shown(src, srcTexts), srcCol, dstCol, length);
    forall k | 0 <= k < |dst|
      ensures now[k] == meant[k] <==> (k >= dstCol ==> KeepsAt(dst, dstTexts, src, srcTexts, srcCol, dstCol, length, same, k - dstCol + srcCol))
    {
      CopyShowsAt(dst, dstTexts, src, srcTexts, srcCol, dstCol, length, same, after, k);
    }
    if now == meant {
      forall r | srcCol <= r < |dst| + srcCol - dstCol ensures KeepsAt(dst, dstTexts, src, srcTexts, srcCol, dstCol, length, same, r) {
        assert now[r + dstCol - srcCol] == meant[r + dstCol - srcCol];
      }
    }
  }

  /** The copy leaves no flag without a text. */
  lemma CopyStaysLinked(dst: Cells, dstTexts: Texts, src: Cells, srcTexts: Texts, srcCol: nat, dstCol: nat, length: nat, same: bool, after: Texts)
    requires srcCol + length <= |src| && dstCol + length <= |dst| && Linked(dst, dstTexts) && Linked(src, srcTexts)
    requires same ==> srcCol <= dstCol
    requires TextsCopied(dstTexts, after, srcTexts, srcCol, dstCol, same)
    ensures Linked(Copied(dst, src, srcCol, dstCol, length), after)
  {
    var data := Copied(dst, src, srcCol, dstCol, length);
    forall k | 0 <= k < |data| && Flagged(data[k]) ensures k in after {
      if dstCol <= k < dstCol + length {
        assert data[k] == src[k - dstCol + srcCol];
      } else {
        assert data[k] == dst[k];
      }
    }
    forall k | k in after ensures |after[k]| >= 2 {
    }
  }

  // ---------------------------------------------------------------- the line

  class StoredLine {
    var data: Cells
    var combined: Texts
    var isWrapped: bool

    ghost predicate Valid()
      reads this
    {
      Linked(data, combined)
    }

    function Cells(): (cells: seq<Cell>)
      reads this
      ensures |cells| == |data|
    {
      Shown(data, combined)
    }

    constructor (cols: nat, attr: int, isWrapped: bool)
      ensures Valid() && data == Cells() == Blank(cols, attr) && combined == map[] && this.isWrapped == isWrapped
    {
      data, combined, this.isWrapped := Blank(cols, attr), map[], isWrapped;
    }

    method LoadCell(x: nat) returns (c: Cell)
      requires Valid() && x < |data|
      ensures c == Cells()[x]
    {
      c := data[x];
      if Flagged(c) {
        c := c.(text := combined[x]);
      }
    }

    /** Whatever is put into a cell, an old text stays on the side until another one takes its place. */
    method SetCell(x: nat, c: Cell)
      requires Valid() && x < |data| && Storable(c)
      modifies this
      ensures Valid() && Cells() == old(Cells())[x := c] && isWrapped == old(isWrapped)
      ensures old(combined).Keys <= combined.Keys && (|c.text| < 2 ==> data == old(data)[x := c] && combined == old(combined))
    {
      if |c.text| >= 2 {
        combined := combined[x := c.text];
        data := data[x := c.(text := [COMBINED])];
      } else {
        data := data[x := c];
      }
    }

    method AddCodepointToCell(x: nat, code: nat)
      requires Valid() && x < |data| && code != COMBINED
      modifies this
      ensures Valid() && Cells() == old(Cells())[x := Joined(old(Cells())[x], code)] && isWrapped == old(isWrapped)
    {
      if Flagged(data[x]) {
        combined := combined[x := combined[x] + [code]];
      } else if data[x].text != [] {
        combined := combined[x := data[x].text + [code]];
        data := data[x := data[x].(text := [COMBINED])];
      } else {
        data := data[x := Cell([code], 1, data[x].attr)];
      }
    }

    method CopyFrom(other: StoredLine)
      modifies this
      ensures Cells() == old(other.Cells()) && (old(other.Valid()) ==> Valid()) && isWrapped == old(other.isWrapped)
    {
      data, combined, isWrapped := other.data, other.combined, other.isWrapped;
    }

    /** The texts on the side, in the order of their columns. */
    method CopyTexts(src: StoredLine, srcCol: nat, dstCol: nat)
      requires src == this ==> srcCol <= dstCol
      modifies `combined
      ensures TextsCopied(old(combined), combined, old(src.combined), srcCol, dstCol, src == this)
    {
      hide TextsCopied, TextsCopiedBelow, TextCopied, Left;
      ghost var before, texts := combined, src.combined;
      var keys := KeysOf(src.combined);
      ghost var below: nat := 0;
      NothingCopied(before, texts, srcCol, dstCol, src == this);
      for n := 0 to |keys|
        invariant src != this ==> src.combined == texts
        invariant TextsCopiedBelow(before, combined, texts, srcCol, dstCol, src == this, below)
        invariant Left(keys, texts, n, below)
      {
        CopyNext(before, combined, texts, srcCol, dstCol, src == this, keys, n, below);
        var r := keys[n];
        if r >= srcCol {
          combined := combined[r - srcCol + dstCol := src.combined[r]];
        }
        below := r + 1;
      }
      CopyDone(before, combined, texts, srcCol, dstCol, src == this, keys, below);
    }

    /** Copies from the right end to the left, so that within one line it may move cells to the right. */
    method CopyCellsReverse(src: StoredLine, srcCol: nat, dstCol: nat, length: nat)
      requires srcCol + length <= |src.data| && dstCol + length <= |data|
      requires src == this ==> srcCol <= dstCol
      modifies `data
      ensures data == Copied(old(data), old(src.data), srcCol, dstCol, length)
    {
      var i: nat := length;
      while i > 0
        invariant i <= length && |data| == |old(data)|
        invariant forall k :: dstCol + i <= k < dstCol + length ==> data[k] == old(src.data)[srcCol + k - dstCol]
        invariant forall k :: 0 <= k < dstCol + i || dstCol + length <= k < |data| ==> data[k] == old(data)[k]
        invariant src != this ==> src.data == old(src.data)
      {
        i := i - 1;
        data := data[dstCol + i := src.data[srcCol + i]];
      }
    }

    method CopyCellsFrom(src: StoredLine, srcCol: nat, dstCol: nat, length: nat)
      requires Valid() && src.Valid() && srcCol + length <= |src.data| && dstCol + length <= |data|
      requires src == this ==> srcCol <= dstCol
      modifies `data, `combined
      ensures Valid() && data == Copied(old(data), old(src.data), srcCol, dstCol, length)
      ensures TextsCopied(old(combined), combined, old(src.combined), srcCol, dstCol, src == this)
      ensures Cells() == Copied(old(Cells()), old(src.Cells()), srcCol, dstCol, length)
              <==> old(CopyKeeps(data, combined, src.data, src.combined, srcCol, dstCol, length, src == this))
    {
      hide Linked, TextsCopied, CopyKeeps;
      CopyCellsReverse(src, srcCol, dstCol, length);
      CopyTexts(src, srcCol, dstCol);
      CopyStaysLinked(old(data), old(combined), old(src.data), old(src.combined), srcCol, dstCol, length, src == this, combined);
      CopyShowsExactly(old(data), old(combined), old(src.data), old(src.combined), srcCol, dstCol, length, src == this, combined);
    }
  }
}
