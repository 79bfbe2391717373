/** The ranges of characters that are drawn as one, merged into a list in place. */
module MergeRanges {
  import opened Common

  /** From `start` up to but not including `end`. */
  datatype Range = Range(start: int, end: int)

  predicate Holds(r: Range, p: int) {
    r.start <= p < r.end
  }

  ghost predicate Covers(e: seq<Range>, p: int) {
    exists k :: 0 <= k < |e| && Holds(e[k], p)
  }

  /** No range is empty, and they follow one another without overlapping. */
  ghost predicate Ordered(e: seq<Range>) {
    && (forall k :: 0 <= k < |e| ==> e[k].start < e[k].end)
    && (forall j, k :: 0 <= j < k < |e| ==> e[j].end <= e[k].start)
  }

  /** `t` swallows the ranges it overlaps; those before and behind stay as they are. */
  function Merged(e: seq<Range>, t: Range): seq<Range> {
    if |e| == 0 then [t]
    else if e[0].end <= t.start then [e[0]] + Merged(e[1..], t)
    else if t.end <= e[0].start then [t] + e
    else Merged(e[1..], Range(Min(t.start, e[0].start), Max(t.end, e[0].end)))
  }

  lemma CoversFirst(e: seq<Range>, p: int)
    requires |e| > 0
    ensures Covers(e, p) <==> Holds(e[0], p) || Covers(e[1..], p)
  {
    if Covers(e, p) && !Holds(e[0], p) {
      var k :| 0 <= k < |e| && Holds(e[k], p);
      assert e[1..][k - 1] == e[k];
    }
    if Covers(e[1..], p) {
      var k :| 0 <= k < |e[1..]| && Holds(e[1..][k], p);
      assert e[k + 1] == e[1..][k];
    }
  }

  /** Exactly the positions of the old ranges and of the new one are covered. */
  lemma {:induction false} MergedCovers(e: seq<Range>, t: Range, p: int)
    requires Ordered(e) && t.start < t.end
    ensures Covers(Merged(e, t), p) <==> Covers(e, p) || Holds(t, p)
    decreases |e|
  {
    if |e| == 0 {
      assert Merged(e, t)[0] == t;
    } else {
      CoversFirst(e, p);
      if e[0].end <= t.start {
        MergedCovers(e[1..], t, p);
        CoversFirst(Merged(e, t), p);
      } else if t.end <= e[0].start {
        CoversFirst(Merged(e, t), p);
      } else {
        MergedCovers(e[1..], Range(Min(t.start, e[0].start), Max(t.end, e[0].end)), p);
      }
    }
  }

  /** The result is in order again; and nothing before `bound` is touched if nothing was there. */
  lemma {:induction false} MergedOrdered(e: seq<Range>, t: Range, bound: int)
    requires Ordered(e) && t.start < t.end && bound <= t.start && (|e| > 0 ==> bound <= e[0].start)
    ensures Ordered(Merged(e, t)) && |Merged(e, t)| > 0 && bound <= Merged(e, t)[0].start
    decreases |e|
  {
    if |e| > 0 {
      if e[0].end <= t.start {
        MergedOrdered(e[1..], t, e[0].end);
        OrderedCons(e[0], Merged(e[1..], t));
      } else if t.end <= e[0].start {
        OrderedCons(t, e);
      } else {
        MergedOrdered(e[1..], Range(Min(t.start, e[0].start), Max(t.end, e[0].end)), bound);
      }
    }
  }

  lemma OrderedCons(r: Range, e: seq<Range>)
    requires Ordered(e) && r.start < r.end && (|e| > 0 ==> r.end <= e[0].start)
    ensures Ordered([r] + e)
  {
    var d := [r] + e;
    forall j, k | 0 <= j < k < |d| ensures d[j].end <= d[k].start {
      if j == 0 && k > 1 {
        assert e[0].end <= e[k - 1].start;
      }
    }
  }

  /** How far the merging is: what stands before `s` is final, but for the end of the range being widened. */
  ghost predicate SoFar(ranges: seq<Range>, t: Range, e: seq<Range>, s: nat, inRange: bool) {
    && s <= |e| && Ordered(e) && t.start < t.end
    && if !inRange then e == ranges && Merged(ranges, t) == e[..s] + Merged(e[s..], t)
       else s > 0 && e[s - 1].end < t.end && e[s - 1].start <= t.start
            && Merged(ranges, t) == e[..s - 1] + Merged(e[s..], Range(e[s - 1].start, t.end))
  }

  lemma Skip(ranges: seq<Range>, t: Range, s: nat)
    requires SoFar(ranges, t, ranges, s, false) && s < |ranges| && ranges[s].end <= t.start
    ensures SoFar(ranges, t, ranges, s + 1, false)
  {
    assert ranges[s..][1..] == ranges[s + 1..];
    assert ranges[..s + 1] + Merged(ranges[s + 1..], t) == ranges[..s] + ([ranges[s]] + Merged(ranges[s + 1..], t));
  }

  lemma StartMerging(ranges: seq<Range>, t: Range, s: nat)
    requires SoFar(ranges, t, ranges, s, false) && s < |ranges| && t.start < ranges[s].end < t.end
    requires s > 0 ==> ranges[s - 1].end <= t.start
    ensures SoFar(ranges, t, ranges[s := ranges[s].(start := Min(t.start, ranges[s].start))], s + 1, true)
  {
    var e := ranges[s := ranges[s].(start := Min(t.start, ranges[s].start))];
    assert ranges[s..][1..] == ranges[s + 1..] == e[s + 1..];
    assert e[..s] == ranges[..s];
  }

  lemma Swallow(ranges: seq<Range>, t: Range, e: seq<Range>, s: nat)
    requires SoFar(ranges, t, e, s, true) && s < |e| && e[s].end < t.end
    ensures SoFar(ranges, t, e[..s] + e[s + 1..], s, true)
  {
    var d := e[..s] + e[s + 1..];
    assert e[s..][1..] == e[s + 1..] == d[s..];
    assert d[..s - 1] == e[..s - 1];
  }

  /** How the merging ends before a range was widened. */
  lemma EndsOutside(ranges: seq<Range>, t: Range, e: seq<Range>, s: nat)
    requires SoFar(ranges, t, e, s, false)
    ensures s == |e| ==> Merged(ranges, t) == e + [t]
    ensures s < |e| && t.end <= e[s].start ==> Merged(ranges, t) == e[..s] + [t] + e[s..]
    ensures s < |e| && e[s].start < t.end <= e[s].end && t.start < e[s].end ==>
              Merged(ranges, t) == e[s := e[s].(start := Min(t.start, e[s].start))]
  {
    var rest := e[s..];
    if s == |e| {
      assert e[..s] == e;
    } else {
      assert rest[0] == e[s] && rest[1..] == e[s + 1..];
      EndsWith(rest, t);
      hide Merged, Ordered;
      assert e[..s] + ([t] + rest) == e[..s] + [t] + rest;
      assert e[..s] + ([Range(Min(t.start, e[s].start), e[s].end)] + rest[1..]) == e[s := e[s].(start := Min(t.start, e[s].start))];
    }
  }

  /** How it ends afterwards. */
  lemma EndsInside(ranges: seq<Range>, t: Range, e: seq<Range>, s: nat)
    requires SoFar(ranges, t, e, s, true)
    ensures s == |e| || t.end <= e[s].start ==> Merged(ranges, t) == e[s - 1 := e[s - 1].(end := t.end)]
    ensures s < |e| && e[s].start < t.end <= e[s].end ==>
              Merged(ranges, t) == e[s - 1 := e[s - 1].(end := Max(t.end, e[s].end))][..s] + e[s + 1..]
  {
    var h, rest := Range(e[s - 1].start, t.end), e[s..];
    assert e[..s - 1] + ([h] + rest) == e[s - 1 := h];
    if s < |e| {
      assert rest[0] == e[s] && rest[1..] == e[s + 1..];
      assert Ordered(rest) && h.start < e[s].start < e[s].end by {
        assert e[s - 1].end <= e[s].start;
      }
      EndsWith(rest, h);
      hide Merged, Ordered;
      if t.end <= e[s].end {
        var w := Range(h.start, e[s].end);
        assert e[s - 1 := w][..s] == e[..s - 1] + [w];
        assert e[..s - 1] + ([w] + e[s + 1..]) == e[..s - 1] + [w] + e[s + 1..];
      }
    }
  }

  /** A range that ends within or before the first one leaves the rest alone. */
  lemma EndsWith(e: seq<Range>, t: Range)
    requires Ordered(e) && |e| > 0 && t.start < t.end
    ensures t.end <= e[0].start ==> Merged(e, t) == [t] + e
    ensures e[0].start < t.end <= e[0].end && t.start < e[0].end ==>
              Merged(e, t) == [Range(Min(t.start, e[0].start), e[0].end)] + e[1..]
  {
    if |e| > 1 {
      assert e[1..][0] == e[1];
    }
  }

  class Ranges {
    var list: seq<Range>

    constructor (list: seq<Range>)
      ensures this.list == list
    {
      this.list := list;
    }

    /** Merges `t` in, shifting and removing entries in place. */
    method Merge(t: Range)
      requires Ordered(list) && t.start < t.end
      modifies this
      ensures list == Merged(old(list), t)
    {
      ghost var ranges := list;
      var inRange := false;
      var s: nat := 0;
      assert list[..0] + Merged(list[0..], t) == Merged(list, t);
      while s < |list|
        invariant SoFar(ranges, t, list, s, inRange)
        invariant !inRange && s > 0 ==> list[s - 1].end <= t.start
        decreases |list| - s
      {
        hide Merged;
        var r := list[s];
        if inRange {
          EndsInside(ranges, t, list, s);
          if t.end <= r.start {
            list := list[s - 1 := list[s - 1].(end := t.end)];
            return;
          }
          if t.end <= r.end {
            list := list[s - 1 := list[s - 1].(end := Max(t.end, r.end))];
            list := list[..s] + list[s + 1..];
            return;
          }
          Swallow(ranges, t, list, s);
          list := list[..s] + list[s + 1..];
        } else {
          EndsOutside(ranges, t, list, s);
          if t.end <= r.start {
            list := list[..s] + [t] + list[s..];
            return;
          }
          if t.end <= r.end {
            list := list[s := r.(start := Min(t.start, r.start))];
            return;
          }
          if t.start < r.end {
            StartMerging(ranges, t, s);
            list := list[s := r.(start := Min(t.start, r.start))];
            inRange := true;
          } else {
            Skip(ranges, t, s);
          }
          s := s + 1;
        }
      }
      if inRange {
        EndsInside(ranges, t, list, s);
        list := list[|list| - 1 := list[|list| - 1].(end := t.end)];
      } else {
        EndsOutside(ranges, t, list, s);
        list := list + [t];
      }
    }

    /** All ranges of a second list, one after the other. */
    method MergeAll(more: seq<Range>)
      requires Ordered(list) && forall k :: 0 <= k < |more| ==> more[k].start < more[k].end
      modifies this
      ensures Ordered(list) && forall p :: Covers(list, p) <==> Covers(old(list), p) || Covers(more, p)
    {
      for k := 0 to |more|
        invariant Ordered(list) && forall p :: Covers(list, p) <==> Covers(old(list), p) || Covers(more[..k], p)
      {
        ghost var before := list;
        var bound := if |list| > 0 then Min(list[0].start, more[k].start) else more[k].start;
        MergedOrdered(list, more[k], bound);
        Merge(more[k]);
        forall p ensures Covers(list, p) <==> Covers(old(list), p) || Covers(more[..k + 1], p) {
          MergedCovers(before, more[k], p);
          CoversLast(more, k, p);
        }
      }
      assert more[..|more|] == more;
    }
  }

  lemma CoversLast(e: seq<Range>, k: nat, p: int)
    requires k < |e|
    ensures Covers(e[..k + 1], p) <==> Covers(e[..k], p) || Holds(e[k], p)
  {
    var d := e[..k + 1];
    if Covers(d, p) && !Holds(e[k], p) {
      var j :| 0 <= j < |d| && Holds(d[j], p);
      assert e[..k][j] == d[j];
    }
    if Covers(e[..k], p) {
      var j :| 0 <= j < k && Holds(e[..k][j], p);
      assert d[j] == e[..k][j];
    }
    if Holds(e[k], p) {
      assert d[k] == e[k];
    }
  }
}
