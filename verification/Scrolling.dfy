/**
  What scrolling does to the lines and to the viewport, over any kind of line.

  Used twice: with line objects, to say which object ends up where, and with line contents,
  to say what is on the screen.
  */
module Scrolling {
  import opened CircularList

  /** `lines` holds the scrollback and below it the screen, whose first line is `lines[ybase]`. */
  datatype View<T> = View(lines: seq<T>, ybase: nat, ydisp: nat, isUserScrolling: bool)

  /** Size of the screen, capacity of the store, and the scroll region. */
  datatype Frame = Frame(rows: nat, max: nat, top: nat, bottom: nat)

  ghost predicate FrameOk(f: Frame) {
    0 < f.rows <= f.max && f.top <= f.bottom < f.rows
  }

  ghost predicate ViewOk<T>(v: View<T>, f: Frame) {
    && FrameOk(f)
    && |v.lines| == v.ybase + f.rows <= f.max
    && v.ydisp <= v.ybase
    && (v.isUserScrolling <==> v.ydisp < v.ybase)
  }

  /** The region loses its top line and gets `blank` at the bottom; a region at the top of the screen feeds the scrollback. */
  function ScrolledLines<T>(lines: seq<T>, ybase: nat, f: Frame, blank: T): seq<T>
    requires f.top <= f.bottom < f.rows && |lines| == ybase + f.rows
  {
    if f.top == 0 then Latest(Replaced(lines, ybase + f.bottom + 1, 0, [blank]), f.max)
    else Replaced(Replaced(lines, ybase + f.bottom + 1, 0, [blank]), ybase + f.top, 1, [])
  }

  function Scrolled<T>(v: View<T>, f: Frame, blank: T): View<T>
    requires f.top <= f.bottom < f.rows && |v.lines| == v.ybase + f.rows
  {
    var lines := ScrolledLines(v.lines, v.ybase, f, blank);
    if f.top > 0 then v.(lines := lines, ydisp := if v.isUserScrolling then v.ydisp else v.ybase)
    else if |v.lines| == f.max then
      v.(lines := lines, ydisp := if v.isUserScrolling then Max0(v.ydisp - 1) else v.ybase)
    else
      v.(lines := lines, ybase := v.ybase + 1, ydisp := if v.isUserScrolling then v.ydisp else v.ybase + 1)
  }

  /** The user moves the viewport by `delta` lines. */
  function ScrolledBy<T>(v: View<T>, delta: int): View<T> {
    if delta < 0 && v.ydisp == 0 then v
    else
      v.(isUserScrolling := if delta < 0 then true else if delta + v.ydisp >= v.ybase then false else v.isUserScrolling,
         ydisp := Max0(if v.ydisp + delta < v.ybase then v.ydisp + delta else v.ybase))
  }

  // ---------------------------------------------------------------- one step

  lemma ScrolledOk<T>(v: View<T>, f: Frame, blank: T)
    requires ViewOk(v, f)
    ensures ViewOk(Scrolled(v, f, blank), f)
  {
  }

  lemma ScrolledByOk<T>(v: View<T>, f: Frame, delta: int)
    requires ViewOk(v, f)
    ensures ViewOk(ScrolledBy(v, delta), f)
  {
  }

  /** The viewport goes as far as asked, but not beyond the scrollback; it follows the output again once it is back at the bottom. */
  lemma ScrolledByMeaning<T>(v: View<T>, f: Frame, delta: int)
    requires ViewOk(v, f)
    ensures var w := ScrolledBy(v, delta);
            && w.lines == v.lines && w.ybase == v.ybase
            && w.ydisp == (if v.ydisp + delta < 0 then 0 else if v.ydisp + delta > v.ybase then v.ybase else v.ydisp + delta)
            && (w.isUserScrolling <==> w.ydisp < w.ybase)
  {
  }

  /** Which element of `lines` with `blank` put in at `p` stands at position `k` of the scrolled lines. */
  function Origin(ybase: nat, f: Frame, full: bool, k: nat): nat {
    if f.top == 0 then (if full then k + 1 else k)
    else if k < ybase + f.top then k else k + 1
  }

  function InsertedAt<T>(lines: seq<T>, p: nat, blank: T, i: nat): T
    requires p <= |lines| && i <= |lines|
  {
    if i < p then lines[i] else if i == p then blank else lines[i - 1]
  }

  /** Where the element at position `k` comes from. */
  lemma ScrolledAt<T>(lines: seq<T>, ybase: nat, f: Frame, blank: T, k: nat)
    requires FrameOk(f) && |lines| == ybase + f.rows <= f.max
    requires k < if f.top == 0 && |lines| < f.max then |lines| + 1 else |lines|
    ensures |ScrolledLines(lines, ybase, f, blank)| == if f.top == 0 && |lines| < f.max then |lines| + 1 else |lines|
    ensures ScrolledLines(lines, ybase, f, blank)[k]
         == InsertedAt(lines, ybase + f.bottom + 1, blank, Origin(ybase, f, |lines| == f.max, k))
  {
    var p := ybase + f.bottom + 1;
    var full := Replaced(lines, p, 0, [blank]);
    assert |full| == |lines| + 1;
    assert forall j :: 0 <= j < |full| ==> full[j] == InsertedAt(lines, p, blank, j);
    hide Replaced, InsertedAt;
    if f.top > 0 {
      RemovedAt(full, ybase + f.top, k);
    }
  }

  lemma RemovedAt<T>(s: seq<T>, i: nat, k: nat)
    requires i < |s| && k < |s| - 1
    ensures |Replaced(s, i, 1, [])| == |s| - 1 && Replaced(s, i, 1, [])[k] == if k < i then s[k] else s[k + 1]
  {
  }

  lemma ScrolledShape<T>(v: View<T>, f: Frame, blank: T)
    requires ViewOk(v, f)
    ensures var w := Scrolled(v, f, blank);
            && w.lines == ScrolledLines(v.lines, v.ybase, f, blank)
            && w.ybase == (if f.top == 0 && |v.lines| < f.max then v.ybase + 1 else v.ybase)
            && |w.lines| == w.ybase + f.rows
  {
    ScrolledOk(v, f, blank);
  }

  /** On the screen: the line at the top of the region is gone, those below it moved up, the rest stayed. */
  lemma ScreenAfterScroll<T>(v: View<T>, w: View<T>, f: Frame, blank: T, y: nat)
    requires ViewOk(v, f) && y < f.rows && w == Scrolled(v, f, blank)
    ensures |w.lines| == w.ybase + f.rows
    ensures w.lines[w.ybase + y] ==
              if f.top <= y < f.bottom then v.lines[v.ybase + y + 1]
              else if y == f.bottom then blank
              else v.lines[v.ybase + y]
  {
    ScrolledShape(v, f, blank);
    hide Scrolled, ScrolledLines, Replaced, Latest, InsertedAt;
    ScrolledAt(v.lines, v.ybase, f, blank, w.ybase + y);
    ScreenOrigin(v.lines, v.ybase, f, blank, y);
  }

  lemma ScreenOrigin<T>(lines: seq<T>, ybase: nat, f: Frame, blank: T, y: nat)
    requires FrameOk(f) && |lines| == ybase + f.rows && y < f.rows
    ensures InsertedAt(lines, ybase + f.bottom + 1, blank, if y < f.top then ybase + y else ybase + y + 1)
         == if f.top <= y < f.bottom then lines[ybase + y + 1] else if y == f.bottom then blank else lines[ybase + y]
  {
  }

  /** In the scrollback: a region at the top of the screen leaves its top line there; the oldest goes when full. */
  lemma ScrollbackAfterScroll<T>(v: View<T>, f: Frame, blank: T)
    requires ViewOk(v, f)
    ensures var w := Scrolled(v, f, blank);
            |w.lines| == w.ybase + f.rows &&
            w.lines[..w.ybase] == if f.top > 0 then v.lines[..v.ybase] else Latest(v.lines[..v.ybase + 1], f.max - f.rows)
  {
    ScrolledOk(v, f, blank);
    var w := Scrolled(v, f, blank);
    hide ScrolledLines;
    var want := if f.top > 0 then v.lines[..v.ybase] else Latest(v.lines[..v.ybase + 1], f.max - f.rows);
    forall k | 0 <= k < w.ybase ensures w.lines[k] == want[k] {
      ScrolledAt(v.lines, v.ybase, f, blank, k);
    }
    assert w.lines[..w.ybase] == want;
  }

  // ---------------------------------------------------------------- lines of a region

  function RowReplaced<T>(s: seq<T>, out: nat, at: nat, x: T): (t: seq<T>)
    requires out < |s| && at < |s|
    ensures |t| == |s|
  {
    Replaced(Replaced(s, out, 1, []), at, 0, [x])
  }

  lemma RowReplacedAt<T>(s: seq<T>, out: nat, at: nat, x: T, k: nat)
    requires out < |s| && at < |s| && k < |s|
    ensures RowReplaced(s, out, at, x)[k] ==
            if k == at then x
            else (var j := if k < at then k else k - 1; if j < out then s[j] else s[j + 1])
  {
    var d := Replaced(s, out, 1, []);
    assert forall j :: 0 <= j < |d| ==> d[j] == if j < out then s[j] else s[j + 1];
  }

  /** The lines from `top` to `bottom` move down by `n`, what leaves at the bottom is lost. */
  function RegionDown<T>(s: seq<T>, top: nat, bottom: nat, n: nat, blank: T): (t: seq<T>)
    requires top <= bottom < |s|
    ensures |t| == |s|
  {
    seq(|s|, k requires 0 <= k < |s| => if k < top || bottom < k then s[k] else if k < top + n then blank else s[k - n])
  }

  /** The lines from `top` to `bottom` move up by `n`, what leaves at the top is lost. */
  function RegionUp<T>(s: seq<T>, top: nat, bottom: nat, n: nat, blank: T): (t: seq<T>)
    requires top <= bottom < |s|
    ensures |t| == |s|
  {
    seq(|s|, k requires 0 <= k < |s| => if k < top || bottom < k then s[k] else if k + n <= bottom then s[k + n] else blank)
  }

  /** One line out at the bottom of the region and a blank one in at its top, once more. */
  lemma DownOnce<T>(s: seq<T>, top: nat, bottom: nat, n: nat, blank: T)
    requires top <= bottom < |s|
    ensures RowReplaced(RegionDown(s, top, bottom, n, blank), bottom, top, blank) == RegionDown(s, top, bottom, n + 1, blank)
  {
    var t, u := RegionDown(s, top, bottom, n, blank), RegionDown(s, top, bottom, n + 1, blank);
    hide RowReplaced;
    forall k | 0 <= k < |s| ensures RowReplaced(t, bottom, top, blank)[k] == u[k] {
      RowReplacedAt(t, bottom, top, blank, k);
    }
  }

  lemma UpOnce<T>(s: seq<T>, top: nat, bottom: nat, n: nat, blank: T)
    requires top <= bottom < |s|
    ensures RowReplaced(RegionUp(s, top, bottom, n, blank), top, bottom, blank) == RegionUp(s, top, bottom, n + 1, blank)
  {
    var t, u := RegionUp(s, top, bottom, n, blank), RegionUp(s, top, bottom, n + 1, blank);
    hide RowReplaced;
    forall k | 0 <= k < |s| ensures RowReplaced(t, top, bottom, blank)[k] == u[k] {
      RowReplacedAt(t, top, bottom, blank, k);
    }
  }

  lemma NotMoved<T>(s: seq<T>, top: nat, bottom: nat, blank: T)
    requires top <= bottom < |s|
    ensures RegionDown(s, top, bottom, 0, blank) == s == RegionUp(s, top, bottom, 0, blank)
  {
  }

  /** Moving up takes back moving down, but for the lines that fell out. */
  lemma UpAfterDown<T>(s: seq<T>, top: nat, bottom: nat, n: nat, blank: T)
    requires top <= bottom < |s|
    ensures RegionUp(RegionDown(s, top, bottom, n, blank), top, bottom, n, blank)
         == seq(|s|, k requires 0 <= k < |s| => if top <= k <= bottom < k + n then blank else s[k])
  {
  }

  // ---------------------------------------------------------------- runs

  datatype Step<T> = Scroll(blank: T) | ScrollBy(delta: int) | SetRegion(top: nat, bottom: nat)

  function AfterStep<T>(v: View<T>, f: Frame, s: Step<T>): (View<T>, Frame)
    requires f.top <= f.bottom < f.rows && |v.lines| == v.ybase + f.rows
  {
    match s
    case Scroll(blank) => (Scrolled(v, f, blank), f)
    case ScrollBy(delta) => (ScrolledBy(v, delta), f)
    case SetRegion(t, b) => (v, if t <= b < f.rows then f.(top := t, bottom := b) else f)
  }

  ghost function After<T>(v: View<T>, f: Frame, steps: seq<Step<T>>): (r: (View<T>, Frame))
    requires ViewOk(v, f)
    ensures ViewOk(r.0, r.1) && r.1.rows == f.rows && r.1.max == f.max
    decreases |steps|
  {
    if |steps| == 0 then (v, f)
    else
      StepOk(v, f, steps[0]);
      var (w, g) := AfterStep(v, f, steps[0]);
      After(w, g, steps[1..])
  }

  lemma StepOk<T>(v: View<T>, f: Frame, s: Step<T>)
    requires ViewOk(v, f)
    ensures var (w, g) := AfterStep(v, f, s); ViewOk(w, g) && g.rows == f.rows && g.max == f.max
  {
    match s
    case Scroll(blank) => ScrolledOk(v, f, blank);
    case ScrollBy(delta) => ScrolledByOk(v, f, delta);
    case SetRegion(_, _) =>
  }

  /** The number of lines that fall out of the store during a run of program output. */
  ghost function Evicted<T>(v: View<T>, f: Frame, steps: seq<Step<T>>): nat
    requires ViewOk(v, f)
    decreases |steps|
  {
    if |steps| == 0 then 0
    else
      StepOk(v, f, steps[0]);
      var (w, g) := AfterStep(v, f, steps[0]);
      (if steps[0].Scroll? && f.top == 0 && |v.lines| == f.max then 1 else 0) + Evicted(w, g, steps[1..])
  }

  ghost predicate Output<T>(steps: seq<Step<T>>) {
    forall k :: 0 <= k < |steps| ==> !steps[k].ScrollBy?
  }

  lemma StepKeepsScrollback<T>(v: View<T>, f: Frame, s: Step<T>)
    requires ViewOk(v, f) && v.isUserScrolling && !s.ScrollBy?
    ensures var (w, g) := AfterStep(v, f, s);
            var gone := if s.Scroll? && f.top == 0 && |v.lines| == f.max then 1 else 0;
            && w.isUserScrolling && w.ydisp == Max0(v.ydisp - gone)
            && |w.lines| >= v.ydisp && v.ydisp < |v.lines|
            && (gone <= v.ydisp ==> w.lines[v.ydisp - gone] == v.lines[v.ydisp])
  {
  }

  /**
    While the user is scrolled back, output of any length leaves the line at the top of the
    viewport where it is, as long as the line itself has not fallen out of the store.
    */
  lemma {:induction false} ViewportStays<T>(v: View<T>, f: Frame, steps: seq<Step<T>>)
    requires ViewOk(v, f) && v.isUserScrolling && Output(steps)
    ensures var w := After(v, f, steps).0;
            && w.isUserScrolling
            && w.ydisp == Max0(v.ydisp - Evicted(v, f, steps))
            && v.ydisp < |v.lines| && w.ydisp < |w.lines|
            && (Evicted(v, f, steps) <= v.ydisp ==> w.lines[w.ydisp] == v.lines[v.ydisp])
    decreases |steps|
  {
    if |steps| > 0 {
      StepOk(v, f, steps[0]);
      StepKeepsScrollback(v, f, steps[0]);
      var (w, g) := AfterStep(v, f, steps[0]);
      assert Output(steps[1..]) by {
        forall k | 0 <= k < |steps[1..]| ensures !steps[1..][k].ScrollBy? {
          assert steps[1..][k] == steps[k + 1];
        }
      }
      hide AfterStep;
      ViewportStays(w, g, steps[1..]);
    }
  }
}
