/**
  The terminal as a value: the screen, the modes and the saved cursor, and what each operation makes
  of them.  A run of operations is their effects one after the other.
  */
module Terminals {
  import opened Common
  import opened BufferLine
  import opened Scrolling
  import opened Cursor
  import opened Printing
  import opened ScreenOps

  const DEFAULT_ATTR := 0

  /** What stands for the ASCII characters. */
  type Charset = map<nat, nat>

  /** What characters are written with. */
  datatype Pen = Pen(attr: int, eraseAttr: int, charset: Charset)

  /** What a saved cursor consists of; `y` is the line in the store. */
  datatype SavedCursor = SavedCursor(x: int, y: int, pen: Pen)

  /** By the names of the control functions; `PRINT` is one call of the print handler. */
  datatype Op =
    | CUU(n: nat) | CUD(n: nat) | CUF(n: nat) | CUB(n: nat) | CNL(n: nat) | CPL(n: nat)
    | CHA(n: nat) | CUP(params: seq<nat>) | VPA(n: nat) | VPR(n: nat) | CR | HT | CHT(n: nat) | CBT(n: nat)
    | DECSTBM(params: seq<nat>) | DECSC | DECRC | DECOM(on: bool)
    | SGR(attr: int, eraseAttr: int) | SCS(charset: Charset) | DECAWM(on: bool) | IRM(on: bool) | DECRWM(on: bool)
    | LF | IND | NEL | RI | BS | IL(n: nat) | DL(n: nat) | SU(n: nat) | SD(n: nat) | PRINT(data: seq<nat>)
  {
    predicate Moves() {
      !MovesLines() && !LF? && !IND? && !NEL? && !BS? && !PRINT?
    }

    predicate MovesLines() {
      RI? || IL? || DL? || SU? || SD?
    }

    predicate MovesCursor() {
      CUU? || CUD? || CUF? || CUB? || CNL? || CPL? || CHA? || CUP? || VPA? || VPR? || CR? || HT? || CHT? || CBT?
    }

    predicate Sets() {
      SGR? || SCS? || DECAWM? || IRM? || DECRWM?
    }

    predicate SetsMode() {
      DECAWM? || IRM?
    }
  }

  datatype Settings = Settings(origin: bool, wraparound: bool, insertMode: bool, reverseWraparound: bool, convertEol: bool, tabs: set<nat>)

  datatype Terminal = Terminal(s: Screen, f: Frame, cols: nat, modes: Settings, pen: Pen, saved: SavedCursor)

  ghost predicate TerminalOk(t: Terminal) {
    ScreenOk(t.s, t.f, t.cols)
  }

  function LimitsIn(t: Terminal): Limits {
    LimitsOf(t.f, t.cols, t.modes.origin)
  }

  function To(t: Terminal, p: Pos): (u: Terminal)
    requires TerminalOk(t) && 0 <= p.x <= t.cols && 0 <= p.y < t.f.rows
    ensures TerminalOk(u)
  {
    t.(s := At(t.s, p))
  }

  /** A parameter, 0 if it is missing. */
  function Param(params: seq<nat>, k: nat): nat {
    if k < |params| then params[k] else 0
  }

  function Stops(tabs: set<nat>, x: int, cols: nat, n: nat): (s: int)
    requires 0 <= x < cols
    ensures x <= s < cols
    decreases n
  {
    if n == 0 then x
    else
      NextStopMeaning(tabs, x, cols);
      Stops(tabs, NextStop(tabs, x, cols), cols, n - 1)
  }

  function StopsBack(tabs: set<nat>, x: nat, n: nat): (s: int)
    ensures 0 <= s <= x
    decreases n
  {
    if n == 0 then x
    else
      PrevStopMeaning(tabs, x, x + 1);
      StopsBack(tabs, PrevStop(tabs, x), n - 1)
  }

  lemma OneStop(tabs: set<nat>, x: int, cols: nat, n: nat)
    requires 0 <= x < cols && n == 1
    ensures Stops(tabs, x, cols, n) == NextStop(tabs, x, cols)
  {
  }

  /** Where a movement of the cursor ends. */
  function Target(t: Terminal, op: Op): (p: Pos)
    requires TerminalOk(t) && op.MovesCursor()
    ensures 0 <= p.x <= t.cols && 0 <= p.y < t.f.rows
  {
    var p, l := t.s.pos, LimitsIn(t);
    match op
    case CUU(n) => Up(p, l, n)
    case CUD(n) => Down(p, l, n)
    case CUF(n) => MovedBy(p, l, OrOne(n), 0)
    case CUB(n) => MovedBy(p, l, -OrOne(n), 0)
    case CNL(n) => Down(p, l, n).(x := 0)
    case CPL(n) => Up(p, l, n).(x := 0)
    case CHA(n) => Placed(l, OrOne(n) - 1, p.y)
    case CUP(params) => Placed(l, if |params| >= 2 then OrOne(Param(params, 1)) - 1 else 0, OrOne(Param(params, 0)) - 1)
    case VPA(n) => Placed(l, p.x, OrOne(n) - 1)
    case VPR(n) => MovedBy(p, l, 0, OrOne(n))
    case CR => p.(x := 0)
    case HT => if p.x >= t.cols then p else Pos(Stops(t.modes.tabs, p.x, t.cols, 1), p.y)
    case CHT(n) => if p.x >= t.cols then p else Pos(Stops(t.modes.tabs, p.x, t.cols, OrOne(n)), p.y)
    case CBT(n) => if p.x >= t.cols then p else Pos(StopsBack(t.modes.tabs, p.x, OrOne(n)), p.y)
    case _ => p
  }

  /** A region whose bottom is not below its top is refused; another one sends the cursor home. */
  function RegionSet(t: Terminal, params: seq<nat>): (u: Terminal)
    requires TerminalOk(t)
    ensures TerminalOk(u)
  {
    var top := OrOne(Param(params, 0));
    var bottom := if |params| < 2 || params[1] > t.f.rows || params[1] == 0 then t.f.rows else params[1];
    if bottom > top then
      var u := t.(f := t.f.(top := top - 1, bottom := bottom - 1));
      To(u, Placed(LimitsIn(u), 0, 0))
    else t
  }

  function Saved(t: Terminal): Terminal {
    t.(saved := SavedCursor(t.s.pos.x, t.s.view.ybase + t.s.pos.y, t.pen))
  }

  function Restored(t: Terminal): (u: Terminal)
    requires TerminalOk(t)
    ensures TerminalOk(u)
  {
    To(t.(pen := t.saved.pen), Restricted(Pos(t.saved.x, Max(0, t.saved.y - t.s.view.ybase)), LimitsIn(t), t.cols - 1))
  }

  /** Attributes, character set and modes. */
  function SetIn(t: Terminal, op: Op): Terminal {
    match op
    case SGR(a, e) => t.(pen := t.pen.(attr := a, eraseAttr := e))
    case SCS(c) => t.(pen := t.pen.(charset := c))
    case DECAWM(on) => t.(modes := t.modes.(wraparound := on))
    case IRM(on) => t.(modes := t.modes.(insertMode := on))
    case DECRWM(on) => t.(modes := t.modes.(reverseWraparound := on))
    case _ => t
  }

  /** The operations that leave the lines alone. */
  function CursorMoved(t: Terminal, op: Op): (u: Terminal)
    requires TerminalOk(t) && op.Moves()
    ensures TerminalOk(u)
  {
    if op.MovesCursor() then To(t, Target(t, op))
    else
      match op
      case DECSTBM(params) => RegionSet(t, params)
      case DECSC => Saved(t)
      case DECRC => Restored(t)
      case DECOM(on) => var u := t.(modes := t.modes.(origin := on)); To(u, Placed(LimitsIn(u), 0, 0))
      case _ => SetIn(t, op)
  }

  /** The stand-in counts for the character, the code itself for the width. */
  function GlyphFor(charset: Charset, wcwidth: nat -> nat, code: nat): Glyph {
    Glyph(if code < 127 && code in charset then charset[code] else code, wcwidth(code))
  }

  function GlyphsIn(charset: Charset, wcwidth: nat -> nat, data: seq<nat>): (gs: seq<Glyph>)
    ensures |gs| == |data|
  {
    seq(|data|, k requires 0 <= k < |data| => GlyphFor(charset, wcwidth, data[k]))
  }

  ghost predicate Widths(wcwidth: nat -> nat) {
    forall c: nat :: wcwidth(c) <= 2
  }

  function ModesIn(t: Terminal): Modes {
    Modes(t.modes.wraparound, t.modes.insertMode, t.pen.attr, t.pen.eraseAttr)
  }

  /** The screen after an operation that changes lines. */
  function Changed(t: Terminal, wcwidth: nat -> nat, op: Op): (s: Screen)
    requires TerminalOk(t) && Widths(wcwidth) && !op.Moves()
    ensures ScreenOk(s, t.f, t.cols)
  {
    var s, f, cols := t.s, t.f, t.cols;
    match op
    case LF => LineFed(s, f, cols, t.modes.convertEol, t.pen.eraseAttr)
    case IND => Indexed(s, f, cols, t.modes.origin, t.pen.eraseAttr)
    case NEL => Indexed(At(s, Pos(0, s.pos.y)), f, cols, t.modes.origin, t.pen.eraseAttr)
    case RI => ReverseIndexed(s, f, cols, t.modes.origin, t.pen.eraseAttr)
    case BS => Backspaced(s, f, cols, t.modes.origin, t.modes.reverseWraparound)
    case IL(n) => LinesInserted(s, f, cols, t.modes.origin, t.pen.eraseAttr, n)
    case DL(n) => LinesDeleted(s, f, cols, t.modes.origin, t.pen.eraseAttr, n)
    case SU(n) => RegionScrolled(s, f, cols, true, t.pen.eraseAttr, n)
    case SD(n) => RegionScrolled(s, f, cols, false, DEFAULT_ATTR, n)
    case PRINT(data) => Printed(s, f, cols, ModesIn(t), GlyphsIn(t.pen.charset, wcwidth, data))
    case _ => s
  }

  function Applied(t: Terminal, wcwidth: nat -> nat, op: Op): (u: Terminal)
    requires TerminalOk(t) && Widths(wcwidth)
    ensures TerminalOk(u)
  {
    if op.Moves() then CursorMoved(t, op) else t.(s := Changed(t, wcwidth, op))
  }

  /** `u` is what the operation makes of `t`. */
  ghost predicate Becomes(t: Terminal, u: Terminal, wcwidth: nat -> nat, op: Op) {
    TerminalOk(t) && Widths(wcwidth) && u == Applied(t, wcwidth, op)
  }

  function AppliedAll(t: Terminal, wcwidth: nat -> nat, ops: seq<Op>): (u: Terminal)
    requires TerminalOk(t) && Widths(wcwidth)
    ensures TerminalOk(u)
  {
    if |ops| == 0 then t else Applied(AppliedAll(t, wcwidth, ops[..|ops| - 1]), wcwidth, ops[|ops| - 1])
  }

  // ---------------------------------------------------------------- what a run keeps

  lemma LinesStayIntact(s: Screen, f: Frame, cols: nat, origin: bool, eraseAttr: int, op: Op)
    requires ScreenOk(s, f, cols) && LinesIntact(s.view.lines)
    ensures ScreenOk(At(s, Pos(0, s.pos.y)), f, cols)
    ensures op.NEL? ==> LinesIntact(Indexed(At(s, Pos(0, s.pos.y)), f, cols, origin, eraseAttr).view.lines)
    ensures op.RI? ==> LinesIntact(ReverseIndexed(s, f, cols, origin, eraseAttr).view.lines)
    ensures op.IL? ==> LinesIntact(LinesInserted(s, f, cols, origin, eraseAttr, op.n).view.lines)
    ensures op.DL? ==> LinesIntact(LinesDeleted(s, f, cols, origin, eraseAttr, op.n).view.lines)
    ensures op.SU? ==> LinesIntact(RegionScrolled(s, f, cols, true, eraseAttr, op.n).view.lines)
    ensures op.SD? ==> LinesIntact(RegionScrolled(s, f, cols, false, DEFAULT_ATTR, op.n).view.lines)
  {
    hide LinesIntact, Indexed, ReverseIndexed, LinesInserted, LinesDeleted, RegionScrolled;
    match op
    case NEL => IndexedIntact(At(s, Pos(0, s.pos.y)), f, cols, origin, eraseAttr);
    case RI => RegionOpsIntact(s, f, cols, origin, eraseAttr, 0);
    case IL(n) => RegionOpsIntact(s, f, cols, origin, eraseAttr, n);
    case DL(n) => RegionOpsIntact(s, f, cols, origin, eraseAttr, n);
    case SU(n) => ScrolledIntact(s, f, cols, true, eraseAttr, n);
    case SD(n) => ScrolledIntact(s, f, cols, false, DEFAULT_ATTR, n);
    case _ =>
  }

  /** One operation keeps wide characters whole while wrapping is on and nothing is inserted. */
  lemma OneIntact(t: Terminal, wcwidth: nat -> nat, op: Op)
    requires TerminalOk(t) && Widths(wcwidth) && t.modes.wraparound && !t.modes.insertMode && LinesIntact(t.s.view.lines)
    ensures LinesIntact(Applied(t, wcwidth, op).s.view.lines)
  {
    hide LinesIntact, LineFed, Indexed, Backspaced, ReverseIndexed, LinesInserted, LinesDeleted, RegionScrolled, Printed;
    if op.Moves() {
      MovedModes(t, op);
    } else {
      LinesStayIntact(t.s, t.f, t.cols, t.modes.origin, t.pen.eraseAttr, op);
      match op
      case LF => LineFedIntact(t.s, t.f, t.cols, t.modes.convertEol, t.pen.eraseAttr);
      case IND => IndexedIntact(t.s, t.f, t.cols, t.modes.origin, t.pen.eraseAttr);
      case BS => BackspacedIntact(t.s, t.f, t.cols, t.modes.origin, t.modes.reverseWraparound);
      case PRINT(data) => PrintedIntact(t.s, t.f, t.cols, ModesIn(t), GlyphsIn(t.pen.charset, wcwidth, data));
      case _ =>
    }
    hide CursorMoved;
  }

  lemma MovedModes(t: Terminal, op: Op)
    requires TerminalOk(t) && op.Moves()
    ensures var u := CursorMoved(t, op);
            && u.s.view == t.s.view
            && (!op.SetsMode() ==> u.modes.wraparound == t.modes.wraparound && u.modes.insertMode == t.modes.insertMode)
            && (!op.DECSC? ==> u.saved == t.saved)
            && u.cols == t.cols && u.f.rows == t.f.rows
  {
    hide Target, Placed, Restricted, TerminalOk, OrOne, Param;
    if op.DECSTBM? {
      RegionKeeps(t, op.params);
      hide RegionSet;
    }
  }

  lemma RegionKeeps(t: Terminal, params: seq<nat>)
    requires TerminalOk(t)
    ensures var u := RegionSet(t, params);
            u.s.view == t.s.view && u.cols == t.cols && u.f.rows == t.f.rows && u.modes.wraparound == t.modes.wraparound && u.modes.insertMode == t.modes.insertMode && u.saved == t.saved
  {
    hide Placed, TerminalOk, OrOne, Param;
  }

  /** Without insert mode or switching off wrapping no run of operations tears a wide character; a saved cursor stays saved. */
  lemma {:induction false} RunIntact(t: Terminal, wcwidth: nat -> nat, ops: seq<Op>)
    requires TerminalOk(t) && Widths(wcwidth)
    ensures var u := AppliedAll(t, wcwidth, ops);
            && u.cols == t.cols && u.f.rows == t.f.rows
            && (DECSC !in ops ==> u.saved == t.saved)
            && ((forall op :: op in ops ==> !op.SetsMode()) ==>
                  && u.modes.wraparound == t.modes.wraparound && u.modes.insertMode == t.modes.insertMode
                  && (t.modes.wraparound && !t.modes.insertMode && LinesIntact(t.s.view.lines) ==> LinesIntact(u.s.view.lines)))
    decreases |ops|
  {
    if |ops| > 0 {
      hide LinesIntact, TerminalOk, CursorMoved, Changed;
      var less, op := ops[..|ops| - 1], ops[|ops| - 1];
      assert ops == less + [op];
      RunIntact(t, wcwidth, less);
      var before := AppliedAll(t, wcwidth, less);
      if op.Moves() {
        MovedModes(before, op);
      }
      if before.modes.wraparound && !before.modes.insertMode && LinesIntact(before.s.view.lines) {
        OneIntact(before, wcwidth, op);
      }
    }
  }

  /** `u` is what the operations make of `t`, one after the other. */
  ghost predicate ComesTo(t: Terminal, u: Terminal, wcwidth: nat -> nat, ops: seq<Op>) {
    TerminalOk(t) && Widths(wcwidth) && u == AppliedAll(t, wcwidth, ops)
  }

  lemma BecomesMoved(t: Terminal, u: Terminal, wcwidth: nat -> nat, op: Op)
    requires TerminalOk(t) && Widths(wcwidth) && op.MovesCursor() && u == t.(s := At(t.s, Target(t, op)))
    ensures Becomes(t, u, wcwidth, op)
  {
    hide Target, TerminalOk;
  }

  /** The operations that set something, or save or restore the cursor. */
  lemma BecomesSet(t: Terminal, u: Terminal, wcwidth: nat -> nat, op: Op)
    requires TerminalOk(t) && Widths(wcwidth) && op.Moves() && !op.MovesCursor() && u == CursorMoved(t, op)
    ensures Becomes(t, u, wcwidth, op)
  {
    hide CursorMoved, TerminalOk;
  }

  lemma BecomesChanged(t: Terminal, u: Terminal, wcwidth: nat -> nat, op: Op)
    requires TerminalOk(t) && Widths(wcwidth) && !op.Moves() && u == t.(s := Changed(t, wcwidth, op))
    ensures Becomes(t, u, wcwidth, op)
  {
    hide Changed, TerminalOk;
  }

  lemma BecomesSetIn(t: Terminal, u: Terminal, wcwidth: nat -> nat, op: Op)
    requires TerminalOk(t) && Widths(wcwidth) && op.Sets() && u == SetIn(t, op)
    ensures Becomes(t, u, wcwidth, op)
  {
    hide SetIn, TerminalOk;
  }

  lemma RunKeeps(t: Terminal, u: Terminal, wcwidth: nat -> nat, ops: seq<Op>)
    requires ComesTo(t, u, wcwidth, ops)
    ensures DECSC !in ops ==> u.saved == t.saved
    ensures LinesIntact(t.s.view.lines) && t.modes.wraparound && !t.modes.insertMode && (forall op :: op in ops ==> !op.SetsMode())
            ==> LinesIntact(u.s.view.lines)
  {
    hide LinesIntact, TerminalOk, AppliedAll;
    RunIntact(t, wcwidth, ops);
  }

  lemma StartsAs(t: Terminal, wcwidth: nat -> nat)
    requires TerminalOk(t) && Widths(wcwidth)
    ensures ComesTo(t, t, wcwidth, [])
  {
  }

  lemma GoesOn(t: Terminal, u: Terminal, v: Terminal, wcwidth: nat -> nat, ops: seq<Op>, k: nat)
    requires k < |ops| && ComesTo(t, u, wcwidth, ops[..k]) && Becomes(u, v, wcwidth, ops[k])
    ensures ComesTo(t, v, wcwidth, ops[..k + 1])
  {
    hide Applied, TerminalOk;
    assert ops[..k + 1][..k] == ops[..k];
  }

  lemma AppliedSnoc(t: Terminal, wcwidth: nat -> nat, ops: seq<Op>, op: Op)
    requires TerminalOk(t) && Widths(wcwidth)
    ensures AppliedAll(t, wcwidth, ops + [op]) == Applied(AppliedAll(t, wcwidth, ops), wcwidth, op)
  {
    hide Applied, TerminalOk;
    assert (ops + [op])[..|ops|] == ops;
  }

  lemma {:induction false} AppliedCons(t: Terminal, wcwidth: nat -> nat, op: Op, ops: seq<Op>)
    requires TerminalOk(t) && Widths(wcwidth)
    ensures AppliedAll(t, wcwidth, [op] + ops) == AppliedAll(Applied(t, wcwidth, op), wcwidth, ops)
    decreases |ops|
  {
    hide Applied, TerminalOk;
    if |ops| == 0 {
      assert [op] + ops == [] + [op];
      AppliedSnoc(t, wcwidth, [], op);
    } else {
      var n := |ops| - 1;
      AppliedCons(t, wcwidth, op, ops[..n]);
      assert ([op] + ops)[..n + 1] == [op] + ops[..n];
    }
  }

  /**
    Saving the cursor, any operations that do not save it again, and restoring it: attributes and
    character set are as they were, and the cursor is in its column and in its line of the store, as
    far as that line is on the screen, and in origin mode in the region.
    */
  lemma SavedAndRestored(t: Terminal, wcwidth: nat -> nat, ops: seq<Op>)
    requires TerminalOk(t) && Widths(wcwidth) && DECSC !in ops
    ensures var u := AppliedAll(t, wcwidth, [DECSC] + ops + [DECRC]);
            && u.pen == t.pen && u.cols == t.cols
            && u.s.pos.x == Min(t.s.pos.x, t.cols - 1)
            && u.s.pos.y == (if u.modes.origin then Within(u.f.top, u.f.bottom, t.s.view.ybase + t.s.pos.y - u.s.view.ybase)
                             else Within(0, u.f.rows - 1, t.s.view.ybase + t.s.pos.y - u.s.view.ybase))
  {
    hide AppliedAll, TerminalOk, Restored;
    var kept := Saved(t);
    SavedOk(t, wcwidth);
    var v := AppliedAll(kept, wcwidth, ops);
    RunIntact(kept, wcwidth, ops);
    AppliedSnoc(t, wcwidth, [DECSC] + ops, DECRC);
    AppliedCons(t, wcwidth, DECSC, ops);
    RestoredIs(v, wcwidth);
    hide Applied;
  }

  lemma SavedOk(t: Terminal, wcwidth: nat -> nat)
    requires TerminalOk(t) && Widths(wcwidth)
    ensures TerminalOk(Saved(t)) && Applied(t, wcwidth, DECSC) == Saved(t)
    ensures 0 <= t.s.pos.x
  {
  }

  lemma RestoredIs(v: Terminal, wcwidth: nat -> nat)
    requires TerminalOk(v) && Widths(wcwidth) && 0 <= v.saved.x
    ensures var u := Applied(v, wcwidth, DECRC);
            && u.pen == v.saved.pen && u.s.view == v.s.view && u.f == v.f && u.cols == v.cols && u.modes == v.modes
            && u.s.pos.x == Min(v.saved.x, v.cols - 1)
            && u.s.pos.y == (if v.modes.origin then Within(v.f.top, v.f.bottom, v.saved.y - v.s.view.ybase)
                             else Within(0, v.f.rows - 1, v.saved.y - v.s.view.ybase))
  {
  }
}
