/**
  The parser proper: a loop over the decoded codes that looks each one up in the table, and
  four inner loops that swallow whole stretches of printable characters, parameter
  characters, OSC data and DCS data without going back to the table.
  */
module EscapeParser {
  import opened Machine
  import opened Transitions
  import P = Params
  import ParamLists

  // ---------------------------------------------------------------- what the loops amount to

  /** `inPut`: the previous code of this call was DCS data. */
  datatype FastState = FastState(p: PState, inPut: bool)

  type FastResult = Outcome<FastState, Event>

  /** The table step, except that the DCS data loop takes DEL for data. */
  function FastStep(f: FastState, code: nat): FastResult {
    if f.inPut && f.p.state == DcsPassthrough && code == DEL then Outcome(f, [DcsByte(DEL)])
    else
      var r := Step(f.p, code);
      Outcome(FastState(r.state, Table(f.p.state, code).action == DcsPut), r.out)
  }

  function FastParse(p: PState, codes: seq<nat>): FastResult {
    Run(FastStep, FastState(p, false), codes)
  }

  // ---------------------------------------------------------------- the calls to the handlers

  datatype Call =
    | PrintSlice(codes: seq<nat>)
    | OscSlice(codes: seq<nat>)
    | DcsSlice(codes: seq<nat>)
    | Single(event: Event)

  function EventsOf(c: Call): seq<Event> {
    match c
    case PrintSlice(codes) => seq(|codes|, i requires 0 <= i < |codes| => Printed(codes[i]))
    case OscSlice(codes) => seq(|codes|, i requires 0 <= i < |codes| => OscByte(codes[i]))
    case DcsSlice(codes) => seq(|codes|, i requires 0 <= i < |codes| => DcsByte(codes[i]))
    case Single(e) => [e]
  }

  /** The calls with adjacent slices joined: seen code by code. */
  function Events(calls: seq<Call>): seq<Event> {
    if |calls| == 0 then [] else Events(calls[..|calls| - 1]) + EventsOf(calls[|calls| - 1])
  }

  lemma EventsSnoc(calls: seq<Call>, c: Call)
    ensures Events(calls + [c]) == Events(calls) + EventsOf(c)
  {
    assert (calls + [c])[..|calls|] == calls;
  }

  // ---------------------------------------------------------------- the bulk loops

  /** Ends a stretch of printable codes. */
  predicate StopsPrint(c: nat) {
    c < 32 || (c > 126 && c < NON_ASCII_PRINTABLE)
  }

  predicate StopsOsc(c: nat) {
    c < 32 || (c > 127 && c < NON_ASCII_PRINTABLE)
  }

  predicate StopsDcs(c: nat) {
    c == CAN || c == SUB || c == ESC || (c > 127 && c < NON_ASCII_PRINTABLE)
  }

  predicate StopsParam(c: nat) {
    !(c > 47 && c < 60)
  }

  lemma PrintOneCode(p: PState, code: nat)
    requires p.state == Ground && !StopsPrint(code)
    ensures FastStep(FastState(p, false), code) == Outcome(FastState(p, false), [Printed(code)])
  {
  }

  lemma OscOneCode(p: PState, code: nat)
    requires p.state == OscString && !StopsOsc(code)
    ensures FastStep(FastState(p, false), code) == Outcome(FastState(p, false), [OscByte(code)])
  {
  }

  lemma PrintStretchMore(part: seq<nat>, n: nat)
    requires n + 1 == |part|
    ensures EventsOf(PrintSlice(part[..n])) + [Printed(part[n])] == EventsOf(PrintSlice(part)) && (n == 0 ==> EventsOf(PrintSlice(part[..n])) == [])
  {
  }

  lemma {:induction false} PrintStretch(p: PState, part: seq<nat>)
    requires |part| > 0 && p.state == Ground && forall k :: 0 <= k < |part| ==> !StopsPrint(part[k])
    ensures Run(FastStep, FastState(p, false), part) == Outcome(FastState(p, false), EventsOf(PrintSlice(part)))
    decreases |part|
  {
    var n := |part| - 1;
    PrintOneCode(p, part[n]);
    RunSnoc(FastStep, FastState(p, false), part, n);
    hide FastStep, Table, Run, EventsOf;
    assert part[..n + 1] == part;
    PrintStretchMore(part, n);
    if n > 0 {
      PrintStretch(p, part[..n]);
    } else {
      RunNone(FastStep, FastState(p, false), part[..n]);
    }
  }

  lemma OscStretchMore(part: seq<nat>, n: nat)
    requires n + 1 == |part|
    ensures EventsOf(OscSlice(part[..n])) + [OscByte(part[n])] == EventsOf(OscSlice(part)) && (n == 0 ==> EventsOf(OscSlice(part[..n])) == [])
  {
  }

  lemma {:induction false} OscStretch(p: PState, part: seq<nat>)
    requires |part| > 0 && p.state == OscString && forall k :: 0 <= k < |part| ==> !StopsOsc(part[k])
    ensures Run(FastStep, FastState(p, false), part) == Outcome(FastState(p, false), EventsOf(OscSlice(part)))
    decreases |part|
  {
    var n := |part| - 1;
    OscOneCode(p, part[n]);
    RunSnoc(FastStep, FastState(p, false), part, n);
    hide FastStep, Table, Run, EventsOf;
    assert part[..n + 1] == part;
    OscStretchMore(part, n);
    if n > 0 {
      OscStretch(p, part[..n]);
    } else {
      RunNone(FastStep, FastState(p, false), part[..n]);
    }
  }

  lemma DcsOne(p: PState, inPut: bool, code: nat)
    requires p.state == DcsPassthrough && !StopsDcs(code) && (code == DEL ==> inPut)
    ensures FastStep(FastState(p, inPut), code) == Outcome(FastState(p, true), [DcsByte(code)])
  {
  }

  lemma {:induction false} DcsStretch(p: PState, part: seq<nat>)
    requires |part| > 0 && p.state == DcsPassthrough && part[0] != DEL
    requires forall k :: 0 <= k < |part| ==> !StopsDcs(part[k])
    ensures Run(FastStep, FastState(p, false), part) == Outcome(FastState(p, true), EventsOf(DcsSlice(part)))
    decreases |part|
  {
    var n := |part| - 1;
    hide FastStep;
    DcsOne(p, n > 0, part[n]);
    if n > 0 {
      DcsStretch(p, part[..n]);
    }
    assert EventsOf(DcsSlice(part[..n])) + [DcsByte(part[n])] == EventsOf(DcsSlice(part));
  }

  predicate TakesParams(s: State) {
    s == CsiEntry || s == CsiParam || s == DcsEntry || s == DcsParam
  }

  function ParamState(s: State): State {
    if s == CsiEntry || s == CsiParam then CsiParam else DcsParam
  }

  lemma {:induction false} ParamStretch(p: PState, part: seq<nat>)
    requires |part| > 0 && TakesParams(p.state) && forall k :: 0 <= k < |part| ==> !StopsParam(part[k])
    ensures Run(FastStep, FastState(p, false), part)
         == Outcome(FastState(p.(state := ParamState(p.state), params := ParamLists.Feed(p.params, part)), false), [])
    decreases |part|
  {
    var n := |part| - 1;
    var q := if n == 0 then p else p.(state := ParamState(p.state), params := ParamLists.Feed(p.params, part[..n]));
    assert FastStep(FastState(q, false), part[n])
        == Outcome(FastState(q.(state := ParamState(p.state), params := ParamLists.FeedCode(q.params, part[n])), false), []);
    if n > 0 {
      ParamStretch(p, part[..n]);
    }
    hide FastStep, ParamLists.FeedCode;
  }

  // ---------------------------------------------------------------- where the main loop stands

  /** The loop is about to look up position `d`; a DEL there is not in the middle of DCS data. */
  ghost predicate Reached(p0: PState, before: seq<Event>, codes: seq<nat>, d: nat, p: PState, out: seq<Event>) {
    && d <= |codes|
    && var r := FastParse(p0, codes[..d]);
    && r.state.p == p && out == before + r.out
    && (r.state.inPut && d < |codes| ==> codes[d] != DEL)
  }

  lemma ReachedStart(p0: PState, before: seq<Event>, codes: seq<nat>)
    ensures Reached(p0, before, codes, 0, p0, before)
  {
    assert before + [] == before;
  }

  lemma ReachedEnd(p0: PState, before: seq<Event>, codes: seq<nat>, p: PState, out: seq<Event>)
    requires Reached(p0, before, codes, |codes|, p, out)
    ensures FastParse(p0, codes).state.p == p && before + FastParse(p0, codes).out == out
  {
    assert codes[..|codes|] == codes;
  }

  /** From a point where the DCS rule does not bite, what was before does not matter. */
  lemma Forget(f: FastState, part: seq<nat>)
    requires |part| > 0 && (f.inPut ==> part[0] != DEL)
    ensures Run(FastStep, f, part) == Run(FastStep, FastState(f.p, false), part)
  {
    RunCons(FastStep, f, part);
    RunCons(FastStep, FastState(f.p, false), part);
  }

  /** Reading the stretch `codes[d..e]` on from `d`. */
  lemma Advance(p0: PState, before: seq<Event>, codes: seq<nat>, d: nat, p: PState, out: seq<Event>, e: nat)
    requires Reached(p0, before, codes, d, p, out) && d < e <= |codes|
    requires var r := Run(FastStep, FastState(p, false), codes[d..e]);
             r.state.inPut && e < |codes| ==> codes[e] != DEL
    ensures var r := Run(FastStep, FastState(p, false), codes[d..e]);
            Reached(p0, before, codes, e, r.state.p, out + r.out)
  {
    hide FastStep;
    assert codes[..e] == codes[..d] + codes[d..e];
    var f := FastParse(p0, codes[..d]).state;
    RunConcat(FastStep, FastState(p0, false), codes[..d], codes[d..e]);
    Forget(f, codes[d..e]);
    var first := FastParse(p0, codes[..d]).out;
    var second := Run(FastStep, FastState(p, false), codes[d..e]).out;
    assert (before + first) + second == before + (first + second);
  }

  lemma FastOne(p: PState, code: nat)
    ensures var f := FastStep(FastState(p, false), code);
            f.state.p == Step(p, code).state && f.out == Step(p, code).out
            && f.state.inPut == (Table(p.state, code).action == DcsPut)
    ensures Run(FastStep, FastState(p, false), [code]) == FastStep(FastState(p, false), code)
  {
    var codes := [code];
    RunSnoc(FastStep, FastState(p, false), codes, 0);
    assert codes[..1] == codes;
    assert [] + FastStep(FastState(p, false), code).out == FastStep(FastState(p, false), code).out;
  }

  /** One table step on from `d`. */
  lemma AdvanceOne(p0: PState, before: seq<Event>, codes: seq<nat>, d: nat, p: PState, out: seq<Event>)
    requires Reached(p0, before, codes, d, p, out) && d < |codes| && Table(p.state, codes[d]).action != DcsPut
    ensures Reached(p0, before, codes, d + 1, Step(p, codes[d]).state, out + Step(p, codes[d]).out)
  {
    hide Step, Reached, FastStep, Table;
    assert codes[d..d + 1] == [codes[d]];
    FastOne(p, codes[d]);
    Advance(p0, before, codes, d, p, out, d + 1);
  }

  lemma AdvancePrint(p0: PState, before: seq<Event>, codes: seq<nat>, d: nat, p: PState, out: seq<Event>, e: nat)
    requires Reached(p0, before, codes, d, p, out) && d < e <= |codes|
    requires Table(p.state, codes[d]).action == Print && forall k :: d < k < e ==> !StopsPrint(codes[k])
    ensures p.state == Table(p.state, codes[d]).next
    ensures Reached(p0, before, codes, e, p, out + EventsOf(PrintSlice(codes[d..e])))
  {
    hide FastStep;
    PrintStretch(p, codes[d..e]);
    Advance(p0, before, codes, d, p, out, e);
  }

  lemma AdvanceOsc(p0: PState, before: seq<Event>, codes: seq<nat>, d: nat, p: PState, out: seq<Event>, e: nat)
    requires Reached(p0, before, codes, d, p, out) && d < e <= |codes|
    requires Table(p.state, codes[d]).action == OscPut && forall k :: d < k < e ==> !StopsOsc(codes[k])
    ensures p.state == Table(p.state, codes[d]).next
    ensures Reached(p0, before, codes, e, p, out + EventsOf(OscSlice(codes[d..e])))
  {
    hide FastStep;
    OscStretch(p, codes[d..e]);
    Advance(p0, before, codes, d, p, out, e);
  }

  lemma AdvanceDcs(p0: PState, before: seq<Event>, codes: seq<nat>, d: nat, p: PState, out: seq<Event>, e: nat)
    requires Reached(p0, before, codes, d, p, out) && d < e <= |codes|
    requires Table(p.state, codes[d]).action == DcsPut && forall k :: d < k < e ==> !StopsDcs(codes[k])
    requires e < |codes| ==> StopsDcs(codes[e])
    ensures p.state == Table(p.state, codes[d]).next
    ensures Reached(p0, before, codes, e, p, out + EventsOf(DcsSlice(codes[d..e])))
  {
    hide FastStep;
    DcsStretch(p, codes[d..e]);
    Advance(p0, before, codes, d, p, out, e);
  }

  lemma AdvanceParams(p0: PState, before: seq<Event>, codes: seq<nat>, d: nat, p: PState, out: seq<Event>, e: nat)
    requires Reached(p0, before, codes, d, p, out) && d < e <= |codes|
    requires Table(p.state, codes[d]).action == Param && forall k :: d < k < e ==> !StopsParam(codes[k])
    ensures !StopsParam(codes[d])
    ensures Reached(p0, before, codes, e,
                    p.(state := Table(p.state, codes[d]).next, params := ParamLists.Feed(p.params, codes[d..e])), out)
  {
    hide FastStep;
    ParamStretch(p, codes[d..e]);
    Advance(p0, before, codes, d, p, out, e);
    assert out + [] == out;
  }

  // ---------------------------------------------------------------- the parser

  class EscapeSequenceParser {
    var currentState: State
    var collect: int
    const params: P.Params
    /** The handler calls made so far. */
    var calls: seq<Call>

    ghost predicate Valid()
      reads this, params, params.Repr()
    {
      this !in params.Repr() && params.Valid()
    }

    ghost function Model(): PState
      reads this, params, params.Repr()
      requires Valid()
    {
      PState(currentState, collect, params.Model())
    }

    constructor ()
      ensures Valid() && Model() == Cleared(Ground) && calls == []
      ensures fresh(this.params.Repr())
    {
      currentState, collect, calls := Ground, 0, [];
      params := new P.Params();
      new;
      params.AddParam(0);
    }

    /** The print loop: four looks per turn. */
    static method ScanPrint(codes: seq<nat>, i: nat, length: nat) returns (s: nat)
      requires i < length <= |codes|
      ensures i < s <= length && (forall k :: i < k < s ==> !StopsPrint(codes[k]))
      ensures s == length || StopsPrint(codes[s])
    {
      s := i + 1;
      while true
        invariant i < s <= length && forall k :: i < k < s ==> !StopsPrint(codes[k])
        decreases length - s
      {
        if s >= length || StopsPrint(codes[s]) { return; }
        s := s + 1;
        if s >= length || StopsPrint(codes[s]) { return; }
        s := s + 1;
        if s >= length || StopsPrint(codes[s]) { return; }
        s := s + 1;
        if s >= length || StopsPrint(codes[s]) { return; }
        s := s + 1;
      }
    }

    static method ScanOsc(codes: seq<nat>, i: nat, length: nat) returns (s: nat)
      requires i < length <= |codes|
      ensures i < s <= length && (forall k :: i < k < s ==> !StopsOsc(codes[k]))
      ensures s == length || StopsOsc(codes[s])
    {
      s := i + 1;
      while !(s >= length || StopsOsc(codes[s]))
        invariant i < s <= length && forall k :: i < k < s ==> !StopsOsc(codes[k])
        decreases length - s
      {
        s := s + 1;
      }
    }

    static method ScanDcs(codes: seq<nat>, i: nat, length: nat) returns (s: nat)
      requires i < length <= |codes|
      ensures i < s <= length && (forall k :: i < k < s ==> !StopsDcs(codes[k]))
      ensures s == length || StopsDcs(codes[s])
    {
      s := i + 1;
      while !(s >= length || StopsDcs(codes[s]))
        invariant i < s <= length && forall k :: i < k < s ==> !StopsDcs(codes[k])
        decreases length - s
      {
        s := s + 1;
      }
    }

    /** One code of a parameter list. */
    method AddCode(r: nat)
      requires Valid() && !StopsParam(r)
      modifies params, params.params, params.subParams, params.subParamsIdx
      ensures Valid() && params.Model() == ParamLists.FeedCode(old(params.Model()), r)
    {
      if r == 59 {
        params.AddParam(0);
      } else if r == 58 {
        params.AddSubParam(-1);
      } else {
        params.AddDigit(r - 48);
      }
    }

    /** The parameter loop fills the parameter list and stops at the first other code. */
    method FillParams(codes: seq<nat>, i: nat, length: nat) returns (s: nat)
      requires Valid() && i < length <= |codes| && !StopsParam(codes[i])
      modifies params, params.params, params.subParams, params.subParamsIdx
      ensures Valid() && i < s <= length && (forall k :: i <= k < s ==> !StopsParam(codes[k]))
      ensures s == length || StopsParam(codes[s])
      ensures params.Model() == ParamLists.Feed(old(params.Model()), codes[i..s])
    {
      s := i;
      ghost var m0 := params.Model();
      NothingFed(m0, codes, i);
      hide ParamLists.Feed, ParamLists.FeedCode, StopsParam;
      while s == i || (s < length && codes[s] > 47 && codes[s] < 60)
        invariant Valid() && i <= s <= length && forall k :: i <= k < s ==> !StopsParam(codes[k])
        invariant params.Model() == ParamLists.Feed(m0, codes[i..s])
        decreases length - s
      {
        FeedMore(m0, codes, i, s);
        Stops(codes[s]);
        AddCode(codes[s]);
        s := s + 1;
      }
      if s < length {
        Stops(codes[s]);
      }
    }

    method ClearSequence()
      requires Valid()
      modifies this`collect, params, params.params, params.subParamsIdx
      ensures Valid() && collect == 0 && params.Model() == P.ParamAdded(P.EMPTY, 0)
      ensures currentState == old(currentState) && calls == old(calls)
    {
      params.Reset();
      params.AddParam(0);
      collect := 0;
    }

    method BulkPrint(ghost p0: PState, ghost before: seq<Event>, codes: seq<nat>, i: nat) returns (e: nat)
      requires Valid() && i < |codes| && Reached(p0, before, codes, i, Model(), Events(calls))
      requires Table(currentState, codes[i]).action == Print
      modifies this`calls
      ensures Valid() && i < e <= |codes| && Reached(p0, before, codes, e, Model(), Events(calls))
    {
      hide Reached, Table, EventsOf;
      e := ScanPrint(codes, i, |codes|);
      AdvancePrint(p0, before, codes, i, Model(), Events(calls), e);
      EventsSnoc(calls, PrintSlice(codes[i..e]));
      calls := calls + [PrintSlice(codes[i..e])];
    }

    method BulkOsc(ghost p0: PState, ghost before: seq<Event>, codes: seq<nat>, i: nat) returns (e: nat)
      requires Valid() && i < |codes| && Reached(p0, before, codes, i, Model(), Events(calls))
      requires Table(currentState, codes[i]).action == OscPut
      modifies this`calls
      ensures Valid() && i < e <= |codes| && Reached(p0, before, codes, e, Model(), Events(calls))
    {
      hide Reached, Table, EventsOf;
      e := ScanOsc(codes, i, |codes|);
      AdvanceOsc(p0, before, codes, i, Model(), Events(calls), e);
      EventsSnoc(calls, OscSlice(codes[i..e]));
      calls := calls + [OscSlice(codes[i..e])];
    }

    method BulkDcs(ghost p0: PState, ghost before: seq<Event>, codes: seq<nat>, i: nat) returns (e: nat)
      requires Valid() && i < |codes| && Reached(p0, before, codes, i, Model(), Events(calls))
      requires Table(currentState, codes[i]).action == DcsPut
      modifies this`calls
      ensures Valid() && i < e <= |codes| && Reached(p0, before, codes, e, Model(), Events(calls))
    {
      hide Reached, Table, EventsOf;
      e := ScanDcs(codes, i, |codes|);
      AdvanceDcs(p0, before, codes, i, Model(), Events(calls), e);
      EventsSnoc(calls, DcsSlice(codes[i..e]));
      calls := calls + [DcsSlice(codes[i..e])];
    }

    method BulkParams(ghost p0: PState, ghost before: seq<Event>, codes: seq<nat>, i: nat, next: State) returns (e: nat)
      requires Valid() && i < |codes| && Reached(p0, before, codes, i, Model(), Events(calls))
      requires Table(currentState, codes[i]) == Cell(Param, next)
      modifies this`currentState, params, params.params, params.subParams, params.subParamsIdx
      ensures Valid() && i < e <= |codes| && Reached(p0, before, codes, e, Model(), Events(calls))
    {
      ghost var p := Model();
      AdvanceParams(p0, before, codes, i, p, Events(calls), i + 1);
      hide Reached, Table, ParamLists.Feed;
      e := FillParams(codes, i, |codes|);
      AdvanceParams(p0, before, codes, i, p, Events(calls), e);
      currentState := next;
    }

    /** Parses a chunk of decoded codes. */
    method Parse(data: array<nat>, length: nat)
      requires Valid() && length <= data.Length
      modifies this, params, params.params, params.subParams, params.subParamsIdx
      ensures Valid()
      ensures Model() == FastParse(old(Model()), old(data[..length])).state.p
      ensures Events(calls) == Events(old(calls)) + FastParse(old(Model()), old(data[..length])).out
    {
      hide Reached, Table, Step, FastStep, Events;
      ghost var p0, before := Model(), Events(calls);
      var codes := data[..length];
      var i := 0;
      ReachedStart(p0, before, codes);
      while i < length
        invariant Valid() && i <= length
        invariant Reached(p0, before, codes, i, Model(), Events(calls))
      {
        var r := codes[i];
        var cell := Table(currentState, r);
        match cell.action {
          case Print => i := BulkPrint(p0, before, codes, i);
          case OscPut => i := BulkOsc(p0, before, codes, i);
          case DcsPut => i := BulkDcs(p0, before, codes, i);
          case Param => i := BulkParams(p0, before, codes, i, cell.next);
          case _ =>
            AdvanceOne(p0, before, codes, i, Model(), Events(calls));
            Act(cell, r);
            i := i + 1;
        }
      }
      ReachedEnd(p0, before, codes, Model(), Events(calls));
    }

    /** The actions that handle exactly one code. */
    method Act(cell: Cell, r: nat)
      requires Valid() && cell == Table(currentState, r)
      requires !cell.action.Print? && !cell.action.OscPut? && !cell.action.DcsPut? && !cell.action.Param?
      modifies this, params, params.params, params.subParamsIdx
      ensures Valid() && Model() == Step(old(Model()), r).state
      ensures Events(calls) == Events(old(calls)) + Step(old(Model()), r).out
    {
      StringEndsInGround(currentState, r);
      hide Table, ShiftIn, P.ParamAdded, P.WellFormed;
      var next := cell.next;
      match cell.action {
        case Execute =>
          Emit(Executed(r));
        case Fail =>
          var list := Snapshot();
          Emit(Failed(r, currentState, collect, list));
        case CsiDispatch =>
          var list := Snapshot();
          Emit(CsiDispatched(ShiftIn(collect, r), list));
        case Collect =>
          collect := ShiftIn(collect, r);
        case EscDispatch =>
          Emit(EscDispatched(ShiftIn(collect, r)));
        case Clear =>
          ClearSequence();
        case DcsHook =>
          var list := Snapshot();
          Emit(DcsHooked(ShiftIn(collect, r), list));
        case DcsUnhook =>
          Emit(DcsUnhooked(r != CAN && r != SUB));
          next := if r == ESC then Escape else next;
          ClearSequence();
        case OscStart =>
          Emit(OscStarted);
        case OscEnd =>
          Emit(OscEnded(r != CAN && r != SUB));
          next := if r == ESC then Escape else next;
          ClearSequence();
        case _ =>
      }
      currentState := next;
    }

    /** A handler call; the parameter list is passed along by its present value. */
    method Emit(e: Event)
      modifies this`calls
      ensures Events(calls) == Events(old(calls)) + [e]
    {
      EventsSnoc(calls, Single(e));
      calls := calls + [Single(e)];
    }

    method Snapshot() returns (m: P.ParamsState)
      requires Valid()
      ensures m == params.Model()
    {
      m := P.ParamsState(params.params[..params.length], params.subParams[..params.subParamsLength],
                         params.subParamsIdx[..params.length], params.rejectDigits, params.rejectSubDigits, params.digitIsSub);
    }
  }

  lemma StringEndsInGround(s: State, code: nat)
    ensures Table(s, code).action.OscEnd? || Table(s, code).action.DcsUnhook? ==> Table(s, code).next == Ground
  {
  }

  lemma Stops(code: nat)
    ensures StopsParam(code) <==> !(code > 47 && code < 60)
  {
  }

  lemma NothingFed(m: P.ParamsState, codes: seq<nat>, i: nat)
    requires i <= |codes|
    ensures ParamLists.Feed(m, codes[i..i]) == m
  {
  }

  lemma FeedMore(m: P.ParamsState, codes: seq<nat>, i: nat, s: nat)
    requires i <= s < |codes|
    ensures ParamLists.Feed(m, codes[i..s + 1]) == ParamLists.FeedCode(ParamLists.Feed(m, codes[i..s]), codes[s])
  {
    assert codes[i..s + 1][..s - i] == codes[i..s];
  }
}
