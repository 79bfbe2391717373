/**
  The state table of the escape sequence parser and the machine that follows it one code at
  a time.  Codes from 160 on share one column.
  */
module Transitions {
  import opened Machine
  import opened Params
  import ParamLists

  datatype State =
    | Ground | Escape | EscapeIntermediate
    | CsiEntry | CsiParam | CsiIntermediate | CsiIgnore
    | SosPmApcString | OscString
    | DcsEntry | DcsParam | DcsIgnore | DcsIntermediate | DcsPassthrough

  datatype Action =
    | Ignore | Fail | Print | Execute
    | OscStart | OscPut | OscEnd
    | CsiDispatch | Param | Collect | EscDispatch | Clear
    | DcsHook | DcsPut | DcsUnhook

  datatype Cell = Cell(action: Action, next: State)

  const NON_ASCII_PRINTABLE := 160
  const DEL := 127
  const ESC := 27
  const CAN := 24
  const SUB := 26

  // ---------------------------------------------------------------- the table

  /** The C0 controls that most states execute: all but CAN, SUB and ESC. */
  predicate IsControl(c: nat) {
    c <= 23 || c == 25 || 28 <= c <= 31
  }

  predicate IsPrintable(c: nat) {
    32 <= c <= 126
  }

  /** What a code does where a state says nothing of its own about it. */
  function Anywhere(c: nat): Cell {
    if c == CAN || c == SUB || c == 153 || c == 154 then Cell(Execute, Ground)
    else if c == 144 then Cell(Clear, DcsEntry)
    else if 128 <= c <= 151 then Cell(Execute, Ground)
    else if c == 156 then Cell(Ignore, Ground)
    else if c == ESC then Cell(Clear, Escape)
    else if c == 157 then Cell(OscStart, OscString)
    else if c == 152 || c == 158 || c == 159 then Cell(Ignore, SosPmApcString)
    else if c == 155 then Cell(Clear, CsiEntry)
    else Cell(Fail, Ground)
  }

  function InGround(c: nat): Cell {
    if IsPrintable(c) || c == NON_ASCII_PRINTABLE then Cell(Print, Ground)
    else if IsControl(c) then Cell(Execute, Ground)
    else Anywhere(c)
  }

  function InEscape(c: nat): Cell {
    if IsControl(c) then Cell(Execute, Escape)
    else if c == DEL then Cell(Ignore, Escape)
    else if c == 80 then Cell(Clear, DcsEntry)
    else if c == 91 then Cell(Clear, CsiEntry)
    else if c == 93 then Cell(OscStart, OscString)
    else if c == 88 || c == 94 || c == 95 then Cell(Ignore, SosPmApcString)
    else if 32 <= c <= 47 then Cell(Collect, EscapeIntermediate)
    else if 48 <= c <= 126 then Cell(EscDispatch, Ground)
    else Anywhere(c)
  }

  function InEscapeIntermediate(c: nat): Cell {
    if IsControl(c) then Cell(Execute, EscapeIntermediate)
    else if c == DEL then Cell(Ignore, EscapeIntermediate)
    else if 32 <= c <= 47 then Cell(Collect, EscapeIntermediate)
    else if 48 <= c <= 126 then Cell(EscDispatch, Ground)
    else Anywhere(c)
  }

  function InCsiEntry(c: nat): Cell {
    if IsControl(c) then Cell(Execute, CsiEntry)
    else if c == DEL then Cell(Ignore, CsiEntry)
    else if 32 <= c <= 47 then Cell(Collect, CsiIntermediate)
    else if 48 <= c <= 59 then Cell(Param, CsiParam)
    else if 60 <= c <= 63 then Cell(Collect, CsiParam)
    else if 64 <= c <= 126 then Cell(CsiDispatch, Ground)
    else Anywhere(c)
  }

  function InCsiParam(c: nat): Cell {
    if IsControl(c) then Cell(Execute, CsiParam)
    else if c == DEL then Cell(Ignore, CsiParam)
    else if 32 <= c <= 47 then Cell(Collect, CsiIntermediate)
    else if 48 <= c <= 59 then Cell(Param, CsiParam)
    else if 60 <= c <= 63 then Cell(Ignore, CsiIgnore)
    else if 64 <= c <= 126 then Cell(CsiDispatch, Ground)
    else Anywhere(c)
  }

  function InCsiIntermediate(c: nat): Cell {
    if IsControl(c) then Cell(Execute, CsiIntermediate)
    else if c == DEL then Cell(Ignore, CsiIntermediate)
    else if 32 <= c <= 47 then Cell(Collect, CsiIntermediate)
    else if 48 <= c <= 63 then Cell(Ignore, CsiIgnore)
    else if 64 <= c <= 126 then Cell(CsiDispatch, Ground)
    else Anywhere(c)
  }

  function InCsiIgnore(c: nat): Cell {
    if IsControl(c) then Cell(Execute, CsiIgnore)
    else if 32 <= c <= 63 || c == DEL || c == NON_ASCII_PRINTABLE then Cell(Ignore, CsiIgnore)
    else if 64 <= c <= 126 then Cell(Ignore, Ground)
    else Anywhere(c)
  }

  function InSosPmApcString(c: nat): Cell {
    if IsControl(c) || IsPrintable(c) || c == DEL then Cell(Ignore, SosPmApcString)
    else Anywhere(c)
  }

  function InOscString(c: nat): Cell {
    if c == 156 || c == ESC || c == CAN || c == SUB || c == 7 then Cell(OscEnd, Ground)
    else if IsControl(c) then Cell(Ignore, OscString)
    else if IsPrintable(c) || c == DEL || c == NON_ASCII_PRINTABLE then Cell(OscPut, OscString)
    else Anywhere(c)
  }

  function InDcsEntry(c: nat): Cell {
    if IsControl(c) || c == DEL then Cell(Ignore, DcsEntry)
    else if 32 <= c <= 47 then Cell(Collect, DcsIntermediate)
    else if 48 <= c <= 59 then Cell(Param, DcsParam)
    else if 60 <= c <= 63 then Cell(Collect, DcsParam)
    else if 64 <= c <= 126 then Cell(DcsHook, DcsPassthrough)
    else Anywhere(c)
  }

  function InDcsParam(c: nat): Cell {
    if IsControl(c) || c == DEL then Cell(Ignore, DcsParam)
    else if 32 <= c <= 47 then Cell(Collect, DcsIntermediate)
    else if 48 <= c <= 59 then Cell(Param, DcsParam)
    else if 60 <= c <= 63 then Cell(Ignore, DcsIgnore)
    else if 64 <= c <= 126 then Cell(DcsHook, DcsPassthrough)
    else Anywhere(c)
  }

  function InDcsIgnore(c: nat): Cell {
    if IsControl(c) || 32 <= c <= 127 || c == NON_ASCII_PRINTABLE then Cell(Ignore, DcsIgnore)
    else Anywhere(c)
  }

  function InDcsIntermediate(c: nat): Cell {
    if IsControl(c) || c == DEL then Cell(Ignore, DcsIntermediate)
    else if 32 <= c <= 47 then Cell(Collect, DcsIntermediate)
    else if 48 <= c <= 63 then Cell(Ignore, DcsIgnore)
    else if 64 <= c <= 126 then Cell(DcsHook, DcsPassthrough)
    else Anywhere(c)
  }

  function InDcsPassthrough(c: nat): Cell {
    if c == ESC || c == 156 || c == CAN || c == SUB then Cell(DcsUnhook, Ground)
    else if IsControl(c) || IsPrintable(c) || c == NON_ASCII_PRINTABLE then Cell(DcsPut, DcsPassthrough)
    else if c == DEL then Cell(Ignore, DcsPassthrough)
    else Anywhere(c)
  }

  function Table(s: State, code: nat): Cell {
    var c := if code < NON_ASCII_PRINTABLE then code else NON_ASCII_PRINTABLE;
    match s
    case Ground => InGround(c)
    case Escape => InEscape(c)
    case EscapeIntermediate => InEscapeIntermediate(c)
    case CsiEntry => InCsiEntry(c)
    case CsiParam => InCsiParam(c)
    case CsiIntermediate => InCsiIntermediate(c)
    case CsiIgnore => InCsiIgnore(c)
    case SosPmApcString => InSosPmApcString(c)
    case OscString => InOscString(c)
    case DcsEntry => InDcsEntry(c)
    case DcsParam => InDcsParam(c)
    case DcsIgnore => InDcsIgnore(c)
    case DcsIntermediate => InDcsIntermediate(c)
    case DcsPassthrough => InDcsPassthrough(c)
  }

  // ---------------------------------------------------------------- one code at a time

  /** What the handlers get to see; print and put slices are seen code by code. */
  datatype Event =
    | Printed(code: nat)
    | Executed(code: nat)
    | Failed(code: nat, state: State, collect: int, params: ParamsState)
    | CsiDispatched(ident: int, params: ParamsState)
    | EscDispatched(ident: int)
    | OscStarted
    | OscByte(code: nat)
    | OscEnded(success: bool)
    | DcsHooked(ident: int, params: ParamsState)
    | DcsByte(code: nat)
    | DcsUnhooked(success: bool)

  datatype PState = PState(state: State, collect: int, params: ParamsState)

  /** Conversion to a signed 32-bit integer. */
  function Int32(x: int): int {
    var m := x % 0x1_0000_0000;
    if m >= 0x8000_0000 then m - 0x1_0000_0000 else m
  }

  /** `collect << 8 | code` on 32-bit integers, for a code below 256. */
  function ShiftIn(collect: int, code: nat): int {
    Int32(collect * 256) + code
  }

  function Cleared(next: State): PState {
    PState(next, 0, ParamAdded(EMPTY, 0))
  }

  /** After a string ends the next state is Ground, or Escape when it was an ESC that ended it. */
  function AfterString(code: nat): State {
    if code == ESC then Escape else Ground
  }

  type Result = Outcome<PState, Event>

  function Step(p: PState, code: nat): Result {
    var cell := Table(p.state, code);
    var q := p.(state := cell.next);
    match cell.action
    case Ignore => Outcome(q, [])
    case Fail => Outcome(q, [Failed(code, p.state, p.collect, p.params)])
    case Print => Outcome(q, [Printed(code)])
    case Execute => Outcome(q, [Executed(code)])
    case OscStart => Outcome(q, [OscStarted])
    case OscPut => Outcome(q, [OscByte(code)])
    case OscEnd => Outcome(Cleared(AfterString(code)), [OscEnded(code != CAN && code != SUB)])
    case CsiDispatch => Outcome(q, [CsiDispatched(ShiftIn(p.collect, code), p.params)])
    case Param => Outcome(q.(params := ParamLists.FeedCode(p.params, code)), [])
    case Collect => Outcome(q.(collect := ShiftIn(p.collect, code)), [])
    case EscDispatch => Outcome(q, [EscDispatched(ShiftIn(p.collect, code))])
    case Clear => Outcome(Cleared(cell.next), [])
    case DcsHook => Outcome(q, [DcsHooked(ShiftIn(p.collect, code), p.params)])
    case DcsPut => Outcome(q, [DcsByte(code)])
    case DcsUnhook => Outcome(Cleared(AfterString(code)), [DcsUnhooked(code != CAN && code != SUB)])
  }

  function Parse(p: PState, codes: seq<nat>): Result {
    Run(Step, p, codes)
  }

  // ---------------------------------------------------------------- recovery

  /** An ESC puts the parser into one and the same state, whatever it was in the middle of. */
  lemma EscResets(p: PState)
    ensures Step(p, ESC).state == Cleared(Escape)
  {
  }

  /** So from the first ESC on, a parser's events do not depend on its history. */
  lemma EscSynchronises(p: PState, codes: seq<nat>)
    ensures Parse(p, [ESC] + codes) ==
            Outcome(Parse(Cleared(Escape), codes).state, Step(p, ESC).out + Parse(Cleared(Escape), codes).out)
  {
    hide Step, Table, Cleared;
    EscResets(p);
    var input: seq<nat> := [ESC] + codes;
    assert input[1..] == codes;
    RunCons(Step, p, input);
  }
}
