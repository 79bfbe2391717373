/** How the transition table is filled: a default, and then rule upon rule, of which the last one counts. */
module TableBuilder {
  import opened Transitions

  const SIZE := 4095

  function StateNumber(s: State): (n: nat)
    ensures n < 14
  {
    match s
    case Ground => 0
    case Escape => 1
    case EscapeIntermediate => 2
    case CsiEntry => 3
    case CsiParam => 4
    case CsiIntermediate => 5
    case CsiIgnore => 6
    case SosPmApcString => 7
    case OscString => 8
    case DcsEntry => 9
    case DcsParam => 10
    case DcsIgnore => 11
    case DcsIntermediate => 12
    case DcsPassthrough => 13
  }

  function StateAt(n: nat): State {
    match n
    case 0 => Ground
    case 1 => Escape
    case 2 => EscapeIntermediate
    case 3 => CsiEntry
    case 4 => CsiParam
    case 5 => CsiIntermediate
    case 6 => CsiIgnore
    case 7 => SosPmApcString
    case 8 => OscString
    case 9 => DcsEntry
    case 10 => DcsParam
    case 11 => DcsIgnore
    case 12 => DcsIntermediate
    case _ => DcsPassthrough
  }

  function ActionNumber(a: Action): (n: nat)
    ensures n < 15
  {
    match a
    case Ignore => 0
    case Fail => 1
    case Print => 2
    case Execute => 3
    case OscStart => 4
    case OscPut => 5
    case OscEnd => 6
    case CsiDispatch => 7
    case Param => 8
    case Collect => 9
    case EscDispatch => 10
    case Clear => 11
    case DcsHook => 12
    case DcsPut => 13
    case DcsUnhook => 14
  }

  function ActionAt(n: nat): Action {
    match n
    case 0 => Ignore
    case 1 => Fail
    case 2 => Action.Print
    case 3 => Execute
    case 4 => OscStart
    case 5 => OscPut
    case 6 => OscEnd
    case 7 => CsiDispatch
    case 8 => Param
    case 9 => Collect
    case 10 => EscDispatch
    case 11 => Clear
    case 12 => DcsHook
    case 13 => DcsPut
    case _ => DcsUnhook
  }

  lemma Numbered(n: nat)
    requires n < 14
    ensures StateNumber(StateAt(n)) == n
  {
  }

  /** `action << 4 | next`, a byte. */
  function Packed(e: Cell): (n: nat)
    ensures n < 256
  {
    16 * ActionNumber(e.action) + StateNumber(e.next)
  }

  function Unpacked(n: nat): Cell {
    Cell(ActionAt(n / 16), StateAt(n % 16))
  }

  /** Both halves of an entry come back. */
  lemma UnpackedPacked(e: Cell)
    ensures Unpacked(Packed(e)) == e
  {
    hide ActionAt, StateAt, ActionNumber, StateNumber;
    var a, s := ActionNumber(e.action), StateNumber(e.next);
    assert (16 * a + s) / 16 == a && (16 * a + s) % 16 == s;
    ActionCode(e.action);
    StateCode(e.next);
  }

  lemma ActionCode(a: Action)
    ensures ActionAt(ActionNumber(a)) == a
  {
  }

  lemma StateCode(s: State)
    ensures StateAt(StateNumber(s)) == s
  {
  }

  function Slice(low: nat, high: nat): (codes: seq<nat>)
    requires low <= high
    ensures forall c: nat :: c in codes <==> low <= c < high
  {
    if low == high then [] else Slice(low, high - 1) + [high - 1]
  }

  /** The C0 controls but CAN, SUB and ESC, put together as the builder does. */
  function Executables(): (codes: seq<nat>)
    ensures forall c: nat :: c in codes <==> Executable(c)
  {
    Slice(0, 24) + [25] + Slice(28, 32)
  }

  predicate Executable(c: nat) {
    c < 24 || c == 25 || 28 <= c < 32
  }

  /** The codes that have a rule for every state. */
  predicate ForAll(c: nat) {
    c in {24, 26, 27} || 128 <= c < 160
  }

  /** The entry after the first part: the default, the text, and what holds in every state.  Of several rules the last one counts. */
  function Part1(s: State, c: nat): Cell {
    if c == 144 then Cell(Clear, DcsEntry)
    else if c == 155 then Cell(Clear, CsiEntry)
    else if c in {152, 158, 159} then Cell(Ignore, SosPmApcString)
    else if c == 157 then Cell(OscStart, OscString)
    else if c == 27 then Cell(Clear, Escape)
    else if c == 156 then Cell(Ignore, Ground)
    else if 144 <= c < 152 then Cell(Execute, Ground)
    else if 128 <= c < 144 then Cell(Execute, Ground)
    else if c in {24, 26, 153, 154} then Cell(Execute, Ground)
    else if s == Ground && 32 <= c < 127 then Cell(Action.Print, Ground)
    else Cell(Fail, Ground)
  }

  /** The printable characters and the controls of the text and of the short sequences. */
  function Part2(s: State, c: nat): Cell {
    if s == CsiEntry && c == 127 then Cell(Ignore, CsiEntry)
    else if s == CsiEntry && Executable(c) then Cell(Execute, CsiEntry)
    else if s == OscString && Executable(c) then Cell(Ignore, OscString)
    else if s == Escape && c == 127 then Cell(Ignore, Escape)
    else if s == Escape && Executable(c) then Cell(Execute, Escape)
    else if s == Ground && Executable(c) then Cell(Execute, Ground)
    else Part1(s, c)
  }

  function Part3(s: State, c: nat): Cell {
    if s == EscapeIntermediate && c == 127 then Cell(Ignore, EscapeIntermediate)
    else if s == EscapeIntermediate && Executable(c) then Cell(Execute, EscapeIntermediate)
    else if s == CsiIntermediate && c == 127 then Cell(Ignore, CsiIntermediate)
    else if s == CsiIntermediate && Executable(c) then Cell(Execute, CsiIntermediate)
    else if s == CsiIgnore && Executable(c) then Cell(Execute, CsiIgnore)
    else if s == CsiParam && c == 127 then Cell(Ignore, CsiParam)
    else if s == CsiParam && Executable(c) then Cell(Execute, CsiParam)
    else Part2(s, c)
  }

  /** System commands and the strings that nobody reads. */
  function Part4(s: State, c: nat): Cell {
    if s == SosPmApcString && c == 127 then Cell(Ignore, SosPmApcString)
    else if s == SosPmApcString && c == 156 then Cell(Ignore, Ground)
    else if s == SosPmApcString && Executable(c) then Cell(Ignore, SosPmApcString)
    else if s == SosPmApcString && 32 <= c < 127 then Cell(Ignore, SosPmApcString)
    else if s == Escape && c in {88, 94, 95} then Cell(Ignore, SosPmApcString)
    else if s == OscString && 28 <= c < 32 then Cell(Ignore, OscString)
    else if s == OscString && c in {156, 27, 24, 26, 7} then Cell(OscEnd, Ground)
    else if s == OscString && c == 127 then Cell(OscPut, OscString)
    else if s == OscString && 32 <= c < 127 then Cell(OscPut, OscString)
    else if s == Escape && c == 93 then Cell(OscStart, OscString)
    else Part3(s, c)
  }

  /** Control sequences. */
  function Part5(s: State, c: nat): Cell {
    if s == CsiIgnore && 32 <= c < 64 then Cell(Ignore, CsiIgnore)
    else if s == CsiParam && c in {60, 61, 62, 63} then Cell(Ignore, CsiIgnore)
    else if s == CsiParam && 64 <= c < 127 then Cell(CsiDispatch, Ground)
    else if s == CsiParam && 48 <= c < 60 then Cell(Param, CsiParam)
    else if s == CsiEntry && c in {60, 61, 62, 63} then Cell(Collect, CsiParam)
    else if s == CsiEntry && 48 <= c < 60 then Cell(Param, CsiParam)
    else if s == CsiEntry && 64 <= c < 127 then Cell(CsiDispatch, Ground)
    else if s == Escape && c == 91 then Cell(Clear, CsiEntry)
    else Part4(s, c)
  }

  function Part6(s: State, c: nat): Cell {
    if s == CsiParam && 32 <= c < 48 then Cell(Collect, CsiIntermediate)
    else if s == CsiIntermediate && 64 <= c < 127 then Cell(CsiDispatch, Ground)
    else if s == CsiIntermediate && 48 <= c < 64 then Cell(Ignore, CsiIgnore)
    else if s == CsiIntermediate && 32 <= c < 48 then Cell(Collect, CsiIntermediate)
    else if s == CsiEntry && 32 <= c < 48 then Cell(Collect, CsiIntermediate)
    else if s == CsiIgnore && 64 <= c < 127 then Cell(Ignore, Ground)
    else if s == CsiIgnore && c == 127 then Cell(Ignore, CsiIgnore)
    else Part5(s, c)
  }

  /** Escape sequences. */
  function Part7(s: State, c: nat): Cell {
    if s == Escape && 96 <= c < 127 then Cell(EscDispatch, Ground)
    else if s == Escape && c in {89, 90, 92} then Cell(EscDispatch, Ground)
    else if s == Escape && 81 <= c < 88 then Cell(EscDispatch, Ground)
    else if s == Escape && 48 <= c < 80 then Cell(EscDispatch, Ground)
    else if s == EscapeIntermediate && 48 <= c < 127 then Cell(EscDispatch, Ground)
    else if s == EscapeIntermediate && 32 <= c < 48 then Cell(Collect, EscapeIntermediate)
    else if s == Escape && 32 <= c < 48 then Cell(Collect, EscapeIntermediate)
    else Part6(s, c)
  }

  /** The headers of device control strings. */
  function Part8(s: State, c: nat): Cell {
    if s == DcsEntry && c in {60, 61, 62, 63} then Cell(Collect, DcsParam)
    else if s == DcsEntry && 48 <= c < 60 then Cell(Param, DcsParam)
    else if s == DcsEntry && 32 <= c < 48 then Cell(Collect, DcsIntermediate)
    else if s == DcsEntry && 28 <= c < 32 then Cell(Ignore, DcsEntry)
    else if s == DcsEntry && c == 127 then Cell(Ignore, DcsEntry)
    else if s == DcsEntry && Executable(c) then Cell(Ignore, DcsEntry)
    else if s == Escape && c == 80 then Cell(Clear, DcsEntry)
    else Part7(s, c)
  }

  function Part9(s: State, c: nat): Cell {
    if s == DcsParam && 32 <= c < 48 then Cell(Collect, DcsIntermediate)
    else if s == DcsParam && c in {60, 61, 62, 63} then Cell(Ignore, DcsIgnore)
    else if s == DcsParam && 48 <= c < 60 then Cell(Param, DcsParam)
    else if s == DcsParam && 28 <= c < 32 then Cell(Ignore, DcsParam)
    else if s == DcsParam && c == 127 then Cell(Ignore, DcsParam)
    else if s == DcsParam && Executable(c) then Cell(Ignore, DcsParam)
    else if s == DcsIgnore && 28 <= c < 32 then Cell(Ignore, DcsIgnore)
    else if s == DcsIgnore && 32 <= c < 128 then Cell(Ignore, DcsIgnore)
    else if s == DcsIgnore && Executable(c) then Cell(Ignore, DcsIgnore)
    else Part8(s, c)
  }

  /** Their ends and data, and the codes from 160 on. */
  function Part10(s: State, c: nat): Cell {
    if s == DcsPassthrough && Executable(c) then Cell(DcsPut, DcsPassthrough)
    else if s == DcsEntry && 64 <= c < 127 then Cell(DcsHook, DcsPassthrough)
    else if s == DcsParam && 64 <= c < 127 then Cell(DcsHook, DcsPassthrough)
    else if s == DcsIntermediate && 64 <= c < 127 then Cell(DcsHook, DcsPassthrough)
    else if s == DcsIntermediate && 48 <= c < 64 then Cell(Ignore, DcsIgnore)
    else if s == DcsIntermediate && 32 <= c < 48 then Cell(Collect, DcsIntermediate)
    else if s == DcsIntermediate && 28 <= c < 32 then Cell(Ignore, DcsIntermediate)
    else if s == DcsIntermediate && c == 127 then Cell(Ignore, DcsIntermediate)
    else if s == DcsIntermediate && Executable(c) then Cell(Ignore, DcsIntermediate)
    else Part9(s, c)
  }

  function Part11(s: State, c: nat): Cell {
    if s == DcsPassthrough && c in {27, 156, 24, 26} then Cell(DcsUnhook, Ground)
    else if s == DcsPassthrough && c == 127 then Cell(Ignore, DcsPassthrough)
    else if s == DcsPassthrough && 32 <= c < 127 then Cell(DcsPut, DcsPassthrough)
    else Part10(s, c)
  }

  function Part12(s: State, c: nat): Cell {
    if s == DcsPassthrough && c == 160 then Cell(DcsPut, DcsPassthrough)
    else if s == DcsIgnore && c == 160 then Cell(Ignore, DcsIgnore)
    else if s == CsiIgnore && c == 160 then Cell(Ignore, CsiIgnore)
    else if s == OscString && c == 160 then Cell(OscPut, OscString)
    else if s == Ground && c == 160 then Cell(Action.Print, Ground)
    else Part11(s, c)
  }

  class TransitionTable {
    const table: array<nat>

    ghost predicate Valid() {
      table.Length == SIZE
    }

    /** The entry for a state and a code, of which all from 160 on share one. */
    ghost function At(s: State, c: nat): Cell
      requires Valid() && c <= 160
      reads table
    {
      Unpacked(table[256 * StateNumber(s) + c])
    }

    constructor ()
      ensures Valid() && fresh(table)
    {
      table := new nat[SIZE](_ => 0);
    }

    method SetDefault(action: Action, next: State)
      requires Valid()
      modifies table
      ensures forall s: State, c: nat :: c <= 160 ==> At(s, c) == Cell(action, next)
    {
      hide Unpacked, Packed, StateNumber;
      for k := 0 to SIZE
        invariant forall j :: 0 <= j < k ==> table[j] == Packed(Cell(action, next))
      {
        table[k] := Packed(Cell(action, next));
      }
      UnpackedPacked(Cell(action, next));
    }

    method Add(code: nat, s: State, action: Action, next: State)
      requires Valid() && code <= 160
      modifies table
      ensures forall t: State, c: nat :: c <= 160 ==> At(t, c) == if t == s && c == code then Cell(action, next) else old(At(t, c))
    {
      hide Unpacked, Packed, StateNumber, StateAt;
      table[256 * StateNumber(s) + code] := Packed(Cell(action, next));
      UnpackedPacked(Cell(action, next));
      forall t: State ensures t != s ==> StateNumber(t) != StateNumber(s) {
        StateCode(t);
        StateCode(s);
      }
    }

    method AddMany(codes: seq<nat>, s: State, action: Action, next: State)
      requires Valid() && forall c :: c in codes ==> c <= 160
      modifies table
      ensures forall t: State, c: nat :: c <= 160 ==> At(t, c) == if t == s && c in codes then Cell(action, next) else old(At(t, c))
    {
      hide Unpacked, Packed, StateNumber;
      for k := 0 to |codes|
        invariant forall t: State, c: nat :: c <= 160 ==>
                    At(t, c) == if t == s && c in codes[..k] then Cell(action, next) else old(At(t, c))
      {
        assert codes[..k + 1] == codes[..k] + [codes[k]];
        assert codes[k] in codes;
        Add(codes[k], s, action, next);
      }
      assert codes[..|codes|] == codes;
    }

    /** What holds in every state. */
    method Everywhere(s: State)
      requires Valid()
      modifies table
      ensures forall t: State, c: nat :: c <= 160 ==> At(t, c) == if t == s && ForAll(c) then Part1(s, c) else old(At(t, c))
    {
      hide At, Unpacked, StateNumber, Slice;
      AddMany([24, 26, 153, 154], s, Execute, Ground);
      AddMany(Slice(128, 144), s, Execute, Ground);
      AddMany(Slice(144, 152), s, Execute, Ground);
      Add(156, s, Ignore, Ground);
      Add(27, s, Clear, Escape);
      Add(157, s, OscStart, OscString);
      AddMany([152, 158, 159], s, Ignore, SosPmApcString);
      Add(155, s, Clear, CsiEntry);
      Add(144, s, Clear, DcsEntry);
    }

    method FillPart1()
      requires Valid()
      modifies table
      ensures forall s: State, c: nat :: c <= 160 ==> At(s, c) == Part1(s, c)
    {
      hide Slice;
      SetDefault(Fail, Ground);
      AddMany(Slice(32, 127), Ground, Action.Print, Ground);
      for o := 0 to 14
        invariant forall s: State, c: nat :: c <= 160 ==>
                    At(s, c) == if StateNumber(s) < o || !ForAll(c) then Part1(s, c) else Cell(Fail, Ground)
      {
        Numbered(o);
        Everywhere(StateAt(o));
      }
    }

    method FillPart2()
      requires Valid() && forall s: State, c: nat :: c <= 160 ==> At(s, c) == Part1(s, c)
      modifies table
      ensures forall s: State, c: nat :: c <= 160 ==> At(s, c) == Part2(s, c)
    {
      hide At, Unpacked, StateNumber, Part1, Slice, Executables;
      var executables := Executables();
      AddMany(executables, Ground, Execute, Ground);
      AddMany(executables, Escape, Execute, Escape);
      Add(127, Escape, Ignore, Escape);
      AddMany(executables, OscString, Ignore, OscString);
      AddMany(executables, CsiEntry, Execute, CsiEntry);
      Add(127, CsiEntry, Ignore, CsiEntry);
    }

    method FillPart3()
      requires Valid() && forall s: State, c: nat :: c <= 160 ==> At(s, c) == Part2(s, c)
      modifies table
      ensures forall s: State, c: nat :: c <= 160 ==> At(s, c) == Part3(s, c)
    {
      hide At, Unpacked, StateNumber, Part2, Slice, Executables;
      var executables := Executables();
      AddMany(executables, CsiParam, Execute, CsiParam);
      Add(127, CsiParam, Ignore, CsiParam);
      AddMany(executables, CsiIgnore, Execute, CsiIgnore);
      AddMany(executables, CsiIntermediate, Execute, CsiIntermediate);
      Add(127, CsiIntermediate, Ignore, CsiIntermediate);
      AddMany(executables, EscapeIntermediate, Execute, EscapeIntermediate);
      Add(127, EscapeIntermediate, Ignore, EscapeIntermediate);
    }

    method FillPart4()
      requires Valid() && forall s: State, c: nat :: c <= 160 ==> At(s, c) == Part3(s, c)
      modifies table
      ensures forall s: State, c: nat :: c <= 160 ==> At(s, c) == Part4(s, c)
    {
      hide At, Unpacked, StateNumber, Part3, Slice, Executables;
      var executables, printables := Executables(), Slice(32, 127);
      Add(93, Escape, OscStart, OscString);
      AddMany(printables, OscString, OscPut, OscString);
      Add(127, OscString, OscPut, OscString);
      AddMany([156, 27, 24, 26, 7], OscString, OscEnd, Ground);
      AddMany(Slice(28, 32), OscString, Ignore, OscString);
      AddMany([88, 94, 95], Escape, Ignore, SosPmApcString);
      AddMany(printables, SosPmApcString, Ignore, SosPmApcString);
      AddMany(executables, SosPmApcString, Ignore, SosPmApcString);
      Add(156, SosPmApcString, Ignore, Ground);
      Add(127, SosPmApcString, Ignore, SosPmApcString);
    }

    method FillPart5()
      requires Valid() && forall s: State, c: nat :: c <= 160 ==> At(s, c) == Part4(s, c)
      modifies table
      ensures forall s: State, c: nat :: c <= 160 ==> At(s, c) == Part5(s, c)
    {
      hide At, Unpacked, StateNumber, Part4, Slice, Executables;
      Add(91, Escape, Clear, CsiEntry);
      AddMany(Slice(64, 127), CsiEntry, CsiDispatch, Ground);
      AddMany(Slice(48, 60), CsiEntry, Param, CsiParam);
      AddMany([60, 61, 62, 63], CsiEntry, Collect, CsiParam);
      AddMany(Slice(48, 60), CsiParam, Param, CsiParam);
      AddMany(Slice(64, 127), CsiParam, CsiDispatch, Ground);
      AddMany([60, 61, 62, 63], CsiParam, Ignore, CsiIgnore);
      AddMany(Slice(32, 64), CsiIgnore, Ignore, CsiIgnore);
    }

    method FillPart6()
      requires Valid() && forall s: State, c: nat :: c <= 160 ==> At(s, c) == Part5(s, c)
      modifies table
      ensures forall s: State, c: nat :: c <= 160 ==> At(s, c) == Part6(s, c)
    {
      hide At, Unpacked, StateNumber, Part5, Slice, Executables;
      Add(127, CsiIgnore, Ignore, CsiIgnore);
      AddMany(Slice(64, 127), CsiIgnore, Ignore, Ground);
      AddMany(Slice(32, 48), CsiEntry, Collect, CsiIntermediate);
      AddMany(Slice(32, 48), CsiIntermediate, Collect, CsiIntermediate);
      AddMany(Slice(48, 64), CsiIntermediate, Ignore, CsiIgnore);
      AddMany(Slice(64, 127), CsiIntermediate, CsiDispatch, Ground);
      AddMany(Slice(32, 48), CsiParam, Collect, CsiIntermediate);
    }

    method FillPart7()
      requires Valid() && forall s: State, c: nat :: c <= 160 ==> At(s, c) == Part6(s, c)
      modifies table
      ensures forall s: State, c: nat :: c <= 160 ==> At(s, c) == Part7(s, c)
    {
      hide At, Unpacked, StateNumber, Part6, Slice, Executables;
      AddMany(Slice(32, 48), Escape, Collect, EscapeIntermediate);
      AddMany(Slice(32, 48), EscapeIntermediate, Collect, EscapeIntermediate);
      AddMany(Slice(48, 127), EscapeIntermediate, EscDispatch, Ground);
      AddMany(Slice(48, 80), Escape, EscDispatch, Ground);
      AddMany(Slice(81, 88), Escape, EscDispatch, Ground);
      AddMany([89, 90, 92], Escape, EscDispatch, Ground);
      AddMany(Slice(96, 127), Escape, EscDispatch, Ground);
    }

    method FillPart8()
      requires Valid() && forall s: State, c: nat :: c <= 160 ==> At(s, c) == Part7(s, c)
      modifies table
      ensures forall s: State, c: nat :: c <= 160 ==> At(s, c) == Part8(s, c)
    {
      hide At, Unpacked, StateNumber, Part7, Slice, Executables;
      var executables := Executables();
      Add(80, Escape, Clear, DcsEntry);
      AddMany(executables, DcsEntry, Ignore, DcsEntry);
      Add(127, DcsEntry, Ignore, DcsEntry);
      AddMany(Slice(28, 32), DcsEntry, Ignore, DcsEntry);
      AddMany(Slice(32, 48), DcsEntry, Collect, DcsIntermediate);
      AddMany(Slice(48, 60), DcsEntry, Param, DcsParam);
      AddMany([60, 61, 62, 63], DcsEntry, Collect, DcsParam);
    }

    method FillPart9()
      requires Valid() && forall s: State, c: nat :: c <= 160 ==> At(s, c) == Part8(s, c)
      modifies table
      ensures forall s: State, c: nat :: c <= 160 ==> At(s, c) == Part9(s, c)
    {
      hide At, Unpacked, StateNumber, Part8, Slice, Executables;
      var executables := Executables();
      AddMany(executables, DcsIgnore, Ignore, DcsIgnore);
      AddMany(Slice(32, 128), DcsIgnore, Ignore, DcsIgnore);
      AddMany(Slice(28, 32), DcsIgnore, Ignore, DcsIgnore);
      AddMany(executables, DcsParam, Ignore, DcsParam);
      Add(127, DcsParam, Ignore, DcsParam);
      AddMany(Slice(28, 32), DcsParam, Ignore, DcsParam);
      AddMany(Slice(48, 60), DcsParam, Param, DcsParam);
      AddMany([60, 61, 62, 63], DcsParam, Ignore, DcsIgnore);
      AddMany(Slice(32, 48), DcsParam, Collect, DcsIntermediate);
    }

    method FillPart10()
      requires Valid() && forall s: State, c: nat :: c <= 160 ==> At(s, c) == Part9(s, c)
      modifies table
      ensures forall s: State, c: nat :: c <= 160 ==> At(s, c) == Part10(s, c)
    {
      hide At, Unpacked, StateNumber, Part9, Slice, Executables;
      var executables := Executables();
      AddMany(executables, DcsIntermediate, Ignore, DcsIntermediate);
      Add(127, DcsIntermediate, Ignore, DcsIntermediate);
      AddMany(Slice(28, 32), DcsIntermediate, Ignore, DcsIntermediate);
      AddMany(Slice(32, 48), DcsIntermediate, Collect, DcsIntermediate);
      AddMany(Slice(48, 64), DcsIntermediate, Ignore, DcsIgnore);
      AddMany(Slice(64, 127), DcsIntermediate, DcsHook, DcsPassthrough);
      AddMany(Slice(64, 127), DcsParam, DcsHook, DcsPassthrough);
      AddMany(Slice(64, 127), DcsEntry, DcsHook, DcsPassthrough);
      AddMany(executables, DcsPassthrough, DcsPut, DcsPassthrough);
    }

    method FillPart11()
      requires Valid() && forall s: State, c: nat :: c <= 160 ==> At(s, c) == Part10(s, c)
      modifies table
      ensures forall s: State, c: nat :: c <= 160 ==> At(s, c) == Part11(s, c)
    {
      hide At, Unpacked, StateNumber, Part10, Slice, Executables;
      var printables := Slice(32, 127);
      AddMany(printables, DcsPassthrough, DcsPut, DcsPassthrough);
      Add(127, DcsPassthrough, Ignore, DcsPassthrough);
      AddMany([27, 156, 24, 26], DcsPassthrough, DcsUnhook, Ground);
    }

    method FillPart12()
      requires Valid() && forall s: State, c: nat :: c <= 160 ==> At(s, c) == Part11(s, c)
      modifies table
      ensures forall s: State, c: nat :: c <= 160 ==> At(s, c) == Part12(s, c)
    {
      hide At, Unpacked, StateNumber, Part11;
      Add(160, Ground, Action.Print, Ground);
      Add(160, OscString, OscPut, OscString);
      Add(160, CsiIgnore, Ignore, CsiIgnore);
      Add(160, DcsIgnore, Ignore, DcsIgnore);
      Add(160, DcsPassthrough, DcsPut, DcsPassthrough);
    }

    /** The whole table. */
    method Fill()
      requires Valid()
      modifies table
      ensures forall s: State, c: nat :: c <= 160 ==> At(s, c) == Table(s, c)
    {
      hide Part1, Part2, Part3, Part4, Part5, Part6, Part7, Part8, Part9, Part10, Part11, Part12, Table;
      FillPart1();
      FillPart2();
      FillPart3();
      FillPart4();
      FillPart5();
      FillPart6();
      FillPart7();
      FillPart8();
      FillPart9();
      FillPart10();
      FillPart11();
      FillPart12();
      forall s: State, c: nat | c <= 160
        ensures At(s, c) == Table(s, c)
      {
        AsInTable(s, c);
      }
    }
  }

  lemma GroundRow(s: State, c: nat)
    requires s == Ground && c <= 160
    ensures Part12(s, c) == Table(s, c)
  {
  }

  lemma EscapeRow(s: State, c: nat)
    requires s == Escape && c <= 160
    ensures Part12(s, c) == Table(s, c)
  {
  }

  lemma EscapeIntermediateRow(s: State, c: nat)
    requires s == EscapeIntermediate && c <= 160
    ensures Part12(s, c) == Table(s, c)
  {
  }

  lemma CsiEntryRow(s: State, c: nat)
    requires s == CsiEntry && c <= 160
    ensures Part12(s, c) == Table(s, c)
  {
  }

  lemma CsiParamRow(s: State, c: nat)
    requires s == CsiParam && c <= 160
    ensures Part12(s, c) == Table(s, c)
  {
  }

  lemma CsiIntermediateRow(s: State, c: nat)
    requires s == CsiIntermediate && c <= 160
    ensures Part12(s, c) == Table(s, c)
  {
  }

  lemma CsiIgnoreRow(s: State, c: nat)
    requires s == CsiIgnore && c <= 160
    ensures Part12(s, c) == Table(s, c)
  {
  }

  lemma SosPmApcStringRow(s: State, c: nat)
    requires s == SosPmApcString && c <= 160
    ensures Part12(s, c) == Table(s, c)
  {
  }

  lemma OscStringRow(s: State, c: nat)
    requires s == OscString && c <= 160
    ensures Part12(s, c) == Table(s, c)
  {
  }

  lemma DcsEntryRow(s: State, c: nat)
    requires s == DcsEntry && c <= 160
    ensures Part12(s, c) == Table(s, c)
  {
  }

  lemma DcsParamRow(s: State, c: nat)
    requires s == DcsParam && c <= 160
    ensures Part12(s, c) == Table(s, c)
  {
  }

  lemma DcsIgnoreRow(s: State, c: nat)
    requires s == DcsIgnore && c <= 160
    ensures Part12(s, c) == Table(s, c)
  {
  }

  lemma DcsIntermediateRow(s: State, c: nat)
    requires s == DcsIntermediate && c <= 160
    ensures Part12(s, c) == Table(s, c)
  {
  }

  lemma DcsPassthroughRow(s: State, c: nat)
    requires s == DcsPassthrough && c <= 160
    ensures Part12(s, c) == Table(s, c)
  {
  }

  /** The rules, the last one first, say what the table in closed form says. */
  lemma AsInTable(s: State, c: nat)
    requires c <= 160
    ensures Part12(s, c) == Table(s, c)
  {
    hide Part12, Table;
    match s
    case Ground => GroundRow(s, c);
    case Escape => EscapeRow(s, c);
    case EscapeIntermediate => EscapeIntermediateRow(s, c);
    case CsiEntry => CsiEntryRow(s, c);
    case CsiParam => CsiParamRow(s, c);
    case CsiIntermediate => CsiIntermediateRow(s, c);
    case CsiIgnore => CsiIgnoreRow(s, c);
    case SosPmApcString => SosPmApcStringRow(s, c);
    case OscString => OscStringRow(s, c);
    case DcsEntry => DcsEntryRow(s, c);
    case DcsParam => DcsParamRow(s, c);
    case DcsIgnore => DcsIgnoreRow(s, c);
    case DcsIntermediate => DcsIntermediateRow(s, c);
    case DcsPassthrough => DcsPassthroughRow(s, c);
  }
}
