/**
  What terminal output means: the sequences of ECMA-48 as a list of commands, how each is spelled,
  and what a parser is to report of it.

  The parser reads every list of commands, from whatever state, as exactly what it means.  This is
  said of the texts and the reports alone, so that it does not depend on the transition table.
  */
module Sequences {
  import opened Machine
  import opened Transitions
  import opened Params
  import opened ParamLists

  const BEL := 7
  const ST := 156
  const BACKSLASH := 92

  /** A two-byte introducer with ESC, or the one-byte control of the C1 set. */
  datatype Form = SevenBit | EightBit

  /** How a string ends: by a string terminator in either form, by BEL, or cut off by CAN or SUB. */
  datatype Ending = Terminated(form: Form) | Bell | CutOff(code: nat)

  datatype Command =
    | Text(code: nat)
    | Control(code: nat)
    | EscSequence(intermediates: seq<nat>, final: nat)
    | ControlSequence(form: Form, prefix: seq<nat>, entries: seq<Entry>, intermediates: seq<nat>, final: nat)
    | SystemCommand(form: Form, text: seq<nat>, ending: Ending)
    | DeviceControl(form: Form, prefix: seq<nat>, entries: seq<Entry>, intermediates: seq<nat>, final: nat, data: seq<nat>, ending: Ending)
    | OtherString(form: Form, opener: nat, text: seq<nat>, ending: Ending)

  /** What the handlers are told, with the parameters as the nested list they read. */
  datatype Report =
    | Shown(code: nat)
    | Obeyed(code: nat)
    | Csi(ident: int, items: seq<Item>)
    | Esc(ident: int)
    | OscBegun
    | OscText(code: nat)
    | OscDone(success: bool)
    | DcsBegun(ident: int, items: seq<Item>)
    | DcsText(code: nat)
    | DcsDone(success: bool)
    | Malformed(code: nat)

  // ---------------------------------------------------------------- which codes may stand where

  predicate C0(c: nat) {
    c < 32 && c != 24 && c != 26 && c != 27
  }

  /** The C1 controls that introduce or end nothing. */
  predicate C1(c: nat) {
    128 <= c < 160 && c !in {144, 152, 155, 156, 157, 158, 159}
  }

  predicate AllIn(codes: seq<nat>, low: nat, high: nat) {
    forall k :: 0 <= k < |codes| ==> low <= codes[k] <= high
  }

  predicate Header(prefix: seq<nat>, entries: seq<Entry>, intermediates: seq<nat>, final: nat) {
    |prefix| <= 1 && AllIn(prefix, 60, 63) && |entries| > 0 && AllIn(intermediates, 32, 47) && 64 <= final <= 126
  }

  predicate OscCode(c: nat) {
    (c < 128 && c != BEL && c != 24 && c != 26 && c != 27) || c >= 160
  }

  /** DEL in data is left out: what becomes of it depends on the loop that reads it. */
  predicate DcsCode(c: nat) {
    (c < 127 && c != 24 && c != 26 && c != 27) || c >= 160
  }

  predicate OtherCode(c: nat) {
    c < 128 && c != 24 && c != 26 && c != 27
  }

  predicate EndingOk(e: Ending) {
    e.CutOff? ==> e.code == 24 || e.code == 26
  }

  predicate Proper(c: Command) {
    match c
    case Text(code) => 32 <= code <= 126 || code >= 160
    case Control(code) => C0(code) || C1(code) || code == 24 || code == 26
    case EscSequence(intermediates, final) =>
      AllIn(intermediates, 32, 47) && 48 <= final <= 126 && (intermediates == [] ==> final !in {80, 88, 91, 93, 94, 95})
    case ControlSequence(_, prefix, entries, intermediates, final) => Header(prefix, entries, intermediates, final)
    case SystemCommand(_, text, ending) => EndingOk(ending) && forall k :: 0 <= k < |text| ==> OscCode(text[k])
    case DeviceControl(_, prefix, entries, intermediates, final, data, ending) =>
      && Header(prefix, entries, intermediates, final)
      && EndingOk(ending) && !ending.Bell? && forall k :: 0 <= k < |data| ==> DcsCode(data[k])
    case OtherString(_, opener, text, ending) =>
      opener in {88, 94, 95} && EndingOk(ending) && !ending.Bell? && forall k :: 0 <= k < |text| ==> OtherCode(text[k])
  }

  // ---------------------------------------------------------------- how commands are spelled

  /** ESC and the letter, or the letter moved to the C1 set. */
  function Introducer(form: Form, letter: nat): seq<nat> {
    if form.SevenBit? then [27, letter] else [letter + 64]
  }

  lemma {:induction false} PrintedCodes(es: seq<Entry>)
    requires |es| > 0
    ensures forall k :: 0 <= k < |ParamLists.Print(es)| ==> 48 <= ParamLists.Print(es)[k] <= 59
  {
    SubCodes(es[0].subs);
    if |es| > 1 {
      PrintedCodes(es[1..]);
    }
  }

  lemma {:induction false} SubCodes(subs: seq<Digits>)
    ensures forall k :: 0 <= k < |SubText(subs)| ==> 48 <= SubText(subs)[k] <= 59
  {
    if |subs| > 0 {
      SubCodes(subs[1..]);
    }
  }

  function ParamText(es: seq<Entry>): (codes: seq<nat>)
    requires |es| > 0
    ensures codes == ParamLists.Print(es) && AllIn(codes, 48, 59)
  {
    PrintedCodes(es);
    ParamLists.Print(es)
  }

  function HeaderText(prefix: seq<nat>, entries: seq<Entry>, intermediates: seq<nat>): seq<nat>
    requires |entries| > 0
  {
    prefix + (ParamText(entries) + intermediates)
  }

  function EndingText(e: Ending): seq<nat> {
    match e
    case Terminated(form) => Introducer(form, BACKSLASH)
    case Bell => [BEL]
    case CutOff(code) => [code]
  }

  function Spelled(c: Command): seq<nat>
    requires Proper(c)
  {
    match c
    case Text(code) => [code]
    case Control(code) => [code]
    case EscSequence(intermediates, final) => [27] + (intermediates + [final])
    case ControlSequence(form, prefix, entries, intermediates, final) =>
      Introducer(form, 91) + (HeaderText(prefix, entries, intermediates) + [final])
    case SystemCommand(form, text, ending) => Introducer(form, 93) + (text + EndingText(ending))
    case DeviceControl(form, prefix, entries, intermediates, final, data, ending) =>
      Introducer(form, 80) + ((HeaderText(prefix, entries, intermediates) + [final]) + (data + EndingText(ending)))
    case OtherString(form, opener, text, ending) => Introducer(form, opener) + (text + EndingText(ending))
  }

  // ---------------------------------------------------------------- what commands mean

  /** The codes read as the digits of a number to the base 256. */
  function Number256(codes: seq<nat>): nat {
    if |codes| == 0 then 0 else 256 * Number256(codes[..|codes| - 1]) + codes[|codes| - 1]
  }

  /** The name under which a handler is registered: prefix, intermediates and final character in 32 bits. */
  function Identifier(prefix: seq<nat>, intermediates: seq<nat>, final: nat): int {
    Signed32(Number256(prefix + intermediates + [final]))
  }

  function Signed32(x: nat): int {
    var m := x % 0x1_0000_0000;
    if m < 0x8000_0000 then m else m - 0x1_0000_0000
  }

  function Read(entries: seq<Entry>): seq<Item> {
    Expected(entries, 0, MAX_SUB_PARAMS)
  }

  /** Controls in the text of a system command are dropped. */
  function TextMeaning(text: seq<nat>): seq<Report> {
    if |text| == 0 then []
    else TextMeaning(text[..|text| - 1]) + if text[|text| - 1] < 32 then [] else [OscText(text[|text| - 1])]
  }

  function DataMeaning(data: seq<nat>): seq<Report> {
    seq(|data|, k requires 0 <= k < |data| => DcsText(data[k]))
  }

  /** The backslash behind an ESC is a sequence of its own. */
  function EndMeaning(e: Ending): seq<Report> {
    if e == Terminated(SevenBit) then [Esc(BACKSLASH)] else []
  }

  function Meaning(c: Command): seq<Report> {
    match c
    case Text(code) => [Shown(code)]
    case Control(code) => [Obeyed(code)]
    case EscSequence(intermediates, final) => [Esc(Identifier([], intermediates, final))]
    case ControlSequence(_, prefix, entries, intermediates, final) => [Csi(Identifier(prefix, intermediates, final), Read(entries))]
    case SystemCommand(_, text, ending) => [OscBegun] + TextMeaning(text) + [OscDone(!ending.CutOff?)] + EndMeaning(ending)
    case DeviceControl(_, prefix, entries, intermediates, final, data, ending) =>
      [DcsBegun(Identifier(prefix, intermediates, final), Read(entries))] + DataMeaning(data) + [DcsDone(!ending.CutOff?)] + EndMeaning(ending)
    case OtherString(_, _, _, ending) => if ending.CutOff? then [Obeyed(ending.code)] else EndMeaning(ending)
  }

  // ---------------------------------------------------------------- what the parser reports

  ghost function ReportOf(e: Event): Report {
    match e
    case Printed(c) => Shown(c)
    case Executed(c) => Obeyed(c)
    case Failed(c, _, _, _) => Malformed(c)
    case CsiDispatched(ident, params) => Csi(ident, ItemsIn(params))
    case EscDispatched(ident) => Esc(ident)
    case OscStarted => OscBegun
    case OscByte(c) => OscText(c)
    case OscEnded(success) => OscDone(success)
    case DcsHooked(ident, params) => DcsBegun(ident, ItemsIn(params))
    case DcsByte(c) => DcsText(c)
    case DcsUnhooked(success) => DcsDone(success)
  }

  ghost function ItemsIn(params: ParamsState): seq<Item> {
    if WellFormed(params) then Nested(params) else []
  }

  ghost function Reports(out: seq<Event>): (r: seq<Report>)
    ensures |r| == |out|
  {
    seq(|out|, k requires 0 <= k < |out| => ReportOf(out[k]))
  }

  lemma ReportsConcat(a: seq<Event>, b: seq<Event>)
    ensures Reports(a + b) == Reports(a) + Reports(b)
  {
  }

  // ---------------------------------------------------------------- one piece after the other

  lemma JoinPieces(p: PState, a: seq<nat>, b: seq<nat>)
    ensures var first := Parse(p, a); var second := Parse(first.state, b);
            Parse(p, a + b).state == second.state && Reports(Parse(p, a + b).out) == Reports(first.out) + Reports(second.out)
  {
    RunConcat(Step, p, a, b);
    hide Step;
    ReportsConcat(Parse(p, a).out, Parse(Parse(p, a).state, b).out);
  }

  lemma QuietPieces(p: PState, a: seq<nat>, q: PState, b: seq<nat>, r: PState)
    requires Parse(p, a) == Outcome(q, []) && Parse(q, b) == Outcome(r, [])
    ensures Parse(p, a + b) == Outcome(r, [])
  {
    RunConcat(Step, p, a, b);
    hide Step;
  }

  lemma OnePiece(p: PState, c: nat)
    ensures Parse(p, [c]) == Step(p, c)
  {
    var input: seq<nat> := [c];
    RunCons(Step, p, input);
    hide Step;
    assert input[1..] == [];
    assert Step(p, c).out + [] == Step(p, c).out;
  }

  lemma NoPiece(p: PState, codes: seq<nat>)
    requires codes == []
    ensures Parse(p, codes) == Outcome(p, []) && Reports(Parse(p, codes).out) == []
  {
  }

  /** The states a header goes through, for escape and control sequences and for control strings. */
  datatype Family = EscFamily | CsiFamily | DcsFamily

  function Entered(f: Family): State {
    match f case EscFamily => Escape case CsiFamily => CsiEntry case DcsFamily => DcsEntry
  }

  function InParams(f: Family): State {
    match f case EscFamily => Escape case CsiFamily => CsiParam case DcsFamily => DcsParam
  }

  function InIntermediates(f: Family): State {
    match f case EscFamily => EscapeIntermediate case CsiFamily => CsiIntermediate case DcsFamily => DcsIntermediate
  }

  predicate Heading(s: State, f: Family) {
    s == Entered(f) || s == InParams(f) || s == InIntermediates(f)
  }

  function Collected(x: int, codes: seq<nat>): int {
    if |codes| == 0 then x else ShiftIn(Collected(x, codes[..|codes| - 1]), codes[|codes| - 1])
  }

  lemma {:induction false} ParamsRead(p: PState, codes: seq<nat>, f: Family)
    requires !f.EscFamily? && (p.state == Entered(f) || p.state == InParams(f)) && AllIn(codes, 48, 59)
    ensures Parse(p, codes)
            == Outcome(p.(state := if |codes| == 0 then p.state else InParams(f), params := Feed(p.params, codes)), [])
    decreases |codes|
  {
    if |codes| > 0 {
      var n := |codes| - 1;
      ParamsRead(p, codes[..n], f);
      ParamStep(Parse(p, codes[..n]).state, codes[n], f);
      RunSnoc(Step, p, codes, n);
      hide Step, FeedCode;
      assert codes[..n + 1] == codes;
    }
  }

  lemma ParamStep(p: PState, c: nat, f: Family)
    requires !f.EscFamily? && (p.state == Entered(f) || p.state == InParams(f)) && 48 <= c <= 59
    ensures Step(p, c) == Outcome(p.(state := InParams(f), params := FeedCode(p.params, c)), [])
  {
  }

  lemma {:induction false} IntermediatesRead(p: PState, codes: seq<nat>, f: Family)
    requires Heading(p.state, f) && AllIn(codes, 32, 47)
    ensures Parse(p, codes)
            == Outcome(p.(state := if |codes| == 0 then p.state else InIntermediates(f), collect := Collected(p.collect, codes)), [])
    decreases |codes|
  {
    if |codes| > 0 {
      var n := |codes| - 1;
      IntermediatesRead(p, codes[..n], f);
      IntermediateStep(Parse(p, codes[..n]).state, codes[n], f);
      RunSnoc(Step, p, codes, n);
      hide Step, ShiftIn;
      assert codes[..n + 1] == codes;
    }
  }

  lemma IntermediateStep(p: PState, c: nat, f: Family)
    requires Heading(p.state, f) && 32 <= c <= 47
    ensures Step(p, c) == Outcome(p.(state := InIntermediates(f), collect := ShiftIn(p.collect, c)), [])
  {
  }

  lemma PrefixRead(p: PState, prefix: seq<nat>, f: Family)
    requires !f.EscFamily? && p.state == Entered(f) && |prefix| <= 1 && AllIn(prefix, 60, 63)
    ensures Parse(p, prefix)
            == Outcome(p.(state := if |prefix| == 0 then p.state else InParams(f), collect := Collected(p.collect, prefix)), [])
  {
    hide Step, Parse, ShiftIn;
    if |prefix| == 1 {
      OnePiece(p, prefix[0]);
      PrefixStep(p, prefix[0], f);
      CollectedOne(p.collect, prefix);
      assert prefix == [prefix[0]];
    } else {
      NoPiece(p, prefix);
    }
  }

  lemma PrefixStep(p: PState, c: nat, f: Family)
    requires !f.EscFamily? && p.state == Entered(f) && 60 <= c <= 63
    ensures Step(p, c) == Outcome(p.(state := InParams(f), collect := ShiftIn(p.collect, c)), [])
  {
    hide ShiftIn;
  }

  lemma CollectedOne(x: int, codes: seq<nat>)
    requires |codes| == 1
    ensures Collected(x, codes) == ShiftIn(x, codes[0])
  {
    hide ShiftIn;
    assert codes[..0] == [];
  }

  // ---------------------------------------------------------------- identifiers

  lemma ShiftedNumber(x: nat, c: nat)
    requires c < 256
    ensures ShiftIn(Signed32(x), c) == Signed32(256 * x + c)
  {
    var q, m := x / 0x1_0000_0000, x % 0x1_0000_0000;
    var low, high := m % 0x100_0000, m / 0x100_0000;
    assert 256 * x == 0x1_0000_0000 * (256 * q + high) + 256 * low;
    WholePart(256 * x, 256 * q + high, 256 * low);
    WholePart(256 * x + c, 256 * q + high, 256 * low + c);
    if m < 0x8000_0000 {
      assert Signed32(x) * 256 == 0x1_0000_0000 * high + 256 * low;
      WholePart(Signed32(x) * 256, high, 256 * low);
    } else {
      assert Signed32(x) * 256 == 0x1_0000_0000 * (high - 256) + 256 * low;
      WholePart(Signed32(x) * 256, high - 256, 256 * low);
    }
  }

  lemma WholePart(x: int, q: int, r: nat)
    requires r < 0x1_0000_0000 && x == 0x1_0000_0000 * q + r
    ensures x % 0x1_0000_0000 == r
  {
  }

  lemma NumberSnoc(codes: seq<nat>, c: nat)
    ensures Number256(codes + [c]) == 256 * Number256(codes) + c
  {
    assert (codes + [c])[..|codes|] == codes;
  }

  lemma {:induction false} CollectedNumber(before: seq<nat>, codes: seq<nat>)
    requires forall k :: 0 <= k < |codes| ==> codes[k] < 256
    ensures Collected(Signed32(Number256(before)), codes) == Signed32(Number256(before + codes))
    decreases |codes|
  {
    if |codes| == 0 {
      assert before + codes == before;
    } else {
      var n := |codes| - 1;
      CollectedNumber(before, codes[..n]);
      assert (before + codes)[..|before + codes| - 1] == before + codes[..n];
      ShiftedNumber(Number256(before + codes[..n]), codes[n]);
      hide Signed32, ShiftIn;
    }
  }

  /** Prefix, parameters and intermediates. */
  lemma HeaderRead(p: PState, prefix: seq<nat>, entries: seq<Entry>, intermediates: seq<nat>, f: Family)
    requires !f.EscFamily? && p == Cleared(Entered(f)) && |entries| > 0
    requires |prefix| <= 1 && AllIn(prefix, 60, 63) && AllIn(intermediates, 32, 47)
    ensures var r := Parse(p, HeaderText(prefix, entries, intermediates));
            && r.out == [] && Heading(r.state.state, f)
            && r.state.collect == Signed32(Number256(prefix + intermediates)) && ItemsIn(r.state.params) == Read(entries)
  {
    hide Parse, Feed, ParamText, Number256, Signed32, Collected, Expected, ParamAdded, AllIn;
    var codes := ParamText(entries);
    PrefixRead(p, prefix, f);
    var a := Parse(p, prefix).state;
    ParamsRead(a, codes, f);
    var b := Parse(a, codes).state;
    IntermediatesRead(b, intermediates, f);
    var c := Parse(b, intermediates).state;
    QuietPieces(a, codes, b, intermediates, c);
    QuietPieces(p, prefix, a, codes + intermediates, c);
    CollectedHeader(prefix, intermediates);
    PrintThenRead(p.params, entries);
  }

  lemma CollectedHeader(prefix: seq<nat>, intermediates: seq<nat>)
    requires AllIn(prefix, 60, 63) && AllIn(intermediates, 32, 47)
    ensures Collected(Collected(0, prefix), intermediates) == Signed32(Number256(prefix + intermediates))
  {
    assert Signed32(Number256([])) == 0;
    CollectedNumber([], prefix);
    assert [] + prefix == prefix;
    CollectedNumber(prefix, intermediates);
    hide Number256, Signed32, Collected;
  }

  // ---------------------------------------------------------------- strings

  lemma {:induction false} OscTextRead(p: PState, text: seq<nat>)
    requires p.state == OscString && forall k :: 0 <= k < |text| ==> OscCode(text[k])
    ensures Parse(p, text).state == p && Reports(Parse(p, text).out) == TextMeaning(text)
    decreases |text|
  {
    if |text| > 0 {
      var n := |text| - 1;
      OscTextRead(p, text[..n]);
      OscTextStep(p, text[n]);
      OnePiece(p, text[n]);
      JoinPieces(p, text[..n], [text[n]]);
      hide Step, Parse;
      assert text[..n] + [text[n]] == text;
    } else {
      NoPiece(p, text);
    }
  }

  lemma OscTextStep(p: PState, c: nat)
    requires p.state == OscString && OscCode(c)
    ensures Step(p, c).state == p && Reports(Step(p, c).out) == if c < 32 then [] else [OscText(c)]
  {
  }

  lemma {:induction false} DataRead(p: PState, data: seq<nat>)
    requires p.state == DcsPassthrough && forall k :: 0 <= k < |data| ==> DcsCode(data[k])
    ensures Parse(p, data).state == p && Reports(Parse(p, data).out) == DataMeaning(data)
    decreases |data|
  {
    if |data| > 0 {
      var n := |data| - 1;
      DataRead(p, data[..n]);
      DataStep(p, data[n]);
      OnePiece(p, data[n]);
      JoinPieces(p, data[..n], [data[n]]);
      hide Step, Parse;
      assert data[..n] + [data[n]] == data;
      assert DataMeaning(data[..n]) + [DcsText(data[n])] == DataMeaning(data);
    } else {
      NoPiece(p, data);
    }
  }

  lemma DataStep(p: PState, c: nat)
    requires p.state == DcsPassthrough && DcsCode(c)
    ensures Step(p, c).state == p && Reports(Step(p, c).out) == [DcsText(c)]
  {
  }

  lemma {:induction false} OtherTextRead(p: PState, text: seq<nat>)
    requires p.state == SosPmApcString && forall k :: 0 <= k < |text| ==> OtherCode(text[k])
    ensures Parse(p, text) == Outcome(p, [])
    decreases |text|
  {
    if |text| > 0 {
      var n := |text| - 1;
      OtherTextRead(p, text[..n]);
      OtherTextStep(p, text[n]);
      OnePiece(p, text[n]);
      QuietPieces(p, text[..n], p, [text[n]], p);
      hide Step, Parse;
      assert text[..n] + [text[n]] == text;
    } else {
      NoPiece(p, text);
    }
  }

  lemma OtherTextStep(p: PState, c: nat)
    requires p.state == SosPmApcString && OtherCode(c)
    ensures Step(p, c) == Outcome(p, [])
  {
  }

  /** What an ending is reported as in a system command, in a device control string, and in one that nobody reads. */
  function Ended(s: State, e: Ending): seq<Report> {
    match s
    case OscString => [OscDone(!e.CutOff?)]
    case DcsPassthrough => [DcsDone(!e.CutOff?)]
    case _ => if e.CutOff? then [Obeyed(e.code)] else []
  }

  lemma EndingRead(p: PState, e: Ending)
    requires p.state in {OscString, DcsPassthrough, SosPmApcString} && EndingOk(e) && (e.Bell? ==> p.state == OscString)
    ensures Parse(p, EndingText(e)).state.state == Ground
    ensures Reports(Parse(p, EndingText(e)).out) == Ended(p.state, e) + EndMeaning(e)
  {
    hide Step, Parse, Reports;
    if e == Terminated(SevenBit) {
      EscapeThen(p, BACKSLASH);
      BackslashStep(BACKSLASH);
    } else {
      var c := EndingText(e)[0];
      OnePiece(p, c);
      assert EndingText(e) == [c];
      EndingStep(p, e, c);
      assert Ended(p.state, e) + [] == Ended(p.state, e);
    }
  }

  lemma BackslashStep(c: nat)
    requires c == BACKSLASH
    ensures Step(Cleared(Escape), c).state.state == Ground && Reports(Step(Cleared(Escape), c).out) == [Esc(BACKSLASH)]
  {
  }

  lemma EndingStep(p: PState, e: Ending, c: nat)
    requires p.state in {OscString, DcsPassthrough, SosPmApcString} && EndingOk(e) && (e.Bell? ==> p.state == OscString)
    requires e != Terminated(SevenBit) && c == EndingText(e)[0]
    ensures Step(p, c).state.state == Ground && Reports(Step(p, c).out) == Ended(p.state, e)
  {
  }

  /** An ESC ends a string, and begins anew in every state. */
  function Interrupted(s: State): seq<Report> {
    match s
    case OscString => [OscDone(true)]
    case DcsPassthrough => [DcsDone(true)]
    case _ => []
  }

  lemma EscapeStep(p: PState)
    ensures Step(p, 27).state == Cleared(Escape) && Reports(Step(p, 27).out) == Interrupted(p.state)
  {
  }

  lemma EscapeThen(p: PState, c: nat)
    ensures var last := Step(Cleared(Escape), c);
            Parse(p, [27, c]).state == last.state && Reports(Parse(p, [27, c]).out) == Interrupted(p.state) + Reports(last.out)
  {
    OnePiece(p, 27);
    EscapeStep(p);
    OnePiece(Cleared(Escape), c);
    JoinPieces(p, [27], [c]);
    hide Step, Parse;
    assert [27] + [c] == [27, c];
  }

  // ---------------------------------------------------------------- introducers

  function Opened(letter: nat): State {
    match letter
    case 80 => DcsEntry
    case 91 => CsiEntry
    case 93 => OscString
    case _ => SosPmApcString
  }

  /** What an introducer is reported as: the end of a string that was not ended, and the begin of a system command. */
  function Opening(s: State, form: Form, letter: nat): seq<Report> {
    (if form.SevenBit? then Interrupted(s) else []) + if letter == 93 then [OscBegun] else []
  }

  lemma IntroducerRead(p: PState, form: Form, letter: nat)
    requires letter in {80, 88, 91, 93, 94, 95}
    ensures var r := Parse(p, Introducer(form, letter));
            && r.state.state == Opened(letter) && (letter == 80 || letter == 91 ==> r.state == Cleared(Opened(letter)))
            && Reports(r.out) == Opening(p.state, form, letter)
  {
    if form.SevenBit? {
      EscapeThen(p, letter);
      LetterStep(letter);
      hide Step, Parse;
    } else {
      OnePiece(p, letter + 64);
      C1Step(p, letter);
      hide Step, Parse;
    }
  }

  lemma LetterStep(letter: nat)
    requires letter in {80, 88, 91, 93, 94, 95}
    ensures var r := Step(Cleared(Escape), letter);
            && r.state.state == Opened(letter) && (letter == 80 || letter == 91 ==> r.state == Cleared(Opened(letter)))
            && Reports(r.out) == if letter == 93 then [OscBegun] else []
  {
  }

  lemma C1Step(p: PState, letter: nat)
    requires letter in {80, 88, 91, 93, 94, 95}
    ensures var r := Step(p, letter + 64);
            && r.state.state == Opened(letter) && (letter == 80 || letter == 91 ==> r.state == Cleared(Opened(letter)))
            && Reports(r.out) == if letter == 93 then [OscBegun] else []
  {
  }

  // ---------------------------------------------------------------- commands

  /** What is reported of a command that comes in state `s`. */
  function MeaningIn(s: State, c: Command): seq<Report> {
    match c
    case Text(_) => Meaning(c)
    case Control(_) => Meaning(c)
    case EscSequence(_, _) => Interrupted(s) + Meaning(c)
    case _ => (if c.form.SevenBit? then Interrupted(s) else []) + Meaning(c)
  }

  /** A header and its final character. */
  lemma HeadedRead(p: PState, prefix: seq<nat>, entries: seq<Entry>, intermediates: seq<nat>, final: nat, f: Family)
    requires !f.EscFamily? && p == Cleared(Entered(f)) && Header(prefix, entries, intermediates, final)
    ensures var r := Parse(p, HeaderText(prefix, entries, intermediates) + [final]);
            && r.state.state == (if f.CsiFamily? then Ground else DcsPassthrough)
            && Reports(r.out) == if f.CsiFamily? then [Csi(Identifier(prefix, intermediates, final), Read(entries))]
                                 else [DcsBegun(Identifier(prefix, intermediates, final), Read(entries))]
  {
    hide Parse, Step, Read, ItemsIn, HeaderText, Identifier, AllIn, Number256, Signed32;
    HeaderRead(p, prefix, entries, intermediates, f);
    var h := Parse(p, HeaderText(prefix, entries, intermediates)).state;
    OnePiece(h, final);
    FinalStep(h, final, f);
    FinalIdentifier(prefix, intermediates, final);
    JoinPieces(p, HeaderText(prefix, entries, intermediates), [final]);
  }

  lemma FinalStep(p: PState, final: nat, f: Family)
    requires !f.EscFamily? && Heading(p.state, f) && 64 <= final <= 126
    ensures var r := Step(p, final);
            && r.state.state == (if f.CsiFamily? then Ground else DcsPassthrough)
            && Reports(r.out) == if f.CsiFamily? then [Csi(ShiftIn(p.collect, final), ItemsIn(p.params))]
                                 else [DcsBegun(ShiftIn(p.collect, final), ItemsIn(p.params))]
  {
    hide ShiftIn, ItemsIn;
  }

  lemma FinalIdentifier(prefix: seq<nat>, intermediates: seq<nat>, final: nat)
    requires final < 256
    ensures ShiftIn(Signed32(Number256(prefix + intermediates)), final) == Identifier(prefix, intermediates, final)
  {
    hide ShiftIn, Signed32, Number256;
    NumberSnoc(prefix + intermediates, final);
    ShiftedNumber(Number256(prefix + intermediates), final);
  }

  lemma EscSequenceRead(p: PState, intermediates: seq<nat>, final: nat)
    requires Proper(EscSequence(intermediates, final))
    ensures var c := EscSequence(intermediates, final);
            Parse(p, Spelled(c)).state.state == Ground && Reports(Parse(p, Spelled(c)).out) == MeaningIn(p.state, c)
  {
    hide Parse, Step, Identifier, Number256, Signed32, Collected, ShiftIn;
    var e := Cleared(Escape);
    OnePiece(p, 27);
    EscapeStep(p);
    IntermediatesRead(e, intermediates, EscFamily);
    var h := Parse(e, intermediates).state;
    OnePiece(h, final);
    EscFinalStep(h, final);
    assert Collected(0, intermediates) == Signed32(Number256([] + intermediates)) by {
      CollectedHeader([], intermediates);
      NothingCollected();
    }
    FinalIdentifier([], intermediates, final);
    JoinPieces(e, intermediates, [final]);
    JoinPieces(p, [27], intermediates + [final]);
  }

  lemma NothingCollected()
    ensures Collected(0, []) == 0
  {
  }

  lemma EscFinalStep(p: PState, final: nat)
    requires 48 <= final <= 126 && (p.state == EscapeIntermediate || (p.state == Escape && final !in {80, 88, 91, 93, 94, 95}))
    ensures Step(p, final).state.state == Ground && Reports(Step(p, final).out) == [Esc(ShiftIn(p.collect, final))]
  {
    hide ShiftIn;
  }

  lemma ControlSequenceRead(p: PState, c: Command)
    requires Proper(c) && c.ControlSequence?
    ensures Parse(p, Spelled(c)).state.state == Ground && Reports(Parse(p, Spelled(c)).out) == MeaningIn(p.state, c)
  {
    hide Parse, Step, Read, HeaderText, Identifier;
    IntroducerRead(p, c.form, 91);
    HeadedRead(Cleared(CsiEntry), c.prefix, c.entries, c.intermediates, c.final, CsiFamily);
    JoinPieces(p, Introducer(c.form, 91), HeaderText(c.prefix, c.entries, c.intermediates) + [c.final]);
    hide Introducer;
  }

  lemma SystemCommandRead(p: PState, c: Command)
    requires Proper(c) && c.SystemCommand?
    ensures Parse(p, Spelled(c)).state.state == Ground && Reports(Parse(p, Spelled(c)).out) == MeaningIn(p.state, c)
  {
    hide Parse, Step, TextMeaning, OscCode;
    IntroducerRead(p, c.form, 93);
    var o := Parse(p, Introducer(c.form, 93)).state;
    OscTextRead(o, c.text);
    EndingRead(o, c.ending);
    JoinPieces(o, c.text, EndingText(c.ending));
    JoinPieces(p, Introducer(c.form, 93), c.text + EndingText(c.ending));
    hide Introducer, EndingText, EndMeaning;
    var before := if c.form.SevenBit? then Interrupted(p.state) else [];
    assert (before + [OscBegun]) + (TextMeaning(c.text) + ([OscDone(!c.ending.CutOff?)] + EndMeaning(c.ending)))
        == before + ([OscBegun] + TextMeaning(c.text) + [OscDone(!c.ending.CutOff?)] + EndMeaning(c.ending));
  }

  /** The data and the end of a device control string. */
  lemma DataEndRead(d: PState, data: seq<nat>, ending: Ending)
    requires d.state == DcsPassthrough && EndingOk(ending) && !ending.Bell? && forall k :: 0 <= k < |data| ==> DcsCode(data[k])
    ensures var r := Parse(d, data + EndingText(ending));
            && r.state.state == Ground
            && Reports(r.out) == DataMeaning(data) + ([DcsDone(!ending.CutOff?)] + EndMeaning(ending))
  {
    hide Parse, Step, DcsCode, DataMeaning;
    DataRead(d, data);
    EndingRead(d, ending);
    JoinPieces(d, data, EndingText(ending));
    hide EndingText, EndMeaning;
  }

  lemma DeviceControlRead(p: PState, c: Command)
    requires Proper(c) && c.DeviceControl?
    ensures Parse(p, Spelled(c)).state.state == Ground && Reports(Parse(p, Spelled(c)).out) == MeaningIn(p.state, c)
  {
    hide Parse, Step, Read, HeaderText, Identifier, DcsCode, DataMeaning, EndingText, EndMeaning, Introducer;
    IntroducerRead(p, c.form, 80);
    var e := Cleared(DcsEntry);
    var header := HeaderText(c.prefix, c.entries, c.intermediates) + [c.final];
    HeadedRead(e, c.prefix, c.entries, c.intermediates, c.final, DcsFamily);
    var d := Parse(e, header).state;
    DataEndRead(d, c.data, c.ending);
    var tail := c.data + EndingText(c.ending);
    JoinPieces(e, header, tail);
    JoinPieces(p, Introducer(c.form, 80), header + tail);
    var begun := [DcsBegun(Identifier(c.prefix, c.intermediates, c.final), Read(c.entries))];
    assert begun + (DataMeaning(c.data) + ([DcsDone(!c.ending.CutOff?)] + EndMeaning(c.ending)))
        == begun + DataMeaning(c.data) + [DcsDone(!c.ending.CutOff?)] + EndMeaning(c.ending);
    OpeningNothing(p.state, c.form);
    hide Interrupted, Reports;
  }

  lemma OpeningNothing(s: State, form: Form)
    ensures Opening(s, form, 80) == if form.SevenBit? then Interrupted(s) else []
  {
  }

  lemma OtherStringRead(p: PState, c: Command)
    requires Proper(c) && c.OtherString?
    ensures Parse(p, Spelled(c)).state.state == Ground && Reports(Parse(p, Spelled(c)).out) == MeaningIn(p.state, c)
  {
    hide Parse, Step, OtherCode;
    IntroducerRead(p, c.form, c.opener);
    var o := Parse(p, Introducer(c.form, c.opener)).state;
    OtherTextRead(o, c.text);
    EndingRead(o, c.ending);
    JoinPieces(o, c.text, EndingText(c.ending));
    JoinPieces(p, Introducer(c.form, c.opener), c.text + EndingText(c.ending));
    hide Introducer, EndingText;
  }

  /**
    One command.  From whatever state, a sequence or string is reported as what it means, behind the
    end of a string that it broke off; text and controls mean themselves outside of sequences.
    */
  lemma CommandRead(p: PState, c: Command)
    requires Proper(c) && (c.Text? || c.Control? ==> p.state == Ground)
    ensures Parse(p, Spelled(c)).state.state == Ground && Reports(Parse(p, Spelled(c)).out) == MeaningIn(p.state, c)
  {
    match c
    case EscSequence(intermediates, final) => EscSequenceRead(p, intermediates, final);
    case ControlSequence(_, _, _, _, _) => ControlSequenceRead(p, c);
    case SystemCommand(_, _, _) => SystemCommandRead(p, c);
    case DeviceControl(_, _, _, _, _, _, _) => DeviceControlRead(p, c);
    case OtherString(_, _, _, _) => OtherStringRead(p, c);
    case _ =>
      OnePiece(p, c.code);
      PlainStep(p, c);
      hide Step, Parse;
  }

  lemma PlainStep(p: PState, c: Command)
    requires Proper(c) && (c.Text? || c.Control?) && p.state == Ground
    ensures Step(p, c.code).state.state == Ground && Reports(Step(p, c.code).out) == Meaning(c)
  {
  }

  ghost predicate AllProper(cs: seq<Command>) {
    forall k :: 0 <= k < |cs| ==> Proper(cs[k])
  }

  function SpelledAll(cs: seq<Command>): seq<nat>
    requires forall k :: 0 <= k < |cs| ==> Proper(cs[k])
  {
    if |cs| == 0 then [] else Spelled(cs[0]) + SpelledAll(cs[1..])
  }

  function MeaningAll(cs: seq<Command>): seq<Report> {
    if |cs| == 0 then [] else Meaning(cs[0]) + MeaningAll(cs[1..])
  }

  /** Any output made of commands is reported as exactly what they mean, one after the other. */
  lemma {:induction false} CommandsRead(p: PState, cs: seq<Command>)
    requires p.state == Ground && AllProper(cs)
    ensures Parse(p, SpelledAll(cs)).state.state == Ground && Reports(Parse(p, SpelledAll(cs)).out) == MeaningAll(cs)
    decreases |cs|
  {
    if |cs| == 0 {
      NoPiece(p, SpelledAll(cs));
    } else {
      hide Parse, Meaning, Spelled, Proper;
      CommandRead(p, cs[0]);
      InGroundIsMeaning(cs[0]);
      var q := Parse(p, Spelled(cs[0])).state;
      CommandsRead(q, cs[1..]);
      JoinPieces(p, Spelled(cs[0]), SpelledAll(cs[1..]));
    }
  }

  lemma InGroundIsMeaning(c: Command)
    ensures MeaningIn(Ground, c) == Meaning(c)
  {
  }
}
