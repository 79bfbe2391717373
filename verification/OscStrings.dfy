/**
  Operating system commands: a number, a semicolon, and data, delivered in slices.

  `OscParser` splits off the number and forwards the data to the handlers registered for it;
  `OscHandler` collects the data and gives up once it gets too long.
  */
module OscStrings {
  import opened Machine

  const SEMICOLON := ';' as nat
  const PAYLOAD_LIMIT := 10_000_000

  // ---------------------------------------------------------------- the parser of one command

  datatype Phase = Idle | Id | Payload | Abort

  /** What the handlers for one command are told; data are seen code by code. */
  datatype Message = Start(id: int) | Data(code: nat) | End(success: bool) | Cancel

  datatype OscState = OscState(phase: Phase, id: int)

  predicate IsDigit(c: nat) {
    48 <= c <= 57
  }

  /** One code of the command. */
  function Step(s: OscState, code: nat): Outcome<OscState, Message> {
    match s.phase
    case Id =>
      if code == SEMICOLON then Outcome(s.(phase := Payload), [Start(s.id)])
      else if !IsDigit(code) then Outcome(s.(phase := Abort), [])
      else Outcome(s.(id := 10 * (if s.id == -1 then 0 else s.id) + code - 48), [])
    case Payload => Outcome(s, [Data(code)])
    case _ => Outcome(s, [])
  }

  function Take(s: OscState, codes: seq<nat>): Outcome<OscState, Message> {
    Run(Step, s, codes)
  }

  function Ended(s: OscState, success: bool): seq<Message> {
    match s.phase
    case Idle => []
    case Abort => []
    case Id => [Start(s.id), End(success)]
    case Payload => [End(success)]
  }

  const READING := OscState(Id, -1)

  datatype Sent = Tell(message: Message) | Slice(codes: seq<nat>)

  function MessagesOf(s: Sent): seq<Message> {
    match s
    case Tell(m) => [m]
    case Slice(codes) => AsData(codes)
  }

  function AsData(codes: seq<nat>): seq<Message> {
    seq(|codes|, i requires 0 <= i < |codes| => Data(codes[i]))
  }

  function Messages(sent: seq<Sent>): seq<Message> {
    if |sent| == 0 then [] else Messages(sent[..|sent| - 1]) + MessagesOf(sent[|sent| - 1])
  }

  lemma MessagesSnoc(sent: seq<Sent>, s: Sent)
    ensures Messages(sent + [s]) == Messages(sent) + MessagesOf(s)
  {
    assert (sent + [s])[..|sent|] == sent;
  }

  lemma {:induction false} TakePayload(s: OscState, codes: seq<nat>)
    requires s.phase == Payload
    ensures Take(s, codes) == Outcome(s, AsData(codes))
    decreases |codes|
  {
    if |codes| > 0 {
      var n := |codes| - 1;
      TakePayload(s, codes[..n]);
      assert AsData(codes[..n]) + [Data(codes[n])] == AsData(codes);
    }
  }

  lemma {:induction false} TakeAbort(s: OscState, codes: seq<nat>)
    requires s.phase == Abort
    ensures Take(s, codes) == Outcome(s, [])
    decreases |codes|
  {
    if |codes| > 0 {
      TakeAbort(s, codes[..|codes| - 1]);
    }
  }

  lemma TakeNothing(s: OscState, codes: seq<nat>)
    ensures Take(s, codes[..0]) == Outcome(s, [])
  {
  }

  /** No code is taken before a command begins, and none is left to take once `ReadId` reached the end. */
  lemma {:induction false} TakeStopped(s: OscState, codes: seq<nat>)
    requires s.phase == Idle || |codes| == 0
    ensures Take(s, codes) == Outcome(s, [])
    decreases |codes|
  {
    if |codes| > 0 {
      TakeStopped(s, codes[..|codes| - 1]);
    }
  }

  class OscParser {
    var phase: Phase
    var id: int
    var sent: seq<Sent>

    ghost function Model(): OscState
      reads this
    {
      OscState(phase, id)
    }

    constructor ()
      ensures Model() == OscState(Idle, -1) && sent == []
    {
      phase, id, sent := Idle, -1, [];
    }

    method Send(s: Sent)
      modifies this`sent
      ensures Messages(sent) == Messages(old(sent)) + MessagesOf(s)
    {
      MessagesSnoc(sent, s);
      sent := sent + [s];
    }

    /** A new command; one whose data were still coming in is cancelled. */
    method Begin()
      modifies this
      ensures Model() == READING
      ensures Messages(sent) == Messages(old(sent)) + if old(phase) == Payload then [Cancel] else []
    {
      if phase == Payload {
        Send(Tell(Cancel));
      }
      phase, id := Id, -1;
    }

    /** Reads the number; stops behind the semicolon, at the first other code, or at the end. */
    method ReadId(codes: seq<nat>) returns (t: nat)
      requires phase == Id
      modifies this
      ensures t <= |codes| && phase != Idle && (phase == Id ==> t == |codes|)
      ensures Take(old(Model()), codes[..t]).state == Model()
      ensures Messages(sent) == Messages(old(sent)) + Take(old(Model()), codes[..t]).out
    {
      hide Messages, Run;
      ghost var s0 := Model();
      t := 0;
      TakeNothing(s0, codes);
      while t < |codes|
        invariant t <= |codes| && phase == Id && sent == old(sent)
        invariant Take(s0, codes[..t]) == Outcome(Model(), [])
      {
        var c := codes[t];
        RunSnoc(Step, s0, codes, t);
        t := t + 1;
        if c == SEMICOLON {
          phase := Payload;
          Send(Tell(Start(id)));
          return;
        }
        if c < 48 || 57 < c {
          phase := Abort;
          return;
        }
        if id == -1 {
          id := 0;
        }
        id := 10 * id + c - 48;
      }
    }

    /** One slice `data[start..end]`. */
    method Put(data: seq<nat>, start: nat, end: nat)
      requires start <= end <= |data|
      modifies this
      ensures Model() == Take(old(Model()), data[start..end]).state
      ensures Messages(sent) == Messages(old(sent)) + Take(old(Model()), data[start..end]).out
    {
      hide Messages, Run, Step;
      ghost var s0 := Model();
      var codes := data[start..end];
      if phase == Abort {
        TakeAbort(s0, codes);
        return;
      }
      var t := 0;
      if phase == Id {
        t := ReadId(codes);
      } else {
        TakeNothing(s0, codes);
      }
      var rest := codes[t..];
      assert codes == codes[..t] + rest;
      RunConcat(Step, s0, codes[..t], rest);
      if phase == Payload {
        TakePayload(Model(), rest);
        if |rest| > 0 {
          Send(Slice(rest));
        }
      } else if phase == Abort {
        TakeAbort(Model(), rest);
      } else {
        TakeStopped(Model(), rest);
      }
    }

    method Finish(success: bool)
      modifies this
      ensures phase == Idle || phase == old(phase) == Idle
      ensures Messages(sent) == Messages(old(sent)) + Ended(old(Model()), success)
    {
      if phase == Idle {
        return;
      }
      if phase != Abort {
        if phase == Id {
          Send(Tell(Start(id)));
        }
        Send(Tell(End(success)));
      }
      phase, id := Idle, -1;
    }

    /** A whole command: the handlers are told what it means, however it was cut. */
    method Command(slices: seq<seq<nat>>, success: bool)
      modifies this
      ensures phase == Idle
      ensures Messages(sent) == (Messages(old(sent)) + if old(phase) == Payload then [Cancel] else []) + Meaning(Flatten(slices), success)
    {
      hide Messages, Run, Step, Flatten, Meaning, Ended;
      Begin();
      ghost var before, told: seq<Message>, r := Messages(sent), [], Take(READING, Flatten(slices));
      assert slices[0..] == slices;
      for i := 0 to |slices|
        invariant Messages(sent) == before + told
        invariant r == Outcome(Take(Model(), Flatten(slices[i..])).state, told + Take(Model(), Flatten(slices[i..])).out)
      {
        ghost var s0 := Model();
        TakeSlice(s0, slices, i);
        assert slices[i][0..|slices[i]|] == slices[i];
        Put(slices[i], 0, |slices[i]|);
        ghost var first := Take(s0, slices[i]);
        assert before + (told + first.out) == (before + told) + first.out;
        assert told + (first.out + Take(first.state, Flatten(slices[i + 1..])).out) == (told + first.out) + Take(first.state, Flatten(slices[i + 1..])).out;
        told := told + first.out;
      }
      NothingLeft(Model(), slices);
      assert told + [] == told;
      CommandMeaning(slices, success);
      Finish(success);
      assert (before + told) + Ended(r.state, success) == before + (told + Ended(r.state, success));
    }
  }

  lemma TakeSlice(s: OscState, slices: seq<seq<nat>>, i: nat)
    requires i < |slices|
    ensures var first := Take(s, slices[i]);
            var rest := Take(first.state, Flatten(slices[i + 1..]));
            Take(s, Flatten(slices[i..])) == Outcome(rest.state, first.out + rest.out)
  {
    assert slices[i..][0] == slices[i] && slices[i..][1..] == slices[i + 1..];
    RunConcat(Step, s, slices[i], Flatten(slices[i + 1..]));
    hide Step;
  }

  lemma NothingLeft(s: OscState, slices: seq<seq<nat>>)
    ensures Take(s, Flatten(slices[|slices|..])) == Outcome(s, [])
  {
  }

  // ---------------------------------------------------------------- what a command means

  /** The position of the first semicolon, or the length. */
  function FirstSemicolon(codes: seq<nat>): (k: nat)
    ensures k <= |codes|
    ensures forall j :: 0 <= j < k ==> codes[j] != SEMICOLON
    ensures k < |codes| ==> codes[k] == SEMICOLON
  {
    if |codes| == 0 || codes[0] == SEMICOLON then 0 else 1 + FirstSemicolon(codes[1..])
  }

  function Number(digits: seq<nat>): int {
    if |digits| == 0 then 0 else 10 * Number(digits[..|digits| - 1]) + digits[|digits| - 1] - 48
  }

  /** Nothing, unless all before the first semicolon is digits; then the number, the data and the outcome. */
  function Meaning(codes: seq<nat>, success: bool): seq<Message> {
    var k := FirstSemicolon(codes);
    if exists j :: 0 <= j < k && !IsDigit(codes[j]) then []
    else
      [Start(if k == 0 then -1 else Number(codes[..k]))]
      + AsData(if k == |codes| then [] else codes[k + 1..])
      + [End(success)]
  }

  lemma {:induction false} TakeDigits(codes: seq<nat>)
    requires forall j :: 0 <= j < |codes| ==> IsDigit(codes[j])
    ensures Take(READING, codes) == Outcome(OscState(Id, if |codes| == 0 then -1 else Number(codes)), [])
    ensures Number(codes) >= 0
    decreases |codes|
  {
    if |codes| > 0 {
      TakeDigits(codes[..|codes| - 1]);
    }
  }

  lemma TakeBadNumber(codes: seq<nat>, j: nat)
    requires j < |codes| && codes[j] != SEMICOLON && !IsDigit(codes[j])
    requires forall m :: 0 <= m < j ==> IsDigit(codes[m])
    ensures Take(READING, codes).state.phase == Abort && Take(READING, codes).out == []
  {
    TakeDigits(codes[..j]);
    RunSnoc(Step, READING, codes, j);
    assert codes == codes[..j + 1] + codes[j + 1..];
    RunConcat(Step, READING, codes[..j + 1], codes[j + 1..]);
    TakeAbort(Take(READING, codes[..j + 1]).state, codes[j + 1..]);
  }

  lemma FirstBad(codes: seq<nat>, k: nat) returns (j: nat)
    requires k <= |codes| && exists j :: 0 <= j < k && !IsDigit(codes[j])
    ensures j < k && !IsDigit(codes[j]) && forall m :: 0 <= m < j ==> IsDigit(codes[m])
  {
    j := 0;
    while IsDigit(codes[j])
      invariant j < k && forall m :: 0 <= m < j ==> IsDigit(codes[m])
      decreases k - j
    {
      var b :| 0 <= b < k && !IsDigit(codes[b]);
      j := j + 1;
    }
  }

  /** However the command was cut into slices, the handlers are told what it means. */
  lemma CommandMeaning(slices: seq<seq<nat>>, success: bool)
    ensures var r := Take(READING, Flatten(slices));
            r.out + Ended(r.state, success) == Meaning(Flatten(slices), success)
  {
    var codes := Flatten(slices);
    var k := FirstSemicolon(codes);
    if exists j :: 0 <= j < k && !IsDigit(codes[j]) {
      var j := FirstBad(codes, k);
      TakeBadNumber(codes, j);
    } else {
      GoodCommand(READING, codes, k, success);
    }
  }

  /** A number, a semicolon, and data. */
  lemma TakeNumberAndData(s: OscState, number: seq<nat>, data: seq<nat>)
    requires s == READING && forall j :: 0 <= j < |number| ==> IsDigit(number[j])
    ensures var id := if |number| == 0 then -1 else Number(number);
            Take(s, number + [SEMICOLON] + data) == Outcome(OscState(Payload, id), [Start(id)] + AsData(data))
  {
    var id := if |number| == 0 then -1 else Number(number);
    TakeDigits(number);
    hide Number, AsData;
    var middle: seq<nat> := [SEMICOLON];
    RunConcat(Step, s, number, middle);
    RunConcat(Step, s, number + middle, data);
    assert Take(OscState(Id, id), middle) == Outcome(OscState(Payload, id), [Start(id)]) by {
      RunCons(Step, OscState(Id, id), middle);
      assert middle[1..] == [];
    }
    hide Run, Step;
    TakePayload(OscState(Payload, id), data);
  }

  lemma GoodCommand(s: OscState, codes: seq<nat>, k: nat, success: bool)
    requires s == READING
    requires k <= |codes| && (k < |codes| ==> codes[k] == SEMICOLON) && forall j :: 0 <= j < k ==> IsDigit(codes[j])
    ensures var r := Take(s, codes);
            r.out + Ended(r.state, success)
            == [Start(if k == 0 then -1 else Number(codes[..k]))] + AsData(if k == |codes| then [] else codes[k + 1..]) + [End(success)]
  {
    hide Run, Step, Number;
    if k == |codes| {
      assert codes[..k] == codes;
      TakeDigits(codes);
    } else {
      TakeNumberAndData(s, codes[..k], codes[k + 1..]);
      assert codes[..k] + [SEMICOLON] + codes[k + 1..] == codes;
      hide AsData;
    }
  }

  /** A run of `Put` calls takes the slices one after the other. */
  ghost function TakeAll(s: OscState, slices: seq<seq<nat>>): Outcome<OscState, Message>
    decreases |slices|
  {
    if |slices| == 0 then Outcome(s, [])
    else
      var first := Take(s, slices[0]);
      var rest := TakeAll(first.state, slices[1..]);
      Outcome(rest.state, first.out + rest.out)
  }

  lemma {:induction false} SlicesJoin(s: OscState, slices: seq<seq<nat>>)
    ensures TakeAll(s, slices) == Take(s, Flatten(slices))
    decreases |slices|
  {
    if |slices| > 0 {
      hide Step;
      SlicesJoin(Take(s, slices[0]).state, slices[1..]);
      RunConcat(Step, s, slices[0], Flatten(slices[1..]));
    }
  }

  // ---------------------------------------------------------------- collecting the data

  /** The length of the text in UTF-16 units, which is what is held against the limit. */
  function Units(codes: seq<nat>): nat {
    if |codes| == 0 then 0 else Units(codes[..|codes| - 1]) + if codes[|codes| - 1] > 0xFFFF then 2 else 1
  }

  lemma {:induction false} UnitsConcat(a: seq<nat>, b: seq<nat>)
    ensures Units(a + b) == Units(a) + Units(b)
    decreases |b|
  {
    if |b| == 0 {
      assert a + b == a;
    } else {
      UnitsConcat(a, b[..|b| - 1]);
      assert (a + b)[..|a + b| - 1] == a + b[..|b| - 1];
    }
  }

  datatype Collected = Collected(data: seq<nat>, hitLimit: bool)

  function Grown(c: Collected, slice: seq<nat>): Collected {
    if c.hitLimit then c
    else if Units(c.data + slice) > PAYLOAD_LIMIT then Collected([], true)
    else Collected(c.data + slice, false)
  }

  function GrownBy(c: Collected, slices: seq<seq<nat>>): Collected
    decreases |slices|
  {
    if |slices| == 0 then c else GrownBy(Grown(c, slices[0]), slices[1..])
  }

  /** The data are kept whole, or dropped whole; which of the two depends on the total length only. */
  lemma {:induction false} KeptWholeOrDropped(c: Collected, slices: seq<seq<nat>>)
    requires !c.hitLimit && Units(c.data) <= PAYLOAD_LIMIT
    ensures GrownBy(c, slices) ==
            if Units(c.data + Flatten(slices)) <= PAYLOAD_LIMIT then Collected(c.data + Flatten(slices), false) else Collected([], true)
    decreases |slices|
  {
    if |slices| == 0 {
      assert c.data + [] == c.data;
    } else {
      var d := Grown(c, slices[0]);
      assert c.data + Flatten(slices) == (c.data + slices[0]) + Flatten(slices[1..]);
      UnitsConcat(c.data + slices[0], Flatten(slices[1..]));
      if d.hitLimit {
        StaysDropped(d, slices[1..]);
      } else {
        KeptWholeOrDropped(d, slices[1..]);
      }
    }
  }

  lemma {:induction false} StaysDropped(c: Collected, slices: seq<seq<nat>>)
    requires c.hitLimit
    ensures GrownBy(c, slices) == c
    decreases |slices|
  {
    if |slices| > 0 {
      StaysDropped(c, slices[1..]);
    }
  }

  class OscHandler {
    var data: seq<nat>
    var hitLimit: bool
    /** The texts the registered function was called with. */
    var handled: seq<seq<nat>>

    ghost function Model(): Collected
      reads this
    {
      Collected(data, hitLimit)
    }

    constructor ()
      ensures Model() == Collected([], false) && handled == []
    {
      data, hitLimit, handled := [], false, [];
    }

    method Start()
      modifies this
      ensures Model() == Collected([], false) && handled == old(handled)
    {
      data, hitLimit := [], false;
    }

    method Put(slice: seq<nat>)
      modifies this
      ensures Model() == Grown(old(Model()), slice) && handled == old(handled)
    {
      if hitLimit {
        return;
      }
      data := data + slice;
      var units := Length(data);
      if units > PAYLOAD_LIMIT {
        data, hitLimit := [], true;
      }
    }

    /** The registered function sees the data, unless they were too long or the command was aborted. */
    method End(success: bool)
      modifies this
      ensures Model() == Collected([], false)
      ensures handled == old(handled) + if success && !old(hitLimit) then [old(data)] else []
    {
      if !hitLimit && success {
        handled := handled + [data];
      }
      data, hitLimit := [], false;
    }

    static method Length(codes: seq<nat>) returns (n: nat)
      ensures n == Units(codes)
    {
      n := 0;
      for k := 0 to |codes|
        invariant n == Units(codes[..k])
      {
        assert codes[..k + 1][..k] == codes[..k];
        n := n + if codes[k] > 0xFFFF then 2 else 1;
      }
      assert codes[..|codes|] == codes;
    }
  }
}
