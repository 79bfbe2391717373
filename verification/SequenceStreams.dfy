/**
  The sequences of terminal output inside whole streams: which handler they reach, what happens to
  controls in the midst of them and to headers that are not well formed, and what the fast loops report.
  */
module SequenceStreams {
  import opened Common
  import opened Machine
  import opened Transitions
  import opened Params
  import opened ParamLists
  import opened Sequences
  import S = ParserStreams

  // ---------------------------------------------------------------- handlers

  /** What a handler is registered for. */
  datatype Handler = Handler(prefix: seq<nat>, intermediates: seq<nat>, final: nat)

  /** A prefix of code 0 passes the check and counts as none. */
  predicate Registrable(h: Handler, low: nat) {
    && (h.prefix == [] || h.prefix == [0] || (|h.prefix| == 1 && 60 <= h.prefix[0] <= 63))
    && |h.intermediates| <= 2 && AllIn(h.intermediates, 32, 47)
    && low <= h.final <= 126
  }

  function PrefixMeant(h: Handler): seq<nat> {
    if h.prefix == [0] then [] else h.prefix
  }

  /** The number under which a handler is registered, or none where registering throws. */
  function RegisteredAs(h: Handler, low: nat): Option<int> {
    if Registrable(h, low) then Some(Number256(h.prefix + h.intermediates + [h.final])) else None
  }

  method IdentifierOf(h: Handler, low: nat) returns (r: Option<int>)
    ensures r == RegisteredAs(h, low)
  {
    hide Number256;
    var i := 0;
    if |h.prefix| > 0 {
      if |h.prefix| > 1 {
        return None;
      }
      i := h.prefix[0];
      if (i != 0 && 60 > i) || i > 63 {
        return None;
      }
    }
    FirstDigit(h.prefix);
    if |h.intermediates| > 2 {
      return None;
    }
    for t := 0 to |h.intermediates|
      invariant i == Number256(h.prefix + h.intermediates[..t])
      invariant AllIn(h.intermediates[..t], 32, 47)
    {
      var s := h.intermediates[t];
      if 32 > s || s > 47 {
        return None;
      }
      NumberSnoc(h.prefix + h.intermediates[..t], s);
      assert h.intermediates[..t + 1] == h.intermediates[..t] + [s];
      assert h.prefix + h.intermediates[..t + 1] == h.prefix + h.intermediates[..t] + [s];
      i := i * 256 + s;
    }
    assert h.intermediates[..|h.intermediates|] == h.intermediates;
    if low > h.final || h.final > 126 {
      return None;
    }
    NumberSnoc(h.prefix + h.intermediates, h.final);
    return Some(i * 256 + h.final);
  }

  lemma FirstDigit(codes: seq<nat>)
    requires |codes| <= 1
    ensures Number256(codes + []) == if |codes| == 1 then codes[0] else 0
  {
    assert codes + [] == codes;
    if |codes| == 1 {
      NumberSnoc([], codes[0]);
      assert [] + [codes[0]] == codes;
    }
  }

  ghost predicate DigitsWithoutZero(codes: seq<nat>) {
    forall k :: 0 <= k < |codes| ==> 0 < codes[k] < 128
  }

  lemma {:induction false} NumberTellsDigits(a: seq<nat>, b: seq<nat>)
    requires DigitsWithoutZero(a) && DigitsWithoutZero(b) && Number256(a) == Number256(b)
    ensures a == b
    decreases |a|
  {
    if |a| > 0 && |b| > 0 {
      var m, n := |a| - 1, |b| - 1;
      assert a[m] == b[n] && Number256(a[..m]) == Number256(b[..n]);
      NumberTellsDigits(a[..m], b[..n]);
      assert a == a[..m] + [a[m]] && b == b[..n] + [b[n]];
    }
  }

  lemma FourDigits(codes: seq<nat>)
    requires |codes| >= 4
    ensures var n := |codes| - 4;
            Number256(codes) == 0x1_0000_0000 * Number256(codes[..n])
              + 0x100_0000 * codes[n] + 0x1_0000 * codes[n + 1] + 0x100 * codes[n + 2] + codes[n + 3]
  {
    hide Number256;
    var n := |codes| - 4;
    var a, b, c, d := codes[..n], codes[..n + 1], codes[..n + 2], codes[..n + 3];
    NumberSnoc(a, codes[n]);
    NumberSnoc(b, codes[n + 1]);
    NumberSnoc(c, codes[n + 2]);
    NumberSnoc(d, codes[n + 3]);
    assert b == a + [codes[n]] && c == b + [codes[n + 1]] && d == c + [codes[n + 2]] && codes == d + [codes[n + 3]];
  }

  function Bound(n: nat): nat {
    if n == 0 then 1 else if n == 1 then 128 else 256 * Bound(n - 1)
  }

  lemma {:induction false} FewDigits(codes: seq<nat>)
    requires DigitsWithoutZero(codes)
    ensures Number256(codes) < Bound(|codes|)
    decreases |codes|
  {
    if |codes| > 0 {
      FewDigits(codes[..|codes| - 1]);
    }
  }

  lemma Bounded(codes: seq<nat>)
    requires DigitsWithoutZero(codes) && |codes| <= 4
    ensures Number256(codes) < 0x8000_0000
  {
    FewDigits(codes);
    hide Number256;
    var n := |codes|;
    assert Bound(3) == 256 * Bound(2) && Bound(2) == 256 * Bound(1);
  }

  /** Of more than four characters the first ones are shifted out. */
  lemma LastFour(codes: seq<nat>)
    requires DigitsWithoutZero(codes) && |codes| >= 4
    ensures Signed32(Number256(codes)) == Number256(codes[|codes| - 4..])
  {
    hide Number256, Signed32;
    var n := |codes| - 4;
    var last := codes[n..];
    FourDigits(codes);
    FourDigits(last);
    Bounded(last);
    NoDigits(last[..0]);
    LowPart(Number256(codes), Number256(codes[..n]), Number256(last));
  }

  lemma LowPart(x: nat, q: nat, r: nat)
    requires r < 0x8000_0000 && x == 0x1_0000_0000 * q + r
    ensures Signed32(x) == r
  {
    WholePart(x, q, r);
  }

  lemma NoDigits(codes: seq<nat>)
    requires codes == []
    ensures Number256(codes) == 0
  {
  }

  lemma SameParts(h: Handler, prefix: seq<nat>, intermediates: seq<nat>, final: nat)
    requires Registrable(h, 48) && |prefix| <= 1 && AllIn(prefix, 60, 63) && AllIn(intermediates, 32, 47)
    ensures PrefixMeant(h) + h.intermediates + [h.final] == prefix + intermediates + [final]
            <==> PrefixMeant(h) == prefix && h.intermediates == intermediates && h.final == final
  {
    var p := PrefixMeant(h);
    if p + h.intermediates + [h.final] == prefix + intermediates + [final] {
      assert (p + h.intermediates + [h.final])[..|p| + |h.intermediates|] == p + h.intermediates;
      assert (prefix + intermediates + [final])[..|prefix| + |intermediates|] == prefix + intermediates;
      assert p + h.intermediates == prefix + intermediates;
      if p + h.intermediates != [] {
        assert (p + h.intermediates)[0] == if |p| > 0 then p[0] else h.intermediates[0];
        assert (prefix + intermediates)[0] == if |prefix| > 0 then prefix[0] else intermediates[0];
      }
      assert |p| == |prefix|;
      assert (p + h.intermediates)[|p|..] == h.intermediates && (prefix + intermediates)[|prefix|..] == intermediates;
      assert (p + h.intermediates)[..|p|] == p && (prefix + intermediates)[..|prefix|] == prefix;
      assert (p + h.intermediates + [h.final])[|p| + |h.intermediates|] == h.final;
    }
  }

  lemma RegisteredNumber(h: Handler, low: nat)
    requires 48 <= low && Registrable(h, low)
    ensures var codes := PrefixMeant(h) + h.intermediates + [h.final];
            DigitsWithoutZero(codes) && |codes| <= 4 && RegisteredAs(h, low) == Some(Number256(codes))
  {
    if h.prefix == [0] {
      var rest := h.intermediates + [h.final];
      assert h.prefix + h.intermediates + [h.final] == [0] + rest;
      assert PrefixMeant(h) + h.intermediates + [h.final] == rest;
      LeadingZero(rest);
    }
  }

  lemma {:induction false} LeadingZero(codes: seq<nat>)
    ensures Number256([0] + codes) == Number256(codes)
    decreases |codes|
  {
    var n := |codes|;
    if n == 0 {
      assert [0] + codes == [] + [0];
      NumberSnoc([], 0);
    } else {
      LeadingZero(codes[..n - 1]);
      assert ([0] + codes)[..n] == [0] + codes[..n - 1];
    }
  }

  /**
    A sequence reaches a handler exactly when the handler was registered for its prefix, its
    intermediates and its final character: also with more intermediates than fit in 32 bits.
    */
  lemma HandlerReached(h: Handler, low: nat, prefix: seq<nat>, intermediates: seq<nat>, final: nat)
    requires 48 <= low && RegisteredAs(h, low).Some?
    requires |prefix| <= 1 && AllIn(prefix, 60, 63) && AllIn(intermediates, 32, 47) && low <= final <= 126
    ensures Identifier(prefix, intermediates, final) == RegisteredAs(h, low).value
            <==> PrefixMeant(h) == prefix && h.intermediates == intermediates && h.final == final
  {
    var mine, codes := PrefixMeant(h) + h.intermediates + [h.final], prefix + intermediates + [final];
    RegisteredNumber(h, low);
    SameParts(h, prefix, intermediates, final);
    assert DigitsWithoutZero(codes);
    hide Number256, Signed32, Registrable;
    if |codes| <= 4 {
      Bounded(codes);
      LowPart(Number256(codes), 0, Number256(codes));
      if Number256(mine) == Number256(codes) {
        NumberTellsDigits(mine, codes);
      }
    } else {
      LastFour(codes);
      var last := codes[|codes| - 4..];
      if Number256(mine) == Number256(last) {
        NumberTellsDigits(mine, last);
        FourMeansPrefix(h, low);
        FifthFromBehind(prefix, intermediates, final);
      }
    }
  }

  lemma FifthFromBehind(prefix: seq<nat>, intermediates: seq<nat>, final: nat)
    requires |prefix| <= 1 && AllIn(intermediates, 32, 47) && |prefix + intermediates| >= 4
    ensures var codes := prefix + intermediates + [final]; codes[|codes| - 4..][0] <= 47
  {
    var codes := prefix + intermediates + [final];
    assert codes[|codes| - 4] == intermediates[|codes| - 4 - |prefix|];
  }

  lemma FourMeansPrefix(h: Handler, low: nat)
    requires Registrable(h, low) && |PrefixMeant(h) + h.intermediates + [h.final]| == 4
    ensures 60 <= (PrefixMeant(h) + h.intermediates + [h.final])[0] <= 63
  {
  }

  // ---------------------------------------------------------------- controls in the midst of a header

  /** Controls and DEL, which are not part of a header wherever they stand in it. */
  predicate Aside(c: nat) {
    C0(c) || c == DEL
  }

  function Ignoring(f: Family): State {
    match f case EscFamily => EscapeIntermediate case CsiFamily => CsiIgnore case DcsFamily => DcsIgnore
  }

  predicate Inside(s: State, f: Family) {
    Heading(s, f) || s == Ignoring(f)
  }

  predicate HeaderCode(c: nat, f: Family) {
    32 <= c <= if f.EscFamily? then 47 else 63
  }

  function WithoutAside(codes: seq<nat>): seq<nat> {
    if |codes| == 0 then []
    else WithoutAside(codes[..|codes| - 1]) + if Aside(codes[|codes| - 1]) then [] else [codes[|codes| - 1]]
  }

  /** A control in an escape or a control sequence is obeyed at once; in the header of a control string it is dropped. */
  function Meanwhile(codes: seq<nat>, f: Family): seq<Report> {
    if |codes| == 0 then []
    else Meanwhile(codes[..|codes| - 1], f) + if C0(codes[|codes| - 1]) && !f.DcsFamily? then [Obeyed(codes[|codes| - 1])] else []
  }

  lemma AsideStep(p: PState, c: nat, f: Family)
    requires Inside(p.state, f) && Aside(c)
    ensures Step(p, c).state == p && Reports(Step(p, c).out) == if C0(c) && !f.DcsFamily? then [Obeyed(c)] else []
  {
  }

  lemma HeaderStep(p: PState, c: nat, f: Family)
    requires Inside(p.state, f) && HeaderCode(c, f)
    ensures Step(p, c).out == [] && Inside(Step(p, c).state.state, f)
  {
    hide ShiftIn, FeedCode;
  }

  lemma {:induction false} AsideRead(p: PState, codes: seq<nat>, f: Family)
    requires Inside(p.state, f) && forall k :: 0 <= k < |codes| ==> HeaderCode(codes[k], f) || Aside(codes[k])
    ensures var quiet := Parse(p, WithoutAside(codes));
            && Parse(p, codes).state == quiet.state && Inside(quiet.state.state, f)
            && quiet.out == [] && Reports(Parse(p, codes).out) == Meanwhile(codes, f)
    decreases |codes|
  {
    hide Parse, Step, Aside, HeaderCode, Inside, C0, Reports;
    if |codes| == 0 {
      NoPiece(p, codes);
    } else {
      var n := |codes| - 1;
      var c := codes[n];
      AsideRead(p, codes[..n], f);
      var q := Parse(p, codes[..n]).state;
      JoinPieces(p, codes[..n], [c]);
      OnePiece(q, c);
      assert codes[..n] + [c] == codes;
      if Aside(c) {
        AsideStep(q, c, f);
        assert WithoutAside(codes) == WithoutAside(codes[..n]);
      } else {
        HeaderStep(q, c, f);
        QuietReports(Step(q, c).out);
        NotObeyed(c, f);
        QuietPieces(p, WithoutAside(codes[..n]), q, [c], Step(q, c).state);
      }
    }
  }

  lemma QuietReports(out: seq<Event>)
    requires out == []
    ensures Reports(out) == []
  {
  }

  lemma NotObeyed(c: nat, f: Family)
    requires !Aside(c)
    ensures !C0(c)
  {
  }

  /** What a header and its final character are reported as. */
  function HeadMeaning(f: Family, prefix: seq<nat>, entries: seq<Entry>, intermediates: seq<nat>, final: nat): Report {
    if f.CsiFamily? then Csi(Identifier(prefix, intermediates, final), Read(entries))
    else DcsBegun(Identifier(prefix, intermediates, final), Read(entries))
  }

  /**
    The header of a control sequence or control string with controls strewn over it: those of a
    sequence are obeyed where they stand, and the header means what it means without them.
    */
  lemma ControlsInside(codes: seq<nat>, prefix: seq<nat>, entries: seq<Entry>, intermediates: seq<nat>, final: nat, f: Family)
    requires !f.EscFamily? && Header(prefix, entries, intermediates, final)
    requires WithoutAside(codes) == HeaderText(prefix, entries, intermediates)
    ensures var r := Parse(Cleared(Entered(f)), codes + [final]);
            && r.state.state == (if f.CsiFamily? then Ground else DcsPassthrough)
            && Reports(r.out) == Meanwhile(codes, f) + [HeadMeaning(f, prefix, entries, intermediates, final)]
  {
    HeaderTextCodes(prefix, entries, intermediates, f);
    hide Parse, Step, Read, HeaderText, Identifier, Reports, AllIn, HeaderCode, Aside, Meanwhile, WithoutAside, HeadState;
    var e := Cleared(Entered(f));
    var h := HeaderText(prefix, entries, intermediates);
    HeadedRead(e, prefix, entries, intermediates, final, f);
    Strewn(codes, f);
    AsideRead(e, codes, f);
    BehindTheSame(e, codes, h, [final]);
  }

  lemma BehindTheSame(e: PState, codes: seq<nat>, h: seq<nat>, last: seq<nat>)
    requires Parse(e, codes).state == Parse(e, h).state && Parse(e, h).out == []
    ensures Parse(e, codes + last).state == Parse(e, h + last).state
    ensures Reports(Parse(e, codes + last).out) == Reports(Parse(e, codes).out) + Reports(Parse(e, h + last).out)
  {
    hide Parse, Reports;
    JoinPieces(e, h, last);
    JoinPieces(e, codes, last);
    QuietReports(Parse(e, h).out);
  }

  lemma HeaderTextCodes(prefix: seq<nat>, entries: seq<Entry>, intermediates: seq<nat>, f: Family)
    requires !f.EscFamily? && |entries| > 0 && AllIn(prefix, 60, 63) && AllIn(intermediates, 32, 47)
    ensures var h := HeaderText(prefix, entries, intermediates); forall k :: 0 <= k < |h| ==> HeaderCode(h[k], f)
  {
    var params := ParamText(entries);
    hide ParamText;
    assert AllIn(params, 48, 59);
  }

  lemma {:induction false} Strewn(codes: seq<nat>, f: Family)
    requires forall k :: 0 <= k < |WithoutAside(codes)| ==> HeaderCode(WithoutAside(codes)[k], f)
    ensures forall k :: 0 <= k < |codes| ==> HeaderCode(codes[k], f) || Aside(codes[k])
    decreases |codes|
  {
    hide HeaderCode, Aside;
    if |codes| > 0 {
      var n := |codes| - 1;
      var less := WithoutAside(codes[..n]);
      forall k | 0 <= k < |less| ensures HeaderCode(less[k], f) {
        assert WithoutAside(codes)[k] == less[k];
      }
      Strewn(codes[..n], f);
      if !Aside(codes[n]) {
        assert WithoutAside(codes)[|less|] == codes[n];
      }
    }
  }

  // ---------------------------------------------------------------- headers that are not well formed

  /** A private marker stands first, and nothing but intermediates follows an intermediate. */
  predicate WellOrdered(codes: seq<nat>) {
    && (forall k :: 0 < k < |codes| ==> codes[k] < 60)
    && (forall k :: 0 < k < |codes| && codes[k - 1] < 48 ==> codes[k] < 48)
  }

  function HeadState(codes: seq<nat>, f: Family): State {
    if !WellOrdered(codes) then Ignoring(f)
    else if |codes| == 0 then Entered(f)
    else if codes[|codes| - 1] < 48 then InIntermediates(f)
    else InParams(f)
  }

  lemma HeadStep(p: PState, codes: seq<nat>, f: Family)
    requires !f.EscFamily? && |codes| > 0 && AllIn(codes, 32, 63) && p.state == HeadState(codes[..|codes| - 1], f)
    ensures var r := Step(p, codes[|codes| - 1]); r.out == [] && r.state.state == HeadState(codes, f)
  {
    hide ShiftIn, FeedCode;
    var n := |codes| - 1;
    OrderedSnoc(codes, n);
    hide WellOrdered;
  }

  lemma OrderedSnoc(codes: seq<nat>, n: nat)
    requires |codes| == n + 1
    ensures WellOrdered(codes) <==> WellOrdered(codes[..n]) && (n > 0 ==> codes[n] < 60 && (codes[n - 1] < 48 ==> codes[n] < 48))
  {
    var shorter := codes[..n];
    if WellOrdered(shorter) && (n > 0 ==> codes[n] < 60 && (codes[n - 1] < 48 ==> codes[n] < 48)) {
      forall k | 0 < k < |codes| ensures codes[k] < 60 && (codes[k - 1] < 48 ==> codes[k] < 48) {
        assert k < n ==> shorter[k] == codes[k] && shorter[k - 1] == codes[k - 1];
      }
    } else if WellOrdered(codes) {
      forall k | 0 < k < n ensures shorter[k] < 60 && (shorter[k - 1] < 48 ==> shorter[k] < 48) {
        assert shorter[k] == codes[k] && shorter[k - 1] == codes[k - 1];
      }
      assert false;
    }
  }

  lemma {:induction false} HeadStateRead(codes: seq<nat>, f: Family)
    requires !f.EscFamily? && AllIn(codes, 32, 63)
    ensures var r := Parse(Cleared(Entered(f)), codes); r.out == [] && r.state.state == HeadState(codes, f)
    decreases |codes|
  {
    var e := Cleared(Entered(f));
    if |codes| == 0 {
      NoPiece(e, codes);
    } else {
      hide Step, HeadState;
      var n := |codes| - 1;
      HeadStateRead(codes[..n], f);
      HeadStep(Parse(e, codes[..n]).state, codes, f);
      RunSnoc(Step, e, codes, n);
      assert codes[..n + 1] == codes;
    }
  }

  function EntriesOf(codes: seq<nat>): (entries: seq<Entry>)
    requires AllIn(codes, 48, 59)
    ensures |entries| > 0
  {
    if |codes| == 0 then [Entry([], [])]
    else
      var rest := EntriesOf(codes[1..]);
      if codes[0] == SEMICOLON then [Entry([], [])] + rest
      else if codes[0] == COLON then [Entry([], [rest[0].digits] + rest[0].subs)] + rest[1..]
      else [Entry([codes[0] - 48] + rest[0].digits, rest[0].subs)] + rest[1..]
  }

  function TextBehind(es: seq<Entry>): seq<nat> {
    if |es| == 0 then [] else [SEMICOLON] + ParamText(es)
  }

  lemma PrintHead(es: seq<Entry>)
    requires |es| > 0
    ensures ParamText(es) == EntryText(es[0]) + TextBehind(es[1..])
  {
    hide EntryText;
  }

  lemma EntriesHead(codes: seq<nat>, rest: seq<Entry>, all: seq<Entry>)
    requires |codes| > 0 && AllIn(codes, 48, 59) && rest == EntriesOf(codes[1..]) && all == EntriesOf(codes)
    ensures EntryText(all[0]) == if codes[0] == SEMICOLON then [] else [codes[0]] + EntryText(rest[0])
    ensures all[1..] == if codes[0] == SEMICOLON then rest else rest[1..]
  {
    hide EntryText;
    if codes[0] == SEMICOLON {
      NoDigitsNoSubs(all[0]);
    } else {
      FirstCode(codes[0], rest[0], all[0]);
    }
  }

  lemma Prepend(c: int, head: seq<int>, behind: seq<int>)
    ensures ([c] + head) + behind == [c] + (head + behind)
  {
  }

  lemma NothingBehind(es: seq<Entry>)
    requires |es| == 0
    ensures TextBehind(es) == []
  {
  }

  lemma BehindSome(es: seq<Entry>)
    requires |es| > 0
    ensures TextBehind(es) == [SEMICOLON] + ParamText(es)
  {
  }

  /** Every text of parameters is the text of some parameters. */
  lemma {:induction false} EntriesSpelled(codes: seq<nat>)
    requires AllIn(codes, 48, 59)
    ensures ParamText(EntriesOf(codes)) == codes
    decreases |codes|
  {
    hide EntryText, ParamText, TextBehind;
    var all := EntriesOf(codes);
    PrintHead(all);
    if |codes| == 0 {
      NoDigitsNoSubs(all[0]);
      NothingBehind(all[1..]);
    } else {
      EntriesSpelled(codes[1..]);
      var rest := EntriesOf(codes[1..]);
      PrintHead(rest);
      EntriesHead(codes, rest, all);
      BehindSome(rest);
      Prepend(codes[0], EntryText(rest[0]), TextBehind(rest[1..]));
      hide EntriesOf, AllIn;
      assert codes == [codes[0]] + codes[1..];
    }
  }

  lemma NoDigitsNoSubs(e: Entry)
    requires e == Entry([], [])
    ensures EntryText(e) == []
  {
  }

  lemma FirstCode(c: nat, before: Entry, after: Entry)
    requires 48 <= c <= 58
    requires after == if c == COLON then Entry([], [before.digits] + before.subs) else Entry([c - 48] + before.digits, before.subs)
    ensures EntryText(after) == [c] + EntryText(before)
  {
    if c == COLON {
      assert after.subs[1..] == before.subs;
      assert Codes(after.digits) == [];
    } else {
      assert Codes(after.digits) == [c] + Codes(before.digits);
    }
  }

  function FirstIntermediate(codes: seq<nat>): (n: nat)
    ensures n <= |codes|
  {
    if |codes| > 0 && codes[|codes| - 1] < 48 then FirstIntermediate(codes[..|codes| - 1]) else |codes|
  }

  lemma {:induction false} IntermediatesLast(codes: seq<nat>)
    requires WellOrdered(codes)
    ensures var n := FirstIntermediate(codes); forall k :: 0 <= k < |codes| ==> (k < n <==> codes[k] >= 48)
    decreases |codes|
  {
    if |codes| > 0 {
      var last := |codes| - 1;
      if codes[last] < 48 {
        OrderedSnoc(codes, last);
        hide WellOrdered;
        var shorter := codes[..last];
        IntermediatesLast(shorter);
        assert forall k :: 0 <= k < last ==> shorter[k] == codes[k];
      } else {
        NoneBefore(codes, last);
      }
    }
  }

  lemma {:induction false} NoneBefore(codes: seq<nat>, n: nat)
    requires WellOrdered(codes) && n < |codes| && codes[n] >= 48
    ensures forall k :: 0 <= k <= n ==> codes[k] >= 48
  {
    if n > 0 {
      NoneBefore(codes, n - 1);
    }
  }

  /** Where the parameters of a header in good order begin and end. */
  function Parts(codes: seq<nat>): (r: (nat, nat))
    requires AllIn(codes, 32, 63) && WellOrdered(codes)
    ensures r.0 <= r.1 <= |codes| && r.0 <= 1
    ensures AllIn(codes[..r.0], 60, 63) && AllIn(codes[r.0..r.1], 48, 59) && AllIn(codes[r.1..], 32, 47)
  {
    IntermediatesLast(codes);
    (if |codes| > 0 && codes[0] >= 60 then 1 else 0, FirstIntermediate(codes))
  }

  lemma OrderedHeader(codes: seq<nat>)
    requires AllIn(codes, 32, 63) && WellOrdered(codes)
    ensures var (a, b) := Parts(codes); codes == HeaderText(codes[..a], EntriesOf(codes[a..b]), codes[b..])
  {
    hide ParamText, Parts, EntriesOf, AllIn, WellOrdered;
    var (a, b) := Parts(codes);
    EntriesSpelled(codes[a..b]);
    assert codes == codes[..a] + (codes[a..b] + codes[b..]);
  }

  /** What a control sequence means, whatever stands between the introducer and the final character. */
  function CsiMeaning(codes: seq<nat>, final: nat): seq<Report>
    requires AllIn(codes, 32, 63)
  {
    if WellOrdered(codes) then
      var (a, b) := Parts(codes);
      [Csi(Identifier(codes[..a], codes[b..], final), Read(EntriesOf(codes[a..b])))]
    else []
  }

  /**
    The handler is told of a header in good order once, with its prefix, parameters and
    intermediates; of one that is not in good order nobody is told.
    */
  lemma ControlSequenceExactly(p: PState, form: Form, codes: seq<nat>, final: nat)
    requires AllIn(codes, 32, 63) && 64 <= final <= 126
    ensures var r := Parse(p, Introducer(form, 91) + (codes + [final]));
            r.state.state == Ground && Reports(r.out) == Opening(p.state, form, 91) + CsiMeaning(codes, final)
  {
    hide Parse, Step, Read, Identifier, Reports, AllIn, Introducer, Opening, WellOrdered, Parts, EntriesOf, HeaderText;
    var e := Cleared(CsiEntry);
    IntroducerRead(p, form, 91);
    JoinPieces(p, Introducer(form, 91), codes + [final]);
    if WellOrdered(codes) {
      var (a, b) := Parts(codes);
      OrderedHeader(codes);
      HeadedRead(e, codes[..a], EntriesOf(codes[a..b]), codes[b..], final, CsiFamily);
    } else {
      HeadStateRead(codes, CsiFamily);
      OnePiece(Parse(e, codes).state, final);
      JoinPieces(e, codes, [final]);
      IgnoredFinal(Parse(e, codes).state, final);
      QuietReports(Parse(e, codes).out);
    }
  }

  lemma IgnoredFinal(p: PState, final: nat)
    requires p.state == CsiIgnore && 64 <= final <= 126
    ensures Step(p, final).state.state == Ground && Reports(Step(p, final).out) == []
  {
  }

  // ---------------------------------------------------------------- strings that nobody reads

  /**
    Of a control string whose header is not in good order nobody is told: what follows is skipped
    up to the end, of whatever kind.
    */
  lemma DeviceControlSkipped(codes: seq<nat>, text: seq<nat>, ending: Ending)
    requires AllIn(codes, 32, 63) && !WellOrdered(codes)
    requires EndingOk(ending) && !ending.Bell? && forall k :: 0 <= k < |text| ==> OtherCode(text[k]) || text[k] >= 160
    ensures var r := Parse(Cleared(DcsEntry), codes + (text + EndingText(ending)));
            r.state.state == Ground && Reports(r.out) == (if ending.CutOff? then [Obeyed(ending.code)] else EndMeaning(ending))
  {
    hide Parse, Step, Reports, AllIn, WellOrdered, EndingText, OtherCode, EndMeaning;
    var e := Cleared(DcsEntry);
    HeadStateRead(codes, DcsFamily);
    var q := Parse(e, codes).state;
    assert q.state == DcsIgnore;
    SkippedText(q, text);
    SkippedEnd(q, ending);
    JoinPieces(q, text, EndingText(ending));
    JoinPieces(e, codes, text + EndingText(ending));
    QuietReports(Parse(e, codes).out);
    QuietReports(Parse(q, text).out);
  }

  lemma {:induction false} SkippedText(p: PState, text: seq<nat>)
    requires p.state == DcsIgnore && forall k :: 0 <= k < |text| ==> OtherCode(text[k]) || text[k] >= 160
    ensures Parse(p, text) == Outcome(p, [])
    decreases |text|
  {
    if |text| > 0 {
      hide Step, OtherCode;
      var n := |text| - 1;
      SkippedText(p, text[..n]);
      RunSnoc(Step, p, text, n);
      assert text[..n + 1] == text;
      SkippedStep(p, text[n]);
    }
  }

  lemma SkippedStep(p: PState, c: nat)
    requires p.state == DcsIgnore && (OtherCode(c) || c >= 160)
    ensures Step(p, c) == Outcome(p, [])
  {
  }

  lemma SkippedEnd(p: PState, ending: Ending)
    requires p.state == DcsIgnore && EndingOk(ending) && !ending.Bell?
    ensures var r := Parse(p, EndingText(ending));
            r.state.state == Ground && Reports(r.out) == (if ending.CutOff? then [Obeyed(ending.code)] else EndMeaning(ending))
  {
    hide Step, Parse, Reports;
    if ending == Terminated(SevenBit) {
      EscapeThen(p, BACKSLASH);
      BackslashStep(BACKSLASH);
    } else {
      var c := EndingText(ending)[0];
      assert EndingText(ending) == [c];
      OnePiece(p, c);
      SkippedEndStep(p, ending, c);
    }
  }

  lemma SkippedEndStep(p: PState, ending: Ending, c: nat)
    requires p.state == DcsIgnore && EndingOk(ending) && !ending.Bell? && ending != Terminated(SevenBit) && c == EndingText(ending)[0]
    ensures Step(p, c).state.state == Ground
    ensures Reports(Step(p, c).out) == if ending.CutOff? then [Obeyed(ending.code)] else []
  {
  }

  predicate WithinTable(text: seq<nat>) {
    forall k :: 0 <= k < |text| ==> text[k] < 160
  }

  function FirstBeyond(text: seq<nat>): (n: nat)
    requires !WithinTable(text)
    ensures n < |text| && text[n] >= 160 && WithinTable(text[..n])
  {
    if text[0] >= 160 then 0 else 1 + FirstBeyond(text[1..])
  }

  /**
    A privacy message or application command is skipped in silence if and only if its text is
    ASCII: the table has no rule for other characters there, so the first of them ends the string
    as malformed, and the rest of it is taken for output.
    */
  lemma OtherTextExactly(p: PState, text: seq<nat>)
    requires p.state == SosPmApcString && forall k :: 0 <= k < |text| ==> OtherCode(text[k]) || text[k] >= 160
    ensures Parse(p, text) == Outcome(p, []) <==> WithinTable(text)
    ensures !WithinTable(text) ==>
              var n := FirstBeyond(text);
              var r := Parse(p, text[..n + 1]); r.state.state == Ground && Reports(r.out) == [Malformed(text[n])]
  {
    hide Step, Parse, Reports, FirstBeyond;
    if WithinTable(text) {
      OtherTextRead(p, text);
    } else {
      BeyondEnds(p, text, FirstBeyond(text));
    }
  }

  lemma BeyondEnds(p: PState, text: seq<nat>, n: nat)
    requires p.state == SosPmApcString && forall k :: 0 <= k < |text| ==> OtherCode(text[k]) || text[k] >= 160
    requires n < |text| && text[n] >= 160 && WithinTable(text[..n])
    ensures var r := Parse(p, text[..n + 1]); r.state.state == Ground && Reports(r.out) == [Malformed(text[n])]
    ensures |Parse(p, text).out| > 0
  {
    hide Step, Parse, Reports;
    var before, c, after := text[..n], text[n], text[n + 1..];
    OtherTextRead(p, before);
    hide OtherCode, WithinTable;
    MalformedBehind(p, before, c);
    assert before + [c] == text[..n + 1] && text == text[..n + 1] + after;
    JoinPieces(p, text[..n + 1], after);
    SomethingReported(Parse(p, text).out, c, Reports(Parse(Parse(p, text[..n + 1]).state, after).out));
  }

  lemma MalformedBehind(p: PState, before: seq<nat>, c: nat)
    requires Parse(p, before) == Outcome(p, []) && p.state == SosPmApcString && c >= 160
    ensures var r := Parse(p, before + [c]); r.state.state == Ground && Reports(r.out) == [Malformed(c)]
  {
    hide Step, Parse, Reports;
    JoinPieces(p, before, [c]);
    OnePiece(p, c);
    MalformedStep(p, c);
    QuietReports(Parse(p, before).out);
  }

  lemma SomethingReported(out: seq<Event>, c: nat, rest: seq<Report>)
    requires Reports(out) == [Malformed(c)] + rest
    ensures |out| > 0
  {
  }

  lemma MalformedStep(p: PState, c: nat)
    requires p.state == SosPmApcString && c >= 160
    ensures Step(p, c).state.state == Ground && Reports(Step(p, c).out) == [Malformed(c)]
  {
  }

  // ---------------------------------------------------------------- the fast loops, chunk by chunk

  /** No DEL is read in the data of a control string. */
  ghost predicate DelElsewhere(p: PState, codes: seq<nat>) {
    forall j :: 0 <= j < |codes| && codes[j] == DEL ==> Parse(p, codes[..j]).state.state != DcsPassthrough
  }

  lemma DelElsewhereConcat(p: PState, a: seq<nat>, b: seq<nat>)
    ensures DelElsewhere(p, a + b) <==> DelElsewhere(p, a) && DelElsewhere(Parse(p, a).state, b)
  {
    hide Step;
    var whole, q := a + b, Parse(p, a).state;
    forall j | 0 <= j < |a| ensures whole[j] == a[j] && whole[..j] == a[..j] {
    }
    forall j | 0 <= j < |b| ensures whole[|a| + j] == b[j] && Parse(p, whole[..|a| + j]).state == Parse(q, b[..j]).state {
      assert whole[..|a| + j] == a + b[..j];
      RunConcat(Step, p, a, b[..j]);
    }
    hide Parse;
    if DelElsewhere(p, a + b) {
      forall j | 0 <= j < |b| && b[j] == DEL ensures Parse(q, b[..j]).state.state != DcsPassthrough {
        assert whole[|a| + j] == b[j];
      }
    }
  }

  ghost predicate NoDel(codes: seq<nat>) {
    forall j :: 0 <= j < |codes| ==> codes[j] != DEL
  }

  lemma NoDelAnywhere(p: PState, codes: seq<nat>)
    requires NoDel(codes)
    ensures DelElsewhere(p, codes)
  {
  }

  lemma HeaderWithoutDel(prefix: seq<nat>, entries: seq<Entry>, intermediates: seq<nat>, final: nat)
    requires Header(prefix, entries, intermediates, final)
    ensures NoDel(HeaderText(prefix, entries, intermediates) + [final])
  {
    HeaderTextCodes(prefix, entries, intermediates, CsiFamily);
    hide HeaderText;
  }

  lemma NoDelConcat(a: seq<nat>, b: seq<nat>)
    requires NoDel(a) && NoDel(b)
    ensures NoDel(a + b)
  {
  }

  lemma PlainWithoutDel(c: Command)
    requires Proper(c) && !c.SystemCommand? && !c.OtherString?
    ensures NoDel(Spelled(c))
  {
    hide HeaderText, EndingText, Introducer, NoDel;
    match c
    case ControlSequence(form, prefix, entries, intermediates, final) =>
      HeaderWithoutDel(prefix, entries, intermediates, final);
      BracketsWithoutDel(form, 91, CutOff(24));
      NoDelConcat(Introducer(form, 91), HeaderText(prefix, entries, intermediates) + [final]);
    case DeviceControl(form, prefix, entries, intermediates, final, data, ending) =>
      HeaderWithoutDel(prefix, entries, intermediates, final);
      BracketsWithoutDel(form, 80, ending);
      DataWithoutDel(data);
      NoDelConcat(data, EndingText(ending));
      NoDelConcat(HeaderText(prefix, entries, intermediates) + [final], data + EndingText(ending));
      NoDelConcat(Introducer(form, 80), (HeaderText(prefix, entries, intermediates) + [final]) + (data + EndingText(ending)));
    case _ => ShortWithoutDel(c);
  }

  lemma BracketsWithoutDel(form: Form, letter: nat, ending: Ending)
    requires 64 <= letter < 127 && EndingOk(ending)
    ensures NoDel(Introducer(form, letter)) && NoDel(EndingText(ending))
  {
  }

  lemma DataWithoutDel(data: seq<nat>)
    requires forall k :: 0 <= k < |data| ==> DcsCode(data[k])
    ensures NoDel(data)
  {
  }

  lemma ShortWithoutDel(c: Command)
    requires Proper(c) && (c.Text? || c.Control? || c.EscSequence?)
    ensures NoDel(Spelled(c))
  {
  }

  lemma SystemCommandDel(p: PState, c: Command)
    requires Proper(c) && c.SystemCommand?
    ensures DelElsewhere(p, Spelled(c))
  {
    hide Parse, Step, Reports;
    var o := Parse(p, Introducer(c.form, 93)).state;
    IntroducerRead(p, c.form, 93);
    DelElsewhereConcat(p, Introducer(c.form, 93), c.text + EndingText(c.ending));
    DelElsewhereConcat(o, c.text, EndingText(c.ending));
    NoDelAnywhere(p, Introducer(c.form, 93));
    NoDelAnywhere(Parse(o, c.text).state, EndingText(c.ending));
    hide OscCode, Introducer, EndingText;
    forall j | 0 <= j < |c.text| && c.text[j] == DEL ensures Parse(o, c.text[..j]).state.state != DcsPassthrough {
      OscTextRead(o, c.text[..j]);
    }
  }

  lemma OtherStringDel(p: PState, c: Command)
    requires Proper(c) && c.OtherString?
    ensures DelElsewhere(p, Spelled(c))
  {
    hide Parse, Step, Reports;
    var o := Parse(p, Introducer(c.form, c.opener)).state;
    IntroducerRead(p, c.form, c.opener);
    DelElsewhereConcat(p, Introducer(c.form, c.opener), c.text + EndingText(c.ending));
    DelElsewhereConcat(o, c.text, EndingText(c.ending));
    NoDelAnywhere(p, Introducer(c.form, c.opener));
    NoDelAnywhere(Parse(o, c.text).state, EndingText(c.ending));
    hide OtherCode, Introducer, EndingText;
    forall j | 0 <= j < |c.text| && c.text[j] == DEL ensures Parse(o, c.text[..j]).state.state != DcsPassthrough {
      OtherTextRead(o, c.text[..j]);
    }
  }

  lemma {:induction false} CommandsDel(p: PState, cs: seq<Command>)
    requires p.state == Ground && AllProper(cs)
    ensures DelElsewhere(p, SpelledAll(cs))
    decreases |cs|
  {
    if |cs| > 0 {
      hide Parse, Step, Spelled, Proper, Meaning, DelElsewhere, NoDel;
      var c := cs[0];
      if c.SystemCommand? {
        SystemCommandDel(p, c);
      } else if c.OtherString? {
        OtherStringDel(p, c);
      } else {
        PlainWithoutDel(c);
        NoDelAnywhere(p, Spelled(c));
      }
      CommandRead(p, c);
      CommandsDel(Parse(p, Spelled(c)).state, cs[1..]);
      DelElsewhereConcat(p, Spelled(c), SpelledAll(cs[1..]));
    }
  }

  lemma {:induction false} ChunksWithoutDel(p: PState, chunks: seq<seq<nat>>)
    requires DelElsewhere(p, Flatten(chunks))
    ensures S.DataWithoutDel(p, chunks)
    decreases |chunks|
  {
    if |chunks| > 0 {
      hide Parse, Step, DelElsewhere, S.DelInData;
      var rest := Flatten(chunks[1..]);
      DelElsewhereConcat(p, chunks[0], rest);
      ElsewhereIsNotInData(p, chunks[0]);
      ChunksWithoutDel(Parse(p, chunks[0]).state, chunks[1..]);
    }
  }

  lemma ElsewhereIsNotInData(p: PState, codes: seq<nat>)
    requires DelElsewhere(p, codes)
    ensures !S.DelInData(p, codes)
  {
    forall j | 0 <= j < |codes| ensures !S.DelAfterData(p, codes, j) {
      if S.DelAfterData(p, codes, j) {
        var before := codes[..j];
        RunSnoc(Step, p, before, j - 1);
        assert before[..j] == before;
        DataStays(Parse(p, before[..j - 1]).state, before[j - 1]);
        assert false;
      }
    }
  }

  lemma DataStays(p: PState, c: nat)
    requires Table(p.state, c).action == DcsPut
    ensures Step(p, c).state.state == DcsPassthrough
  {
  }

  /** Output made of commands, cut into chunks anywhere: the fast loops report exactly what the commands mean. */
  lemma ChunksRead(p: PState, cs: seq<Command>, chunks: seq<seq<nat>>)
    requires p.state == Ground && AllProper(cs) && Flatten(chunks) == SpelledAll(cs)
    ensures S.ParseChunks(p, chunks).state.state == Ground && Reports(S.ParseChunks(p, chunks).out) == MeaningAll(cs)
  {
    hide Parse, Step, Reports, SpelledAll;
    CommandsDel(p, cs);
    ChunksWithoutDel(p, chunks);
    S.ChunksExactly(p, chunks);
    CommandsRead(p, cs);
  }
}
