/**
  Printing a list of parameters and feeding the characters to the parameter store gives the
  list back.  The statement covers every list: what exceeds the 32 + 32 places is dropped,
  numbers are capped, an empty parameter reads 0 and an empty sub-parameter -1
  (the notation is that of section 5.4.2 of ECMA-48).
  */
module ParamLists {
  import opened Common
  import opened Params

  type Digit = d: int | 0 <= d < 10
  type Digits = seq<Digit>

  const COLON := ':' as int
  const SEMICOLON := ';' as int

  datatype Entry = Entry(digits: Digits, subs: seq<Digits>)

  // ---------------------------------------------------------------- feeding codes

  /** What the parser does with one code between `0` and `;`. */
  function FeedCode(s: ParamsState, code: int): ParamsState {
    if code == SEMICOLON then ParamAdded(s, 0)
    else if code == COLON then SubParamAdded(s, -1)
    else DigitAdded(s, code - 48)
  }

  function Feed(s: ParamsState, codes: seq<int>): ParamsState {
    if |codes| == 0 then s else FeedCode(Feed(s, codes[..|codes| - 1]), codes[|codes| - 1])
  }

  lemma {:induction false} FeedConcat(s: ParamsState, a: seq<int>, b: seq<int>)
    ensures Feed(s, a + b) == Feed(Feed(s, a), b)
    decreases |b|
  {
    hide FeedCode;
    if |b| == 0 {
      assert a + b == a;
    } else {
      FeedConcat(s, a, b[..|b| - 1]);
      assert (a + b)[..|a + b| - 1] == a + b[..|b| - 1];
    }
  }

  lemma FeedOne(s: ParamsState, code: int)
    ensures Feed(s, [code]) == FeedCode(s, code)
  {
    assert [code][..0] == [];
  }

  // ---------------------------------------------------------------- printing

  function Codes(d: Digits): seq<int> {
    seq(|d|, i requires 0 <= i < |d| => 48 + d[i] as int)
  }

  function SubText(subs: seq<Digits>): seq<int> {
    if |subs| == 0 then [] else [COLON] + (Codes(subs[0]) + SubText(subs[1..]))
  }

  function EntryText(e: Entry): seq<int> {
    Codes(e.digits) + SubText(e.subs)
  }

  function Print(es: seq<Entry>): seq<int>
    requires |es| > 0
  {
    EntryText(es[0]) + if |es| == 1 then [] else [SEMICOLON] + Print(es[1..])
  }

  // ---------------------------------------------------------------- what should be read

  function Number(d: Digits): nat {
    if |d| == 0 then 0 else 10 * Number(d[..|d| - 1]) + d[|d| - 1]
  }

  function ParamValue(d: Digits): int {
    Cap(Number(d))
  }

  function SubValue(d: Digits): int {
    if |d| == 0 then -1 else Cap(Number(d))
  }

  function SubValues(subs: seq<Digits>): (r: seq<int>)
    ensures |r| == |subs|
  {
    seq(|subs|, i requires 0 <= i < |subs| => SubValue(subs[i]))
  }

  /** The sub-parameters of `e` that find a place when `room` are left. */
  function Kept(e: Entry, room: nat): seq<int> {
    SubValues(e.subs[..Min(|e.subs|, room)])
  }

  function NestedItems(value: int, subs: seq<int>): seq<Item> {
    [Num(value)] + if |subs| > 0 then [Subs(subs)] else []
  }

  /** The items read from `es` when `n` parameters are taken already and `room` sub-parameters still fit. */
  function Expected(es: seq<Entry>, n: nat, room: nat): seq<Item> {
    if |es| == 0 || n >= MAX_PARAMS then []
    else
      var kept := Kept(es[0], room);
      NestedItems(ParamValue(es[0].digits), kept) + Expected(es[1..], n + 1, room - |kept|)
  }

  // ---------------------------------------------------------------- digits

  lemma {:induction false} ParamDigits(s: ParamsState, d: Digits)
    requires !s.rejectDigits && !s.digitIsSub && |s.params| > 0 && s.params[|s.params| - 1] == 0
    ensures Feed(s, Codes(d)) == s.(params := s.params[|s.params| - 1 := ParamValue(d)])
    decreases |d|
  {
    if |d| == 0 {
      assert s.params == s.params[|s.params| - 1 := 0];
    } else {
      ParamDigits(s, d[..|d| - 1]);
      assert Codes(d)[..|d| - 1] == Codes(d[..|d| - 1]);
    }
  }

  lemma {:induction false} SubDigits(s: ParamsState, d: Digits)
    requires !s.rejectDigits && s.digitIsSub && !s.rejectSubDigits && |s.subs| > 0 && s.subs[|s.subs| - 1] == -1
    ensures Feed(s, Codes(d)) == s.(subs := s.subs[|s.subs| - 1 := SubValue(d)])
    decreases |d|
  {
    if |d| == 0 {
      assert s.subs == s.subs[|s.subs| - 1 := -1];
    } else {
      SubDigits(s, d[..|d| - 1]);
      assert Codes(d)[..|d| - 1] == Codes(d[..|d| - 1]);
    }
  }

  lemma {:induction false} RejectedDigits(s: ParamsState, d: Digits)
    requires s.rejectDigits || (s.digitIsSub && s.rejectSubDigits)
    ensures Feed(s, Codes(d)) == s
    decreases |d|
  {
    if |d| > 0 {
      RejectedDigits(s, d[..|d| - 1]);
      assert Codes(d)[..|d| - 1] == Codes(d[..|d| - 1]);
    }
  }

  /** Once a parameter too many was started nothing more is stored. */
  lemma {:induction false} Frozen(s: ParamsState, codes: seq<int>)
    requires s.rejectDigits && |s.params| >= MAX_PARAMS
    ensures var r := Feed(s, codes);
            r.params == s.params && r.subs == s.subs && r.ranges == s.ranges && r.rejectDigits
    decreases |codes|
  {
    if |codes| > 0 {
      Frozen(s, codes[..|codes| - 1]);
    }
  }

  // ---------------------------------------------------------------- sub-parameters of one parameter

  /** The last parameter is complete up to `s.subs`; more sub-parameters may follow. */
  ghost predicate Growing(s: ParamsState) {
    && WellFormed(s) && |s.params| > 0 && !s.rejectDigits
    && s.ranges[|s.ranges| - 1] % 256 == |s.subs|
    && (s.rejectSubDigits ==> |s.subs| == MAX_SUB_PARAMS)
  }

  /** `r` is `s` with `values` appended to the sub-parameters of its last parameter. */
  ghost predicate Appended(s: ParamsState, r: ParamsState, values: seq<int>) {
    && |s.params| == |s.ranges| > 0
    && r.params == s.params && r.subs == s.subs + values
    && r.ranges == s.ranges[|s.ranges| - 1 := s.ranges[|s.ranges| - 1] + |values|]
  }

  lemma AppendedTwice(s: ParamsState, t: ParamsState, r: ParamsState, v: seq<int>, w: seq<int>)
    requires Appended(s, t, v) && Appended(t, r, w)
    ensures Appended(s, r, v + w)
  {
  }

  lemma AppendedNothing(s: ParamsState, r: ParamsState)
    requires |s.params| == |s.ranges| > 0 && r.params == s.params && r.subs == s.subs && r.ranges == s.ranges
    ensures Appended(s, r, [])
  {
  }

  lemma SubStarted(s: ParamsState)
    requires Growing(s)
    ensures var t := SubParamAdded(s, -1);
            && Growing(t) && t.digitIsSub
            && (|s.subs| < MAX_SUB_PARAMS ==> Appended(s, t, [-1]) && !t.rejectSubDigits)
            && (|s.subs| == MAX_SUB_PARAMS ==> Appended(s, t, []) && t.rejectSubDigits)
  {
    if |s.subs| < MAX_SUB_PARAMS {
      RangeGrows(s.ranges[|s.ranges| - 1], |s.subs|);
    } else {
      AppendedNothing(s, SubParamAdded(s, -1));
    }
  }

  lemma OneSub(s: ParamsState, d: Digits)
    requires Growing(s)
    ensures var r := Feed(s, [COLON] + Codes(d));
            && Growing(r)
            && Appended(s, r, if |s.subs| < MAX_SUB_PARAMS then [SubValue(d)] else [])
  {
    hide Feed, SubParamAdded, Codes;
    var t := SubParamAdded(s, -1);
    FeedConcat(s, [COLON], Codes(d));
    FeedOne(s, COLON);
    SubStarted(s);
    if |s.subs| < MAX_SUB_PARAMS {
      SubDigits(t, d);
      assert t.subs[|t.subs| - 1 := SubValue(d)] == s.subs + [SubValue(d)];
    } else {
      RejectedDigits(t, d);
    }
  }

  lemma {:induction false} AllSubs(s: ParamsState, subs: seq<Digits>)
    requires Growing(s)
    ensures |s.subs| <= MAX_SUB_PARAMS && Growing(Feed(s, SubText(subs)))
    ensures Appended(s, Feed(s, SubText(subs)), SubValues(subs[..Min(|subs|, MAX_SUB_PARAMS - |s.subs|)]))
    decreases |subs|
  {
    GrowingBounds(s);
    var kept := Min(|subs|, MAX_SUB_PARAMS - |s.subs|);
    if |subs| == 0 {
      assert SubValues(subs[..kept]) == [];
      AppendedNothing(s, s);
    } else {
      hide Growing, SubValue, Feed, Codes;
      OneSub(s, subs[0]);
      var t := Feed(s, [COLON] + Codes(subs[0]));
      assert [COLON] + (Codes(subs[0]) + SubText(subs[1..])) == ([COLON] + Codes(subs[0])) + SubText(subs[1..]);
      FeedConcat(s, [COLON] + Codes(subs[0]), SubText(subs[1..]));
      GrowingBounds(t);
      var first := if |s.subs| < MAX_SUB_PARAMS then [SubValue(subs[0])] else [];
      AllSubs(t, subs[1..]);
      var rest := SubValues(subs[1..][..Min(|subs| - 1, MAX_SUB_PARAMS - |t.subs|)]);
      AppendedTwice(s, t, Feed(t, SubText(subs[1..])), first, rest);
      assert first + rest == SubValues(subs[..kept]);
    }
  }

  lemma GrowingBounds(s: ParamsState)
    requires Growing(s)
    ensures |s.params| == |s.ranges| <= MAX_PARAMS && |s.params| > 0 && |s.subs| <= MAX_SUB_PARAMS
  {
  }

  // ---------------------------------------------------------------- whole lists

  lemma {:induction false} ItemsStable(a: ParamsState, b: ParamsState, n: nat)
    requires WellFormed(a) && WellFormed(b) && n <= |a.params| && n <= |b.params|
    requires a.params[..n] == b.params[..n] && a.ranges[..n] == b.ranges[..n] && a.subs <= b.subs
    ensures ItemsUpTo(a, n) == ItemsUpTo(b, n)
    decreases n
  {
    if n > 0 {
      var k := n - 1;
      assert a.params[k] == a.params[..n][k] == b.params[k] && a.ranges[k] == a.ranges[..n][k] == b.ranges[k];
      assert a.params[..k] == a.params[..n][..k] == b.params[..k] && a.ranges[..k] == a.ranges[..n][..k] == b.ranges[..k];
      ItemsStable(a, b, k);
      assert a.subs[a.ranges[k] / 256..a.ranges[k] % 256] == b.subs[a.ranges[k] / 256..a.ranges[k] % 256];
    }
  }

  /** A parameter has just been started and nothing fed into it. */
  ghost predicate Open(s: ParamsState) {
    && Growing(s) && !s.digitIsSub
    && s.params[|s.params| - 1] == 0
    && s.ranges[|s.ranges| - 1] == 257 * |s.subs|
  }

  lemma EntryItems(s: ParamsState, r: ParamsState, value: int, values: seq<int>)
    requires Open(s) && WellFormed(r)
    requires Appended(s.(params := s.params[|s.params| - 1 := value]), r, values)
    ensures Nested(r) == ItemsUpTo(s, |s.params| - 1) + NestedItems(value, values)
  {
    var n := |s.params| - 1;
    ItemsStable(s, r, n);
    assert r.ranges[n] / 256 == |s.subs| && r.ranges[n] % 256 == |s.subs| + |values|;
    assert r.subs[|s.subs|..|s.subs| + |values|] == values;
  }

  lemma OneEntry(s: ParamsState, e: Entry)
    requires Open(s)
    ensures |s.subs| <= MAX_SUB_PARAMS && |s.params| > 0 && WellFormed(s)
    ensures var r := Feed(s, EntryText(e));
            var kept := Kept(e, MAX_SUB_PARAMS - |s.subs|);
            && Growing(r) && |r.params| == |s.params| && |r.subs| == |s.subs| + |kept|
            && Nested(r) == ItemsUpTo(s, |s.params| - 1) + NestedItems(ParamValue(e.digits), kept)
  {
    hide Feed, SubText, Codes, ItemsUpTo;
    var t := s.(params := s.params[|s.params| - 1 := ParamValue(e.digits)]);
    ParamDigits(s, e.digits);
    FeedConcat(s, Codes(e.digits), SubText(e.subs));
    AllSubs(t, e.subs);
    EntryItems(s, Feed(t, SubText(e.subs)), ParamValue(e.digits), Kept(e, MAX_SUB_PARAMS - |s.subs|));
  }

  /** Starting the next parameter. */
  lemma Opened(r: ParamsState)
    requires Growing(r)
    ensures WellFormed(r) && |r.params| > 0
    ensures var t := ParamAdded(r, 0);
            && WellFormed(t) && t.subs == r.subs
            && (|r.params| == MAX_PARAMS ==> t.rejectDigits && t.params == r.params && t.ranges == r.ranges)
            && (|r.params| < MAX_PARAMS ==>
                Open(t) && |t.params| == |r.params| + 1 && ItemsUpTo(t, |r.params|) == Nested(r))
  {
    if |r.params| < MAX_PARAMS {
      AddedWellFormed(r);
      ItemsStable(ParamAdded(r, 0), r, |r.params|);
    }
  }

  lemma Packed(n: nat)
    requires n < 256
    ensures 256 * n + n == 257 * n && (256 * n + n) / 256 == n && (256 * n + n) % 256 == n
  {
  }

  lemma AddedWellFormed(r: ParamsState)
    requires Growing(r) && |r.params| < MAX_PARAMS
    ensures var t := ParamAdded(r, 0); WellFormed(t) && Open(t) && t.params[..|r.params|] == r.params && t.ranges[..|r.params|] == r.ranges
  {
    Packed(|r.subs|);
    var t := ParamAdded(r, 0);
    forall k | 0 <= k < |t.ranges| ensures t.ranges[k] / 256 <= t.ranges[k] % 256 <= |t.subs| {
      if k < |r.ranges| {
        assert t.ranges[k] == r.ranges[k];
      }
    }
  }

  lemma FrozenItems(t: ParamsState, codes: seq<int>)
    requires WellFormed(t) && t.rejectDigits && |t.params| >= MAX_PARAMS
    ensures WellFormed(Feed(t, codes)) && Nested(Feed(t, codes)) == Nested(t)
  {
    Frozen(t, codes);
    ItemsStable(t, Feed(t, codes), |t.params|);
  }

  lemma {:induction false} FeedEntries(s: ParamsState, es: seq<Entry>)
    requires Open(s) && |es| > 0
    ensures |s.subs| <= MAX_SUB_PARAMS && |s.params| > 0 && WellFormed(s)
    ensures WellFormed(Feed(s, Print(es)))
    ensures Nested(Feed(s, Print(es))) == ItemsUpTo(s, |s.params| - 1) + Expected(es, |s.params| - 1, MAX_SUB_PARAMS - |s.subs|)
    decreases |es|
  {
    hide Feed, ParamAdded, EntryText, Growing, Open, ParamValue, NestedItems, Kept, ItemsUpTo;
    OneEntry(s, es[0]);
    var n := |s.params| - 1;
    var r := Feed(s, EntryText(es[0]));
    Opened(r);
    var items := NestedItems(ParamValue(es[0].digits), Kept(es[0], MAX_SUB_PARAMS - |s.subs|));
    var rest := Expected(es[1..], n + 1, MAX_SUB_PARAMS - |r.subs|);
    assert Expected(es, n, MAX_SUB_PARAMS - |s.subs|) == items + rest;
    assert ItemsUpTo(s, n) + (items + rest) == Nested(r) + rest;
    if |es| == 1 {
      assert EntryText(es[0]) + [] == EntryText(es[0]);
      assert Nested(r) + rest == Nested(r);
    } else {
      FeedConcat(s, EntryText(es[0]), [SEMICOLON] + Print(es[1..]));
      FeedConcat(r, [SEMICOLON], Print(es[1..]));
      FeedOne(r, SEMICOLON);
      var t := ParamAdded(r, 0);
      if n + 1 == MAX_PARAMS {
        FrozenItems(t, Print(es[1..]));
        ItemsStable(r, t, n + 1);
        assert Nested(r) + rest == Nested(r);
      } else {
        FeedEntries(t, es[1..]);
      }
    }
  }

  lemma StartIsOpen(s: ParamsState)
    requires s == ParamAdded(EMPTY, 0)
    ensures Open(s) && |s.params| == 1 && |s.subs| == 0
  {
    assert s.ranges == [0] && s.params == [0];
  }

  /** The round trip, for every list of entries, from the state `reset` and `addParam(0)` leave. */
  lemma PrintThenRead(s: ParamsState, es: seq<Entry>)
    requires s == ParamAdded(EMPTY, 0) && |es| > 0
    ensures WellFormed(Feed(s, Print(es))) && Nested(Feed(s, Print(es))) == Expected(es, 0, MAX_SUB_PARAMS)
  {
    hide Feed, Print, Expected, Open;
    StartIsOpen(s);
    FeedEntries(s, es);
    assert [] + Expected(es, 0, MAX_SUB_PARAMS) == Expected(es, 0, MAX_SUB_PARAMS);
  }

  function TotalSubs(es: seq<Entry>): nat {
    if |es| == 0 then 0 else |es[0].subs| + TotalSubs(es[1..])
  }

  /** The list itself, nothing dropped. */
  function Complete(es: seq<Entry>): seq<Item> {
    if |es| == 0 then []
    else NestedItems(ParamValue(es[0].digits), SubValues(es[0].subs)) + Complete(es[1..])
  }

  /** Within 32 parameters and 32 sub-parameters nothing is dropped. */
  lemma {:induction false} NothingDropped(es: seq<Entry>, n: nat, room: nat)
    requires n + |es| <= MAX_PARAMS && TotalSubs(es) <= room
    ensures Expected(es, n, room) == Complete(es)
    decreases |es|
  {
    if |es| > 0 {
      assert es[0].subs[..|es[0].subs|] == es[0].subs;
      NothingDropped(es[1..], n + 1, room - |es[0].subs|);
    }
  }

  /** Lists that fit come back complete. */
  lemma RoundTrip(s: ParamsState, es: seq<Entry>)
    requires s == ParamAdded(EMPTY, 0) && 0 < |es| <= MAX_PARAMS && TotalSubs(es) <= MAX_SUB_PARAMS
    ensures WellFormed(Feed(s, Print(es))) && Nested(Feed(s, Print(es))) == Complete(es)
  {
    hide Feed, Print, Expected, Complete, TotalSubs;
    PrintThenRead(s, es);
    NothingDropped(es, 0, MAX_SUB_PARAMS);
  }

  function ParamCount(items: seq<Item>): nat {
    if |items| == 0 then 0 else (if items[0].Num? then 1 else 0) + ParamCount(items[1..])
  }

  function SubCount(items: seq<Item>): nat {
    if |items| == 0 then 0 else (if items[0].Subs? then |items[0].values| else 0) + SubCount(items[1..])
  }

  lemma CountsBehind(value: int, subs: seq<int>, rest: seq<Item>)
    ensures var items := NestedItems(value, subs) + rest;
            ParamCount(items) == 1 + ParamCount(rest) && SubCount(items) == |subs| + SubCount(rest)
  {
    var items := NestedItems(value, subs) + rest;
    if |subs| > 0 {
      assert items[1..] == [Subs(subs)] + rest && items[1..][1..] == rest;
    } else {
      assert items[1..] == rest;
    }
  }

  lemma {:induction false} CountsExpected(es: seq<Entry>, n: nat, room: nat)
    requires n <= 32
    ensures var k := Min(|es|, 32 - n);
            ParamCount(Expected(es, n, room)) == k && SubCount(Expected(es, n, room)) == Min(TotalSubs(es[..k]), room)
    decreases |es|
  {
    if |es| > 0 && n < 32 {
      var kept := Kept(es[0], room);
      CountsBehind(ParamValue(es[0].digits), kept, Expected(es[1..], n + 1, room - |kept|));
      CountsExpected(es[1..], n + 1, room - |kept|);
      var k := Min(|es|, 32 - n);
      assert es[..k][1..] == es[1..][..k - 1];
      hide ParamCount, SubCount, NestedItems;
    }
  }

  /** Of any list the first 32 parameters are kept, and of their sub-parameters the first 32. */
  lemma LimitsExactly(es: seq<Entry>)
    ensures ParamCount(Expected(es, 0, MAX_SUB_PARAMS)) == Min(|es|, 32)
    ensures SubCount(Expected(es, 0, MAX_SUB_PARAMS)) == Min(TotalSubs(es[..Min(|es|, 32)]), 32)
  {
    hide Expected, ParamCount, SubCount, TotalSubs;
    CountsExpected(es, 0, MAX_SUB_PARAMS);
  }
}
