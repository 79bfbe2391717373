/**
  What the decoder computes over whole streams cut into arbitrary slices.

  The resume path takes a held-back byte with low six bits zero (0x80) for the end of the
  held-back sequence, so a slice that ends right after such a byte loses the character.
  `DecodesExactly` says that this is the only way to lose anything.
  */
module Utf8Streams {
  import opened Machine
  import opened Utf8Decoder

  /** The effect of a run of `Decode` calls on `interim` and on the concatenated output. */
  ghost function Feed(i: seq<Byte>, slices: seq<seq<Byte>>): Outcome<seq<Byte>, Code>
    requires |i| == 3
    decreases |slices|
  {
    if |slices| == 0 then Outcome(i, [])
    else
      var rest := Feed(NextInterim(i, slices[0]), slices[1..]);
      Outcome(rest.state, Read(Seen(i), slices[0]).out + rest.out)
  }

  // ---------------------------------------------------------------- safety, for any bytes

  ghost predicate AllScalar(out: seq<Code>) {
    forall k :: 0 <= k < |out| ==> IsScalar(out[k]) && out[k] != BYTE_ORDER_MARK
  }

  lemma StepEmitsScalars(p: Pending, b: Byte)
    requires Unfinished(p)
    ensures AllScalar(Step(p, b).out)
  {
    var q := p + [b];
    if |p| > 0 && IsContinuation(b) && |p| + 1 >= Need(p[0]) {
      assert |q| == 2 ==> Value(q) < 0x800;
    }
  }

  /** Whatever the bytes, only Unicode scalar values other than U+FEFF come out, at most one per byte. */
  lemma {:induction false} ReadEmitsScalars(p: Pending, bytes: seq<Byte>)
    requires Unfinished(p)
    ensures AllScalar(Read(p, bytes).out) && |Read(p, bytes).out| <= |bytes|
    decreases |bytes|
  {
    if |bytes| > 0 {
      var n := |bytes| - 1;
      ReadEmitsScalars(p, bytes[..n]);
      ReadKeepsUnfinished(p, bytes[..n]);
      StepKeepsUnfinished(Read(p, bytes[..n]).state, bytes[n]);
      StepEmitsScalars(Read(p, bytes[..n]).state, bytes[n]);
    }
  }

  /** The same over every run of slices: each call stays inside a buffer as long as its slice. */
  lemma {:induction false} FeedEmitsScalars(i: seq<Byte>, slices: seq<seq<Byte>>)
    requires InterimOk(i)
    ensures AllScalar(Feed(i, slices).out) && |Feed(i, slices).out| <= |Flatten(slices)|
    ensures InterimOk(Feed(i, slices).state)
    decreases |slices|
  {
    if |slices| > 0 {
      SeenUnfinished(i);
      ReadEmitsScalars(Seen(i), slices[0]);
      NextInterimOk(i, slices[0]);
      FeedEmitsScalars(NextInterim(i, slices[0]), slices[1..]);
    }
  }

  // ---------------------------------------------------------------- independence of the slices

  /** The bytes held back at a slice end contain 0x80. */
  predicate HoldsZero(p: Pending) {
    exists k :: 1 <= k < |p| && p[k] % 64 == 0
  }

  /** No slice of the run ends with such bytes held back. */
  predicate CleanSplit(p: Pending, slices: seq<seq<Byte>>)
    decreases |slices|
  {
    |slices| == 0 ||
    var q := Read(p, slices[0]).state;
    !HoldsZero(q) && CleanSplit(q, slices[1..])
  }

  lemma SeenPad(p: Pending)
    requires Unfinished(p) && |p| <= 3
    ensures InterimOk(Pad(p))
    ensures |Seen(Pad(p))| <= |p| && (|p| > 0 ==> |Seen(Pad(p))| > 0)
    ensures Seen(Pad(p)) == p[..|Seen(Pad(p))|]
    ensures Seen(Pad(p)) == p <==> !HoldsZero(p)
  {
    var i := Pad(p);
    if |p| == 0 {
      assert i == [0, 0, 0];
    } else {
      assert i[0] == p[0];
      assert |p| > 1 ==> i[1] == p[1];
      assert |p| > 2 ==> i[2] == p[2];
    }
  }

  lemma NextInterimPad(p: Pending, slice: seq<Byte>)
    requires Unfinished(p) && !HoldsZero(p)
    ensures |p| <= 3 && |Read(p, slice).state| <= 3 && Unfinished(Read(p, slice).state)
    ensures NextInterim(Pad(p), slice) == Pad(Read(p, slice).state)
  {
    SeenPad(p);
    ReadKeepsUnfinished(p, slice);
    var q := Read(p, slice).state;
    if StillResuming(p, slice) {
      ReadStillResuming(p, slice);
      assert q + Pad(p)[|q|..] == Pad(q);
    }
  }

  /** For any bytes at all: slices that hold back no 0x80 decode as the uncut stream does. */
  lemma {:induction false} SlicesDoNotMatter(p: Pending, slices: seq<seq<Byte>>)
    requires Unfinished(p) && |p| <= 3 && !HoldsZero(p) && CleanSplit(p, slices)
    ensures Feed(Pad(p), slices).out == Read(p, Flatten(slices)).out
    ensures |Read(p, Flatten(slices)).state| <= 3 && Feed(Pad(p), slices).state == Pad(Read(p, Flatten(slices)).state)
    decreases |slices|
  {
    if |slices| > 0 {
      SeenPad(p);
      NextInterimPad(p, slices[0]);
      SlicesDoNotMatter(Read(p, slices[0]).state, slices[1..]);
      RunConcat(Step, p, slices[0], Flatten(slices[1..]));
    }
  }

  // ---------------------------------------------------------------- encoded text

  /** The encoding of one scalar value, as in section 3 of RFC 3629. */
  function Encode(v: Code): seq<Byte>
    requires IsScalar(v)
  {
    if v < 0x80 then [v]
    else if v < 0x800 then [0xC0 + v / 64, 0x80 + v % 64]
    else if v < 0x10000 then [0xE0 + v / 4096, 0x80 + v / 64 % 64, 0x80 + v % 64]
    else [0xF0 + v / 262144, 0x80 + v / 4096 % 64, 0x80 + v / 64 % 64, 0x80 + v % 64]
  }

  ghost predicate Text(vs: seq<Code>) {
    forall k :: 0 <= k < |vs| ==> IsScalar(vs[k])
  }

  ghost function EncodeAll(vs: seq<Code>): seq<Byte>
    requires Text(vs)
  {
    if |vs| == 0 then [] else Encode(vs[0]) + EncodeAll(vs[1..])
  }

  function Unmarked(v: Code): seq<Code> {
    if v == BYTE_ORDER_MARK then [] else [v]
  }

  ghost function WithoutMarks(vs: seq<Code>): seq<Code> {
    if |vs| == 0 then []
    else Unmarked(vs[0]) + WithoutMarks(vs[1..])
  }

  /** A well-formed sequence read from its first byte to its last. */
  lemma ReadWhole(e: seq<Byte>)
    requires |e| >= 2 && Need(e[0]) == |e| && AllContinuation(e[1..])
    ensures Read([], e) == Outcome([], Finish(e))
  {
    hide Finish;
    ReadLead(e);
    assert e[1..][..|e| - 1] == e[1..] && [e[0]] + e[1..] == e && e[..1] == [e[0]];
    ResumeFinished([e[0]], e[1..], |e| - 1);
    RunConcat(Step, [], e[..1], e[1..]);
  }

  lemma ReadEncoded(v: Code)
    requires IsScalar(v)
    ensures Read([], Encode(v)) == Outcome([], Unmarked(v))
  {
    hide Run, Step, Finish;
    var e := Encode(v);
    if |e| == 1 {
      ReadSingle(e);
    } else {
      EncodedValue(v);
      ReadWhole(e);
    }
  }

  lemma ReadSingle(e: seq<Byte>)
    requires |e| == 1 && e[0] < 0x80
    ensures Read([], e) == Outcome([], [e[0]])
  {
    RunSnoc(Step, [], e, 0);
    assert e[..1] == e;
  }

  lemma Digits(v: nat)
    ensures v == v / 4096 * 4096 + v / 64 % 64 * 64 + v % 64
    ensures v == v / 262144 * 262144 + v / 4096 % 64 * 4096 + v / 64 % 64 * 64 + v % 64
  {
    var a := v / 64;
    var b := a / 64;
    assert v == 64 * a + v % 64 && a == 64 * b + a % 64 && b == 64 * (b / 64) + b % 64;
    assert v / 4096 == b && v / 262144 == b / 64;
  }

  lemma EncodedValue(v: Code)
    requires IsScalar(v) && v >= 0x80
    ensures Need(Encode(v)[0]) == |Encode(v)| && Finish(Encode(v)) == Unmarked(v)
  {
    hide Value, LeadBits;
    var e := Encode(v);
    if |e| == 2 {
      SpellsTwo(v / 64, v % 64);
      assert e == [0xC0 + v / 64, 0x80 + v % 64];
    } else if |e| == 3 {
      SpellsThree(v / 4096, v / 64 % 64, v % 64);
      Digits(v);
      assert e == [0xE0 + v / 4096, 0x80 + v / 64 % 64, 0x80 + v % 64];
    } else {
      SpellsFour(v / 262144, v / 4096 % 64, v / 64 % 64, v % 64);
      Digits(v);
      assert e == [0xF0 + v / 262144, 0x80 + v / 4096 % 64, 0x80 + v / 64 % 64, 0x80 + v % 64];
    }
  }

  lemma SpellsTwo(a: nat, b: nat)
    requires a < 32 && b < 64
    ensures Value([0xC0 + a, 0x80 + b]) == a * 64 + b
  {
  }

  lemma SpellsThree(a: nat, b: nat, c: nat)
    requires a < 16 && b < 64 && c < 64
    ensures Value([0xE0 + a, 0x80 + b, 0x80 + c]) == a * 4096 + b * 64 + c
  {
  }

  lemma SpellsFour(a: nat, b: nat, c: nat, d: nat)
    requires a < 8 && b < 64 && c < 64 && d < 64
    ensures Value([0xF0 + a, 0x80 + b, 0x80 + c, 0x80 + d]) == a * 262144 + b * 4096 + c * 64 + d
  {
  }

  /** Decoding undoes encoding, except that byte order marks go. */
  lemma {:induction false} DecodeOfEncode(vs: seq<Code>)
    requires Text(vs)
    ensures Read([], EncodeAll(vs)) == Outcome([], WithoutMarks(vs))
  {
    hide Step, Encode;
    if |vs| > 0 {
      ReadEncoded(vs[0]);
      DecodeOfEncode(vs[1..]);
      RunConcat(Step, [], Encode(vs[0]), EncodeAll(vs[1..]));
    }
  }

  // ---------------------------------------------------------------- exactly when nothing is lost

  /** `b` may follow in a stream of encoded text. */
  predicate LegalByte(p: Pending, b: Byte) {
    if |p| == 0 then b < 0x80 || Need(b) > 0
    else
      && IsContinuation(b)
      && (|p| + 1 >= Need(p[0]) ==> |Finish(p + [b])| > 0 || p + [b] == [0xEF, 0xBB, 0xBF])
  }

  predicate Legal(p: Pending, bytes: seq<Byte>)
    decreases |bytes|
  {
    |bytes| == 0 || (LegalByte(p, bytes[0]) && Legal(Step(p, bytes[0]).state, bytes[1..]))
  }

  lemma {:induction false} LegalConcat(p: Pending, a: seq<Byte>, b: seq<Byte>)
    ensures Legal(p, a + b) <==> Legal(p, a) && Legal(Read(p, a).state, b)
    decreases |a|
  {
    if |a| == 0 {
      assert a + b == b;
    } else {
      RunCons(Step, p, a);
      LegalConcat(Step(p, a[0]).state, a[1..], b);
      assert (a + b)[0] == a[0] && (a + b)[1..] == a[1..] + b;
    }
  }

  /** How many bytes the pending sequence still lacks. */
  function Missing(p: Pending): int {
    if |p| == 0 then 0 else Need(p[0]) - |p|
  }

  /** The characters that are certain to come out once `p` is complete. */
  function Owed(p: Pending): nat {
    if HoldsZero(p) then 1 else 0
  }

  /** The resumed machine waits for more bytes than the stream has left for this character. */
  ghost predicate Behind(p: Pending, q: Pending) {
    |p| > 0 && Unfinished(p) && Unfinished(q) && Missing(p) > Missing(q)
  }

  lemma BehindStep(p: Pending, q: Pending, b: Byte)
    requires Behind(p, q) && LegalByte(q, b)
    ensures var s := Step(p, b); var t := Step(q, b);
            || (s.state == t.state && |s.out| + Owed(q) <= |t.out|)
            || (Behind(s.state, t.state) && |s.out| + Owed(q) <= |t.out| + Owed(t.state))
  {
    hide Value, Accepts;
    StepKeepsUnfinished(p, b);
    StepKeepsUnfinished(q, b);
    if |q| > 0 && |q| + 1 < Need(q[0]) {
      HoldsZeroGrows(q, b);
    } else if |q| > 0 && HoldsZero(q) {
      var k :| 1 <= k < |q| && q[k] % 64 == 0;
      assert (q + [b])[k] % 64 == 0;
      assert q + [b] != [0xEF, 0xBB, 0xBF];
    }
  }

  lemma HoldsZeroGrows(q: Pending, b: Byte)
    ensures HoldsZero(q) ==> HoldsZero(q + [b])
  {
    if HoldsZero(q) {
      var k :| 1 <= k < |q| && q[k] % 64 == 0;
      assert (q + [b])[k] % 64 == 0;
    }
  }

  /** Over a slice, a machine that is behind emits nothing for the character it is behind on. */
  lemma {:induction false} BehindRead(p: Pending, q: Pending, bytes: seq<Byte>)
    requires Behind(p, q) && Legal(q, bytes)
    ensures var s := Read(p, bytes); var t := Read(q, bytes);
            || (s.state == t.state && |s.out| + Owed(q) <= |t.out|)
            || (Behind(s.state, t.state) && |s.out| + Owed(q) <= |t.out| + Owed(t.state))
    decreases |bytes|
  {
    if |bytes| > 0 {
      hide Step, Behind, Owed, LegalByte;
      BehindStep(p, q, bytes[0]);
      RunCons(Step, p, bytes);
      RunCons(Step, q, bytes);
      var s, t := Step(p, bytes[0]), Step(q, bytes[0]);
      if Behind(s.state, t.state) {
        BehindRead(s.state, t.state, bytes[1..]);
      }
    }
  }

  function Filled(i: seq<Byte>): nat
    requires |i| == 3
  {
    if i[0] == 0 then 0 else if i[1] == 0 then 1 else if i[2] == 0 then 2 else 3
  }

  /** `interim` makes the next call behind, and can never catch up from stale bytes. */
  ghost predicate InterimBehind(i: seq<Byte>, q: Pending) {
    && InterimOk(i) && i[0] != 0
    && Behind(Seen(i), q)
    && Need(i[0]) - Filled(i) >= Missing(q)
  }

  lemma HoldingZeroFallsBehind(q: Pending)
    requires Unfinished(q) && HoldsZero(q)
    ensures |q| <= 3 && InterimBehind(Pad(q), q)
  {
    SeenPad(q);
    SeenUnfinished(Pad(q));
  }

  lemma {:induction false} LegalContinuations(q: Pending, slice: seq<Byte>)
    requires Unfinished(q) && Legal(q, slice) && AllContinuation(slice) && |slice| > 0
    ensures |q| > 0 && Missing(Read(q, slice).state) == Missing(q) - |slice| >= 0
    decreases |slice|
  {
    hide Finish;
    RunCons(Step, q, slice);
    StepKeepsUnfinished(q, slice[0]);
    if |slice| > 1 {
      LegalContinuations(Step(q, slice[0]).state, slice[1..]);
    }
  }

  /** Bytes left over from before cannot make up for the missing ones. */
  lemma StaleBytes(i: seq<Byte>, q: Pending)
    requires InterimOk(i) && |q| > 0 && Unfinished(q) && |q| <= 3 && i[0] == q[0]
    ensures var j := q + i[|q|..]; |Seen(j)| <= Filled(j) && (Filled(j) == |q| || Filled(j) == Filled(i))
  {
    var j := q + i[|q|..];
    assert forall k :: 0 <= k < 3 ==> j[k] == if k < |q| then q[k] else i[k];
  }

  /** After a legal slice `interim` is back in step with the stream, or still behind. */
  ghost predicate CaughtUp(i: seq<Byte>, q: Pending, slice: seq<Byte>)
    requires |i| == 3
  {
    var t := Read(q, slice);
    && Unfinished(t.state) && |t.state| <= 3
    && (|| (NextInterim(i, slice) == Pad(t.state) && |Read(Seen(i), slice).out| + Owed(q) <= |t.out|)
        || (InterimBehind(NextInterim(i, slice), t.state) && |Read(Seen(i), slice).out| + Owed(q) <= |t.out| + Owed(t.state)))
  }

  lemma BehindStill(i: seq<Byte>, q: Pending, slice: seq<Byte>)
    requires InterimBehind(i, q) && Legal(q, slice) && |slice| > 0 && StillResuming(Seen(i), slice)
    ensures CaughtUp(i, q, slice)
  {
    var p := Seen(i);
    hide Run, Owed, LegalByte;
    BehindRead(p, q, slice);
    ReadKeepsUnfinished(q, slice);
    ReadKeepsUnfinished(p, slice);
    NextInterimOk(i, slice);
    ReadStillResuming(p, slice);
    LegalContinuations(q, slice);
    StaleBytes(i, p + slice);
  }

  lemma BehindEnded(i: seq<Byte>, q: Pending, slice: seq<Byte>)
    requires InterimBehind(i, q) && Legal(q, slice) && |slice| > 0 && !StillResuming(Seen(i), slice)
    ensures CaughtUp(i, q, slice)
  {
    var p := Seen(i);
    hide Run, Owed, LegalByte;
    BehindRead(p, q, slice);
    ReadKeepsUnfinished(q, slice);
    ReadKeepsUnfinished(p, slice);
    NextInterimOk(i, slice);
    var s := Read(p, slice).state;
    if s != Read(q, slice).state {
      PadSeen(s);
    }
  }

  lemma BehindSlice(i: seq<Byte>, q: Pending, slice: seq<Byte>)
    requires InterimBehind(i, q) && Legal(q, slice)
    ensures CaughtUp(i, q, slice)
  {
    if |slice| == 0 {
      ReadNothing(q, slice);
      ReadNothing(Seen(i), slice);
      hide Run, Owed;
    } else if StillResuming(Seen(i), slice) {
      BehindStill(i, q, slice);
    } else {
      BehindEnded(i, q, slice);
    }
  }

  lemma ReadNothing(p: Pending, bytes: seq<Byte>)
    requires |bytes| == 0
    ensures Read(p, bytes) == Outcome(p, [])
  {
  }

  lemma PadSeen(s: Pending)
    requires Unfinished(s) && |s| > 0
    ensures |s| <= 3 && InterimOk(Pad(s)) && Pad(s)[0] == s[0] && Filled(Pad(s)) == |s|
    ensures 0 < |Seen(Pad(s))| <= |s| && Seen(Pad(s))[0] == s[0] && Unfinished(Seen(Pad(s)))
  {
    SeenPad(s);
    SeenUnfinished(Pad(s));
    var i := Pad(s);
    assert i[0] == s[0];
    assert |s| > 1 ==> i[1] == s[1];
    assert |s| > 2 ==> i[2] == s[2];
  }

  /** A run of slices never emits more than the stream holds, and less when some slice end held back a 0x80. */
  lemma {:induction false} FeedCount(i: seq<Byte>, q: Pending, slices: seq<seq<Byte>>)
    requires |i| == 3 && Unfinished(q) && |q| <= 3
    requires (i == Pad(q) && !HoldsZero(q)) || InterimBehind(i, q)
    requires Legal(q, Flatten(slices)) && Read(q, Flatten(slices)).state == []
    ensures |Feed(i, slices).out| + Owed(q) <= |Read(q, Flatten(slices)).out|
    ensures i == Pad(q) && !HoldsZero(q) && !CleanSplit(q, slices) ==> |Feed(i, slices).out| < |Read(q, Flatten(slices)).out|
    decreases |slices|
  {
    if |slices| == 0 {
      return;
    }
    var slice, rest := slices[0], slices[1..];
    LegalConcat(q, slice, Flatten(rest));
    RunConcat(Step, q, slice, Flatten(rest));
    var t := Read(q, slice);
    if i == Pad(q) && !HoldsZero(q) {
      NextInterimPad(q, slice);
      SeenPad(q);
    } else {
      BehindSlice(i, q, slice);
    }
    if HoldsZero(t.state) {
      HoldingZeroFallsBehind(t.state);
    }
    FeedCount(NextInterim(i, slice), t.state, rest);
  }

  lemma EncodedOneIsLegal(v: Code)
    requires IsScalar(v)
    ensures Legal([], Encode(v))
  {
    var e := Encode(v);
    if v >= 0x80 {
      EncodedValue(v);
      if v == BYTE_ORDER_MARK {
        assert e == [0xEF, 0xBB, 0xBF];
      }
      LegalWhole(e, 1);
    }
  }

  lemma {:induction false} LegalWhole(e: seq<Byte>, n: nat)
    requires 1 <= n <= |e| == Need(e[0]) && AllContinuation(e[1..])
    requires |Finish(e)| > 0 || e == [0xEF, 0xBB, 0xBF]
    ensures Legal(if n == 1 then [] else e[..n - 1], e[n - 1..])
    decreases |e| - n
  {
    hide Finish;
    var p := if n == 1 then [] else e[..n - 1];
    assert p + [e[n - 1]] == e[..n] && e[n - 1..][1..] == e[n..];
    if n > 1 {
      assert IsContinuation(e[1..][n - 2]);
    }
    if n < |e| {
      assert Step(p, e[n - 1]).state == e[..n];
      LegalWhole(e, n + 1);
    } else {
      assert e[..n] == e;
    }
  }

  lemma {:induction false} EncodedIsLegal(vs: seq<Code>)
    requires Text(vs)
    ensures Legal([], EncodeAll(vs))
  {
    if |vs| > 0 {
      EncodedOneIsLegal(vs[0]);
      ReadEncoded(vs[0]);
      EncodedIsLegal(vs[1..]);
      LegalConcat([], Encode(vs[0]), EncodeAll(vs[1..]));
    }
  }

  /**
    The exact condition: text cut into slices comes out complete, byte order marks aside,
    if and only if no slice ends right after a 0x80 inside a character.
    */
  lemma DecodesExactly(vs: seq<Code>, slices: seq<seq<Byte>>)
    requires Text(vs) && Flatten(slices) == EncodeAll(vs)
    ensures Feed(Pad([]), slices).out == WithoutMarks(vs) <==> CleanSplit([], slices)
  {
    DecodeOfEncode(vs);
    if CleanSplit([], slices) {
      SlicesDoNotMatter([], slices);
    } else {
      EncodedIsLegal(vs);
      FeedCount(Pad([]), [], slices);
    }
  }

  /** The failing input: an em dash, whose second byte is 0x80, cut behind that byte. */
  lemma DashIsLost(vs: seq<Code>, slices: seq<seq<Byte>>)
    requires vs == [0x2014] && slices == [[0xE2, 0x80], [0x94]]
    ensures Text(vs) && Flatten(slices) == EncodeAll(vs) && !CleanSplit([], slices) && Feed(Pad([]), slices).out == []
  {
    DashBytes(vs, slices);
    DecodeOfEncode(vs);
    ReadTwoBytes(slices[0]);
    HeldZero(slices);
    EncodedIsLegal(vs);
    hide CleanSplit, Read, Encode, EncodeAll, Flatten, Feed, WithoutMarks;
    FeedCount(Pad([]), [], slices);
  }

  lemma DashBytes(vs: seq<Code>, slices: seq<seq<Byte>>)
    requires vs == [0x2014] && slices == [[0xE2, 0x80], [0x94]]
    ensures Text(vs) && Flatten(slices) == EncodeAll(vs) && |WithoutMarks(vs)| == 1
  {
    var first, second := slices[0], slices[1];
    assert EncodeAll(vs[1..]) == [] && WithoutMarks(vs[1..]) == [];
    assert Encode(vs[0]) == [0xE2, 0x80, 0x94] == first + second;
    assert slices[1..] == [second] && Flatten([second]) == second + Flatten([]) == second;
  }

  lemma HeldZero(slices: seq<seq<Byte>>)
    requires |slices| > 0 && |slices[0]| == 2 && slices[0][1] % 64 == 0 && Read([], slices[0]).state == slices[0]
    ensures !CleanSplit([], slices)
  {
    assert HoldsZero(slices[0]);
  }

  lemma ReadTwoBytes(bytes: seq<Byte>)
    requires |bytes| == 2 && Need(bytes[0]) == 3 && IsContinuation(bytes[1])
    ensures Read([], bytes).state == bytes
  {
    RunSnoc(Step, [], bytes, 0);
    RunSnoc(Step, [], bytes, 1);
    assert bytes[..2] == bytes && bytes[..1] == [bytes[0]] && bytes[..0] == [] && [bytes[0]] + [bytes[1]] == bytes;
  }
}
