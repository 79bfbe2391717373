/**
  The streaming UTF-8 decoder that turns the byte slices coming from the socket into
  code points.  A slice may end inside a multi-byte sequence; the bytes of the unfinished
  sequence are held back in the three-byte buffer `interim`.

  `Step` is the reference: a machine that looks at one byte at a time.  The decoder works on
  whole slices, with a four-byte ASCII fast loop and a separate resume path.

  Bytes and code points are integers: `b & 0xC0 == 0x80` reads `0x80 <= b < 0xC0`,
  `b & 0x3F` reads `b % 64` and `r << 6 | x` reads `r * 64 + x`.
  */
module Utf8Decoder {
  import opened Common
  import opened Machine

  type Byte = b: int | 0 <= b < 0x100
  type Code = nat

  const BYTE_ORDER_MARK: Code := 0xFEFF

  // ---------------------------------------------------------------- bytes and values

  predicate IsContinuation(b: Byte) {
    0x80 <= b < 0xC0
  }

  /** The length announced by a leading byte; 0 when `b` starts no multi-byte sequence. */
  function Need(b: Byte): nat {
    if 0xC0 <= b < 0xE0 then 2
    else if 0xE0 <= b < 0xF0 then 3
    else if 0xF0 <= b < 0xF8 then 4
    else 0
  }

  /** The payload bits of a leading byte: five, four or three. */
  function LeadBits(b: Byte): Code {
    if 0xC0 <= b < 0xE0 then b % 32
    else if 0xE0 <= b < 0xF0 then b % 16
    else b % 8
  }

  function Low6(b: Byte): Code {
    b % 64
  }

  /** The number spelled by a leading byte and its continuation bytes. */
  function Value(p: seq<Byte>): Code
    requires 0 < |p| <= 4
  {
    if |p| == 1 then LeadBits(p[0])
    else if |p| == 2 then LeadBits(p[0]) * 64 + Low6(p[1])
    else if |p| == 3 then LeadBits(p[0]) * 4096 + Low6(p[1]) * 64 + Low6(p[2])
    else LeadBits(p[0]) * 262144 + Low6(p[1]) * 4096 + Low6(p[2]) * 64 + Low6(p[3])
  }

  predicate IsScalar(v: Code) {
    v <= 0x10FFFF && !(0xD800 <= v <= 0xDFFF)
  }

  /** Whether a complete sequence of `n` bytes spelling `v` emits it. */
  predicate Accepts(n: nat, v: Code) {
    if n == 2 then v >= 0x80
    else if n == 3 then v >= 0x800 && !(0xD800 <= v <= 0xDFFF) && v != BYTE_ORDER_MARK
    else 0x10000 <= v <= 0x10FFFF
  }

  // ---------------------------------------------------------------- the reference machine

  type Pending = seq<Byte>
  type Result = Outcome<Pending, Code>

  function StepIdle(b: Byte): Result {
    if b < 0x80 then Outcome([], [b])
    else if Need(b) > 0 then Outcome([b], [])
    else Outcome([], [])
  }

  function Finish(p: Pending): seq<Code> {
    if 2 <= |p| <= 4 && Accepts(|p|, Value(p)) then [Value(p)] else []
  }

  function Step(p: Pending, b: Byte): Result {
    if |p| == 0 || !IsContinuation(b) then StepIdle(b)
    else if |p| + 1 < Need(p[0]) then Outcome(p + [b], [])
    else Outcome([], Finish(p + [b]))
  }

  function Read(p: Pending, bytes: seq<Byte>): Result {
    Run(Step, p, bytes)
  }

  /** An unfinished sequence: a leading byte and too few continuation bytes; or nothing. */
  ghost predicate Unfinished(p: Pending) {
    |p| > 0 ==> |p| < Need(p[0]) && forall k :: 1 <= k < |p| ==> IsContinuation(p[k])
  }

  lemma {:induction false} ReadKeepsUnfinished(p: Pending, bytes: seq<Byte>)
    requires Unfinished(p)
    ensures Unfinished(Read(p, bytes).state)
    decreases |bytes|
  {
    if |bytes| > 0 {
      var n := |bytes| - 1;
      ReadKeepsUnfinished(p, bytes[..n]);
      StepKeepsUnfinished(Read(p, bytes[..n]).state, bytes[n]);
    }
  }

  lemma StepKeepsUnfinished(p: Pending, b: Byte)
    requires Unfinished(p)
    ensures Unfinished(Step(p, b).state)
    ensures |Step(p, b).out| <= 1
  {
  }

  predicate AllContinuation(bytes: seq<Byte>) {
    forall k :: 0 <= k < |bytes| ==> IsContinuation(bytes[k])
  }

  /** The whole slice is swallowed by a sequence that is still unfinished afterwards. */
  predicate StillResuming(p: Pending, bytes: seq<Byte>) {
    |p| > 0 && AllContinuation(bytes) && |p| + |bytes| < Need(p[0])
  }

  lemma {:induction false} ReadStillResuming(p: Pending, bytes: seq<Byte>)
    requires StillResuming(p, bytes)
    ensures Read(p, bytes) == Outcome(p + bytes, [])
    decreases |bytes|
  {
    if |bytes| == 0 {
      assert p + bytes == p;
    } else {
      var n := |bytes| - 1;
      ReadStillResuming(p, bytes[..n]);
      assert p + bytes[..n] + [bytes[n]] == p + bytes;
    }
  }

  /** A byte that cannot continue `p` is read as if nothing were pending; so is all that follows. */
  lemma ReadAfterDrop(p: Pending, bytes: seq<Byte>)
    requires |bytes| > 0 && Step(p, bytes[0]) == StepIdle(bytes[0])
    ensures Read(p, bytes) == Read([], bytes)
  {
    assert bytes == bytes[..1] + bytes[1..];
    RunConcat(Step, p, bytes[..1], bytes[1..]);
    RunConcat(Step, [], bytes[..1], bytes[1..]);
    RunSnoc(Step, p, bytes, 0);
    RunSnoc(Step, [], bytes, 0);
  }

  // ---------------------------------------------------------------- the held-back bytes

  ghost predicate InterimOk(i: seq<Byte>) {
    && |i| == 3
    && (i[0] == 0 ==> i[1] == 0)
    && (i[1] == 0 ==> i[2] == 0)
    && (i[0] != 0 ==> Need(i[0]) > 0)
    && (forall k :: 1 <= k < 3 ==> i[k] == 0 || (IsContinuation(i[k]) && k < Need(i[0]) - 1))
  }

  function Pad(p: Pending): (i: seq<Byte>)
    requires |p| <= 3
    ensures |i| == 3 && i[..|p|] == p
    ensures forall k :: |p| <= k < 3 ==> i[k] == 0
  {
    p + seq(3 - |p|, _ => 0)
  }

  /** What a resuming call believes is pending: it stops at the first byte whose low six bits are zero. */
  function Seen(i: seq<Byte>): (p: Pending)
    requires |i| == 3
    ensures |p| <= 3 && p == i[..|p|]
  {
    if i[0] == 0 then i[..0]
    else if Low6(i[1]) == 0 then i[..1]
    else if Low6(i[2]) == 0 then i[..2]
    else i[..3]
  }

  lemma SeenUnfinished(i: seq<Byte>)
    requires InterimOk(i)
    ensures Unfinished(Seen(i))
  {
  }

  /** `interim` after a call: rewritten from scratch, or extended in place when the call only resumed. */
  ghost function NextInterim(i: seq<Byte>, bytes: seq<Byte>): (j: seq<Byte>)
    requires |i| == 3
  {
    var p := Seen(i);
    var q := Read(p, bytes).state;
    if |bytes| == 0 then i
    else if StillResuming(p, bytes) && |q| <= 3 then q + i[|q|..]
    else if |q| <= 3 then Pad(q)
    else i
  }

  lemma NextInterimOk(i: seq<Byte>, bytes: seq<Byte>)
    requires InterimOk(i)
    ensures InterimOk(NextInterim(i, bytes)) && Unfinished(Read(Seen(i), bytes).state)
  {
    SeenUnfinished(i);
    ReadKeepsUnfinished(Seen(i), bytes);
    if StillResuming(Seen(i), bytes) {
      ReadStillResuming(Seen(i), bytes);
    }
  }

  // ---------------------------------------------------------------- the decoder

  function AsSeq(v: Option<Code>): seq<Code> {
    match v case None => [] case Some(c) => [c]
  }

  /** The decoder may look at position `d` with nothing pending: what is pending there is dropped by the next byte. */
  ghost predicate AtBoundary(p: Pending, bytes: seq<Byte>, d: nat)
    requires d <= |bytes|
  {
    |p| == 0 || (d < |bytes| && Step(p, bytes[d]) == StepIdle(bytes[d]))
  }

  /** What reading one sequence at the start of `tail` comes to. */
  ghost predicate ReadOne(tail: seq<Byte>, used: nat, v: Option<Code>, held: Pending) {
    && 0 < used <= |tail|
    && Read([], tail[..used]).out == AsSeq(v)
    && (|held| > 0 ==> used == |tail| && v.None? && Read([], tail).state == held)
    && (|held| == 0 ==> AtBoundary(Read([], tail[..used]).state, tail, used))
  }

  /** The leading byte. */
  lemma ReadLead(tail: seq<Byte>)
    requires |tail| > 0 && Need(tail[0]) > 0
    ensures Read([], tail[..1]) == Outcome([tail[0]], [])
  {
    RunSnoc(Step, [], tail, 0);
  }

  /** A continuation byte after `p`. */
  lemma ReadNext(tail: seq<Byte>, d: nat, p: Pending)
    requires d < |tail| && |p| > 0 && Read([], tail[..d]) == Outcome(p, []) && IsContinuation(tail[d])
    ensures Read([], tail[..d + 1]) ==
            if |p| + 1 < Need(p[0]) then Outcome(p + [tail[d]], []) else Outcome([], Finish(p + [tail[d]]))
  {
    RunSnoc(Step, [], tail, d);
  }

  lemma OneHeld(tail: seq<Byte>, p: Pending)
    requires |tail| > 0 && |p| > 0 && Read([], tail) == Outcome(p, [])
    ensures ReadOne(tail, |tail|, None, p)
  {
    assert tail[..|tail|] == tail;
  }

  lemma OneDropped(tail: seq<Byte>, d: nat, p: Pending)
    requires 0 < d < |tail| && Read([], tail[..d]) == Outcome(p, []) && !IsContinuation(tail[d])
    ensures ReadOne(tail, d, None, [])
  {
  }

  lemma OneFinished(tail: seq<Byte>, d: nat, v: Option<Code>)
    requires 0 < d <= |tail| && Read([], tail[..d]) == Outcome([], AsSeq(v))
    ensures ReadOne(tail, d, v, [])
  {
  }

  lemma FinishTwo(s: Byte, r: Byte)
    requires 0xC0 <= s < 0xE0
    ensures var h: int := LeadBits(s) * 64 + Low6(r);
            Finish([s, r]) == if h < 0x80 then [] else [h]
  {
    assert Value([s, r]) == LeadBits(s) * 64 + Low6(r);
  }

  /** After an overlong pair the second byte is looked at again, and skipped. */
  lemma OneOverlong(tail: seq<Byte>)
    requires |tail| >= 2 && 0xC0 <= tail[0] < 0xE0 && IsContinuation(tail[1]) && Finish([tail[0], tail[1]]) == []
    ensures ReadOne(tail, 1, None, [])
  {
    ReadLead(tail);
    assert [tail[0]] + [tail[1]] == [tail[0], tail[1]];
  }

  /** Two-byte sequences. */
  method ReadTwo(tail: seq<Byte>) returns (d: nat, v: Option<Code>, held: Pending)
    requires |tail| > 0 && 0xC0 <= tail[0] < 0xE0
    ensures ReadOne(tail, d, v, held) && |held| <= 1
  {
    hide Run, Step, Value;
    var s: int := tail[0];
    ReadLead(tail);
    d, v, held := 1, None, [];
    if d >= |tail| {
      held := [s];
      assert tail[..1] == tail;
      OneHeld(tail, held);
      return;
    }
    var r: int := tail[d];
    d := d + 1;
    if !(0x80 <= r < 0xC0) {
      d := d - 1;
      OneDropped(tail, d, [s]);
      return;
    }
    ReadNext(tail, 1, [s]);
    var h := s % 32 * 64 + r % 64;
    FinishTwo(s, r);
    assert [s] + [r] == [s, r];
    if h < 0x80 {
      d := d - 1;
      OneOverlong(tail);
      return;
    }
    v := Some(h);
    OneFinished(tail, d, v);
  }

  lemma FinishThree(s: Byte, r: Byte, n: Byte)
    requires 0xE0 <= s < 0xF0
    ensures var h: int := LeadBits(s) * 4096 + Low6(r) * 64 + Low6(n);
            Finish([s, r, n]) == if h < 0x800 || (h >= 0xD800 && h <= 0xDFFF) || h == BYTE_ORDER_MARK then [] else [h]
  {
    assert Value([s, r, n]) == LeadBits(s) * 4096 + Low6(r) * 64 + Low6(n);
  }

  /** Three-byte sequences. */
  method ReadThree(tail: seq<Byte>) returns (d: nat, v: Option<Code>, held: Pending)
    requires |tail| > 0 && 0xE0 <= tail[0] < 0xF0
    ensures ReadOne(tail, d, v, held) && |held| <= 2
  {
    hide Run, Step, Value;
    var s: int := tail[0];
    ReadLead(tail);
    d, v, held := 1, None, [];
    if d >= |tail| {
      held := [s];
      assert tail[..1] == tail;
      OneHeld(tail, held);
      return;
    }
    var r: int := tail[d];
    d := d + 1;
    if !(0x80 <= r < 0xC0) {
      d := d - 1;
      OneDropped(tail, d, [s]);
      return;
    }
    ReadNext(tail, 1, [s]);
    assert [s] + [r] == [s, r];
    if d >= |tail| {
      held := [s, r];
      assert tail[..2] == tail;
      OneHeld(tail, held);
      return;
    }
    var n: int := tail[d];
    d := d + 1;
    if !(0x80 <= n < 0xC0) {
      d := d - 1;
      OneDropped(tail, d, [s, r]);
      return;
    }
    ReadNext(tail, 2, [s, r]);
    assert [s, r] + [n] == [s, r, n];
    var h := s % 16 * 4096 + r % 64 * 64 + n % 64;
    v := if h < 0x800 || (h >= 0xD800 && h <= 0xDFFF) || h == BYTE_ORDER_MARK then None else Some(h);
    FinishThree(s, r, n);
    OneFinished(tail, d, v);
  }

  lemma FinishFour(s: Byte, r: Byte, n: Byte, o: Byte)
    requires 0xF0 <= s < 0xF8
    ensures var h: int := LeadBits(s) * 262144 + Low6(r) * 4096 + Low6(n) * 64 + Low6(o);
            Finish([s, r, n, o]) == if h < 0x10000 || h > 0x10FFFF then [] else [h]
  {
    assert Value([s, r, n, o]) == LeadBits(s) * 262144 + Low6(r) * 4096 + Low6(n) * 64 + Low6(o);
  }

  /** Four-byte sequences. */
  method ReadFour(tail: seq<Byte>) returns (d: nat, v: Option<Code>, held: Pending)
    requires |tail| > 0 && 0xF0 <= tail[0] < 0xF8
    ensures ReadOne(tail, d, v, held) && |held| <= 3
  {
    hide Run, Step, Value;
    var s: int := tail[0];
    ReadLead(tail);
    d, v, held := 1, None, [];
    if d >= |tail| {
      held := [s];
      assert tail[..1] == tail;
      OneHeld(tail, held);
      return;
    }
    var r: int := tail[d];
    d := d + 1;
    if !(0x80 <= r < 0xC0) {
      d := d - 1;
      OneDropped(tail, d, [s]);
      return;
    }
    ReadNext(tail, 1, [s]);
    assert [s] + [r] == [s, r];
    if d >= |tail| {
      held := [s, r];
      assert tail[..2] == tail;
      OneHeld(tail, held);
      return;
    }
    var n: int := tail[d];
    d := d + 1;
    if !(0x80 <= n < 0xC0) {
      d := d - 1;
      OneDropped(tail, d, [s, r]);
      return;
    }
    ReadNext(tail, 2, [s, r]);
    assert [s, r] + [n] == [s, r, n];
    if d >= |tail| {
      held := [s, r, n];
      assert tail[..3] == tail;
      OneHeld(tail, held);
      return;
    }
    var o: int := tail[d];
    d := d + 1;
    if !(0x80 <= o < 0xC0) {
      d := d - 1;
      OneDropped(tail, d, [s, r, n]);
      return;
    }
    ReadNext(tail, 3, [s, r, n]);
    assert [s, r, n] + [o] == [s, r, n, o];
    var h := s % 8 * 262144 + r % 64 * 4096 + n % 64 * 64 + o % 64;
    v := if h < 0x10000 || h > 0x10FFFF then None else Some(h);
    FinishFour(s, r, n, o);
    OneFinished(tail, d, v);
  }

  lemma ValueSnoc(p: Pending, b: Byte)
    requires 0 < |p| <= 3
    ensures Value(p + [b]) == Value(p) * 64 + b % 64
  {
  }

  /** A resumed sequence that is unfinished still. */
  lemma ResumeUnfinished(i: seq<Byte>, input: seq<Byte>)
    requires InterimOk(i) && |input| > 0 && StillResuming(Seen(i), input)
    ensures |Seen(i) + input| <= 3
    ensures NextInterim(i, input) == (Seen(i) + input) + i[|Seen(i) + input|..] && InterimOk(NextInterim(i, input))
  {
    ReadStillResuming(Seen(i), input);
    NextInterimOk(i, input);
  }

  /** A resumed sequence that got a byte not continuing it. */
  lemma ResumeDropped(p: Pending, input: seq<Byte>, c: nat)
    requires c < |input| && StillResuming(p, input[..c]) && !IsContinuation(input[c])
    ensures Read(p, input[..c]).out == AsSeq(None) && AtBoundary(Read(p, input[..c]).state, input, c)
  {
    ReadStillResuming(p, input[..c]);
  }

  /** A resumed sequence that got all its bytes. */
  lemma ResumeFinished(p: Pending, input: seq<Byte>, c: nat)
    requires 0 < c <= |input| && |p| > 0 && |p| + c == Need(p[0]) && AllContinuation(input[..c])
    ensures Read(p, input[..c]) == Outcome([], Finish(p + input[..c]))
    ensures AtBoundary(Read(p, input[..c]).state, input, c)
  {
    var b := c - 1;
    ReadStillResuming(p, input[..b]);
    RunSnoc(Step, p, input, b);
    assert p + input[..b] + [input[b]] == p + input[..c];
  }

  /** What the resume path makes of a complete sequence of `h` bytes. */
  function Emitted(h: nat, r: int): Option<Code> {
    if r < 0 then None
    else if h == 2 then if r < 0x80 then None else Some(r)
    else if h == 3 then if r < 0x800 || (r >= 0xD800 && r <= 0xDFFF) || r == BYTE_ORDER_MARK then None else Some(r)
    else if r < 0x10000 || r > 0x10FFFF then None else Some(r)
  }

  lemma FinishValue(p: Pending, r: int)
    requires 2 <= |p| == Need(p[0]) && r == Value(p)
    ensures Finish(p) == AsSeq(Emitted(|p|, r))
  {
  }

  lemma ResumeOverlong(p: Pending, input: seq<Byte>)
    requires |input| > 0 && |p| == 1 && Need(p[0]) == 2 && IsContinuation(input[0]) && Finish(p + input[..1]) == []
    ensures Read(p, input[..0]) == Outcome(p, []) && AtBoundary(p, input, 0)
  {
    assert input[..1] == [input[0]];
  }

  /** The main loop stands at `d` and has emitted `out`. */
  ghost predicate Reached(p: Pending, input: seq<Byte>, d: nat, out: seq<Code>) {
    d <= |input| && Read(p, input[..d]).out == out && AtBoundary(Read(p, input[..d]).state, input, d)
  }

  lemma ReachedStart(input: seq<Byte>)
    ensures Reached([], input, 0, [])
  {
  }

  /** Reading one sequence moves the main loop forward, or ends the slice with bytes held back. */
  lemma Advance(p: Pending, input: seq<Byte>, d: nat, out: seq<Code>, used: nat, v: Option<Code>, held: Pending)
    requires Reached(p, input, d, out) && d < |input| && ReadOne(input[d..], used, v, held)
    ensures 0 < used && d + used <= |input|
    ensures |held| == 0 ==> Reached(p, input, d + used, out + AsSeq(v))
    ensures |held| > 0 ==> Read(p, input) == Outcome(held, out)
  {
    var q := Read(p, input[..d]).state;
    var part := input[d..][..used];
    TakeMore(input, d, used);
    hide Step;
    RunConcat(Step, p, input[..d], part);
    if |q| > 0 {
      ReadAfterDrop(q, part);
    }
    assert Read(q, part) == Read([], part);
    if |held| > 0 {
      assert part == input[d..] && input[..d + used] == input;
      assert out + [] == out;
    }
  }

  lemma OneByte(tail: seq<Byte>)
    requires |tail| > 0 && Need(tail[0]) == 0
    ensures ReadOne(tail, 1, if tail[0] < 0x80 then Some(tail[0]) else None, [])
  {
    RunSnoc(Step, [], tail, 0);
  }

  lemma AdvanceAscii(p: Pending, input: seq<Byte>, d: nat, out: seq<Code>)
    requires Reached(p, input, d, out) && d < |input| && input[d] < 0x80
    ensures Reached(p, input, d + 1, out + [input[d]])
  {
    OneByte(input[d..]);
    Advance(p, input, d, out, 1, Some(input[d]), []);
  }

  /** The four-byte fast loop does what four single steps do. */
  lemma AdvanceAsciiBlock(p: Pending, input: seq<Byte>, d: nat, out: seq<Code>)
    requires Reached(p, input, d, out) && d + 4 <= |input| && forall k :: d <= k < d + 4 ==> input[k] < 0x80
    ensures Reached(p, input, d + 4, out + [input[d], input[d + 1], input[d + 2], input[d + 3]])
  {
    hide Reached;
    AdvanceAscii(p, input, d, out);
    AdvanceAscii(p, input, d + 1, out + [input[d]]);
    AdvanceAscii(p, input, d + 2, out + [input[d]] + [input[d + 1]]);
    AdvanceAscii(p, input, d + 3, out + [input[d]] + [input[d + 1]] + [input[d + 2]]);
    assert out + [input[d]] + [input[d + 1]] + [input[d + 2]] + [input[d + 3]]
        == out + [input[d], input[d + 1], input[d + 2], input[d + 3]];
  }

  /** `interim` at the end of a slice that did not only resume. */
  lemma EndOfSlice(i: seq<Byte>, input: seq<Byte>, held: Pending)
    requires InterimOk(i) && |input| > 0 && !StillResuming(Seen(i), input)
    requires Read(Seen(i), input).state == held && |held| <= 3
    ensures NextInterim(i, input) == Pad(held) && InterimOk(Pad(held))
  {
    NextInterimOk(i, input);
  }

  class Utf8ToUtf32 {
    const interim: array<Byte>

    ghost predicate Valid()
      reads this, interim
    {
      interim.Length == 3 && InterimOk(interim[..])
    }

    constructor ()
      ensures Valid() && interim[..] == Pad([]) && fresh(interim)
    {
      interim := new Byte[3](_ => 0);
    }

    method Clear()
      requires Valid()
      modifies interim
      ensures Valid() && interim[..] == Pad([])
    {
      interim[0], interim[1], interim[2] := 0, 0, 0;
    }

    /** The value spelled so far by the held-back bytes, and their number. */
    method TakeHeld() returns (r: Code, o: nat)
      requires Valid() && interim[0] != 0
      ensures o == |Seen(interim[..])| && 0 < o && r == Value(Seen(interim[..]))
    {
      ghost var p := Seen(interim[..]);
      r := LeadBits(interim[0]);
      o := 1;
      while o < 3 && interim[o] % 64 != 0
        invariant 1 <= o <= |p|
        invariant r == Value(p[..o])
        decreases 3 - o
      {
        ValueSnoc(p[..o], p[o]);
        assert p[..o] + [p[o]] == p[..o + 1];
        r := r * 64 + interim[o] % 64;
        o := o + 1;
      }
      assert p[..o] == p;
    }

    /** Takes continuation bytes from the slice until the held-back sequence has all its `h` bytes, or one does not fit. */
    method Gather(input: seq<Byte>, h: nat, r0: Code, o0: nat) returns (r: Code, c: nat, discard: bool)
      requires Valid() && |input| > 0 && o0 == |Seen(interim[..])| > 0
      requires r0 == Value(Seen(interim[..])) && h == Need(interim[0])
      modifies interim
      ensures var p := Seen(old(interim[..]));
              && c <= |input| && |p| + c <= h && AllContinuation(input[..c])
              && (discard ==> c < |input| && |p| + c < h && !IsContinuation(input[c]))
              && (!discard ==> |p| + c < h ==> c == |input|)
              && (|p| + c <= 4 ==> r == Value(p + input[..c]))
              && (|p| + c <= 3 ==> interim[..] == (p + input[..c]) + old(interim[..])[|p| + c..])
    {
      ghost var i0 := interim[..];
      ghost var p := Seen(i0);
      SeenUnfinished(i0);
      hide Value, LeadBits;
      var o := o0;
      var missing := h - o;
      r, c, discard := r0, 0, false;
      assert p + input[..0] == p;
      while c < missing
        invariant 0 <= c <= missing && c <= |input| && o == |p| + c
        invariant AllContinuation(input[..c])
        invariant o <= 3 ==> interim[..o] == p + input[..c] && interim[o..] == i0[o..]
        invariant r == Value(p + input[..c])
      {
        if c >= |input| {
          return;
        }
        var n: int := input[c];
        c := c + 1;
        if !(0x80 <= n < 0xC0) {
          c := c - 1;
          discard := true;
          return;
        }
        if o < 3 {
          interim[o] := n;
        }
        o := o + 1;
        ValueSnoc(p + input[..c - 1], n);
        assert p + input[..c - 1] + [n] == p + input[..c];
        r := r * 64 + n % 64;
      }
    }

    /** Takes up the held-back bytes; `done` tells whether the call goes on to the main loop at `c`. */
    method Resume(input: seq<Byte>) returns (done: bool, c: nat, v: Option<Code>)
      requires Valid() && |input| > 0 && interim[0] != 0
      modifies interim
      ensures Valid() && c <= |input| && (v.Some? ==> c > 0)
      ensures var p := Seen(old(interim[..]));
              && (!done <==> StillResuming(p, input))
              && (!done ==> c == |input| && v.None? && interim[..] == NextInterim(old(interim[..]), input))
              && (done ==> interim[..] == Pad([]) && Read(p, input[..c]).out == AsSeq(v) && AtBoundary(Read(p, input[..c]).state, input, c))
    {
      ghost var i0 := interim[..];
      ghost var p := Seen(i0);
      SeenUnfinished(i0);
      hide Run, Step, Finish, Value, AtBoundary, LeadBits, NextInterim;
      var r: int, o := TakeHeld();
      var h := if 0xC0 <= interim[0] < 0xE0 then 2 else if 0xE0 <= interim[0] < 0xF0 then 3 else 4;
      var discard;
      r, c, discard := Gather(input, h, r, o);
      done, v := true, None;
      if !discard && o + c < h {
        assert input[..c] == input;
        ResumeUnfinished(i0, input);
        done := false;
        return;
      }
      if discard {
        ResumeDropped(p, input, c);
      } else {
        ResumeFinished(p, input, c);
        FinishValue(p + input[..c], r);
        v := Emitted(h, r);
        if h == 2 && r < 0x80 {
          c := c - 1;
          ResumeOverlong(p, input);
        }
      }
      interim[0], interim[1], interim[2] := 0, 0, 0;
      assert interim[..] == Pad([]);
    }

    /** The fast loop: four ASCII bytes at a time, as long as at least one more byte follows them. */
    static method CopyAscii(ghost p: Pending, input: seq<Byte>, d0: nat, target: array<Code>, a0: nat) returns (d: nat, a: nat)
      requires a0 <= d0 < |input| <= target.Length && Reached(p, input, d0, target[..a0])
      modifies target
      ensures a <= d < |input| && d0 <= d && Reached(p, input, d, target[..a])
    {
      hide Reached;
      d, a := d0, a0;
      var l := |input| - 4;
      while d < l && input[d] < 0x80 && input[d + 1] < 0x80 && input[d + 2] < 0x80 && input[d + 3] < 0x80
        invariant a <= d < |input| && d0 <= d
        invariant Reached(p, input, d, target[..a])
        decreases |input| - d
      {
        ghost var out := target[..a];
        AdvanceAsciiBlock(p, input, d, out);
        target[a] := input[d];
        target[a + 1] := input[d + 1];
        target[a + 2] := input[d + 2];
        target[a + 3] := input[d + 3];
        assert target[..a + 4] == out + [input[d], input[d + 1], input[d + 2], input[d + 3]];
        a, d := a + 4, d + 4;
      }
    }

    /** One turn of the main loop, by the class of the byte it starts at. */
    static method ReadSequence(tail: seq<Byte>) returns (used: nat, v: Option<Code>, held: Pending)
      requires |tail| > 0
      ensures ReadOne(tail, used, v, held) && |held| <= 3
    {
      hide ReadOne;
      var s := tail[0];
      used, v, held := 1, None, [];
      if s < 0x80 {
        v := Some(s);
        OneByte(tail);
      } else if 0xC0 <= s < 0xE0 {
        used, v, held := ReadTwo(tail);
      } else if 0xE0 <= s < 0xF0 {
        used, v, held := ReadThree(tail);
      } else if 0xF0 <= s < 0xF8 {
        used, v, held := ReadFour(tail);
      } else {
        OneByte(tail);
      }
    }

    /** The main loop, from position `d0` with nothing pending. */
    static method DecodeFrom(ghost p: Pending, input: seq<Byte>, d0: nat, target: array<Code>, a0: nat) returns (a: nat, held: Pending)
      requires a0 <= d0 <= |input| <= target.Length && Reached(p, input, d0, target[..a0])
      modifies target
      ensures a <= |input| && |held| <= 3 && Read(p, input) == Outcome(held, target[..a])
    {
      hide Run, Step, Reached, ReadOne;
      var d := d0;
      a := a0;
      while d < |input|
        invariant a <= d <= |input|
        invariant Reached(p, input, d, target[..a])
      {
        d, a := CopyAscii(p, input, d, target, a);
        ghost var out := target[..a];
        var used, v;
        used, v, held := ReadSequence(input[d..]);
        Advance(p, input, d, out, used, v, held);
        if |held| > 0 {
          return;
        }
        d := d + used;
        if v.Some? {
          target[a] := v.value;
          a := a + 1;
        }
        assert target[..a] == out + AsSeq(v);
      }
      held := [];
      AtEnd(p, input, target[..a]);
    }

    /** Decodes one slice into `target` and returns the number of code points written. */
    method Decode(input: seq<Byte>, target: array<Code>) returns (a: nat)
      requires Valid() && |input| <= target.Length
      modifies interim, target
      ensures Valid() && a <= |input|
      ensures target[..a] == Read(Seen(old(interim[..])), input).out
      ensures interim[..] == NextInterim(old(interim[..]), input)
    {
      a := 0;
      if |input| == 0 {
        return;
      }
      hide Run, Step, NextInterim, ReadOne, AtBoundary;
      ghost var i0 := interim[..];
      ghost var p := Seen(i0);
      var d := 0;
      if interim[0] != 0 {
        var done, v;
        done, d, v := Resume(input);
        if !done {
          ReadStillResuming(p, input);
          return;
        }
        if v.Some? {
          target[a] := v.value;
          a := a + 1;
        }
        assert target[..a] == AsSeq(v);
      } else {
        ReachedStart(input);
      }
      assert interim[..] == Pad([]);
      var held;
      a, held := DecodeFrom(p, input, d, target, a);
      EndOfSlice(i0, input, held);
      Hold(held);
    }

    method Hold(held: Pending)
      requires interim.Length == 3 && |held| <= 3 && interim[..] == Pad([])
      modifies interim
      ensures interim[..] == Pad(held)
    {
      for k := 0 to |held|
        invariant forall j :: 0 <= j < 3 ==> interim[j] == if j < k then held[j] else 0
      {
        interim[k] := held[k];
      }
    }
  }

  lemma AtEnd(p: Pending, input: seq<Byte>, out: seq<Code>)
    requires Reached(p, input, |input|, out)
    ensures Read(p, input) == Outcome([], out)
  {
    assert input[..|input|] == input;
  }
}
