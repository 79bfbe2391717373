/**
  The write queue of the terminal.  Chunks wait until a timer fires, are parsed one after the
  other for at most 12 ms, and each is followed by its own callback, which may write again.
  */
module WriteBuffer {

  type Chunk = seq<nat>

  datatype Callback = NoCallback | Callback(id: nat)

  datatype Item = Item(chunk: Chunk, callback: Callback)

  /** What the outside gets to see. */
  datatype Event = Parsed(chunk: Chunk) | Called(id: nat)

  /**
    What happens while one chunk is worked on, which the queue does not decide: the writes that
    parsing and the callback make, whether an error of such a write leaves the callback, whether
    the parser throws, and whether the 12 ms are over afterwards.
    */
  datatype Visit = Visit(writes: seq<Item>, escapes: bool, actionThrows: bool, userInput: bool, expired: bool)

  /** A plan that has run out stands for time that has run out. */
  function Visited(plan: seq<Visit>, k: nat): Visit {
    if k < |plan| then plan[k] else Visit([], false, false, false, true)
  }

  predicate Harmless(plan: seq<Visit>) {
    forall k :: 0 <= k < |plan| ==> !plan[k].escapes && !plan[k].actionThrows
  }

  const LIMIT: nat := 50_000_000

  /** The write in which the last chunk was let in came when at most `LIMIT` was pending. */
  ghost predicate WithinLimit(waiting: seq<Item>) {
    |waiting| > 0 ==> TotalLength(waiting) <= LIMIT + |waiting[|waiting| - 1].chunk|
  }

  function TotalLength(items: seq<Item>): nat {
    if |items| == 0 then 0 else TotalLength(items[..|items| - 1]) + |items[|items| - 1].chunk|
  }

  lemma {:induction false} TotalLengthSplit(a: seq<Item>, b: seq<Item>)
    ensures TotalLength(a + b) == TotalLength(a) + TotalLength(b)
    decreases |b|
  {
    if |b| == 0 {
      assert a + b == a;
    } else {
      TotalLengthSplit(a, b[..|b| - 1]);
      assert (a + b)[..|a + b| - 1] == a + b[..|b| - 1];
    }
  }

  lemma TotalLengthFirst(s: seq<Item>)
    requires |s| > 0
    ensures TotalLength(s) == |s[0].chunk| + TotalLength(s[1..])
  {
    assert s == [s[0]] + s[1..];
    TotalLengthSplit([s[0]], s[1..]);
    assert [s[0]][..0] == [];
  }

  lemma {:induction false} WithinLimitLater(waiting: seq<Item>)
    requires |waiting| > 0 && WithinLimit(waiting)
    ensures WithinLimit(waiting[1..])
  {
    TotalLengthFirst(waiting);
  }

  /** Each chunk is parsed and then its own callback is called, one chunk after the other. */
  function Trace(items: seq<Item>): seq<Event> {
    if |items| == 0 then []
    else
      var last := items[|items| - 1];
      Trace(items[..|items| - 1]) + [Parsed(last.chunk)] + if last.callback.NoCallback? then [] else [Called(last.callback.id)]
  }

  lemma TraceNext(items: seq<Item>, n: nat)
    requires n < |items|
    ensures var last := items[n];
            Trace(items[..n + 1]) ==
            Trace(items[..n]) + [Parsed(last.chunk)] + if last.callback.NoCallback? then [] else [Called(last.callback.id)]
  {
    assert items[..n + 1][..n] == items[..n];
  }

  function ChunksIn(trace: seq<Event>): seq<Chunk> {
    if |trace| == 0 then []
    else ChunksIn(trace[..|trace| - 1]) + if trace[|trace| - 1].Parsed? then [trace[|trace| - 1].chunk] else []
  }

  function CallsIn(trace: seq<Event>): seq<nat> {
    if |trace| == 0 then []
    else CallsIn(trace[..|trace| - 1]) + if trace[|trace| - 1].Called? then [trace[|trace| - 1].id] else []
  }

  function Callbacks(items: seq<Item>): seq<nat> {
    if |items| == 0 then []
    else
      var last := items[|items| - 1];
      Callbacks(items[..|items| - 1]) + if last.callback.NoCallback? then [] else [last.callback.id]
  }

  function ChunksOf(items: seq<Item>): seq<Chunk> {
    if |items| == 0 then [] else ChunksOf(items[..|items| - 1]) + [items[|items| - 1].chunk]
  }

  /** In the trace every chunk is parsed once and in order, and so are the callbacks called. */
  lemma {:induction false} TraceTellsAll(items: seq<Item>)
    ensures ChunksIn(Trace(items)) == ChunksOf(items) && CallsIn(Trace(items)) == Callbacks(items)
    decreases |items|
  {
    if |items| > 0 {
      TraceOfLast(Trace(items[..|items| - 1]), items[|items| - 1]);
      TraceTellsAll(items[..|items| - 1]);
      hide ChunksIn, CallsIn;
    }
  }

  /** A callback is called right behind its own chunk. */
  lemma {:induction false} CallbackBehindChunk(items: seq<Item>, k: nat)
    requires k < |items|
    ensures var at := |Trace(items[..k])|;
            && at < |Trace(items)| && Trace(items)[at] == Parsed(items[k].chunk)
            && (items[k].callback.Callback? ==> at + 1 < |Trace(items)| && Trace(items)[at + 1] == Called(items[k].callback.id))
    decreases |items|
  {
    var less := items[..|items| - 1];
    if k < |less| {
      CallbackBehindChunk(less, k);
      assert less[..k] == items[..k];
    } else {
      assert items[..k] == less;
    }
  }

  lemma TraceOfLast(t: seq<Event>, last: Item)
    ensures var u := t + [Parsed(last.chunk)] + if last.callback.NoCallback? then [] else [Called(last.callback.id)];
            && ChunksIn(u) == ChunksIn(t) + [last.chunk]
            && CallsIn(u) == CallsIn(t) + if last.callback.NoCallback? then [] else [last.callback.id]
  {
    var a := t + [Parsed(last.chunk)];
    assert a[..|a| - 1] == t;
    assert ChunksIn(a) == ChunksIn(t) + [last.chunk] && CallsIn(a) == CallsIn(t) + [];
    if last.callback.Callback? {
      var b := a + [Called(last.callback.id)];
      assert b[..|b| - 1] == a;
      assert ChunksIn(b) == ChunksIn(a) + [];
    } else {
      assert a + [] == a;
    }
  }

  function Zip(chunks: seq<Chunk>, callbacks: seq<Callback>): (items: seq<Item>)
    requires |chunks| == |callbacks|
    ensures |items| == |chunks|
  {
    seq(|chunks|, k requires 0 <= k < |chunks| => Item(chunks[k], callbacks[k]))
  }

  lemma ZipAppend(chunks: seq<Chunk>, callbacks: seq<Callback>, from: nat, item: Item)
    requires from <= |chunks| == |callbacks|
    ensures Zip(chunks + [item.chunk], callbacks + [item.callback])[from..] == Zip(chunks, callbacks)[from..] + [item]
  {
  }

  lemma Appended(waiting: seq<Item>, item: Item)
    requires TotalLength(waiting) <= LIMIT
    ensures TotalLength(waiting + [item]) == TotalLength(waiting) + |item.chunk| && WithinLimit(waiting + [item])
  {
    assert (waiting + [item])[..|waiting|] == waiting;
  }

  // ---------------------------------------------------------------- the reference

  /** How many of the writes are let in: those before the first that comes when more than `LIMIT` waits. */
  function Taken(waiting: seq<Item>, writes: seq<Item>): (n: nat)
    ensures n <= |writes|
  {
    if |writes| == 0 then 0
    else
      var n := |writes| - 1;
      if Taken(waiting, writes[..n]) == n && TotalLength(waiting) + TotalLength(writes[..n]) <= LIMIT then n + 1
      else Taken(waiting, writes[..n])
  }

  /** Some write is refused: more than `LIMIT` waits before the last one, counting all of them. */
  predicate Refused(waiting: seq<Item>, writes: seq<Item>) {
    |writes| > 0 && TotalLength(waiting) + TotalLength(writes[..|writes| - 1]) > LIMIT
  }

  lemma {:induction false} RefusedExactly(waiting: seq<Item>, writes: seq<Item>)
    ensures Taken(waiting, writes) < |writes| <==> Refused(waiting, writes)
    decreases |writes|
  {
    if |writes| > 1 {
      RefusedExactly(waiting, writes[..|writes| - 1]);
    }
  }

  /** From the first refusal on, all are refused. */
  lemma {:induction false} TakenNext(waiting: seq<Item>, writes: seq<Item>, k: nat)
    requires k < |writes|
    ensures var n := Taken(waiting, writes[..k]);
            Taken(waiting, writes[..k + 1]) == if TotalLength(waiting) + TotalLength(writes[..n]) <= LIMIT then n + 1 else n
    ensures TotalLength(waiting) + TotalLength(writes[..Taken(waiting, writes[..k])]) <= LIMIT ==> Taken(waiting, writes[..k]) == k
    ensures TotalLength(waiting) + TotalLength(writes[..Taken(waiting, writes[..k])]) > LIMIT ==> Taken(waiting, writes) == Taken(waiting, writes[..k])
    decreases |writes| - k
  {
    TakenStops(waiting, writes, k);
    assert writes[..k + 1][..k] == writes[..k];
    if k + 1 < |writes| {
      TakenNext(waiting, writes, k + 1);
    } else {
      assert writes[..k + 1] == writes;
    }
  }

  lemma {:induction false} TakenStops(waiting: seq<Item>, writes: seq<Item>, k: nat)
    requires k <= |writes|
    ensures Taken(waiting, writes[..k]) < k ==> TotalLength(waiting) + TotalLength(writes[..Taken(waiting, writes[..k])]) > LIMIT
    decreases k
  {
    if k > 0 {
      TakenStops(waiting, writes, k - 1);
      assert writes[..k][..k - 1] == writes[..k - 1];
    }
  }

  lemma NothingTaken(waiting: seq<Item>, writes: seq<Item>, start: seq<Item>)
    ensures Taken(waiting, writes[..0]) == 0 && start + writes[..0] == start
  {
  }

  /** The length that the `k`th write sees, and what it adds. */
  lemma TakenNow(start: seq<Item>, done: nat, waiting: seq<Item>, writes: seq<Item>, k: nat, now: seq<Item>)
    requires done <= |start| && waiting == start[done..] && k < |writes| && now == start + writes[..Taken(waiting, writes[..k])]
    ensures now[done..] == waiting + writes[..Taken(waiting, writes[..k])]
    ensures TotalLength(now[done..]) <= LIMIT ==>
              Taken(waiting, writes[..k]) == k && Taken(waiting, writes[..k + 1]) == k + 1 && now + [writes[k]] == start + writes[..k + 1]
    ensures TotalLength(now[done..]) > LIMIT ==>
              Taken(waiting, writes[..k + 1]) == Taken(waiting, writes[..k]) == Taken(waiting, writes)
  {
    var n := Taken(waiting, writes[..k]);
    assert now[done..] == waiting + writes[..n];
    TotalLengthSplit(waiting, writes[..n]);
    TakenNext(waiting, writes, k);
    hide Taken, TotalLength;
  }

  /** An error leaves the loop: the parser throws, or a callback lets a refused write escape. */
  predicate Breaks(waiting: seq<Item>, v: Visit) {
    v.actionThrows || (v.escapes && Refused(waiting, v.writes))
  }

  /** What becomes of the queue: the chunks that are done, the writes let in, whether a key was pressed, and whether an error ended it. */
  datatype Reached = Reached(served: nat, added: seq<Item>, userInput: bool, threw: bool)

  /** The visits from the `k`th on, until nothing waits, the time is over, or an error ends it all. */
  function Reach(waiting: seq<Item>, plan: seq<Visit>, k: nat): Reached
    decreases |plan| - k
  {
    if |waiting| == 0 then Reached(0, [], false, false)
    else
      var v := Visited(plan, k);
      var writes := if v.actionThrows then [] else v.writes[..Taken(waiting, v.writes)];
      if Breaks(waiting, v) then Reached(0, writes, false, true)
      else if v.expired || k >= |plan| then Reached(1, writes, v.userInput, false)
      else
        var r := Reach(waiting[1..] + writes, plan, k + 1);
        Reached(r.served + 1, writes + r.added, v.userInput || r.userInput, r.threw)
  }

  /** What the visits up to here have made of the queue, and what is to come. */
  ghost predicate SoFar(r: Reached, served: nat, added: seq<Item>, userInput: bool, rest: Reached) {
    r == Reached(served + rest.served, added + rest.added, userInput || rest.userInput, rest.threw)
  }

  lemma NothingYet(r: Reached)
    ensures SoFar(r, 0, [], false, r)
  {
  }

  lemma OneMoreVisit(r: Reached, served: nat, added: seq<Item>, userInput: bool, waiting: seq<Item>, plan: seq<Visit>, k: nat)
    requires |waiting| > 0 && SoFar(r, served, added, userInput, Reach(waiting, plan, k))
    ensures var v := Visited(plan, k);
            var writes := if v.actionThrows then [] else v.writes[..Taken(waiting, v.writes)];
            if Breaks(waiting, v) then r == Reached(served, added + writes, userInput, true)
            else if v.expired || k >= |plan| then r == Reached(served + 1, added + writes, userInput || v.userInput, false)
            else SoFar(r, served + 1, added + writes, userInput || v.userInput, Reach(waiting[1..] + writes, plan, k + 1))
  {
    hide Breaks, Taken;
    var v := Visited(plan, k);
    var writes := if v.actionThrows then [] else v.writes[..Taken(waiting, v.writes)];
    if !Breaks(waiting, v) && !v.expired && k < |plan| {
      assert !v.actionThrows by { BreaksIf(waiting, v); }
      var rest := Reach(waiting[1..] + writes, plan, k + 1);
      assert added + (writes + rest.added) == (added + writes) + rest.added;
    }
  }

  lemma BreaksIf(waiting: seq<Item>, v: Visit)
    ensures v.actionThrows ==> Breaks(waiting, v)
  {
  }

  /** What waits when visit `j` begins, if it is reached. */
  function WaitingAt(waiting: seq<Item>, plan: seq<Visit>, k: nat, j: nat): seq<Item>
    decreases |plan| - k
  {
    if j <= k || |waiting| == 0 then waiting
    else
      var v := Visited(plan, k);
      if Breaks(waiting, v) || v.expired || k >= |plan| then []
      else WaitingAt(waiting[1..] + v.writes[..Taken(waiting, v.writes)], plan, k + 1, j)
  }

  /** An error leaves the loop if and only if there is a visit that is reached and in which one arises. */
  lemma {:induction false} ThrowsExactly(waiting: seq<Item>, plan: seq<Visit>, k: nat)
    ensures Reach(waiting, plan, k).threw <==>
              exists j :: k <= j <= |plan| && |WaitingAt(waiting, plan, k, j)| > 0 && Breaks(WaitingAt(waiting, plan, k, j), Visited(plan, j))
    decreases |plan| - k
  {
    if |waiting| > 0 {
      var v := Visited(plan, k);
      assert WaitingAt(waiting, plan, k, k) == waiting;
      if k < |plan| && !Breaks(waiting, v) && !v.expired {
        var next := waiting[1..] + v.writes[..Taken(waiting, v.writes)];
        ThrowsExactly(next, plan, k + 1);
        hide Breaks, Taken, Visited;
        if Reach(next, plan, k + 1).threw {
          var j :| k + 1 <= j <= |plan| && |WaitingAt(next, plan, k + 1, j)| > 0 && Breaks(WaitingAt(next, plan, k + 1, j), Visited(plan, j));
          assert WaitingAt(waiting, plan, k, j) == WaitingAt(next, plan, k + 1, j);
        }
        if j :| k <= j <= |plan| && |WaitingAt(waiting, plan, k, j)| > 0 && Breaks(WaitingAt(waiting, plan, k, j), Visited(plan, j)) {
          assert j != k;
          assert WaitingAt(waiting, plan, k, j) == WaitingAt(next, plan, k + 1, j);
        }
      }
    }
  }

  /** The queue as its users know it; `stalled` if data wait and no timer will come. */
  datatype Queue = Queue(accepted: seq<Item>, done: nat, userInput: bool, stalled: bool)
  {
    ghost predicate Valid() {
      done <= |accepted|
    }

    function Waiting(): seq<Item>
      requires Valid()
    {
      accepted[done..]
    }

    function Worked(plan: seq<Visit>): (q: Queue)
      requires Valid()
      ensures done + Reach(Waiting(), plan, 0).served <= |q.accepted| && q.Valid()
    {
      ServesWhatIsThere(Waiting(), plan, 0);
      var r := Reach(Waiting(), plan, 0);
      Queue(accepted + r.added, done + r.served, userInput || r.userInput, r.threw)
    }

    function Stepped(s: Step): (q: Queue)
      requires Valid()
      ensures q.Valid()
    {
      match s
      case Key => this.(userInput := true)
      case Fire(plan) => if stalled || |Waiting()| == 0 then this else Worked(plan)
      case Write(item, plan) =>
        if TotalLength(Waiting()) > LIMIT then this
        else
          var q := this.(accepted := accepted + [item]);
          if |Waiting()| == 0 && userInput && !stalled then q.(userInput := false).Worked(plan) else q
    }

    function After(steps: seq<Step>): (q: Queue)
      requires Valid()
      ensures q.Valid()
    {
      if |steps| == 0 then this else After(steps[..|steps| - 1]).Stepped(steps[|steps| - 1])
    }
  }

  lemma {:induction false} ServesWhatIsThere(waiting: seq<Item>, plan: seq<Visit>, k: nat)
    ensures var r := Reach(waiting, plan, k); r.served <= |waiting| + |r.added| && (r.threw ==> r.served < |waiting| + |r.added|)
    decreases |plan| - k
  {
    if |waiting| > 0 {
      var v := Visited(plan, k);
      if !Breaks(waiting, v) && !v.expired && k < |plan| {
        ServesWhatIsThere(waiting[1..] + v.writes[..Taken(waiting, v.writes)], plan, k + 1);
      }
    }
    hide Breaks, Taken;
  }

  /** A stalled queue takes data in until it is full, and never parses again. */
  lemma {:induction false} StalledForGood(q: Queue, steps: seq<Step>)
    requires q.Valid() && q.stalled
    ensures var r := q.After(steps); r.stalled && r.done == q.done && q.accepted <= r.accepted
    decreases |steps|
  {
    if |steps| > 0 {
      StalledForGood(q, steps[..|steps| - 1]);
    }
    hide TotalLength;
  }

  /** The error that leaves the loop in step `s`, if it gets there. */
  ghost predicate StallsIn(q: Queue, s: Step)
    requires q.Valid()
  {
    && !q.stalled
    && match s
       case Key => false
       case Fire(plan) => Reach(q.Waiting(), plan, 0).threw
       case Write(item, plan) => q.Waiting() == [] && q.userInput && Reach([item], plan, 0).threw
  }

  /** The `k`th step is the one in which the error arises. */
  ghost predicate StallsAt(q: Queue, steps: seq<Step>, k: nat)
    requires q.Valid() && k < |steps|
  {
    StallsIn(q.After(steps[..k]), steps[k])
  }

  lemma StallsAtEarlier(q: Queue, steps: seq<Step>, n: nat, k: nat)
    requires q.Valid() && k < n <= |steps|
    ensures StallsAt(q, steps[..n], k) <==> StallsAt(q, steps, k)
  {
    assert steps[..n][..k] == steps[..k];
    hide StallsIn, Queue.After;
  }

  /** A run ends stalled if and only if in one of its steps an error leaves the loop. */
  lemma {:induction false} StallsExactly(q: Queue, steps: seq<Step>)
    requires q.Valid() && !q.stalled
    ensures q.After(steps).stalled <==> exists k :: 0 <= k < |steps| && StallsAt(q, steps, k)
    decreases |steps|
  {
    hide StallsIn, StallsAt, Queue.Stepped, Queue.Waiting;
    if |steps| > 0 {
      var n := |steps| - 1;
      StallsExactly(q, steps[..n]);
      StallsAtOnce(q.After(steps[..n]), steps[n]);
      LastStall(q, steps);
      forall k | 0 <= k < n ensures StallsAt(q, steps[..n], k) <==> StallsAt(q, steps, k) {
        StallsAtEarlier(q, steps, n, k);
      }
    }
  }

  lemma LastStall(q: Queue, steps: seq<Step>)
    requires q.Valid() && |steps| > 0
    ensures StallsAt(q, steps, |steps| - 1) <==> StallsIn(q.After(steps[..|steps| - 1]), steps[|steps| - 1])
  {
  }

  lemma StallsAtOnce(q: Queue, s: Step)
    requires q.Valid()
    ensures q.Stepped(s).stalled <==> q.stalled || StallsIn(q, s)
  {
    if s.Write? && q.Waiting() == [] {
      assert (q.accepted + [s.item])[q.done..] == [s.item];
      assert TotalLength([]) == 0;
    }
    assert |q.Waiting()| == 0 ==> q.Waiting() == [];
  }

  /** Nobody throws and nothing escapes: no stall. */
  lemma {:induction false} HarmlessReaches(waiting: seq<Item>, plan: seq<Visit>, k: nat)
    requires Harmless(plan)
    ensures !Reach(waiting, plan, k).threw
    decreases |plan| - k
  {
    if |waiting| > 0 {
      var v := Visited(plan, k);
      if !v.expired && k < |plan| {
        HarmlessReaches(waiting[1..] + v.writes[..Taken(waiting, v.writes)], plan, k + 1);
      }
    }
  }

  lemma HarmlessRuns(q: Queue, steps: seq<Step>)
    requires q.Valid() && !q.stalled && forall s :: s in steps && !s.Key? ==> Harmless(s.plan)
    ensures !q.After(steps).stalled
  {
    StallsExactly(q, steps);
    forall k | 0 <= k < |steps| ensures !StallsAt(q, steps, k) {
      var s, now := steps[k], q.After(steps[..k]);
      if s.Fire? {
        HarmlessReaches(now.Waiting(), s.plan, 0);
      } else if s.Write? {
        HarmlessReaches([s.item], s.plan, 0);
      }
    }
  }

  /** One write, and a timer in whose visit the parser throws. */
  function ThrowingParser(item: Item): seq<Step> {
    [Step.Write(item, []), Step.Fire([Visit([], false, true, false, false)])]
  }

  /** The failing input. */
  lemma ThrowingParserStalls(item: Item)
    ensures Queue([], 0, false, false).After(ThrowingParser(item)) == Queue([item], 0, false, true)
  {
    var empty, steps := Queue([], 0, false, false), ThrowingParser(item);
    assert steps[..1] == [steps[0]] && steps[..1][..0] == [];
    var waiting := Queue([item], 0, false, false);
    assert empty.After(steps[..1]) == empty.Stepped(steps[0]) == waiting;
    assert waiting.Waiting() == [item];
    assert Reach([item], steps[1].plan, 0) == Reached(0, [], false, true);
    assert waiting.accepted + [] == waiting.accepted;
  }

  lemma PlanEnds(plan: seq<Visit>, k: nat)
    ensures k >= |plan| ==> Visited(plan, k) == Visit([], false, false, false, true)
  {
  }

  lemma NoneWaits(waiting: seq<Item>, plan: seq<Visit>, k: nat, r: Reached, added: seq<Item>, pressed: bool)
    ensures |waiting| == 0 && SoFar(r, k, added, pressed, Reach(waiting, plan, k)) ==> r == Reached(k, added, pressed, false)
  {
    assert added + [] == added;
  }

  lemma HarmlessNow(waiting: seq<Item>, plan: seq<Visit>)
    ensures Harmless(plan) ==> !Reach(waiting, plan, 0).threw
  {
    if Harmless(plan) {
      HarmlessReaches(waiting, plan, 0);
    }
  }

  class WriteBuffer {
    var writeBuffer: seq<Chunk>
    var callbacks: seq<Callback>
    var pendingData: int
    var bufferOffset: nat
    var didUserInput: bool
    /** The number of timers that will call `InnerWrite`. */
    var timers: nat
    ghost var accepted: seq<Item>
    ghost var done: nat
    ghost var trace: seq<Event>

    ghost predicate Consistent()
      reads this
    {
      && |callbacks| == |writeBuffer| && bufferOffset <= |writeBuffer|
      && done <= |accepted| && accepted[done..] == Zip(writeBuffer, callbacks)[bufferOffset..]
      && pendingData == TotalLength(accepted[done..]) && WithinLimit(accepted[done..])
    }

    /** Between calls: nothing waits without a timer, and no timer is there for nothing. */
    ghost predicate Valid()
      reads this
    {
      && Consistent() && trace == Trace(accepted[..done])
      && (if |writeBuffer| == 0 then timers == 0 && bufferOffset == 0 else timers == 1 && bufferOffset < |writeBuffer|)
    }

    /** In the loop; the buffer is not empty, so that a write only adds to it. */
    ghost predicate Running()
      reads this
    {
      Consistent() && timers == 0 && |writeBuffer| > 0
    }

    /** After an error in the loop: data wait and nobody will come for them. */
    ghost predicate Stalled()
      reads this
    {
      Running() && bufferOffset < |writeBuffer|
    }

    constructor ()
      ensures Valid() && Abstract() == Queue([], 0, false, false) && trace == []
    {
      writeBuffer, callbacks, pendingData, bufferOffset, didUserInput, timers := [], [], 0, 0, false, 0;
      accepted, done, trace := [], 0, [];
    }

    method HandleUserInput()
      modifies this`didUserInput
      ensures didUserInput
      ensures old(Valid()) ==> Valid()
      ensures old(Running()) ==> Running()
    {
      didUserInput := true;
    }

    method Push(item: Item)
      requires Consistent() && pendingData <= LIMIT
      modifies this`pendingData, this`writeBuffer, this`callbacks, this`accepted
      ensures Consistent() && accepted == old(accepted) + [item]
      ensures |writeBuffer| == old(|writeBuffer|) + 1 && accepted[..done] == old(accepted[..done])
    {
      hide Zip, TotalLength, WithinLimit;
      ghost var waiting := accepted[done..];
      ZipAppend(writeBuffer, callbacks, bufferOffset, item);
      Appended(waiting, item);
      pendingData := pendingData + |item.chunk|;
      writeBuffer := writeBuffer + [item.chunk];
      callbacks := callbacks + [item.callback];
      accepted := accepted + [item];
      assert accepted[done..] == waiting + [item];
      assert accepted[..done] == old(accepted[..done]);
    }

    /** The queue as its users know it. */
    ghost function Abstract(): Queue
      reads this
    {
      Queue(accepted, done, didUserInput, timers == 0 && |writeBuffer| > 0)
    }

    /** `ok` is false when the write throws; then nothing has changed. */
    method Write(item: Item, plan: seq<Visit>) returns (ok: bool, threw: bool)
      requires Valid() || Running()
      modifies this
      ensures ok == (old(pendingData) <= LIMIT)
      ensures !ok ==> !threw && accepted == old(accepted) && (old(Valid()) ==> Valid()) && (old(Running()) ==> Running())
                      && didUserInput == old(didUserInput) && writeBuffer == old(writeBuffer) && bufferOffset == old(bufferOffset)
      ensures ok ==> old(accepted) + [item] <= accepted
      ensures |old(writeBuffer)| > 0 ==> (old(Valid()) ==> Valid()) && (old(Running()) ==> Running())
      ensures |old(writeBuffer)| > 0 ==> !threw && (ok ==> accepted == old(accepted) + [item]) && bufferOffset == old(bufferOffset)
      ensures |old(writeBuffer)| > 0 || !ok ==> done == old(done) && trace == old(trace)
      ensures old(Stalled()) ==> Stalled()
      ensures done >= old(done) && old(trace) <= trace
      ensures Abstract() == old(Abstract()).Stepped(Step.Write(item, plan)) && (threw <==> Abstract().stalled && !old(Abstract()).stalled)
      ensures |old(writeBuffer)| == 0 ==> if threw then Stalled() else Valid()
      ensures Harmless(plan) ==> !threw
      decreases |plan|, 3
    {
      ok, threw := true, false;
      if pendingData > LIMIT {
        ok := false;
        return;
      }
      if |writeBuffer| == 0 {
        bufferOffset := 0;
        if didUserInput {
          didUserInput := false;
          Push(item);
          threw := InnerWrite(plan);
          return;
        }
        timers := timers + 1;
      }
      Push(item);
    }

    /** The re-entrant writes of one visit; stops at an error that leaves the callback. */
    method WriteAgain(writes: seq<Item>, escapes: bool) returns (threw: bool)
      requires Running() && bufferOffset < |writeBuffer|
      modifies this
      ensures Running() && bufferOffset == old(bufferOffset) < |writeBuffer| && done == old(done) && trace == old(trace)
      ensures old(accepted) <= accepted && accepted[..done + 1] == old(accepted[..done + 1]) && didUserInput == old(didUserInput)
      ensures accepted == old(accepted) + writes[..Taken(old(accepted[done..]), writes)]
      ensures threw <==> escapes && Refused(old(accepted[done..]), writes)
      decreases 0, 4
    {
      hide TotalLength, WithinLimit, Zip, Taken, Refused;
      threw := false;
      ghost var waiting, start := accepted[done..], accepted;
      NothingTaken(waiting, writes, start);
      for k := 0 to |writes|
        invariant Running() && bufferOffset == old(bufferOffset) < |writeBuffer| && done == old(done) && trace == old(trace)
        invariant accepted == start + writes[..Taken(waiting, writes[..k])] && !threw && didUserInput == old(didUserInput)
        invariant escapes ==> Taken(waiting, writes[..k]) == k
      {
        TakenNow(start, done, waiting, writes, k, accepted);
        var ok, _ := Write(writes[k], []);
        if !ok && escapes {
          RefusedExactly(waiting, writes);
          return true;
        }
      }
      RefusedExactly(waiting, writes);
      assert writes[..|writes|] == writes;
    }

    /** Ends the work on the chunk at `bufferOffset`. */
    method Finish()
      requires Running() && bufferOffset < |writeBuffer|
      requires trace == Trace(accepted[..done + 1])
      modifies this`pendingData, this`bufferOffset, this`done
      ensures Running() && bufferOffset == old(bufferOffset) + 1 && done == old(done) + 1 <= |accepted|
      ensures trace == Trace(accepted[..done])
    {
      ghost var waiting := accepted[done..];
      assert waiting[0] == Item(writeBuffer[bufferOffset], callbacks[bufferOffset]);
      TotalLengthFirst(waiting);
      WithinLimitLater(waiting);
      pendingData := pendingData - |writeBuffer[bufferOffset]|;
      bufferOffset := bufferOffset + 1;
      done := done + 1;
      assert accepted[done..] == waiting[1..];
    }

    /** Parses the chunk at `bufferOffset` and calls its callback, which may write. */
    method WorkOn(v: Visit, plan: seq<Visit>) returns (threw: bool)
      requires Running() && bufferOffset < |writeBuffer| && trace == Trace(accepted[..done])
      requires |plan| > 0 || v == Visit([], false, false, false, true)
      modifies this
      ensures threw <==> Breaks(old(accepted[done..]), v)
      ensures accepted == old(accepted) + if v.actionThrows then [] else v.writes[..Taken(old(accepted[done..]), v.writes)]
      ensures done == old(done) + (if threw then 0 else 1) && didUserInput == (old(didUserInput) || (!threw && v.userInput))
      ensures old(trace) <= trace
      ensures !threw ==> Running() && bufferOffset == old(bufferOffset) + 1 && trace == Trace(accepted[..done])
      ensures threw ==> Stalled()
      decreases |plan|, 0
    {
      hide Trace, TotalLength, WithinLimit;
      var chunk, callback := writeBuffer[bufferOffset], callbacks[bufferOffset];
      assert accepted[done] == accepted[done..][0] == Item(chunk, callback);
      TraceNext(accepted, done);
      threw := false;
      if v.actionThrows {
        return true;
      }
      trace := trace + [Parsed(chunk)];
      if callback.Callback? {
        trace := trace + [Called(callback.id)];
      }
      assert trace == Trace(accepted[..done + 1]);
      if |plan| > 0 {
        threw := WriteAgain(v.writes, v.escapes);
        if threw {
          return;
        }
      }
      if v.userInput {
        HandleUserInput();
      }
      Finish();
    }

    /** What is left waits for a new timer; the part that was worked on is dropped now and then. */
    method Leave()
      requires Consistent() && timers == 0 && trace == Trace(accepted[..done])
      modifies this`writeBuffer, this`callbacks, this`bufferOffset, this`pendingData, this`timers
      ensures Valid()
    {
      if |writeBuffer| > bufferOffset {
        if bufferOffset > 50 {
          ghost var waiting := Zip(writeBuffer, callbacks)[bufferOffset..];
          writeBuffer := writeBuffer[bufferOffset..];
          callbacks := callbacks[bufferOffset..];
          bufferOffset := 0;
          assert Zip(writeBuffer, callbacks)[0..] == waiting;
        }
        timers := timers + 1;
      } else {
        writeBuffer, callbacks, pendingData, bufferOffset := [], [], 0, 0;
        assert accepted[done..] == [];
      }
    }

    /** Works on chunks until none is left, the time is over, or an error ends it all. */
    method InnerWrite(plan: seq<Visit>) returns (threw: bool)
      requires Consistent() && timers == 0 && trace == Trace(accepted[..done])
      modifies this
      ensures if threw then Stalled() else Valid()
      ensures var r := Reach(old(accepted[done..]), plan, 0);
              && (threw <==> r.threw) && done == old(done) + r.served && accepted == old(accepted) + r.added
              && didUserInput == (old(didUserInput) || r.userInput)
      ensures old(trace) <= trace
      ensures !threw && old(bufferOffset) < old(|writeBuffer|) ==> done > old(done)
      ensures Harmless(plan) ==> !threw
      decreases |plan|, 2
    {
      hide Trace, TotalLength, WithinLimit, Zip, Reach, Taken, Breaks, SoFar, Visited, Consistent, Harmless;
      WaitsIf();
      HarmlessNow(accepted[done..], plan);
      var k := 0;
      var over := false;
      threw := false;
      ghost var r, added, pressed := Reach(accepted[done..], plan, 0), [], false;
      NothingYet(r);
      assert accepted + [] == accepted;
      while |writeBuffer| > bufferOffset && !over
        invariant Consistent() && timers == 0 && done <= |accepted| && trace == Trace(accepted[..done]) && old(trace) <= trace
        invariant k <= |plan| && accepted == old(accepted) + added && didUserInput == (old(didUserInput) || pressed)
        invariant k == 0 ==> over || (bufferOffset == old(bufferOffset) && writeBuffer == old(writeBuffer))
        invariant k > 0 || over ==> done > old(done)
        invariant if over then r == Reached(done - old(done), added, pressed, false)
                  else done == old(done) + k && SoFar(r, k, added, pressed, Reach(accepted[done..], plan, k))
        decreases !over, |plan| - k
      {
        ghost var t := trace;
        threw, over, added, pressed := VisitNext(plan, k, old(accepted), old(didUserInput), r, added, pressed);
        assert old(trace) <= t <= trace;
        assert old(trace) <= trace;
        WaitsIf();
        if threw {
          return;
        }
        if !over {
          k := k + 1;
        }
      }
      WaitsIf();
      NoneWaits(accepted[done..], plan, k, r, added, pressed);
      Leave();
    }

    /** What waits is what the buffers hold from the offset on. */
    lemma WaitsIf()
      requires Consistent()
      ensures done <= |accepted| && |accepted[done..]| == |writeBuffer| - bufferOffset
    {
    }

    /** The body of the loop; `start` and `input` are what was accepted and pressed before it. */
    method VisitNext(plan: seq<Visit>, k: nat, ghost start: seq<Item>, ghost input: bool, ghost r: Reached, ghost added: seq<Item>, ghost pressed: bool)
      returns (threw: bool, over: bool, ghost added': seq<Item>, ghost pressed': bool)
      requires Running() && bufferOffset < |writeBuffer| && trace == Trace(accepted[..done]) && k <= |plan|
      requires accepted == start + added && didUserInput == (input || pressed)
      requires SoFar(r, k, added, pressed, Reach(accepted[done..], plan, k))
      modifies this
      ensures accepted == start + added' && didUserInput == (input || pressed') && old(trace) <= trace
      ensures threw ==> Stalled() && done == old(done) && r == Reached(k, added', pressed', true)
      ensures !threw ==> Running() && trace == Trace(accepted[..done]) && done == old(done) + 1
      ensures !threw ==> if over then r == Reached(k + 1, added', pressed', false)
                         else k < |plan| && SoFar(r, k + 1, added', pressed', Reach(accepted[done..], plan, k + 1))
      decreases |plan|, 1
    {
      hide Trace, TotalLength, WithinLimit, Zip, Reach, Taken, Breaks, SoFar, Visited, Consistent, Harmless;
      WaitsIf();
      ghost var waiting := accepted[done..];
      PlanEnds(plan, k);
      OneMoreVisit(r, k, added, pressed, waiting, plan, k);
      var v := Visited(plan, k);
      threw := WorkOn(v, plan);
      ghost var writes := if v.actionThrows then [] else v.writes[..Taken(waiting, v.writes)];
      added', pressed' := added + writes, pressed || (!threw && v.userInput);
      assert (start + added) + writes == start + added';
      over := v.expired || k >= |plan|;
      if !threw {
        assert accepted[done..] == waiting[1..] + writes;
      }
    }

    /** The timer fires. */
    method Fire(plan: seq<Visit>) returns (threw: bool)
      requires Valid() && timers > 0
      modifies this
      ensures if threw then Stalled() else Valid() && done > old(done)
      ensures Abstract() == old(Abstract()).Stepped(Step.Fire(plan)) && (threw <==> Abstract().stalled)
      ensures old(accepted) <= accepted && done >= old(done) && old(trace) <= trace
      ensures Harmless(plan) ==> !threw
    {
      timers := timers - 1;
      threw := InnerWrite(plan);
    }

    method Take(s: Step)
      requires Valid() || Stalled()
      modifies this
      ensures Abstract() == old(Abstract()).Stepped(s)
      ensures (Valid() && !Abstract().stalled) || (Stalled() && Abstract().stalled)
      ensures old(accepted) <= accepted && done >= old(done) && old(trace) <= trace
    {
      hide Trace, Consistent, Reach;
      WaitsIf();
      match s {
        case Write(item, plan) =>
          var _, _ := Write(item, plan);
        case Key =>
          HandleUserInput();
        case Fire(plan) =>
          if timers > 0 {
            var _ := Fire(plan);
          }
      }
    }

    /** Any run of writes, key presses and timers; an error that leaves the loop ends a step, not the run. */
    method Run(steps: seq<Step>)
      requires Valid()
      modifies this
      ensures Abstract() == old(Abstract()).After(steps)
      ensures (Valid() && !Abstract().stalled) || (Stalled() && Abstract().stalled)
      ensures Stalled() <==> exists k :: 0 <= k < |steps| && StallsAt(old(Abstract()), steps, k)
      ensures old(accepted) <= accepted && done >= old(done) && old(trace) <= trace
      ensures (forall s :: s in steps && !s.Key? ==> Harmless(s.plan)) ==> Valid()
    {
      hide Trace, Consistent, Harmless, StallsAt, Queue.Stepped;
      ghost var q, a, t := Abstract(), accepted, trace;
      WaitsIf();
      for k := 0 to |steps|
        invariant (Valid() && !Abstract().stalled) || (Stalled() && Abstract().stalled)
        invariant Abstract() == q.After(steps[..k])
        invariant a <= accepted && done >= old(done) && t <= trace
      {
        ghost var a1, t1 := accepted, trace;
        Take(steps[k]);
        assert a <= a1 <= accepted && t <= t1 <= trace;
        assert a <= accepted && t <= trace;
        assert steps[..k + 1][..k] == steps[..k];
      }
      assert steps[..|steps|] == steps;
      StallsExactly(q, steps);
      if forall s :: s in steps && !s.Key? ==> Harmless(s.plan) {
        HarmlessRuns(q, steps);
      }
    }

    /** Once stalled, nothing that is written is ever parsed again. */
    method RunStalled(steps: seq<Step>)
      requires Stalled()
      modifies this
      ensures Stalled() && trace == old(trace) && done == old(done) && old(accepted) <= accepted
    {
      for k := 0 to |steps|
        invariant Stalled() && trace == old(trace) && done == old(done) && old(accepted) <= accepted
      {
        match steps[k]
        case Write(item, plan) => {
          var _, _ := Write(item, plan);
        }
        case Key => HandleUserInput();
        case Fire(_) => assert timers == 0;
      }
    }
  }

  /** A throwing parser gets a queue there, and the rest of the run changes nothing about it. */
  method StallForGood(item: Item, steps: seq<Step>) returns (b: WriteBuffer)
    ensures fresh(b) && b.Stalled() && b.done == 0 && [item] <= b.accepted
  {
    hide WriteBuffer.Stalled, WriteBuffer.Valid, Queue.After, ThrowingParser;
    b := new WriteBuffer();
    ThrowingParserStalls(item);
    b.Run(ThrowingParser(item));
    b.RunStalled(steps);
  }

  /** A write, a key press, or a timer that fires if there is one. */
  datatype Step = Write(item: Item, plan: seq<Visit>) | Key | Fire(plan: seq<Visit>)
}
