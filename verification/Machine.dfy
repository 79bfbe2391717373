/**
  Machines that read one input at a time and emit a sequence of outputs per input.
  Every streaming stage of the terminal pipeline is compared with such a machine.
  */
module Machine {

  datatype Outcome<S, O> = Outcome(state: S, out: seq<O>)

  function Run<S, I, O>(step: (S, I) -> Outcome<S, O>, s: S, input: seq<I>): Outcome<S, O>
    decreases |input|
  {
    if |input| == 0 then Outcome(s, [])
    else
      var before := Run(step, s, input[..|input| - 1]);
      var last := step(before.state, input[|input| - 1]);
      Outcome(last.state, before.out + last.out)
  }

  function Flatten<T>(chunks: seq<seq<T>>): seq<T> {
    if |chunks| == 0 then [] else chunks[0] + Flatten(chunks[1..])
  }

  lemma {:induction false} FlattenConcat<T>(a: seq<seq<T>>, b: seq<seq<T>>)
    ensures Flatten(a + b) == Flatten(a) + Flatten(b)
  {
    if |a| == 0 {
      assert a + b == b;
    } else {
      FlattenConcat(a[1..], b);
      assert (a + b)[0] == a[0] && (a + b)[1..] == a[1..] + b;
      assert a[0] + (Flatten(a[1..]) + Flatten(b)) == a[0] + Flatten(a[1..]) + Flatten(b);
    }
  }

  lemma TakeMore<T>(s: seq<T>, d: nat, n: nat)
    requires d + n <= |s|
    ensures s[..d + n] == s[..d] + s[d..][..n]
  {
  }

  /** Running to `d + 1` is running to `d` and taking one step. */
  lemma {:induction false} RunSnoc<S, I, O>(step: (S, I) -> Outcome<S, O>, s: S, input: seq<I>, d: nat)
    requires d < |input|
    ensures var before := Run(step, s, input[..d]);
            var last := step(before.state, input[d]);
            Run(step, s, input[..d + 1]) == Outcome(last.state, before.out + last.out)
  {
    assert input[..d + 1][..d] == input[..d];
  }

  lemma RunNone<S, I, O>(step: (S, I) -> Outcome<S, O>, s: S, input: seq<I>)
    requires |input| == 0
    ensures Run(step, s, input) == Outcome(s, [])
  {
  }

  /** Reading `a + b` is reading `a` and then `b`. */
  lemma {:induction false} RunConcat<S, I, O>(step: (S, I) -> Outcome<S, O>, s: S, a: seq<I>, b: seq<I>)
    ensures var first := Run(step, s, a);
            var second := Run(step, first.state, b);
            Run(step, s, a + b) == Outcome(second.state, first.out + second.out)
    decreases |b|
  {
    var first := Run(step, s, a);
    if |b| == 0 {
      assert a + b == a && first.out + [] == first.out;
    } else {
      var n := |b| - 1;
      RunConcat(step, s, a, b[..n]);
      assert (a + b)[..|a + b| - 1] == a + b[..n];
      var mid := Run(step, first.state, b[..n]);
      var last := step(mid.state, b[n]);
      assert (first.out + mid.out) + last.out == first.out + (mid.out + last.out);
    }
  }

  /** Reading is reading the first input and then the rest. */
  lemma {:induction false} RunCons<S, I, O>(step: (S, I) -> Outcome<S, O>, s: S, input: seq<I>)
    requires |input| > 0
    ensures var first := step(s, input[0]);
            var rest := Run(step, first.state, input[1..]);
            Run(step, s, input) == Outcome(rest.state, first.out + rest.out)
  {
    assert input == input[..1] + input[1..];
    assert Run(step, s, input[..1]) == step(s, input[0]) by {
      RunSnoc(step, s, input, 0);
      assert [] + step(s, input[0]).out == step(s, input[0]).out;
    }
    RunConcat(step, s, input[..1], input[1..]);
  }
}
