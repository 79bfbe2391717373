/**
  The parameter list of a control sequence, filled one code at a time into fixed arrays:
  at most 32 parameters, at most 32 sub-parameters in all, values capped at 2^31 - 1.

  `ParamsState` is the list as a value; the class `Params` keeps it in arrays and packs, for each
  parameter, where its sub-parameters start and end into one sixteen-bit number.
  */
module Params {

  const MAX_PARAMS := 32
  const MAX_SUB_PARAMS := 32
  const MAX_VALUE := 0x7FFF_FFFF

  function Cap(v: int): (c: int)
    ensures c <= v && c <= MAX_VALUE
  {
    if v > MAX_VALUE then MAX_VALUE else v
  }

  /** `ranges[k]` is 256 * start + end of the sub-parameters of parameter `k`. */
  datatype ParamsState = ParamsState(
    params: seq<int>,
    subs: seq<int>,
    ranges: seq<nat>,
    rejectDigits: bool,
    rejectSubDigits: bool,
    digitIsSub: bool)

  const EMPTY := ParamsState([], [], [], false, false, false)

  ghost predicate WellFormed(s: ParamsState) {
    && |s.params| == |s.ranges| <= MAX_PARAMS && |s.subs| <= MAX_SUB_PARAMS
    && forall k :: 0 <= k < |s.ranges| ==> s.ranges[k] / 256 <= s.ranges[k] % 256 <= |s.subs|
  }

  // ---------------------------------------------------------------- operations on the value

  function ParamAdded(s: ParamsState, v: int): ParamsState
    requires v >= -1
  {
    if |s.params| >= MAX_PARAMS then s.(digitIsSub := false, rejectDigits := true)
    else s.(digitIsSub := false, params := s.params + [Cap(v)], ranges := s.ranges + [256 * |s.subs| + |s.subs|])
  }

  function SubParamAdded(s: ParamsState, v: int): ParamsState
    requires v >= -1
  {
    if |s.params| == 0 || |s.ranges| == 0 then s.(digitIsSub := true)
    else if s.rejectDigits || |s.subs| >= MAX_SUB_PARAMS then s.(digitIsSub := true, rejectSubDigits := true)
    else
      var last := |s.ranges| - 1;
      s.(digitIsSub := true, subs := s.subs + [Cap(v)], ranges := s.ranges[last := s.ranges[last] + 1])
  }

  /** A value of -1 stands for "no digit yet". */
  function Shifted(r: int, digit: int): int {
    if r == -1 then digit else Cap(10 * r + digit)
  }

  function DigitAdded(s: ParamsState, digit: int): ParamsState {
    if s.rejectDigits then s
    else if s.digitIsSub then
      if |s.subs| == 0 || s.rejectSubDigits then s
      else s.(subs := s.subs[|s.subs| - 1 := Shifted(s.subs[|s.subs| - 1], digit)])
    else if |s.params| == 0 then s
    else s.(params := s.params[|s.params| - 1 := Shifted(s.params[|s.params| - 1], digit)])
  }

  datatype Item = Num(value: int) | Subs(values: seq<int>)

  /** What parameter `k` contributes to the nested list. */
  function ItemsOf(s: ParamsState, k: nat): seq<Item>
    requires k < |s.params| == |s.ranges|
    requires s.ranges[k] / 256 <= s.ranges[k] % 256 <= |s.subs|
  {
    var values := s.subs[s.ranges[k] / 256..s.ranges[k] % 256];
    [Num(s.params[k])] + if |values| > 0 then [Subs(values)] else []
  }

  /** The nested list of the first `n` parameters. */
  ghost function ItemsUpTo(s: ParamsState, n: nat): seq<Item>
    requires WellFormed(s) && n <= |s.params|
  {
    if n == 0 then [] else ItemsUpTo(s, n - 1) + ItemsOf(s, n - 1)
  }

  ghost function Nested(s: ParamsState): seq<Item>
    requires WellFormed(s)
  {
    ItemsUpTo(s, |s.params|)
  }

  // ---------------------------------------------------------------- the class

  class Params {
    const params: array<int>
    const subParams: array<int>
    const subParamsIdx: array<nat>
    var length: nat
    var subParamsLength: nat
    var rejectDigits: bool
    var rejectSubDigits: bool
    var digitIsSub: bool

    ghost predicate Valid()
      reads this, params, subParams, subParamsIdx
    {
      && params.Length == subParamsIdx.Length == MAX_PARAMS && subParams.Length == MAX_SUB_PARAMS
      && params != subParams
      && length <= MAX_PARAMS && subParamsLength <= MAX_SUB_PARAMS
      && WellFormed(Model())
    }

    ghost function Repr(): set<object> {
      {this, params, subParams, subParamsIdx}
    }

    ghost function Model(): ParamsState
      reads this, params, subParams, subParamsIdx
      requires params.Length == subParamsIdx.Length == MAX_PARAMS && subParams.Length == MAX_SUB_PARAMS
      requires length <= MAX_PARAMS && subParamsLength <= MAX_SUB_PARAMS
    {
      ParamsState(params[..length], subParams[..subParamsLength], subParamsIdx[..length],
                  rejectDigits, rejectSubDigits, digitIsSub)
    }

    constructor ()
      ensures Valid() && Model() == EMPTY && fresh(Repr())
    {
      params := new int[MAX_PARAMS](_ => 0);
      subParams := new int[MAX_SUB_PARAMS](_ => 0);
      subParamsIdx := new nat[MAX_PARAMS](_ => 0);
      length, subParamsLength := 0, 0;
      rejectDigits, rejectSubDigits, digitIsSub := false, false, false;
    }

    method Reset()
      requires Valid()
      modifies this
      ensures Valid() && Model() == EMPTY
    {
      length, subParamsLength := 0, 0;
      rejectDigits, rejectSubDigits, digitIsSub := false, false, false;
    }

    method AddParam(value: int)
      requires Valid() && value >= -1
      modifies this, params, subParamsIdx
      ensures Valid() && Model() == ParamAdded(old(Model()), value)
    {
      ghost var before := Model();
      digitIsSub := false;
      if length >= MAX_PARAMS {
        rejectDigits := true;
        return;
      }
      subParamsIdx[length] := subParamsLength * 256 + subParamsLength;
      params[length] := if value > MAX_VALUE then MAX_VALUE else value;
      length := length + 1;
      assert params[..length] == before.params + [Cap(value)];
      assert subParamsIdx[..length] == before.ranges + [256 * |before.subs| + |before.subs|];
    }

    method AddSubParam(value: int)
      requires Valid() && value >= -1
      modifies this, subParams, subParamsIdx
      ensures Valid() && Model() == SubParamAdded(old(Model()), value)
    {
      ghost var before := Model();
      digitIsSub := true;
      if length == 0 {
        return;
      }
      if rejectDigits || subParamsLength >= MAX_SUB_PARAMS {
        rejectSubDigits := true;
        return;
      }
      subParams[subParamsLength] := if value > MAX_VALUE then MAX_VALUE else value;
      subParamsLength := subParamsLength + 1;
      subParamsIdx[length - 1] := subParamsIdx[length - 1] + 1;
      assert subParams[..subParamsLength] == before.subs + [Cap(value)];
      RangeGrows(before.ranges[length - 1], |before.subs|);
    }

    method AddDigit(digit: int)
      requires Valid()
      modifies this, params, subParams
      ensures Valid() && Model() == DigitAdded(old(Model()), digit)
    {
      var count := if digitIsSub then subParamsLength else length;
      if rejectDigits || count == 0 || (digitIsSub && rejectSubDigits) {
        return;
      }
      var store := if digitIsSub then subParams else params;
      var cur := store[count - 1];
      store[count - 1] := if cur != -1 then (if 10 * cur + digit < MAX_VALUE then 10 * cur + digit else MAX_VALUE) else digit;
    }

    method ToArray() returns (r: seq<Item>)
      requires Valid()
      ensures r == Nested(Model())
    {
      r := [];
      for t := 0 to length
        invariant r == ItemsUpTo(Model(), t)
      {
        var start, end := subParamsIdx[t] / 256, subParamsIdx[t] % 256;
        assert Model().ranges[t] == subParamsIdx[t];
        ghost var values := Model().subs[start..end];
        assert values == subParams[start..end];
        ghost var before := r;
        r := r + [Num(params[t])];
        if end - start > 0 {
          r := r + [Subs(subParams[start..end])];
        }
        assert r == before + ItemsOf(Model(), t);
      }
    }
  }

  /** Counting one more sub-parameter cannot spill into the start half. */
  lemma RangeGrows(range: nat, subs: nat)
    requires range / 256 <= range % 256 <= subs < MAX_SUB_PARAMS
    ensures (range + 1) / 256 == range / 256 && (range + 1) % 256 == range % 256 + 1
  {
  }
}
