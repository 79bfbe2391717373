/**
  Device control strings: parameters and data, delivered to the handlers that are registered for
  them, of which the last one registered is asked first and may keep the string from the others.
  */
module DcsStrings {
  import opened Common
  import opened Machine
  import opened Params
  import opened OscStrings

  const DEFAULT_PARAMS := ParamAdded(EMPTY, 0)

  /** What a handler keeps of the parameters: a lone zero stands for none. */
  function Kept(p: ParamsState): ParamsState {
    if |p.params| > 1 || (|p.params| == 1 && p.params[0] != 0) then p else DEFAULT_PARAMS
  }

  /** The handler sees the parameters as they are, if and only if they are not a lone zero with sub-parameters. */
  lemma KeptExactly(p: ParamsState)
    requires WellFormed(p) && |p.params| > 0
    ensures WellFormed(Kept(p))
    ensures Nested(Kept(p)) == Nested(p) <==> |p.params| > 1 || p.params[0] != 0 || p.ranges[0] / 256 == p.ranges[0] % 256
  {
    if |p.params| == 1 && p.params[0] == 0 {
      LoneZero(p);
      LoneZero(DEFAULT_PARAMS);
    }
  }

  lemma LoneZero(p: ParamsState)
    requires WellFormed(p) && |p.params| == 1 && p.params[0] == 0
    ensures Nested(p) == [Num(0)] <==> p.ranges[0] / 256 == p.ranges[0] % 256
    ensures Nested(p) == [Num(0)] || |Nested(p)| == 2
  {
    assert ItemsUpTo(p, 0) == [];
    assert ItemsUpTo(p, 1) == [] + ItemsOf(p, 0);
  }

  /** The failing input: the parameters `0:4`. */
  lemma LoneZeroLosesSubs()
    ensures var p := SubParamAdded(ParamAdded(EMPTY, 0), 4);
            WellFormed(p) && WellFormed(Kept(p)) && Nested(p) == [Num(0), Subs([4])] && Nested(Kept(p)) == [Num(0)]
  {
    var p := SubParamAdded(ParamAdded(EMPTY, 0), 4);
    assert p.params == [0] && p.subs == [4] && p.ranges == [1];
    assert ItemsUpTo(p, 1) == ItemsUpTo(p, 0) + ItemsOf(p, 0);
    assert p.subs[0..1] == [4];
    LoneZero(DEFAULT_PARAMS);
  }

  class DcsHandler {
    /** The registered function; true means that nobody else is to be asked. */
    const handler: (seq<nat>, ParamsState) -> bool
    var data: seq<nat>
    var params: ParamsState
    var hitLimit: bool
    /** What the registered function was called with. */
    var calls: seq<(seq<nat>, ParamsState)>

    ghost function Model(): Collected
      reads this
    {
      Collected(data, hitLimit)
    }

    constructor (handler: (seq<nat>, ParamsState) -> bool)
      ensures Model() == Collected([], false) && params == DEFAULT_PARAMS && calls == [] && this.handler == handler
    {
      this.handler := handler;
      data, params, hitLimit, calls := [], DEFAULT_PARAMS, false, [];
    }

    /** Nothing has been collected, and the parameters are the default ones. */
    ghost predicate Idle()
      reads this
    {
      Model() == Collected([], false) && params == DEFAULT_PARAMS
    }

    method Hook(p: ParamsState)
      modifies this
      ensures Model() == Collected([], false) && params == Kept(p) && calls == old(calls)
    {
      params := if |p.params| > 1 || (|p.params| == 1 && p.params[0] != 0) then p else DEFAULT_PARAMS;
      data, hitLimit := [], false;
    }

    method Put(slice: seq<nat>)
      modifies this
      ensures Model() == Grown(old(Model()), slice) && params == old(params) && calls == old(calls)
    {
      if hitLimit {
        return;
      }
      data := data + slice;
      var units := OscHandler.Length(data);
      if units > PAYLOAD_LIMIT {
        data, hitLimit := [], true;
      }
    }

    method Unhook(success: bool) returns (handled: bool)
      modifies this
      ensures handled == (success && !old(hitLimit) && handler(old(data), old(params)))
      ensures calls == old(calls) + if success && !old(hitLimit) then [(old(data), old(params))] else []
      ensures Idle()
    {
      handled := false;
      if !hitLimit && success {
        calls := calls + [(data, params)];
        handled := handler(data, params);
      }
      data, params, hitLimit := [], DEFAULT_PARAMS, false;
    }
  }

  /** What nobody is registered for. */
  datatype Unclaimed = Hooked(ident: int, params: ParamsState) | PutData(ident: int, codes: seq<nat>) | Unhooked(ident: int, success: bool)

  /** The last that is true, or -1. */
  function LastTrue(wants: seq<bool>): (k: int)
    ensures -1 <= k < |wants| && (k >= 0 ==> wants[k]) && forall j :: k < j < |wants| ==> !wants[j]
  {
    if |wants| == 0 then -1 else if wants[|wants| - 1] then |wants| - 1 else LastTrue(wants[..|wants| - 1])
  }

  class DcsParser {
    /** In the order in which they were registered. */
    var handlers: map<int, seq<DcsHandler>>
    var active: seq<DcsHandler>
    var ident: int
    var unclaimed: seq<Unclaimed>

    ghost predicate Valid()
      reads this
    {
      Distinct(active) && forall id :: id in handlers ==> Distinct(handlers[id])
    }

    constructor ()
      ensures Valid() && active == [] && handlers == map[] && unclaimed == [] && ident == 0
    {
      handlers, active, ident, unclaimed := map[], [], 0, [];
    }

    method Register(id: int, h: DcsHandler)
      requires Valid() && forall i :: i in handlers ==> h !in handlers[i]
      modifies this`handlers
      ensures Valid() && handlers == old(handlers)[id := (if id in old(handlers) then old(handlers)[id] else []) + [h]]
    {
      handlers := handlers[id := (if id in handlers then handlers[id] else []) + [h]];
    }

    /** The handlers at work are told that the string was given up; none of their functions is called. */
    method Reset()
      requires Valid()
      modifies this`active, this`ident, active
      ensures Valid() && active == [] && ident == 0
      ensures forall h :: h in old(active) ==> h.calls == old(h.calls) && h.Idle()
    {
      GiveUp(|active|);
      active, ident := [], 0;
    }

    method Hook(id: int, p: ParamsState)
      requires Valid()
      modifies this`active, this`ident, this`unclaimed, active, if id in handlers then handlers[id] else []
      ensures Valid() && ident == id && active == if id in handlers then handlers[id] else []
      ensures forall h :: h in active ==> h.Model() == Collected([], false) && h.params == Kept(p) && h.calls == old(h.calls)
      ensures forall h :: h in old(active) && h !in active ==> h.Idle() && h.calls == old(h.calls)
      ensures unclaimed == old(unclaimed) + if active == [] then [Hooked(id, p)] else []
    {
      Reset();
      ident, active := id, if id in handlers then handlers[id] else [];
      if |active| == 0 {
        unclaimed := unclaimed + [Hooked(id, p)];
        return;
      }
      var j: nat := |active|;
      while j > 0
        invariant j <= |active| && ident == id && active == (if id in handlers then handlers[id] else [])
        invariant unclaimed == old(unclaimed)
        invariant forall h :: h in active ==> h.calls == old(h.calls)
        invariant forall h :: h in old(active) && h !in active ==> h.Idle() && h.calls == old(h.calls)
        invariant forall k :: j <= k < |active| ==> active[k].Model() == Collected([], false) && active[k].params == Kept(p)
      {
        j := j - 1;
        active[j].Hook(p);
      }
    }

    method Put(slice: seq<nat>)
      requires Valid()
      modifies this`unclaimed, active
      ensures Valid()
      ensures forall h :: h in active ==> h.Model() == Grown(old(h.Model()), slice) && h.params == old(h.params) && h.calls == old(h.calls)
      ensures unclaimed == old(unclaimed) + if active == [] then [PutData(ident, slice)] else []
    {
      hide Grown;
      if |active| == 0 {
        unclaimed := unclaimed + [PutData(ident, slice)];
        return;
      }
      var j: nat := |active|;
      while j > 0
        invariant j <= |active| && unclaimed == old(unclaimed)
        invariant forall h :: h in active ==> h.params == old(h.params) && h.calls == old(h.calls)
        invariant forall k :: 0 <= k < j ==> active[k].Model() == old(active[k].Model())
        invariant forall k :: j <= k < |active| ==> active[k].Model() == Grown(old(active[k].Model()), slice)
      {
        j := j - 1;
        active[j].Put(slice);
      }
    }

    /** Which of the handlers at work want to keep the string. */
    ghost function Wants(success: bool): (wants: seq<bool>)
      reads this, active
      ensures |wants| == |active|
    {
      seq(|active|, k requires 0 <= k < |active| reads this, active =>
            success && !active[k].hitLimit && active[k].handler(active[k].data, active[k].params))
    }

    /** The first `n` handlers at work are told that the string failed. */
    method GiveUp(n: nat)
      requires Valid() && n <= |active|
      modifies active
      ensures forall h :: h in active ==> h.calls == old(h.calls)
      ensures forall k :: 0 <= k < |active| ==> if k < n then active[k].Idle() else old(active[k].Idle()) == active[k].Idle()
    {
      var j := n;
      while j > 0
        invariant j <= n && forall h :: h in active ==> h.calls == old(h.calls)
        invariant forall k :: 0 <= k < |active| ==> if j <= k < n then active[k].Idle() else old(active[k].Idle()) == active[k].Idle()
      {
        j := j - 1;
        var _ := active[j].Unhook(false);
      }
    }

    /** Asks from the last handler down until one keeps the string; `j` is the last one asked. */
    method Ask(success: bool) returns (j: nat)
      requires Valid() && |active| > 0
      modifies active
      ensures j <= |active| && j == if LastTrue(old(Wants(success))) < 0 then 0 else LastTrue(old(Wants(success)))
      ensures forall k :: 0 <= k < j ==> active[k].calls == old(active[k].calls)
      ensures forall k :: j <= k < |active| ==> active[k].Idle()
      ensures forall k :: j <= k < |active| ==>
                active[k].calls == old(active[k].calls) +
                  if success && !old(active[k].hitLimit) then [old((active[k].data, active[k].params))] else []
    {
      hide LastTrue;
      ghost var kept, wants := LastTrue(Wants(success)), Wants(success);
      j := |active|;
      var handled := false;
      while j > 0 && !handled
        invariant j <= |active|
        invariant if handled then j == kept else kept < j
        invariant forall k :: 0 <= k < j ==> active[k].Model() == old(active[k].Model()) && active[k].params == old(active[k].params)
        invariant forall k :: 0 <= k < j ==> active[k].calls == old(active[k].calls)
        invariant forall k :: j <= k < |active| ==> active[k].Idle()
        invariant forall k :: j <= k < |active| ==>
                    active[k].calls == old(active[k].calls) +
                      if success && !old(active[k].hitLimit) then [old((active[k].data, active[k].params))] else []
        decreases j
      {
        j := j - 1;
        assert wants[j] == (success && !active[j].hitLimit && active[j].handler(active[j].data, active[j].params));
        handled := active[j].Unhook(success);
      }
    }

    /** The handlers are asked; those that come behind the one that keeps the string are told that it failed. */
    method Unhook(success: bool)
      requires Valid()
      modifies this`active, this`ident, this`unclaimed, active
      ensures Valid() && active == [] && ident == 0
      ensures forall k :: 0 <= k < |old(active)| ==>
                old(active)[k].calls == old(active[k].calls) +
                  if success && !old(active[k].hitLimit) && k >= LastTrue(old(Wants(success))) then [old((active[k].data, active[k].params))]
                  else []
      ensures forall h :: h in old(active) ==> h.Idle()
      ensures unclaimed == old(unclaimed) + if old(active) == [] then [Unhooked(old(ident), success)] else []
    {
      hide LastTrue;
      if |active| == 0 {
        unclaimed := unclaimed + [Unhooked(ident, success)];
      } else {
        var j := Ask(success);
        GiveUp(j);
      }
      active, ident := [], 0;
    }

    method PutAll(slices: seq<seq<nat>>)
      requires Valid() && forall h :: h in active ==> h.Model() == Collected([], false)
      modifies this`unclaimed, active
      ensures Valid()
      ensures forall h :: h in active ==>
                && h.params == old(h.params) && h.calls == old(h.calls)
                && h.Model() == if Units(Flatten(slices)) <= PAYLOAD_LIMIT then Collected(Flatten(slices), false) else Collected([], true)
    {
      hide Grown, GrownBy;
      ghost var target := GrownBy(Collected([], false), slices);
      assert slices[0..] == slices;
      for i := 0 to |slices|
        invariant Valid()
        invariant forall h :: h in active ==> h.params == old(h.params) && h.calls == old(h.calls) && GrownBy(h.Model(), slices[i..]) == target
      {
        forall h | h in active ensures GrownBy(Grown(h.Model(), slices[i]), slices[i + 1..]) == target {
          GrownOnce(h.Model(), slices, i);
        }
        Put(slices[i]);
      }
      forall h | h in active ensures h.Model() == target {
        GrownNoMore(h.Model(), slices);
      }
      KeptWholeOrDropped(Collected([], false), slices);
      assert [] + Flatten(slices) == Flatten(slices);
    }

    /** The handlers have collected all of the data, or too much. */
    method Collect(id: int, p: ParamsState, slices: seq<seq<nat>>)
      requires Valid() && id in handlers
      modifies this`active, this`ident, this`unclaimed, active, handlers[id]
      ensures Valid() && active == handlers[id]
      ensures forall h :: h in active ==>
                && h.params == Kept(p) && h.calls == old(h.calls)
                && h.Model() == if Units(Flatten(slices)) <= PAYLOAD_LIMIT then Collected(Flatten(slices), false) else Collected([], true)
    {
      hide Kept, Flatten, Units;
      Hook(id, p);
      PutAll(slices);
    }

    /** One whole control string, whose data come in slices. */
    method Take(id: int, p: ParamsState, slices: seq<seq<nat>>, success: bool)
      requires Valid() && id in handlers
      modifies this, active, handlers[id]
      ensures Valid() && handlers == old(handlers)
      ensures var hs, text := handlers[id], Flatten(slices);
              var whole := success && Units(text) <= PAYLOAD_LIMIT;
              forall k :: 0 <= k < |hs| ==>
                hs[k].calls == old(handlers[id][k].calls) +
                  if whole && (forall j :: k < j < |hs| ==> !hs[j].handler(text, Kept(p))) then [(text, Kept(p))] else []
    {
      hide Kept, Flatten, Units;
      Collect(id, p, slices);
      ghost var hs, text := active, Flatten(slices);
      assert forall k :: 0 <= k < |hs| ==> hs[k] in hs;
      ghost var wants := Wants(success);
      assert forall k :: 0 <= k < |hs| ==> wants[k] == (success && Units(text) <= PAYLOAD_LIMIT && hs[k].handler(text, Kept(p)));
      Unhook(success);
    }
  }

  /** Two handlers for one kind of string: the one registered first sees it only if the other one does not keep it. */
  method TwoHandlers(first: DcsHandler, second: DcsHandler, id: int, p: ParamsState, slices: seq<seq<nat>>, success: bool)
    requires first != second
    modifies first, second
    ensures var whole := success && Units(Flatten(slices)) <= PAYLOAD_LIMIT;
            && second.calls == old(second.calls) + (if whole then [(Flatten(slices), Kept(p))] else [])
            && first.calls == old(first.calls)
                 + if whole && !second.handler(Flatten(slices), Kept(p)) then [(Flatten(slices), Kept(p))] else []
  {
    hide Kept, Flatten, Units;
    var parser := new DcsParser();
    parser.Register(id, first);
    parser.Register(id, second);
    ghost var hs := parser.handlers[id];
    assert hs == [first, second];
    parser.Take(id, p, slices, success);
    assert hs[0] == first && hs[1] == second;
  }

  lemma GrownOnce(c: Collected, slices: seq<seq<nat>>, i: nat)
    requires i < |slices|
    ensures GrownBy(Grown(c, slices[i]), slices[i + 1..]) == GrownBy(c, slices[i..])
  {
    assert slices[i..][0] == slices[i] && slices[i..][1..] == slices[i + 1..];
  }

  lemma GrownNoMore(c: Collected, slices: seq<seq<nat>>)
    ensures GrownBy(c, slices[|slices|..]) == c
  {
  }
}
