/**
  The line store: a ring buffer that refines a sequence of at most `maxLength` elements.

  `Ring` reads the whole backing array from the start index on; the list is its first `length`
  elements.  Listeners (the markers) are told about deletions, insertions and trimmed elements.
  */
module CircularList {

  // ---------------------------------------------------------------- rings

  /** The array read around from slot `start`. */
  function Ring<T>(a: seq<T>, start: nat): (r: seq<T>)
    requires |a| > 0
    ensures |r| == |a|
  {
    seq(|a|, k requires 0 <= k => a[Slot(start + k, |a|)])
  }

  /** Which ring position index `i` reaches when it runs past the end once. */
  function Wrap(i: nat, m: nat): nat
    requires i < 2 * m
  {
    if i < m then i else i - m
  }

  /** The slot of the backing array an index falls into. */
  function Slot(x: nat, m: nat): (r: nat)
    requires m > 0
    ensures r < m
  {
    x % m
  }

  lemma MulAtLeast(m: int, d: int)
    requires m > 0
    ensures d >= 1 ==> m * d >= m
    ensures d <= -1 ==> m * d <= -m
  {
    if d >= 1 {
      assert m * d == m + m * (d - 1) && m * (d - 1) >= 0;
    } else if d <= -1 {
      assert m * d == -m + m * (d + 1) && m * (d + 1) <= 0;
    }
  }

  lemma SlotUnique(x: nat, q: int, r: nat, m: nat)
    requires r < m && x == m * q + r
    ensures Slot(x, m) == r
  {
    var p := x / m;
    assert x == m * p + x % m;
    assert m * (p - q) == m * p - m * q;
    MulAtLeast(m, p - q);
  }

  lemma SlotWrap(x: nat, m: nat)
    requires m > 0
    ensures Slot(x + m, m) == Slot(x, m)
  {
    var p := x / m;
    assert x == m * p + x % m;
    assert x + m == m * (p + 1) + x % m;
    SlotUnique(x + m, p + 1, x % m, m);
  }

  lemma SlotsApart(start: nat, i: nat, j: nat, m: nat)
    requires i < m && j < m && i != j
    ensures Slot(start + i, m) != Slot(start + j, m)
  {
    if Slot(start + i, m) == Slot(start + j, m) {
      var p, q := (start + i) / m, (start + j) / m;
      assert start + i == m * p + (start + i) % m && start + j == m * q + (start + j) % m;
      assert i - j == m * p - m * q == m * (p - q);
      MulAtLeast(m, p - q);
    }
  }

  lemma SlotShift(x: nat, y: nat, m: nat)
    requires m > 0
    ensures Slot(x % m + y, m) == Slot(x + y, m)
  {
    var q, r := x / m, Slot(x % m + y, m);
    var p := (x % m + y) / m;
    assert x == m * q + x % m && x % m + y == m * p + r;
    assert x + y == m * (q + p) + r;
    SlotUnique(x + y, q + p, r, m);
  }

  lemma RingUpdate<T>(a: seq<T>, start: nat, i: nat, x: T)
    requires |a| > 0 && i < 2 * |a|
    ensures Ring(a[Slot(start + i, |a|) := x], start) == Ring(a, start)[Wrap(i, |a|) := x]
  {
    var m := |a|;
    var w := Wrap(i, m);
    if i >= m {
      SlotWrap(start + w, m);
    }
    hide Slot;
    var b := a[Slot(start + i, m) := x];
    forall k | 0 <= k < m ensures Ring(b, start)[k] == Ring(a, start)[w := x][k] {
      if k != w {
        SlotsApart(start, k, w, m);
      }
    }
  }

  lemma RingGet<T>(a: seq<T>, start: nat, i: nat)
    requires |a| > 0 && i < 2 * |a|
    ensures a[Slot(start + i, |a|)] == Ring(a, start)[Wrap(i, |a|)]
  {
    if i >= |a| {
      SlotWrap(start + Wrap(i, |a|), |a|);
    }
  }

  /** Moving the start on turns the ring. */
  lemma RingTurn<T>(a: seq<T>, start: nat, k: nat)
    requires 0 <= k <= |a| && |a| > 0
    ensures Ring(a, start + k) == Ring(a, start)[k..] + Ring(a, start)[..k]
  {
    var m := |a|;
    forall i | 0 <= i < m ensures Ring(a, start + k)[i] == (Ring(a, start)[k..] + Ring(a, start)[..k])[i] {
      assert start + k + i == start + (k + i);
      RingGet(a, start, k + i);
    }
  }

  lemma RingMod<T>(a: seq<T>, start: nat)
    requires |a| > 0
    ensures Ring(a, start % |a|) == Ring(a, start)
  {
    forall i | 0 <= i < |a| ensures Ring(a, start % |a|)[i] == Ring(a, start)[i] {
      SlotShift(start, i, |a|);
    }
  }

  lemma RingFromZero<T>(a: seq<T>)
    requires |a| > 0
    ensures Ring(a, 0) == a
  {
    forall k | 0 <= k < |a| ensures Ring(a, 0)[k] == a[k] {
      SlotUnique(k, 0, k, |a|);
    }
  }

  // ---------------------------------------------------------------- what the operations mean

  datatype ListEvent = Deleted(index: nat, amount: nat) | Inserted(index: nat, amount: nat) | Trimmed(amount: nat)

  function Max0(x: int): nat {
    if x < 0 then 0 else x
  }

  /** The last `m` elements. */
  function Latest<T>(s: seq<T>, m: nat): seq<T> {
    s[Max0(|s| - m)..]
  }

  function Replaced<T>(s: seq<T>, index: nat, count: nat, items: seq<T>): seq<T>
    requires index + count <= |s|
  {
    s[..index] + items + s[index + count..]
  }

  /** `count` elements from `from` written over the elements from `to` on, possibly past the end. */
  function Moved<T>(s: seq<T>, from: nat, count: nat, to: nat): seq<T>
    requires from + count <= |s| && to <= |s|
  {
    s[..to] + s[from..from + count] + s[if to + count <= |s| then to + count else |s|..]
  }

  function SpliceEvents(length: nat, index: nat, count: nat, added: nat, max: nat): seq<ListEvent> {
    (if count > 0 then [Deleted(index, count)] else [])
    + (if added > 0 then [Inserted(index, added)] else [])
    + (if length - count + added > max then [Trimmed(length - count + added - max)] else [])
  }

  lemma DeleteThenInsert<T>(c: seq<T>, index: nat, count: nat, items: seq<T>)
    requires index + count <= |c|
    ensures |Replaced(c, index, count, [])| == |c| - count
    ensures Replaced(Replaced(c, index, count, []), index, 0, items) == Replaced(c, index, count, items)
    ensures Replaced(c, index, 0, []) == c
  {
    var left := Replaced(c, index, count, []);
    assert left[..index] == c[..index] && left[index..] == c[index + count..];
  }

  // ---------------------------------------------------------------- markers

  datatype Marker = At(line: nat) | Disposed

  /** How a marker answers one event. */
  function Answer(m: Marker, e: ListEvent): Marker {
    match m
    case Disposed => Disposed
    case At(line) =>
      match e
      case Trimmed(n) => if line < n then Disposed else At(line - n)
      case Inserted(i, n) => if line >= i then At(line + n) else m
      case Deleted(i, n) => if i <= line < i + n then Disposed else if line > i then At(Max0(line - n)) else m
  }

  function AnswerAll(m: Marker, es: seq<ListEvent>): Marker
    decreases |es|
  {
    if |es| == 0 then m else AnswerAll(Answer(m, es[0]), es[1..])
  }

  lemma MarkerAfterSplice(line: nat, length: nat, index: nat, count: nat, added: nat, max: nat)
    requires line < length <= max && index + count <= length
    ensures var m := AnswerAll(At(line), SpliceEvents(length, index, count, added, max));
            var place := if line < index then line else line - count + added;
            var over := Max0(length - count + added - max);
            m == if index <= line < index + count || place < over then Disposed else At(place - over)
  {
    var d := if count > 0 then [Deleted(index, count)] else [];
    var i := if added > 0 then [Inserted(index, added)] else [];
    var over := length - count + added - max;
    var t := if over > 0 then [Trimmed(over)] else [];
    AnswerConcat(At(line), d, i);
    AnswerConcat(At(line), d + i, t);
    AnswerOne(At(line), Deleted(index, count));
    var m1 := AnswerAll(At(line), d);
    AnswerOne(m1, Inserted(index, added));
    var m2 := AnswerAll(m1, i);
    AnswerOne(m2, Trimmed(Max0(over)));
    hide AnswerAll;
  }

  /** A marker stays on its element through any splice, and goes exactly when the element goes. */
  lemma MarkersFollowSplice<T>(c: seq<T>, line: nat, index: nat, count: nat, items: seq<T>, max: nat)
    requires line < |c| <= max && index + count <= |c|
    ensures var full := Replaced(c, index, count, items);
            var after := Latest(full, max);
            var m := AnswerAll(At(line), SpliceEvents(|c|, index, count, |items|, max));
            var place := if line < index then line else line - count + |items|;
            if index <= line < index + count || place < Max0(|full| - max) then m == Disposed
            else m.At? && m.line < |after| && after[m.line] == c[line]
  {
    hide AnswerAll, SpliceEvents;
    MarkerAfterSplice(line, |c|, index, count, |items|, max);
  }

  lemma AnswerOne(m: Marker, e: ListEvent)
    ensures AnswerAll(m, [e]) == Answer(m, e) && AnswerAll(m, []) == m
  {
    assert [e][1..] == [];
  }

  lemma {:induction false} AnswerConcat(m: Marker, a: seq<ListEvent>, b: seq<ListEvent>)
    ensures AnswerAll(m, a + b) == AnswerAll(AnswerAll(m, a), b)
    decreases |a|
  {
    if |a| == 0 {
      assert a + b == b;
    } else {
      assert (a + b)[1..] == a[1..] + b;
      AnswerConcat(Answer(m, a[0]), a[1..], b);
    }
  }

  // ---------------------------------------------------------------- the list

  class CircularList<T(0)> {
    var data: array<T>
    var maxLength: nat
    var startIndex: nat
    var length: nat
    /** What the listeners were told. */
    var events: seq<ListEvent>

    ghost predicate Valid()
      reads this, data
    {
      data.Length == maxLength > 0 && length <= maxLength
    }

    ghost function View(): seq<T>
      reads this, data
      requires Valid()
    {
      Ring(data[..], startIndex)
    }

    ghost function Contents(): (s: seq<T>)
      reads this, data
      requires Valid()
      ensures |s| == length
    {
      View()[..length]
    }

    constructor (max: nat)
      requires max > 0
      ensures Valid() && Contents() == [] && maxLength == max && fresh(data) && events == []
    {
      maxLength := max;
      data := new T[max];
      startIndex, length, events := 0, 0, [];
    }

    method Get(i: nat) returns (x: T)
      requires Valid() && i < length
      ensures x == Contents()[i]
    {
      x := Read(i);
    }

    /** Reads the ring, also past the end of the list. */
    method Read(i: nat) returns (x: T)
      requires Valid() && i < 2 * maxLength
      ensures x == View()[Wrap(i, maxLength)]
    {
      RingGet(data[..], startIndex, i);
      x := data[Slot(startIndex + i, maxLength)];
    }

    method Set(i: nat, x: T)
      requires Valid() && i < 2 * maxLength
      modifies data
      ensures Valid() && View() == old(View())[Wrap(i, maxLength) := x]
    {
      RingUpdate(data[..], startIndex, i, x);
      data[Slot(startIndex + i, maxLength)] := x;
      assert data[..] == old(data[..])[Slot(startIndex + i, maxLength) := x];
    }

    method SetAt(i: nat, x: T)
      requires Valid() && i < length
      modifies data
      ensures Valid() && Contents() == old(Contents())[i := x]
    {
      hide Ring, Slot;
      Set(i, x);
    }

    predicate IsFull()
      reads this
    {
      length == maxLength
    }

    /** Appends; when full the oldest element goes. */
    method Push(x: T)
      requires Valid()
      modifies this`startIndex, this`length, this`events, data
      ensures Valid() && Contents() == Latest(old(Contents()) + [x], maxLength)
      ensures events == old(events) + if old(length) == maxLength then [Trimmed(1)] else []
    {
      hide Ring, Slot;
      ghost var v := View();
      Set(length, x);
      if length == maxLength {
        RingTurn(data[..], startIndex, 1);
        RingMod(data[..], startIndex + 1);
        startIndex := (startIndex + 1) % maxLength;
        events := events + [Trimmed(1)];
        assert Contents() == v[1..] + [x];
      } else {
        length := length + 1;
        assert Contents() == v[..old(length)] + [x];
      }
    }

    /** Turns the full list by one and hands out the element that was the oldest. */
    method Recycle() returns (ok: bool, x: T)
      requires Valid()
      modifies this`startIndex, this`events
      ensures Valid() && ok == (length == maxLength)
      ensures !ok ==> Contents() == old(Contents()) && events == old(events)
      ensures ok ==> Contents() == old(Contents())[1..] + [old(Contents())[0]] && x == old(Contents())[0]
      ensures ok ==> events == old(events) + [Trimmed(1)]
    {
      hide Ring, Slot;
      if length != maxLength {
        ok, x := false, *;
        return;
      }
      ghost var v := View();
      assert Contents() == v;
      RingTurn(data[..], startIndex, 1);
      RingMod(data[..], startIndex + 1);
      startIndex := (startIndex + 1) % maxLength;
      events := events + [Trimmed(1)];
      assert View() == v[1..] + v[..1] == v[1..] + [v[0]];
      assert Contents() == View();
      ok := true;
      x := Read(length - 1);
    }

    method Pop() returns (x: T)
      requires Valid() && length > 0
      modifies this`length
      ensures Valid() && Contents() == old(Contents())[..old(length) - 1] && x == old(Contents())[old(length) - 1]
    {
      x := Read(length - 1);
      length := length - 1;
    }

    method TrimStart(count: nat)
      requires Valid()
      modifies this`startIndex, this`length, this`events
      ensures Valid()
      ensures var n := if count > old(length) then old(length) else count;
              Contents() == old(Contents())[n..] && events == old(events) + [Trimmed(n)]
    {
      hide Ring, Slot;
      var n := if count > length then length else count;
      RingTurn(data[..], startIndex, n);
      startIndex := startIndex + n;
      length := length - n;
      events := events + [Trimmed(n)];
    }

    /** A new capacity, no smaller than what is stored. */
    method SetMaxLength(max: nat)
      requires Valid() && length <= max && max > 0
      modifies this
      ensures Valid() && maxLength == max && Contents() == old(Contents()) && events == old(events)
      ensures data == old(data) || fresh(data)
    {
      hide Ring, Slot;
      if maxLength == max {
        return;
      }
      ghost var was := Contents();
      var copy := new T[max];
      for i := 0 to length
        invariant Valid() && Contents() == was && fresh(copy) && copy.Length == max
        invariant unchanged(this) && unchanged(data)
        invariant copy[..i] == was[..i]
      {
        copy[i] := Read(i);
      }
      data, maxLength, startIndex := copy, max, 0;
      RingFromZero(data[..]);
    }

    /** Closes the gap of `count` elements at `index`. */
    method Delete(index: nat, count: nat)
      requires Valid() && index + count <= length
      modifies this`length, data
      ensures Valid() && Contents() == Replaced(old(Contents()), index, count, []) && length == old(length) - count
    {
      hide Ring, Slot;
      ghost var v := View();
      var i := index;
      while i < length - count
        invariant Valid() && index <= i <= length - count && length == old(length)
        invariant forall p {:trigger View()[p]} :: 0 <= p < length ==> View()[p] == if index <= p < i then v[p + count] else v[p]
      {
        var x := Read(i + count);
        Set(i, x);
        i := i + 1;
      }
      GapClosed(v, View(), length, index, count);
      length := length - count;
    }

    /** Opens a gap of `count` places at `index`; places past the capacity fall on the oldest elements. */
    method Open(index: nat, count: nat)
      requires Valid() && index <= length && length + count <= maxLength + index
      modifies data
      ensures Valid()
      ensures var over := Max0(length + count - maxLength);
              && (forall k :: over <= k < index ==> View()[k] == old(View())[k])
              && forall k :: index <= k < length ==> View()[Wrap(k + count, maxLength)] == old(View())[k]
    {
      ghost var v := View();
      ghost var over := Max0(length + count - maxLength);
      var t := length;
      while t > index
        invariant Valid() && index <= t <= length
        invariant forall k :: over <= k < t ==> View()[k] == v[k]
        invariant forall k :: t <= k < length ==> View()[Wrap(k + count, maxLength)] == v[k]
      {
        t := t - 1;
        var x := Read(t);
        Set(t + count, x);
      }
    }

    /** Takes `count` more places into the list and trims the front by what exceeds the capacity. */
    method Extend(count: nat, ghost target: seq<T>)
      requires Valid() && |target| == length + count <= 2 * maxLength
      requires forall k :: Max0(|target| - maxLength) <= k < |target| ==> View()[Wrap(k, maxLength)] == target[k]
      modifies this`startIndex, this`length, this`events
      ensures Valid() && Contents() == Latest(target, maxLength)
      ensures events == old(events) + if |target| > maxLength then [Trimmed(|target| - maxLength)] else []
    {
      hide Slot;
      if length + count > maxLength {
        var trim := length + count - maxLength;
        RingTurn(data[..], startIndex, trim);
        ghost var v := View();
        startIndex := startIndex + trim;
        length := maxLength;
        events := events + [Trimmed(trim)];
        forall k | 0 <= k < maxLength ensures View()[k] == target[k + trim] {
          assert View()[k] == v[Wrap(k + trim, maxLength)];
        }
      } else {
        length := length + count;
      }
    }

    /** The inserting half of a splice. */
    method InsertAndTrim(index: nat, items: seq<T>)
      requires Valid() && index <= length && length + |items| <= maxLength + index
      modifies this`startIndex, this`length, this`events, data
      ensures Valid() && Contents() == Latest(Replaced(old(Contents()), index, 0, items), maxLength)
      ensures events == old(events) + SpliceEvents(old(length), index, 0, |items|, maxLength)
    {
      hide Ring, Slot;
      ghost var target := Replaced(Contents(), index, 0, items);
      Insert(index, items);
      if |items| > 0 {
        events := events + [Inserted(index, |items|)];
      }
      Extend(|items|, target);
    }

    /** Deletes `count` elements at `index`, inserts `items` there, and trims what no longer fits from the front. */
    method Splice(index: nat, count: nat, items: seq<T>)
      requires Valid() && index + count <= length
      requires length - count + |items| <= maxLength + index
      modifies this`startIndex, this`length, this`events, data
      ensures Valid() && Contents() == Latest(Replaced(old(Contents()), index, count, items), maxLength)
      ensures events == old(events) + SpliceEvents(old(length), index, count, |items|, maxLength)
    {
      hide Ring, Slot, Latest;
      DeleteThenInsert(Contents(), index, count, items);
      hide Replaced;
      if count > 0 {
        Delete(index, count);
        events := events + [Deleted(index, count)];
      }
      InsertAndTrim(index, items);
    }

    /** Writes `items` from `index` on, around the end if need be. */
    method WriteAll(index: nat, items: seq<T>)
      requires Valid() && |items| <= maxLength && index <= maxLength
      modifies data
      ensures Valid()
      ensures forall p :: 0 <= p < maxLength ==>
                View()[p] == if index <= p < index + |items| then items[p - index]
                             else if p + maxLength < index + |items| then items[p + maxLength - index]
                             else old(View())[p]
    {
      hide Ring, Slot;
      ghost var v := View();
      for t := 0 to |items|
        invariant Valid()
        invariant forall p :: 0 <= p < maxLength ==>
                    View()[p] == if index <= p < index + t then items[p - index]
                                 else if p + maxLength < index + t then items[p + maxLength - index]
                                 else v[p]
      {
        Set(index + t, items[t]);
      }
    }

    /** Shifts the tail up and writes the items: positions up to `length + |items|` of the turned ring. */
    method Insert(index: nat, items: seq<T>)
      requires Valid() && index <= length && length + |items| <= maxLength + index
      modifies data
      ensures Valid()
      ensures var c := old(Contents());
              var target := Replaced(c, index, 0, items);
              forall k :: Max0(length + |items| - maxLength) <= k < length + |items| ==> View()[Wrap(k, maxLength)] == target[k]
    {
      hide Ring, Slot;
      ghost var c := Contents();
      var n := |items|;
      Open(index, n);
      ghost var v := View();
      WriteAll(index, items);
      ghost var target := Replaced(c, index, 0, items);
      forall k | Max0(length + n - maxLength) <= k < length + n ensures View()[Wrap(k, maxLength)] == target[k] {
        if k < index {
          assert v[k] == c[k];
        } else if k >= index + n {
          assert v[Wrap((k - n) + n, maxLength)] == c[k - n];
        }
      }
    }

    /** Copies `count` elements `offset` places up, last first. */
    method CopyUp(start: nat, count: nat, offset: nat)
      requires Valid() && offset > 0 && start + count <= length && start + offset <= length && count + offset <= maxLength
      modifies data
      ensures Valid()
      ensures forall p {:trigger View()[p]} :: 0 <= p < maxLength ==>
                View()[p] == if start + offset <= p < start + offset + count then old(View())[p - offset]
                             else if start + offset <= p + maxLength < start + offset + count then old(View())[p + maxLength - offset]
                             else old(View())[p]
    {
      hide Ring, Slot;
      ghost var v := View();
      var s := count;
      while s > 0
        invariant Valid() && 0 <= s <= count
        invariant forall p {:trigger View()[p]} :: 0 <= p < maxLength ==>
                    View()[p] == if start + offset + s <= p < start + offset + count then v[p - offset]
                                 else if start + offset + s <= p + maxLength < start + offset + count then v[p + maxLength - offset]
                                 else v[p]
      {
        s := s - 1;
        var x := Read(start + s);
        Set(start + s + offset, x);
      }
    }

    /** Copies `count` elements `offset` places down, first first. */
    method CopyDown(start: nat, count: nat, offset: nat)
      requires Valid() && start + count <= length && offset <= start
      modifies data
      ensures Valid()
      ensures forall p {:trigger View()[p]} :: 0 <= p < maxLength ==>
                View()[p] == if start - offset <= p < start - offset + count then old(View())[p + offset] else old(View())[p]
    {
      hide Ring, Slot;
      ghost var v := View();
      for s := 0 to count
        invariant Valid()
        invariant forall p {:trigger View()[p]} :: 0 <= p < maxLength ==>
                    View()[p] == if start - offset <= p < start - offset + s then v[p + offset] else v[p]
      {
        var x := Read(start + s);
        Set(start + s - offset, x);
      }
    }

    /** Trims one by one until the list fits. */
    method TrimOneByOne(total: nat)
      requires Valid() && total <= 2 * maxLength
      modifies this`startIndex, this`length, this`events
      ensures Valid() && length == total - Max0(total - maxLength) && startIndex == old(startIndex) + Max0(total - maxLength)
      ensures events == old(events) + seq(Max0(total - maxLength), _ => Trimmed(1))
    {
      var rest := total;
      while rest > maxLength
        invariant rest == total - (startIndex - old(startIndex))
        invariant old(startIndex) <= startIndex <= old(startIndex) + Max0(total - maxLength)
        invariant events == old(events) + seq(startIndex - old(startIndex), _ => Trimmed(1))
      {
        rest := rest - 1;
        startIndex := startIndex + 1;
        events := events + [Trimmed(1)];
      }
      length := rest;
    }

    /** Takes the places up to `target` into the list and trims one by one until it fits. */
    method TrimExcess(ghost target: seq<T>, total: nat)
      requires Valid() && length <= total == |target| <= 2 * maxLength
      requires forall k :: Max0(total - maxLength) <= k < total ==> View()[Wrap(k, maxLength)] == target[k]
      modifies this`startIndex, this`length, this`events
      ensures Valid() && Contents() == Latest(target, maxLength)
      ensures events == old(events) + seq(Max0(total - maxLength), _ => Trimmed(1))
    {
      hide Ring, Slot;
      ghost var v := View();
      RingTurn(data[..], startIndex, Max0(total - maxLength));
      TrimOneByOne(total);
      Turned(v, View(), target);
    }

    method ShiftUp(start: nat, count: nat, offset: nat)
      requires Valid() && offset > 0 && start + count <= length && start + offset <= length && count + offset <= maxLength
      modifies this`startIndex, this`length, this`events, data
      ensures Valid() && Contents() == Latest(Moved(old(Contents()), start, count, start + offset), maxLength)
      ensures events == old(events) + seq(Max0(start + count + offset - maxLength), _ => Trimmed(1))
    {
      hide Ring, Slot;
      ghost var c, v := Contents(), View();
      CopyUp(start, count, offset);
      MovedUp(v, View(), c, start, count, offset);
      var total := start + count + offset;
      hide Moved;
      if total > length {
        TrimExcess(Moved(c, start, count, start + offset), total);
      }
    }

    method ShiftDown(start: nat, count: nat, offset: nat)
      requires Valid() && start + count <= length && offset <= start
      modifies data
      ensures Valid() && Contents() == Moved(old(Contents()), start, count, start - offset)
    {
      hide Ring, Slot;
      ghost var c, v := Contents(), View();
      CopyDown(start, count, offset);
      MovedDown(v, View(), c, start, count, offset);
    }

    /** Moves a block of elements within the list, or past its end into free or oldest places. */
    method ShiftElements(start: int, count: int, offset: int) returns (ok: bool)
      requires Valid()
      requires count > 0 && 0 <= start < length && start + offset >= 0 ==>
                 start + count <= length && (offset > 0 ==> start + offset <= length && count + offset <= maxLength)
      modifies this`startIndex, this`length, this`events, data
      ensures Valid()
      ensures ok <==> count <= 0 || (0 <= start < old(length) && start + offset >= 0)
      ensures !ok || count <= 0 ==> Contents() == old(Contents()) && events == old(events)
      ensures ok && count > 0 ==>
                && Contents() == Latest(Moved(old(Contents()), start, count, start + offset), maxLength)
                && events == old(events) + seq(Max0(start + count + offset - maxLength), _ => Trimmed(1))
    {
      hide Ring, Slot;
      if count <= 0 {
        return true;
      }
      if start < 0 || start >= length {
        return false;
      }
      if start + offset < 0 {
        return false;
      }
      if offset > 0 {
        ShiftUp(start, count, offset);
      } else {
        ShiftDown(start, count, -offset);
      }
      return true;
    }
  }

  /** Turning the ring brings the end of `target` to its start. */
  lemma Turned<T>(v: seq<T>, w: seq<T>, target: seq<T>)
    requires |v| == |w| && |target| <= 2 * |v| && w == v[Max0(|target| - |v|)..] + v[..Max0(|target| - |v|)]
    requires forall k :: Max0(|target| - |v|) <= k < |target| ==> v[Wrap(k, |v|)] == target[k]
    ensures w[..|target| - Max0(|target| - |v|)] == Latest(target, |v|)
  {
  }

  lemma GapClosed<T>(v: seq<T>, w: seq<T>, length: nat, index: nat, count: nat)
    requires |v| == |w| && index + count <= length <= |v|
    requires forall p {:trigger w[p]} :: 0 <= p < length ==> w[p] == if index <= p < length - count then v[p + count] else v[p]
    ensures w[..length - count] == Replaced(v[..length], index, count, [])
  {
  }

  lemma MovedDown<T>(v: seq<T>, w: seq<T>, c: seq<T>, start: nat, count: nat, offset: nat)
    requires |v| == |w| && c <= v && start + count <= |c| && offset <= start
    requires forall p {:trigger w[p]} :: 0 <= p < |v| ==>
               w[p] == if start - offset <= p < start - offset + count then v[p + offset] else v[p]
    ensures w[..|c|] == Moved(c, start, count, start - offset)
  {
  }

  lemma MovedUp<T>(v: seq<T>, w: seq<T>, c: seq<T>, start: nat, count: nat, offset: nat)
    requires |v| == |w| > 0 && c <= v && offset > 0
    requires start + count <= |c| && start + offset <= |c| && count + offset <= |v|
    requires forall p {:trigger w[p]} :: 0 <= p < |v| ==>
               w[p] == if start + offset <= p < start + offset + count then v[p - offset]
                       else if start + offset <= p + |v| < start + offset + count then v[p + |v| - offset]
                       else v[p]
    ensures var target := Moved(c, start, count, start + offset);
            && |target| == (if start + offset + count > |c| then start + offset + count else |c|)
            && (forall k :: Max0(|target| - |v|) <= k < |target| ==> w[Wrap(k, |v|)] == target[k])
            && (|target| == |c| ==> w[..|c|] == target)
  {
  }
}
