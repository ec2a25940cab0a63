/** A first-in-first-out queue over a ring buffer. */
module RingBuffers {
  import opened Options

  /** The slot i places behind head in a ring of n. */
  function Slot(n: nat, head: nat, i: nat): nat {
    if head + i < n then head + i else head + i - n
  }

  lemma SlotIsModulo(n: nat, head: nat, i: nat)
    requires head < n && i <= n
    ensures (head + i) % n == Slot(n, head, i) < n
  {
    if head + i >= n {
      ModuloOnce(n, head + i - n);
    }
  }

  lemma ModuloOnce(n: nat, r: nat)
    requires r < n
    ensures (n + r) % n == r
  {
  }

  /** The count elements from head on, in logical order. */
  function Ring<T>(items: seq<T>, head: nat, count: nat): (s: seq<T>)
    requires count <= |items| && (items == [] || head < |items|)
    ensures |s| == count
    ensures forall i {:trigger s[i]} :: 0 <= i < count ==> s[i] == items[Slot(|items|, head, i)]
  {
    seq(count, i requires 0 <= i < count => items[Slot(|items|, head, i)])
  }

  /** Slots outside the queue hold the zero value. */
  ghost predicate Zeroed<T>(items: seq<T>, head: nat, count: nat, zero: T)
    requires count <= |items| && (items == [] || head < |items|)
  {
    forall i {:trigger Slot(|items|, head, i)} :: count <= i < |items| ==> items[Slot(|items|, head, i)] == zero
  }

  lemma SlotsDiffer(n: nat, head: nat, i: nat, j: nat)
    requires head < n && i < n && j < n && i != j
    ensures Slot(n, head, i) != Slot(n, head, j)
  {
  }

  lemma PushBack<T>(items: seq<T>, head: nat, count: nat, v: T, zero: T)
    requires head < |items| && count < |items| && Zeroed(items, head, count, zero)
    ensures var next := items[Slot(|items|, head, count) := v];
      Ring(next, head, count + 1) == Ring(items, head, count) + [v] && Zeroed(next, head, count + 1, zero)
  {
    var n, at := |items|, Slot(|items|, head, count);
    forall i | 0 <= i < n && i != count ensures Slot(n, head, i) != at {
      SlotsDiffer(n, head, i, count);
    }
  }

  lemma PopFront<T>(items: seq<T>, head: nat, count: nat, zero: T)
    requires head < |items| && 0 < count <= |items| && Zeroed(items, head, count, zero)
    ensures var next, after := items[head := zero], Slot(|items|, head, 1);
      after < |items| && Ring(next, after, count - 1) == Ring(items, head, count)[1..] &&
          Zeroed(next, after, count - 1, zero)
  {
    var n, next, after := |items|, items[head := zero], Slot(|items|, head, 1);
    forall i: nat | i < n ensures Slot(n, after, i) == if i + 1 < n then Slot(n, head, i + 1) else head {
    }
    forall i: nat | 0 < i < n ensures Slot(n, head, i) != head {
    }
    var s, t := Ring(items, head, count), Ring(next, after, count - 1);
    forall i | 0 <= i < count - 1 ensures t[i] == s[i + 1] {
    }
  }

  lemma PushBeforeFront<T>(items: seq<T>, head: nat, count: nat, v: T, zero: T)
    requires head < |items| && count < |items| && Zeroed(items, head, count, zero)
    ensures var before := Slot(|items|, head, |items| - 1); var next := items[before := v];
      before < |items| && Ring(next, before, count + 1) == [v] + Ring(items, head, count) &&
          Zeroed(next, before, count + 1, zero)
  {
    var n, before := |items|, Slot(|items|, head, |items| - 1);
    var next := items[before := v];
    forall i: nat | 0 < i < n ensures Slot(n, before, i) == Slot(n, head, i - 1) && Slot(n, before, i) != before {
    }
    var s, t := Ring(items, head, count), Ring(next, before, count + 1);
    forall i | 0 < i < count + 1 ensures t[i] == s[i - 1] {
    }
  }

  class Queue<T(==)> {
    var items: array<T>
    var head: nat
    var tail: nat
    var count: nat
    const zero: T

    ghost predicate Valid()
      reads this, items
    {
      && count <= items.Length
      && (if items.Length == 0 then head == 0 && tail == 0
          else head < items.Length && tail == Slot(items.Length, head, count))
      && Zeroed(items[..], head, count, zero)
    }

    /** Front to back. */
    ghost function Contents(): seq<T>
      reads this, items
      requires Valid()
    {
      Ring(items[..], head, count)
    }

    /** The zero value: no buffer at all. */
    constructor Zero(zero: T)
      ensures Valid() && Contents() == [] && items.Length == 0 && this.zero == zero && fresh(items)
    {
      this.zero := zero;
      items := new T[0];
      head, tail, count := 0, 0, 0;
    }

    constructor (capacity: int, zero: T)
      ensures Valid() && Contents() == [] && this.zero == zero && fresh(items)
      ensures items.Length == if capacity < 1 then 1 else capacity
    {
      this.zero := zero;
      items := new T[if capacity < 1 then 1 else capacity](_ => zero);
      head, tail, count := 0, 0, 0;
    }

    method Push(v: T)
      requires Valid()
      modifies this, items
      ensures Valid() && (items == old(items) || fresh(items))
      ensures Contents() == old(Contents()) + [v]
      ensures items.Length == if old(count) < old(items.Length) then old(items.Length) else old(Doubled())
    {
      if count == items.Length {
        Grow();
      }
      PushBack(items[..], head, count, v, zero);
      SlotIsModulo(items.Length, tail, 1);
      items[tail] := v;
      tail := (tail + 1) % items.Length;
      count := count + 1;
    }

    function Doubled(): nat
      reads this
    {
      if items.Length == 0 then 1 else 2 * items.Length
    }

    /** Twice the room, and the elements copied out in logical order. */
    method Grow()
      requires Valid() && count == items.Length
      modifies this
      ensures Valid() && fresh(items) && items.Length == old(Doubled()) && head == 0
      ensures Contents() == old(Contents()) && count == old(count)
    {
      var from, h, t, z := items, head, tail, zero;
      var bigger := new T[Doubled()](_ => z);
      var n := from.Length - h;
      for k := 0 to n
        modifies bigger
        invariant forall i {:trigger bigger[i]} :: 0 <= i < bigger.Length ==>
            bigger[i] == if i < k then from[h + i] else z
      {
        bigger[k] := from[h + k];
      }
      for k := 0 to t
        modifies bigger
        invariant forall i {:trigger bigger[i]} :: 0 <= i < bigger.Length ==>
          bigger[i] == if i < n then from[h + i] else if i < n + k then from[i - n] else z
      {
        bigger[n + k] := from[k];
      }
      items := bigger;
      head := 0;
      tail := count;
      assert Contents() == old(Contents());
    }

    method Pop() returns (r: Option<T>)
      requires Valid()
      modifies this, items
      ensures Valid() && items == old(items)
      ensures r == if old(Contents()) == [] then None else Some(old(Contents())[0])
      ensures Contents() == if old(Contents()) == [] then [] else old(Contents())[1..]
    {
      if count == 0 {
        return None;
      }
      var v := items[head];
      PopFront(items[..], head, count, zero);
      SlotIsModulo(items.Length, head, 1);
      items[head] := zero;
      head := (head + 1) % items.Length;
      count := count - 1;
      return Some(v);
    }

    method PushFront(v: T)
      requires Valid()
      modifies this, items
      ensures Valid() && (items == old(items) || fresh(items))
      ensures Contents() == [v] + old(Contents())
    {
      if count == items.Length {
        Grow();
      }
      PushBeforeFront(items[..], head, count, v, zero);
      SlotIsModulo(items.Length, head, items.Length - 1);
      head := (head - 1 + items.Length) % items.Length;
      items[head] := v;
      count := count + 1;
    }

    /** Reads the ring without changing it. */
    method Slice() returns (out: seq<T>)
      requires Valid()
      ensures out == Contents()
    {
      out := [];
      for i := 0 to count
        invariant out == Contents()[..i]
      {
        SlotIsModulo(items.Length, head, i);
        out := out + [items[(head + i) % items.Length]];
      }
    }

    /** Overwrites place i by moving every later element one place towards the front. */
    method CloseGap(i: nat)
      requires Valid() && i < count
      modifies items
      ensures Shifted(old(items[..]), items[..], head, count, i, count - 1)
    {
      ghost var was := items[..];
      var n := items.Length;
      for j := i to count - 1
        invariant Shifted(was, items[..], head, count, i, j)
      {
        ShiftOne(was, items[..], head, count, i, j);
        SlotIsModulo(n, head, j);
        SlotIsModulo(n, head, j + 1);
        MoveInto((head + j) % n, (head + j + 1) % n);
      }
    }

    method MoveInto(to: nat, from: nat)
      requires to < items.Length && from < items.Length
      modifies items
      ensures items[..] == old(items[..])[to := old(items[..])[from]]
    {
      items[to] := items[from];
    }

    /** One element less, and one slot zeroed, wherever the ring wraps. */
    method RemoveAt(i: nat) returns (found: T)
      requires Valid() && i < count
      modifies this, items
      ensures Valid() && items == old(items)
      ensures found == old(Contents())[i]
      ensures Contents() == old(Contents())[..i] + old(Contents())[i + 1..]
    {
      ghost var was := items[..];
      var n := items.Length;
      SlotIsModulo(n, head, i);
      SlotIsModulo(n, head, count - 1);
      found := items[(head + i) % n];
      CloseGap(i);
      var last := (head + count - 1) % n;
      GapClosed(was, items[..], head, count, i, zero);
      items[last] := zero;
      tail := last;
      count := count - 1;
    }

    /** Finds the foremost accepted element and takes it out of the ring. */
    method RemoveFunc(accepts: T -> bool) returns (r: Option<T>)
      requires Valid()
      modifies this, items
      ensures Valid() && items == old(items)
      ensures var c, k := old(Contents()), FirstAccepted(old(Contents()), accepts);
        && r == (if k < |c| then Some(c[k]) else None)
        && Contents() == if k < |c| then c[..k] + c[k + 1..] else c
    {
      ghost var c := Contents();
      for i := 0 to count
        invariant items == old(items) && Valid() && Contents() == c && count == |c|
        invariant forall k :: 0 <= k < i ==> !accepts(c[k])
        invariant FirstAccepted(c, accepts) == i + FirstAccepted(c[i..], accepts)
      {
        SlotIsModulo(items.Length, head, i);
        assert c[i] == items[..][Slot(items.Length, head, i)];
        assert c[i..][0] == c[i] && c[i..][1..] == c[i + 1..];
        if accepts(items[(head + i) % items.Length]) {
          var found := RemoveAt(i);
          return Some(found);
        }
      }
      return None;
    }
  }

  /** The position of the first element accepted, or the length. */
  function FirstAccepted<T>(s: seq<T>, accepts: T -> bool): (k: nat)
    ensures k <= |s| && (k < |s| ==> accepts(s[k])) && forall i :: 0 <= i < k ==> !accepts(s[i])
  {
    if s == [] || accepts(s[0]) then 0 else
      var k := FirstAccepted(s[1..], accepts);
      assert forall i :: 1 <= i < k + 1 ==> s[i] == s[1..][i - 1];
      1 + k
  }

  /** The element at slot i of the ring. */
  function At<T>(items: seq<T>, head: nat, i: nat): T
    requires head < |items| && i < |items|
  {
    items[Slot(|items|, head, i)]
  }

  /** The places from i up to j hold what was one further back; the others are as they were. */
  ghost predicate Shifted<T>(was: seq<T>, now: seq<T>, head: nat, count: nat, i: nat, j: nat) {
    && |was| == |now| && head < |was| && i <= j < count <= |was|
    && forall k: nat {:trigger At(now, head, k)} :: k < |was| ==>
      At(now, head, k) == if i <= k < j then At(was, head, k + 1) else At(was, head, k)
  }

  lemma ShiftOne<T>(was: seq<T>, now: seq<T>, head: nat, count: nat, i: nat, j: nat)
    requires Shifted(was, now, head, count, i, j) && j + 1 < count
    ensures Shifted(was, now[Slot(|was|, head, j) := At(now, head, j + 1)], head, count, i, j + 1)
  {
    var n := |was|;
    var next := now[Slot(n, head, j) := At(now, head, j + 1)];
    forall k: nat {:trigger At(next, head, k)} | k < n
      ensures At(next, head, k) == if i <= k < j + 1 then At(was, head, k + 1) else At(was, head, k)
    {
      if k != j {
        SlotsDiffer(n, head, k, j);
        assert At(now, head, k) == At(next, head, k);
      }
    }
  }

  lemma GapClosed<T>(was: seq<T>, now: seq<T>, head: nat, count: nat, i: nat, zero: T)
    requires count > 0 && Shifted(was, now, head, count, i, count - 1) && Zeroed(was, head, count, zero)
    ensures var last := Slot(|was|, head, count - 1); var next := now[last := zero]; var c := Ring(was, head, count);
      Ring(next, head, count - 1) == c[..i] + c[i + 1..] && Zeroed(next, head, count - 1, zero)
  {
    var n, last := |was|, Slot(|was|, head, count - 1);
    var next, c := now[last := zero], Ring(was, head, count);
    forall k: nat {:trigger At(next, head, k)} | k < n && k != count - 1
      ensures At(next, head, k) == if i <= k < count - 1 then At(was, head, k + 1) else At(was, head, k)
    {
      SlotsDiffer(n, head, k, count - 1);
      assert At(now, head, k) == At(next, head, k);
    }
    var t := Ring(next, head, count - 1);
    var u := c[..i] + c[i + 1..];
    forall k | 0 <= k < count - 1 ensures t[k] == u[k] {
      assert t[k] == At(next, head, k);
      assert u[k] == if k < i then c[k] else c[k + 1];
    }
    assert t == u;
    forall k {:trigger Slot(n, head, k)} | count - 1 <= k < n ensures next[Slot(n, head, k)] == zero {
      if k >= count {
        assert At(next, head, k) == At(was, head, k);
      }
    }
  }
}
