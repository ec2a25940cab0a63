/** An open-addressing hash table: linear probing, tombstones, and a rebuild when it fills up. */
module HashMapModel {
  import opened BitMasks

  type Key(==, !new)
  type Value(!new)

  datatype Slot = Empty | Deleted | Occupied(key: Key, value: Value)

  // ---------- Positions ----------

  /** The o-th slot of a probe that starts at `start`. */
  function At(start: nat, o: nat, n: nat): nat
    requires start < n && o < n
  {
    if start + o < n then start + o else start + o - n
  }

  /** How far along a probe from `start` a slot lies. */
  function Offset(start: nat, i: nat, n: nat): (o: nat)
    requires start < n && i < n
    ensures o < n && At(start, o, n) == i
    ensures forall p: nat :: p < n && At(start, p, n) == i ==> p == o
  {
    if start <= i then i - start else i + n - start
  }

  lemma MulGrows(n: nat, a: nat, b: nat)
    requires a <= b
    ensures n * a <= n * b
  {
  }

  lemma AtIsModulo(start: nat, o: nat, n: nat)
    requires start < n && o < n
    ensures (start + o) % n == At(start, o, n)
  {
    var x := start + o;
    var d, r := x / n, x % n;
    assert x == n * d + r && 0 <= r < n;
    if d >= 1 {
      MulGrows(n, 1, d);
    }
    if d >= 2 {
      MulGrows(n, 2, d);
    }
    assert d == 0 || d == 1;
  }

  // ---------- The table and the map it stands for ----------

  /** No empty slot among the first `o` of a probe from `start`. */
  ghost predicate NoGap(s: seq<Slot>, start: nat, o: nat)
    requires start < |s| && o <= |s|
  {
    forall j: nat {:trigger At(start, j, |s|)} :: j < o ==> s[At(start, j, |s|)] != Empty
  }

  /** A stored key is where a probe for it will find it, and the map agrees on its value. */
  ghost predicate SlotOk(s: seq<Slot>, hash: Key -> nat, m: map<Key, Value>, i: nat)
    requires |s| > 0
  {
    i < |s| && s[i].Occupied? ==>
      && s[i].key in m && m[s[i].key] == s[i].value
      && var start := hash(s[i].key) % |s|; NoGap(s, start, Offset(start, i, |s|))
  }

  ghost predicate Distinct(s: seq<Slot>, i: nat, j: nat) {
    i < |s| && j < |s| && s[i].Occupied? && s[j].Occupied? && s[i].key == s[j].key ==> i == j
  }

  ghost predicate Holds(s: seq<Slot>, i: nat, k: Key) {
    i < |s| && s[i].Occupied? && s[i].key == k
  }

  ghost predicate Stored(s: seq<Slot>, m: map<Key, Value>, k: Key) {
    k in m ==> exists i: nat :: Holds(s, i, k)
  }

  /** The slots represent the map. */
  ghost predicate Represents(s: seq<Slot>, hash: Key -> nat, m: map<Key, Value>) {
    && |s| > 0
    && (forall i: nat {:trigger SlotOk(s, hash, m, i)} :: SlotOk(s, hash, m, i))
    && (forall i: nat, j: nat {:trigger Distinct(s, i, j)} :: Distinct(s, i, j))
    && (forall k {:trigger Stored(s, m, k)} :: Stored(s, m, k))
  }

  function Used(s: seq<Slot>): nat {
    if s == [] then 0 else (if s[0].Occupied? then 1 else 0) + Used(s[1..])
  }

  function Dead(s: seq<Slot>): nat {
    if s == [] then 0 else (if s[0].Deleted? then 1 else 0) + Dead(s[1..])
  }

  lemma {:induction false} CountUpdate(s: seq<Slot>, i: nat, x: Slot)
    requires i < |s|
    ensures Used(s[i := x]) == Used(s) - (if s[i].Occupied? then 1 else 0) + (if x.Occupied? then 1 else 0)
    ensures Dead(s[i := x]) == Dead(s) - (if s[i].Deleted? then 1 else 0) + (if x.Deleted? then 1 else 0)
  {
    if i == 0 {
      assert s[i := x][1..] == s[1..];
    } else {
      assert s[i := x][1..] == s[1..][i - 1 := x];
      CountUpdate(s[1..], i - 1, x);
    }
  }

  /** A table that is not full of keys and tombstones has an empty slot. */
  lemma {:induction false} EmptySlotExists(s: seq<Slot>) returns (i: nat)
    requires Used(s) + Dead(s) < |s|
    ensures i < |s| && s[i] == Empty
  {
    if s[0] == Empty {
      i := 0;
    } else {
      i := EmptySlotExists(s[1..]);
      i := i + 1;
    }
  }

  // ---------- What a probe tells ----------

  /** A slot where the key may be stored: free, and reached without crossing an empty slot. */
  ghost predicate CanTake(s: seq<Slot>, hash: Key -> nat, k: Key, i: nat) {
    && i < |s| && !s[i].Occupied?
    && var start := hash(k) % |s|; NoGap(s, start, Offset(start, i, |s|))
  }

  /** Every slot before this one on the way from `start` is taken: it is the first tombstone, or the empty slot. */
  ghost predicate FirstFree(s: seq<Slot>, start: nat, i: nat)
    requires start < |s| && i < |s|
  {
    forall j: nat {:trigger At(start, j, |s|)} :: j < Offset(start, i, |s|) ==> s[At(start, j, |s|)].Occupied?
  }

  /** The first `o` slots of the probe do not hold the key. */
  ghost predicate Passed(s: seq<Slot>, start: nat, k: Key, o: nat)
    requires start < |s| && o <= |s|
  {
    forall j: nat {:trigger At(start, j, |s|)} :: j < o ==>
      var x := s[At(start, j, |s|)]; x != Empty && (x.Occupied? ==> x.key != k)
  }

  /** A key that the first `o` slots do not hold cannot lie beyond an empty slot either. */
  lemma NotBeyondEmpty(s: seq<Slot>, hash: Key -> nat, m: map<Key, Value>, k: Key, o: nat, i: nat)
    requires Represents(s, hash, m) && o < |s|
    requires Passed(s, hash(k) % |s|, k, o) && s[At(hash(k) % |s|, o, |s|)] == Empty
    ensures !Holds(s, i, k)
  {
    if i < |s| {
      assert SlotOk(s, hash, m, i);
      var p := Offset(hash(k) % |s|, i, |s|);
    }
  }

  /** A probe that meets an empty slot has seen every slot the key could be in. */
  lemma NeverExhausted(s: seq<Slot>, start: nat, k: Key)
    requires start < |s| && Used(s) + Dead(s) < |s|
    ensures !Passed(s, start, k, |s|)
  {
    var e := EmptySlotExists(s);
    var o := Offset(start, e, |s|);
  }

  lemma AbsentAtEmpty(s: seq<Slot>, hash: Key -> nat, m: map<Key, Value>, k: Key, o: nat)
    requires Represents(s, hash, m) && o < |s|
    requires Passed(s, hash(k) % |s|, k, o) && s[At(hash(k) % |s|, o, |s|)] == Empty
    ensures k !in m
  {
    assert Stored(s, m, k);
    forall i: nat {
      NotBeyondEmpty(s, hash, m, k, o, i);
    }
  }

  // ---------- The three changes ----------

  /** Storing a new key in a free slot of its chain. */
  lemma Insert(s: seq<Slot>, hash: Key -> nat, m: map<Key, Value>, i: nat, k: Key, v: Value)
    requires Represents(s, hash, m) && k !in m && CanTake(s, hash, k, i)
    ensures Represents(s[i := Occupied(k, v)], hash, m[k := v])
  {
    var t, m' := s[i := Occupied(k, v)], m[k := v];
    forall x: nat ensures SlotOk(t, hash, m', x) {
      assert SlotOk(s, hash, m, x);
    }
    forall x: nat, y: nat ensures Distinct(t, x, y) {
      assert Distinct(s, x, y) && SlotOk(s, hash, m, x) && SlotOk(s, hash, m, y);
    }
    forall x ensures Stored(t, m', x) {
      if x == k {
        assert Holds(t, i, k);
      } else if x in m {
        assert Stored(s, m, x);
        var j: nat :| Holds(s, j, x);
        assert Holds(t, j, x);
      }
    }
  }

  /** Overwriting the value of a key in place. */
  lemma Overwrite(s: seq<Slot>, hash: Key -> nat, m: map<Key, Value>, i: nat, v: Value)
    requires Represents(s, hash, m) && i < |s| && s[i].Occupied?
    ensures s[i].key in m && Represents(s[i := Occupied(s[i].key, v)], hash, m[s[i].key := v])
  {
    var k := s[i].key;
    var t, m' := s[i := Occupied(k, v)], m[k := v];
    assert SlotOk(s, hash, m, i);
    forall x: nat ensures SlotOk(t, hash, m', x) {
      assert SlotOk(s, hash, m, x) && Distinct(s, x, i);
    }
    forall x: nat, y: nat ensures Distinct(t, x, y) { assert Distinct(s, x, y); }
    forall x ensures Stored(t, m', x) {
      if x == k {
        assert Holds(t, i, k);
      } else if x in m {
        assert Stored(s, m, x);
        var j: nat :| Holds(s, j, x);
        assert Holds(t, j, x);
      }
    }
  }

  /** Leaving a tombstone: probes for other keys still cross the slot. */
  lemma Bury(s: seq<Slot>, hash: Key -> nat, m: map<Key, Value>, i: nat)
    requires Represents(s, hash, m) && i < |s| && s[i].Occupied?
    ensures s[i].key in m && Represents(s[i := Deleted], hash, m - {s[i].key})
  {
    var k := s[i].key;
    var t, m' := s[i := Deleted], m - {k};
    assert SlotOk(s, hash, m, i);
    forall x: nat ensures SlotOk(t, hash, m', x) {
      assert SlotOk(s, hash, m, x) && Distinct(s, x, i);
    }
    forall x: nat, y: nat ensures Distinct(t, x, y) { assert Distinct(s, x, y); }
    forall x ensures Stored(t, m', x) {
      if x in m && x != k {
        assert Stored(s, m, x);
        var j: nat :| Holds(s, j, x);
        assert Holds(t, j, x);
      }
    }
  }

  // ---------- Sizes ----------

  predicate PowerOfTwo(n: nat) {
    n == 1 || (n > 1 && n % 2 == 0 && PowerOfTwo(n / 2))
  }

  /** Slots needed for n keys at a load of at most 7/10. */
  function Needed(n: nat): nat { n * 10 / 7 + 1 }

  /** The smallest power of two, from 8 on, that keeps n keys under the maximum load. */
  ghost predicate Fits(n: nat, size: nat) {
    PowerOfTwo(size) && size >= 8 && size >= Needed(n) && (size == 8 || size / 2 < Needed(n))
  }

  lemma {:induction false} PowersOfTwo(k: nat)
    ensures PowerOfTwo(Pow2(k))
  {
    if k > 0 {
      PowersOfTwo(k - 1);
      PowPositive(k - 1);
      DoubledIsPower(Pow2(k - 1));
    }
  }

  lemma {:induction false} ExponentOf(n: nat) returns (k: nat)
    requires PowerOfTwo(n)
    ensures n == Pow2(k)
  {
    k := 0;
    if n > 1 {
      k := ExponentOf(n / 2);
      k := k + 1;
    }
  }

  lemma PowerOfTwoIff(n: nat)
    ensures PowerOfTwo(n) <==> exists k: nat :: n == Pow2(k)
  {
    if PowerOfTwo(n) {
      var k := ExponentOf(n);
    }
    if k: nat :| n == Pow2(k) {
      PowersOfTwo(k);
    }
  }

  /** The least power of two, from 8 on, of which the keys take no more than seven tenths. */
  lemma FitsIff(n: nat, size: nat)
    ensures Fits(n, size) <==>
      && (exists k: nat :: size == Pow2(k)) && size >= 8 && n * 10 < size * 7
      && (size == 8 || n * 10 >= size / 2 * 7)
  {
    PowerOfTwoIff(size);
  }

  lemma OneKeyNeedsEight(size: nat)
    requires Fits(1, size)
    ensures size == 8
  {
    assert Needed(1) == 2;
  }

  lemma FitsLeavesRoom(n: nat, size: nat)
    requires Fits(n, size)
    ensures n * 10 < size * 7
  {
  }

  lemma {:induction false} PowersAreEven(n: nat)
    requires PowerOfTwo(n) && n > 1
    ensures n % 2 == 0
  {
  }

  lemma DoubledIsPower(n: nat)
    requires PowerOfTwo(n)
    ensures PowerOfTwo(2 * n) && 2 * n / 2 == n
  {
    assert 2 * n / 2 == n && 2 * n % 2 == 0;
  }

  /** A rebuild after one more key never more than doubles the table. */
  lemma AtMostDoubles(used: nat, dead: nat, oldSize: nat, size: nat)
    requires PowerOfTwo(oldSize) && oldSize >= 8 && (used + dead) * 10 <= oldSize * 7
    requires Fits(used + 1, size)
    ensures size <= 2 * oldSize
  {
    if size > 8 {
      assert size / 2 <= oldSize + 1;
      PowersAreEven(oldSize);
      PowersAreEven(size);
      PowersAreEven(size / 2);
    }
  }

  lemma {:induction false} PowersApart(a: nat, b: nat)
    requires PowerOfTwo(a) && PowerOfTwo(b) && a < b
    ensures 2 * a <= b
  {
    PowersAreEven(b);
    if a > 1 {
      PowersAreEven(a);
      PowersApart(a / 2, b / 2);
    }
  }

  /** Where no tombstone counts, a rebuild for one key too many doubles the table exactly. */
  lemma ExactlyDoubles(used: nat, oldSize: nat, size: nat)
    requires PowerOfTwo(oldSize) && oldSize >= 8 && used * 10 <= oldSize * 7 < (used + 1) * 10
    requires Fits(used + 1, size)
    ensures size == 2 * oldSize
  {
    AtMostDoubles(used, 0, oldSize, size);
    assert Needed(used + 1) > oldSize;
    PowersApart(oldSize, size);
  }

  // ---------- Runs of operations ----------

  datatype Operation = PutOne(key: Key, value: Value) | DeleteOne(key: Key)

  /** The map after the operations, in order. */
  function After(m: map<Key, Value>, ops: seq<Operation>): map<Key, Value> {
    if ops == [] then m else
      var before := After(m, ops[..|ops| - 1]);
      match ops[|ops| - 1]
      case PutOne(k, v) => before[k := v]
      case DeleteOne(k) => before - {k}
  }

  function Puts(ops: seq<Operation>): nat {
    if ops == [] then 0 else Puts(ops[..|ops| - 1]) + if ops[|ops| - 1].PutOne? then 1 else 0
  }

  lemma {:induction false} PutsGrow(ops: seq<Operation>, i: nat)
    requires i <= |ops|
    ensures Puts(ops[..i]) <= Puts(ops)
    decreases |ops|
  {
    if i < |ops| {
      PutsGrow(ops[..|ops| - 1], i);
      assert ops[..|ops| - 1][..i] == ops[..i];
    } else {
      assert ops[..i] == ops;
    }
  }
}

/** The mutable table of the source, and what a run of operations does to it. */
module HashMaps {
  import opened Options
  import opened HashMapModel

  class HashMap {
    const hash: Key -> nat
    var slots: array<Slot>
    var count: nat
    var dead: nat
    ghost var contents: map<Key, Value>

    ghost predicate Valid()
      reads this, slots
    {
      && count == |contents|
      && if slots.Length == 0 then contents == map[] && dead == 0
         else
           && PowerOfTwo(slots.Length) && slots.Length >= 8
           && Represents(slots[..], hash, contents)
           && count == Used(slots[..]) && dead == Dead(slots[..])
           && (count + dead) * 10 <= slots.Length * 7
    }

    constructor (capacity: int, hash: Key -> nat)
      ensures Valid() && fresh(slots) && contents == map[] && dead == 0 && this.hash == hash
      ensures if capacity > 0 then Fits(capacity, slots.Length) && capacity * 10 <= slots.Length * 7
              else slots.Length == 0
    {
      this.hash := hash;
      var size := 0;
      if capacity > 0 {
        size := SlotsFor(capacity);
        FitsLeavesRoom(capacity, size);
      }
      slots := new Slot[size](_ => Empty);
      count, dead, contents := 0, 0, map[];
      new;
      if size > 0 {
        EmptyTable(slots[..], hash);
      }
    }

    /** Finds the slot of a key, or else the slot where it should go: the first tombstone on the way, if any. */
    method Probe(key: Key) returns (idx: nat, found: bool)
      requires slots.Length > 0 && Represents(slots[..], hash, contents)
      requires Used(slots[..]) + Dead(slots[..]) < slots.Length
      ensures found <==> key in contents
      ensures found ==> Holds(slots[..], idx, key)
      ensures !found ==> CanTake(slots[..], hash, key, idx) && FirstFree(slots[..], hash(key) % slots.Length, idx)
    {
      ghost var s := slots[..];
      var n := slots.Length;
      var start := hash(key) % n;
      var firstTombstone := -1;
      for i := 0 to n
        invariant Passed(s, start, key, i)
        invariant -1 <= firstTombstone < n
        invariant firstTombstone >= 0 ==> CanTake(s, hash, key, firstTombstone) && FirstFree(s, start, firstTombstone)
        invariant firstTombstone < 0 ==> forall j: nat {:trigger At(start, j, n)} :: j < i ==>
            s[At(start, j, n)].Occupied?
      {
        AtIsModulo(start, i, n);
        idx := (start + i) % n;
        match slots[idx]
        case Empty =>
          AbsentAtEmpty(s, hash, contents, key, i);
          if firstTombstone >= 0 {
            return firstTombstone, false;
          }
          return idx, false;
        case Deleted =>
          if firstTombstone < 0 {
            firstTombstone := idx;
          }
        case Occupied(k, _) =>
          if k == key {
            assert SlotOk(s, hash, contents, idx);
            return idx, true;
          }
      }
      NeverExhausted(s, start, key);
      assert false;
    }

    method Get(key: Key) returns (r: Option<Value>)
      requires Valid()
      ensures r == if key in contents then Some(contents[key]) else None
    {
      if count == 0 {
        assert contents == map[];
        return None;
      }
      var idx, found := Probe(key);
      if !found {
        return None;
      }
      assert SlotOk(slots[..], hash, contents, idx);
      r := Some(slots[idx].value);
    }

    /** The first table, made when it is needed. */
    method Allocate()
      requires Valid() && slots.Length == 0
      modifies this`slots
      ensures Valid() && fresh(slots) && slots.Length == 8
    {
      var size := SlotsFor(1);
      OneKeyNeedsEight(size);
      slots := new Slot[size](_ => Empty);
      EmptyTable(slots[..], hash);
    }

    /** Stores an absent key in the slot found for it, which may be a tombstone. */
    method Store(idx: nat, key: Key, value: Value)
      requires slots.Length > 0 && Represents(slots[..], hash, contents) && key !in contents
      requires CanTake(slots[..], hash, key, idx)
      requires count == |contents| == Used(slots[..]) && dead == Dead(slots[..])
      modifies this`count, this`dead, this`contents, slots
      ensures Represents(slots[..], hash, contents) && contents == old(contents)[key := value]
      ensures count == |contents| == Used(slots[..]) == old(count) + 1
      ensures dead == Dead(slots[..]) <= old(dead)
    {
      ghost var s := slots[..];
      CountUpdate(s, idx, Occupied(key, value));
      Insert(s, hash, contents, idx, key, value);
      if slots[idx] == Deleted {
        dead := dead - 1;
      }
      slots[idx] := Occupied(key, value);
      count := count + 1;
      contents := contents[key := value];
      assert slots[..] == s[idx := Occupied(key, value)];
    }

    /** Overwrites the value in the slot that holds the key. */
    method Replace(idx: nat, key: Key, value: Value)
      requires Valid() && slots.Length > 0 && Holds(slots[..], idx, key)
      modifies this`contents, slots
      ensures Valid() && contents == old(contents)[key := value]
    {
      ghost var s := slots[..];
      assert SlotOk(s, hash, contents, idx);
      CountUpdate(s, idx, Occupied(key, value));
      Overwrite(s, hash, contents, idx, value);
      slots[idx] := Occupied(key, value);
      contents := contents[key := value];
      assert slots[..] == s[idx := Occupied(key, value)];
    }

    method Put(key: Key, value: Value)
      requires Valid()
      modifies this, slots
      ensures Valid() && (slots == old(slots) || fresh(slots))
      ensures contents == old(contents)[key := value]
      ensures old(slots.Length) == 0 ==> slots.Length == 8
      ensures old(slots.Length) > 0 ==> slots.Length <= 2 * old(slots.Length)
      ensures key in old(contents) ==> slots == old(slots) && count == old(count) && dead == old(dead)
      ensures slots == old(slots) ==> dead <= old(dead)
      ensures old(slots.Length) > 0 && (old(count) + old(dead) + 1) * 10 <= old(slots.Length) * 7 ==>
        slots == old(slots)
      ensures old(slots.Length) > 0 && slots != old(slots) ==>
        (old(count) + old(dead) + 1) * 10 > old(slots.Length) * 7 && dead == 0 && Fits(count, slots.Length)
      ensures old(slots.Length) > 0 && old(dead) == 0 && slots != old(slots) ==>
        slots.Length == 2 * old(slots.Length)
      ensures old(slots.Length) > 0 && old(dead) == 0 && key !in old(contents) ==>
        (slots != old(slots) <==> (old(count) + 1) * 10 > old(slots.Length) * 7)
    {
      if slots.Length == 0 {
        Allocate();
      }
      var idx, found := Probe(key);
      if found {
        Replace(idx, key, value);
        return;
      }
      ghost var size, keys, graves := slots.Length, count, dead;
      Store(idx, key, value);
      if (count + dead) * 10 > slots.Length * 7 {
        Resize();
        AtMostDoubles(keys, graves, size, slots.Length);
        if graves == 0 {
          ExactlyDoubles(keys, size, slots.Length);
        }
      }
    }

    method Delete(key: Key) returns (ok: bool)
      requires Valid()
      modifies this, slots
      ensures Valid() && slots == old(slots)
      ensures ok <==> key in old(contents)
      ensures contents == old(contents) - {key}
      ensures count + dead == old(count) + old(dead)
    {
      if count == 0 {
        assert contents == map[];
        return false;
      }
      var idx, found := Probe(key);
      if !found {
        return false;
      }
      ghost var s := slots[..];
      CountUpdate(s, idx, Deleted);
      Bury(s, hash, contents, idx);
      slots[idx] := Deleted;
      count := count - 1;
      dead := dead + 1;
      contents := contents - {key};
      assert slots[..] == s[idx := Deleted];
      ok := true;
    }

    /** Stores a key that is not there yet in a table without tombstones. */
    method Place(key: Key, value: Value)
      requires slots.Length > 0 && Represents(slots[..], hash, contents) && key !in contents
      requires count == |contents| == Used(slots[..]) < slots.Length && Dead(slots[..]) == 0
      modifies this`count, this`contents, slots
      ensures Represents(slots[..], hash, contents) && contents == old(contents)[key := value]
      ensures count == |contents| == Used(slots[..]) == old(count) + 1 && Dead(slots[..]) == 0
    {
      var idx, found := Probe(key);
      ghost var s := slots[..];
      Insert(s, hash, contents, idx, key, value);
      CountUpdate(s, idx, Occupied(key, value));
      slots[idx] := Occupied(key, value);
      count := count + 1;
      contents := contents[key := value];
      assert slots[..] == s[idx := Occupied(key, value)];
    }

    /** Rebuilds the table for the keys it holds. Every tombstone goes. */
    method Resize()
      requires slots.Length > 0 && Represents(slots[..], hash, contents)
      requires count == |contents| == Used(slots[..])
      modifies this
      ensures Valid() && fresh(slots) && contents == old(contents) && dead == 0
      ensures Fits(old(count), slots.Length)
    {
      var before := slots;
      ghost var s, all := slots[..], contents;
      var size := SlotsFor(count);
      FitsLeavesRoom(count, size);
      var table := new Slot[size](_ => Empty);
      slots := table;
      count := 0;
      dead := 0;
      contents := map[];
      EmptyTable(slots[..], hash);
      for i := 0 to before.Length
        invariant before[..] == s && slots == table && fresh(table)
        invariant Represents(slots[..], hash, contents)
        invariant count == |contents| == Used(slots[..]) == Used(s[..i]) && dead == 0 == Dead(slots[..])
        invariant Moved(s, i, all, contents)
      {
        UsedPrefix(s, i);
        MoveOne(s, hash, i, all, contents);
        assert before[i] == s[i];
        if !before[i].Occupied? {
          continue;
        }
        Place(before[i].key, before[i].value);
      }
      assert s[..|s|] == s;
      AllMoved(s, hash, all, contents);
    }
  }

  method Do(m: HashMap, op: Operation)
    requires m.Valid()
    modifies m, m.slots
    ensures m.Valid() && (m.slots == old(m.slots) || fresh(m.slots))
    ensures m.contents == After(old(m.contents), [op])
    ensures op.DeleteOne? ==> m.slots == old(m.slots) && m.count + m.dead == old(m.count) + old(m.dead)
    ensures m.slots == old(m.slots) ==> m.count + m.dead <= old(m.count) + old(m.dead) + Puts([op])
    ensures old(m.slots.Length) > 0 && (old(m.count) + old(m.dead) + 1) * 10 <= old(m.slots.Length) * 7 ==>
      m.slots == old(m.slots)
  {
    assert [op][..0] == [];
    match op
    case PutOne(k, v) => m.Put(k, v);
    case DeleteOne(k) =>
      var ok := m.Delete(k);
  }

  /** A new map through any operations. No more insertions than the capacity asked for, whatever is deleted
      and inserted again between them, never rebuild the table. */
  method DoAll(capacity: int, hash: Key -> nat, ops: seq<Operation>) returns (m: HashMap, ghost rebuilt: nat)
    ensures fresh(m) && m.Valid() && m.contents == After(map[], ops)
    ensures Puts(ops) <= capacity ==> rebuilt == 0
  {
    m := new HashMap(capacity, hash);
    rebuilt := 0;
    ghost var table := m.slots;
    for i := 0 to |ops|
      invariant m.Valid() && fresh(m) && fresh(m.slots) && m.contents == After(map[], ops[..i])
      invariant Puts(ops) <= capacity ==> rebuilt == 0 && m.slots == table && m.count + m.dead <= Puts(ops[..i])
    {
      assert ops[..i + 1][..i] == ops[..i];
      PutsGrow(ops, i + 1);
      ghost var before := m.slots;
      Do(m, ops[i]);
      rebuilt := rebuilt + if m.slots == before then 0 else 1;
    }
    assert ops[..|ops|] == ops;
  }

  ghost predicate MovedKey(s: seq<Slot>, i: nat, all: map<Key, Value>, built: map<Key, Value>, k: Key) {
    k in built ==> k in all && built[k] == all[k] && exists j: nat :: j < i && Holds(s, j, k)
  }

  ghost predicate MovedSlot(s: seq<Slot>, i: nat, built: map<Key, Value>, j: nat) {
    j < i && j < |s| && s[j].Occupied? ==> s[j].key in built
  }

  /** The keys of the first i slots, and no others, are in the new table. */
  ghost predicate Moved(s: seq<Slot>, i: nat, all: map<Key, Value>, built: map<Key, Value>) {
    && (forall k {:trigger MovedKey(s, i, all, built, k)} :: MovedKey(s, i, all, built, k))
    && (forall j: nat {:trigger MovedSlot(s, i, built, j)} :: MovedSlot(s, i, built, j))
  }

  lemma MoveOne(s: seq<Slot>, hash: Key -> nat, i: nat, all: map<Key, Value>, built: map<Key, Value>)
    requires Represents(s, hash, all) && i < |s| && Moved(s, i, all, built)
    ensures !s[i].Occupied? ==> Moved(s, i + 1, all, built)
    ensures s[i].Occupied? ==> s[i].key !in built && Moved(s, i + 1, all, built[s[i].key := s[i].value])
  {
    var next := if s[i].Occupied? then built[s[i].key := s[i].value] else built;
    if s[i].Occupied? {
      assert MovedKey(s, i, all, built, s[i].key) && SlotOk(s, hash, all, i);
      forall j: nat | j < i ensures !Holds(s, j, s[i].key) { assert Distinct(s, i, j); }
      assert Holds(s, i, s[i].key);
    }
    var after := i + 1;
    forall k ensures MovedKey(s, after, all, next, k) { assert MovedKey(s, i, all, built, k); }
    forall j: nat ensures MovedSlot(s, after, next, j) { assert MovedSlot(s, i, built, j); }
  }

  lemma AllMoved(s: seq<Slot>, hash: Key -> nat, all: map<Key, Value>, built: map<Key, Value>)
    requires Represents(s, hash, all) && Moved(s, |s|, all, built)
    ensures built == all
  {
    forall k ensures k in all <==> k in built {
      assert Stored(s, all, k) && MovedKey(s, |s|, all, built, k);
      if k in all {
        var j: nat :| Holds(s, j, k);
        assert MovedSlot(s, |s|, built, j);
      }
    }
    forall k | k in all ensures all[k] == built[k] {
      assert MovedKey(s, |s|, all, built, k);
    }
  }

  lemma {:induction false} UsedPrefix(s: seq<Slot>, i: nat)
    requires i < |s|
    ensures Used(s[..i + 1]) == Used(s[..i]) + if s[i].Occupied? then 1 else 0
    ensures Used(s[..i + 1]) <= Used(s)
  {
    if i == 0 {
      assert s[..1] == [s[0]];
    } else {
      UsedPrefix(s[1..], i - 1);
      assert s[..i + 1][1..] == s[1..][..i];
      assert s[..i][1..] == s[1..][..i - 1];
    }
  }

  lemma EmptyTable(s: seq<Slot>, hash: Key -> nat)
    requires |s| > 0 && forall i :: 0 <= i < |s| ==> s[i] == Empty
    ensures Represents(s, hash, map[]) && Used(s) == 0 && Dead(s) == 0
  {
    EmptyCounts(s);
  }

  lemma {:induction false} EmptyCounts(s: seq<Slot>)
    requires forall i :: 0 <= i < |s| ==> s[i] == Empty
    ensures Used(s) == 0 && Dead(s) == 0
  {
    if s != [] {
      EmptyCounts(s[1..]);
    }
  }

  method SlotsFor(n: nat) returns (size: nat)
    ensures Fits(n, size)
  {
    var needed := n * 10 / 7 + 1;
    size := 8;
    while size < needed
      invariant PowerOfTwo(size) && size >= 8 && (size == 8 || size / 2 < needed)
    {
      DoubledIsPower(size);
      size := 2 * size;
    }
  }
}
