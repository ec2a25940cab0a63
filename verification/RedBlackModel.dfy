/** The values a left-leaning red-black tree can have, the operations of the tree as functions on
    those values, and the proof that every operation keeps the three rules of the tree.

    Keys are integers: the tree only ever compares keys, by a linear order. */
module RedBlackModel {
  import opened BitMasks
  import opened Options

  datatype Entry<+V> = Entry(key: int, value: V)

  datatype Tree<+V> = Leaf | Node(red: bool, key: int, value: V, left: Tree<V>, right: Tree<V>)

  predicate IsRed<V>(t: Tree<V>) { t.Node? && t.red }

  // ---------- The checkers ----------

  function Size<V>(t: Tree<V>): nat {
    match t
    case Leaf => 0
    case Node(_, _, _, l, r) => 1 + Size(l) + Size(r)
  }

  function Height<V>(t: Tree<V>): nat {
    match t
    case Leaf => 0
    case Node(_, _, _, l, r) => 1 + if Height(l) < Height(r) then Height(r) else Height(l)
  }

  /** Black links on the leftmost path. */
  function BlackHeight<V>(t: Tree<V>): nat {
    match t
    case Leaf => 0
    case Node(red, _, _, l, _) => BlackHeight(l) + if red then 0 else 1
  }

  predicate Ordered<V>(t: Tree<V>, lo: Option<int>, hi: Option<int>) {
    match t
    case Leaf => true
    case Node(_, k, _, l, r) =>
      && (lo.Some? ==> lo.value < k)
      && (hi.Some? ==> k < hi.value)
      && Ordered(l, lo, Some(k))
      && Ordered(r, Some(k), hi)
  }

  /** Right links are black and red links never follow one another, except below a red root. */
  predicate Is23<V>(t: Tree<V>, atRoot: bool) {
    match t
    case Leaf => true
    case Node(red, _, _, l, r) =>
      && !IsRed(r)
      && (!atRoot && red ==> !IsRed(l))
      && Is23(l, false)
      && Is23(r, false)
  }

  /** All ways down count `remaining` black links. */
  predicate BlackBalanced<V>(t: Tree<V>, remaining: int) {
    match t
    case Leaf => remaining == 0
    case Node(red, _, _, l, r) =>
      var below := if red then remaining else remaining - 1;
      BlackBalanced(l, below) && BlackBalanced(r, below)
  }

  /** What the source's own checker accepts. */
  predicate IsValid<V>(t: Tree<V>, count: int) {
    && Ordered(t, None, None)
    && Is23(t, true)
    && BlackBalanced(t, BlackHeight(t))
    && Size(t) == count
  }

  // ---------- What a tree means ----------

  /** The entries in key order, as an in-order walk yields them. */
  function Flat<V>(t: Tree<V>): seq<Entry<V>> {
    match t
    case Leaf => []
    case Node(_, k, v, l, r) => Flat(l) + [Entry(k, v)] + Flat(r)
  }

  predicate Sorted<V>(s: seq<Entry<V>>) {
    forall i, j :: 0 <= i < j < |s| ==> s[i].key < s[j].key
  }

  predicate Within<V>(s: seq<Entry<V>>, lo: Option<int>, hi: Option<int>) {
    && (lo.Some? ==> forall i :: 0 <= i < |s| ==> lo.value < s[i].key)
    && (hi.Some? ==> forall i :: 0 <= i < |s| ==> s[i].key < hi.value)
  }

  function Below<V>(s: seq<Entry<V>>, k: int): seq<Entry<V>> {
    if s == [] then [] else (if s[0].key < k then [s[0]] else []) + Below(s[1..], k)
  }

  function Above<V>(s: seq<Entry<V>>, k: int): seq<Entry<V>> {
    if s == [] then [] else (if s[0].key > k then [s[0]] else []) + Above(s[1..], k)
  }

  // ---------- The local transformations ----------

  function RotateLeft<V>(t: Tree<V>): Tree<V>
    requires t.Node? && t.right.Node?
  {
    var x := t.right;
    Node(t.red, x.key, x.value, Node(true, t.key, t.value, t.left, x.left), x.right)
  }

  function RotateRight<V>(t: Tree<V>): Tree<V>
    requires t.Node? && t.left.Node?
  {
    var x := t.left;
    Node(t.red, x.key, x.value, x.left, Node(true, t.key, t.value, x.right, t.right))
  }

  function Flip<V>(t: Tree<V>): Tree<V>
    requires t.Node?
  {
    t.(red := !t.red)
  }

  function FlipColors<V>(t: Tree<V>): Tree<V>
    requires t.Node? && t.left.Node? && t.right.Node?
  {
    t.(red := !t.red, left := Flip(t.left), right := Flip(t.right))
  }

  function Balance<V>(t: Tree<V>): Tree<V>
    requires t.Node?
  {
    var a := if IsRed(t.right) && !IsRed(t.left) then RotateLeft(t) else t;
    var b := if IsRed(a.left) && IsRed(a.left.left) then RotateRight(a) else a;
    if IsRed(b.left) && IsRed(b.right) then FlipColors(b) else b
  }

  function MoveRedLeft<V>(t: Tree<V>): Tree<V>
    requires t.Node? && t.left.Node? && t.right.Node?
  {
    var a := FlipColors(t);
    if IsRed(a.right.left) then FlipColors(RotateLeft(a.(right := RotateRight(a.right)))) else a
  }

  function MoveRedRight<V>(t: Tree<V>): Tree<V>
    requires t.Node? && t.left.Node? && t.right.Node?
  {
    var a := FlipColors(t);
    if IsRed(a.left.left) then FlipColors(RotateRight(a)) else a
  }

  lemma Regroup<T>(a: seq<T>, b: seq<T>, c: seq<T>, d: seq<T>, e: seq<T>)
    ensures (a + b + c) + d + e == a + b + (c + d + e)
  {
  }

  lemma RotateLeftKeepsEntries<V>(t: Tree<V>)
    requires t.Node? && t.right.Node?
    ensures Flat(RotateLeft(t)) == Flat(t)
  {
    var x := t.right;
    Regroup(Flat(t.left), [Entry(t.key, t.value)], Flat(x.left), [Entry(x.key, x.value)], Flat(x.right));
  }

  lemma RotateRightKeepsEntries<V>(t: Tree<V>)
    requires t.Node? && t.left.Node?
    ensures Flat(RotateRight(t)) == Flat(t)
  {
    var x := t.left;
    Regroup(Flat(x.left), [Entry(x.key, x.value)], Flat(x.right), [Entry(t.key, t.value)], Flat(t.right));
  }

  lemma FlipColorsKeepsEntries<V>(t: Tree<V>)
    requires t.Node? && t.left.Node? && t.right.Node?
    ensures Flat(FlipColors(t)) == Flat(t)
  {
  }

  lemma BalanceKeepsEntries<V>(t: Tree<V>)
    requires t.Node?
    ensures Flat(Balance(t)) == Flat(t)
  {
    var a := if IsRed(t.right) && !IsRed(t.left) then RotateLeft(t) else t;
    if IsRed(t.right) && !IsRed(t.left) {
      RotateLeftKeepsEntries(t);
    }
    var b := if IsRed(a.left) && IsRed(a.left.left) then RotateRight(a) else a;
    if IsRed(a.left) && IsRed(a.left.left) {
      RotateRightKeepsEntries(a);
    }
    if IsRed(b.left) && IsRed(b.right) {
      FlipColorsKeepsEntries(b);
    }
  }

  lemma MoveRedLeftKeepsEntries<V>(t: Tree<V>)
    requires t.Node? && t.left.Node? && t.right.Node?
    ensures Flat(MoveRedLeft(t)) == Flat(t)
  {
    var a := FlipColors(t);
    FlipColorsKeepsEntries(t);
    if IsRed(a.right.left) {
      RotateRightKeepsEntries(a.right);
      var b := a.(right := RotateRight(a.right));
      RotateLeftKeepsEntries(b);
      FlipColorsKeepsEntries(RotateLeft(b));
    }
  }

  lemma MoveRedRightKeepsEntries<V>(t: Tree<V>)
    requires t.Node? && t.left.Node? && t.right.Node?
    ensures Flat(MoveRedRight(t)) == Flat(t)
  {
    var a := FlipColors(t);
    FlipColorsKeepsEntries(t);
    if IsRed(a.left.left) {
      RotateRightKeepsEntries(a);
      FlipColorsKeepsEntries(RotateRight(a));
    }
  }

  // ---------- The rules, one subtree at a time ----------

  /** A subtree that obeys the colour rules and has the same black height on every path. */
  predicate Sound<V>(t: Tree<V>, n: int) {
    Is23(t, false) && BlackBalanced(t, n)
  }

  /** What an insertion may hand to its parent: a sound subtree, or a red link whose left link
      is red too. */
  predicate AlmostSound<V>(t: Tree<V>, n: int) {
    Is23(t, true) && BlackBalanced(t, n)
  }

  lemma BlackHeightIsUnique<V>(t: Tree<V>, n: int)
    requires BlackBalanced(t, n)
    ensures n == BlackHeight(t)
  {
  }

  /** A node whose subtrees are sound but which may itself need rotating or splitting. */
  predicate Repairable<V>(t: Tree<V>, n: int) {
    && t.Node?
    && var below := if t.red then n else n - 1;
    && Sound(t.right, below)
    && if t.red then Sound(t.left, below) && !(IsRed(t.left) && IsRed(t.right))
       else AlmostSound(t.left, below) && (!Is23(t.left, false) ==> !IsRed(t.right))
  }

  lemma Unfold<V>(t: Tree<V>, n: int)
    requires t.Node?
    ensures var below := if t.red then n else n - 1;
            && (AlmostSound(t, n) <==> !IsRed(t.right) && Sound(t.left, below) && Sound(t.right, below))
            && (Sound(t, n) <==> AlmostSound(t, n) && !(t.red && IsRed(t.left)))
  {
  }

  lemma SoundIsAlmostSound<V>(t: Tree<V>, n: int)
    requires Sound(t, n)
    ensures AlmostSound(t, n)
  {
  }

  lemma FlipBlackens<V>(t: Tree<V>, n: int)
    requires IsRed(t) && AlmostSound(t, n)
    ensures Sound(Flip(t), n + 1)
  {
  }

  lemma FlipReddens<V>(t: Tree<V>, n: int)
    requires t.Node? && !t.red && Sound(t, n)
    ensures AlmostSound(Flip(t), n - 1)
    ensures !IsRed(t.left) ==> Sound(Flip(t), n - 1)
  {
  }

  lemma BalanceRepairs<V>(t: Tree<V>, n: int)
    requires Repairable(t, n)
    ensures if t.red then AlmostSound(Balance(t), n) else Sound(Balance(t), n)
    ensures t.red && !IsRed(t.left) && !IsRed(t.right) ==> Sound(Balance(t), n)
    ensures !t.red && Is23(t.left, false) && !(IsRed(t.left) && IsRed(t.right)) ==> !IsRed(Balance(t))
  {
    var below := if t.red then n else n - 1;
    Unfold(t, n);
    if IsRed(t.right) && !IsRed(t.left) {
      Unfold(t.right, below);
      var a := RotateLeft(t);
      Unfold(a.left, below);
      Unfold(a, n);
    } else if IsRed(t.left) && IsRed(t.left.left) {
      Unfold(t.left, below);
      var b := RotateRight(t);
      Unfold(b.right, below);
      FlipBlackens(b.left, below);
      FlipBlackens(b.right, below);
      Unfold(FlipColors(b), n);
    } else if IsRed(t.left) && IsRed(t.right) {
      FlipBlackens(t.left, below);
      FlipBlackens(t.right, below);
      Unfold(FlipColors(t), n);
    }
  }

  // ---------- Lookup ----------

  /** The search both Get and put perform: one comparison a level. */
  function Lookup<V>(t: Tree<V>, k: int): Option<V> {
    if t.Leaf? then None
    else if k < t.key then Lookup(t.left, k)
    else if k > t.key then Lookup(t.right, k)
    else Some(t.value)
  }

  predicate Contains<V>(t: Tree<V>, k: int) {
    Lookup(t, k).Some?
  }

  // ---------- Insertion ----------

  function Put<V>(t: Tree<V>, k: int, v: V): Tree<V> {
    if t.Leaf? then Node(true, k, v, Leaf, Leaf)
    else if k < t.key then Balance(t.(left := Put(t.left, k, v)))
    else if k > t.key then Balance(t.(right := Put(t.right, k, v)))
    else Balance(t.(value := v))
  }

  lemma {:induction false} PutKeepsRules<V>(t: Tree<V>, k: int, v: V, n: int)
    requires Sound(t, n)
    ensures AlmostSound(Put(t, k, v), n)
    ensures !IsRed(t) ==> Sound(Put(t, k, v), n)
  {
    if t.Node? {
      var below := if t.red then n else n - 1;
      var u := if k < t.key then t.(left := Put(t.left, k, v))
               else if k > t.key then t.(right := Put(t.right, k, v)) else t.(value := v);
      SoundIsAlmostSound(t.left, below);
      if k < t.key {
        PutKeepsRules(t.left, k, v, below);
      } else if k > t.key {
        PutKeepsRules(t.right, k, v, below);
      }
      BalanceRepairs(u, n);
    }
  }

  // ---------- Deletion ----------

  /** A deletion only enters a subtree that has a key to spare: its root or its left child is red. */
  predicate Enterable<V>(t: Tree<V>, n: int) {
    Sound(t, n) && t.Node? && (t.red || IsRed(t.left))
  }

  /** The one unsound subtree a deletion heading right may enter: moveRedRight can leave it with a
      red link leaning right. */
  predicate LeansRight<V>(t: Tree<V>, n: int) {
    t.Node? && !t.red && Sound(t.left, n-1) && Sound(t.right, n-1) && !IsRed(t.left) && IsRed(t.right)
  }

  predicate EnterableRight<V>(t: Tree<V>, n: int) {
    Enterable(t, n) || LeansRight(t, n)
  }

  lemma RotateKeepsSize<V>(t: Tree<V>)
    requires t.Node?
    ensures t.left.Node? ==> Size(RotateRight(t)) == Size(t)
    ensures t.right.Node? ==> Size(RotateLeft(t)) == Size(t)
    ensures t.left.Node? && t.right.Node? ==> Size(FlipColors(t)) == Size(t)
  {
  }

  /** moveRedLeft on a red node whose left child has no key to spare: afterwards the left child has one. */
  lemma MoveRedLeftLends<V>(t: Tree<V>, n: int)
    requires Sound(t, n) && IsRed(t) && t.left.Node? && !IsRed(t.left.left)
    ensures t.right.Node?
    ensures var m := MoveRedLeft(t);
            && m.Node? && Size(m) == Size(t)
            && Enterable(m.left, if m.red then n else n - 1)
            && Sound(m.right, if m.red then n else n - 1)
            && (m.red ==> !IsRed(m.left) && !IsRed(m.right))
  {
    Unfold(t, n);
    BlackHeightIsUnique(t.left, n);
    BlackHeightIsUnique(t.right, n);
    Unfold(t.left, n);
    Unfold(t.right, n);
    var a := FlipColors(t);
    RotateKeepsSize(t);
    FlipReddens(t.left, n);
    FlipReddens(t.right, n);
    if IsRed(a.right.left) {
      Unfold(a.right.left, n - 1);
      RotateKeepsSize(a.right);
      var b := a.(right := RotateRight(a.right));
      RotateKeepsSize(b);
      Unfold(b.right.right, n - 1);
      var c := RotateLeft(b);
      RotateKeepsSize(c);
      Unfold(c.left, n - 1);
      FlipBlackens(c.left, n - 1);
      FlipBlackens(c.right, n - 1);
    }
  }

  /** The left child itself ends up red exactly when the right child had no key to lend; otherwise its
      own left child is red, which serves the recursion as well. */
  lemma LeftIsRedUnlessLent<V>(t: Tree<V>, n: int)
    requires Sound(t, n) && IsRed(t) && t.left.Node? && !IsRed(t.left.left)
    ensures t.right.Node?
    ensures IsRed(MoveRedLeft(t).left) <==> !IsRed(t.right.left)
    ensures IsRed(t.right.left) ==> IsRed(MoveRedLeft(t).left.left)
  {
    MoveRedLeftLends(t, n);
    Unfold(t, n);
    Unfold(t.left, n);
    Unfold(t.right, n);
  }

  /** One tree where the left child does not end up red. */
  lemma LeftIsBlackAfterLending()
    ensures var t := Node(true, 2, 0, Node(false, 1, 0, Leaf, Leaf),
        Node(false, 4, 0, Node(true, 3, 0, Leaf, Leaf), Leaf));
      Sound(t, 1) && !IsRed(t.left.left) && !IsRed(MoveRedLeft(t).left)
  {
    var t := Node(true, 2, 0, Node(false, 1, 0, Leaf, Leaf), Node(false, 4, 0, Node(true, 3, 0, Leaf, Leaf), Leaf));
    assert BlackBalanced(t.left, 1) && BlackBalanced(t.right, 1);
  }

  /** moveRedRight on a red node whose right child has no key to spare. Either that child becomes red,
      or the node itself moves down to the right with a red link leaning right. */
  lemma MoveRedRightLends<V>(t: Tree<V>, n: int)
    requires Sound(t, n) && IsRed(t) && t.right.Node? && !IsRed(t.right.left)
    ensures t.left.Node?
    ensures var m := MoveRedRight(t);
            && m.Node? && Size(m) == Size(t)
            && Sound(m.left, if m.red then n else n - 1)
            && if m.red then !IsRed(m.left) && LeansRight(m.right, n) && m.right.key == t.key &&
              m.right.value == t.value
               else IsRed(m.right) && Enterable(m.right, n - 1) && m.key == t.key && m.value == t.value
  {
    Unfold(t, n);
    BlackHeightIsUnique(t.left, n);
    BlackHeightIsUnique(t.right, n);
    Unfold(t.left, n);
    Unfold(t.right, n);
    var a := FlipColors(t);
    RotateKeepsSize(t);
    FlipReddens(t.left, n);
    FlipReddens(t.right, n);
    if IsRed(a.left.left) {
      RotateKeepsSize(a);
      var c := RotateRight(a);
      RotateKeepsSize(c);
      FlipBlackens(c.left, n - 1);
    }
  }

  /** The smallest entry of a nonempty tree, found by walking left. */
  function MinEntry<V>(t: Tree<V>): Entry<V>
    requires t.Node?
  {
    if t.left.Leaf? then Entry(t.key, t.value) else MinEntry(t.left)
  }

  function DeleteMin<V>(t: Tree<V>): (r: Tree<V>)
    requires Enterable(t, BlackHeight(t))
    ensures Sound(r, BlackHeight(t)) && (!t.red ==> !IsRed(r))
    decreases Size(t)
  {
    if t.left.Leaf? then
      MinIsRed(t);
      Leaf
    else
      var m := LendLeft(t);
      var u := m.(left := DeleteMin(m.left));
      FinishDelete(m, u, BlackHeight(t));
      Balance(u)
  }

  lemma MinIsRed<V>(t: Tree<V>)
    requires Enterable(t, BlackHeight(t)) && t.left.Leaf?
    ensures t.red && BlackHeight(t) == 0 && t.right.Leaf?
  {
    assert BlackHeight(t.left) == 0;
    Unfold(t, 0);
    BlackHeightIsUnique(t.right, 0);
  }

  function LendLeft<V>(t: Tree<V>): (m: Tree<V>)
    requires Enterable(t, BlackHeight(t)) && t.left.Node?
    ensures m.Node? && Size(m) == Size(t)
    ensures var below := if m.red then BlackHeight(t) else BlackHeight(t) - 1;
            && BlackHeight(m.left) == below
            && Enterable(m.left, below)
            && Sound(m.right, below)
            && (m.red ==> !IsRed(m.left) && !IsRed(m.right) && t.red)
            && (!t.red ==> !IsRed(m.right))
    ensures m.key == t.key || m.left.key == t.key
  {
    Unfold(t, BlackHeight(t));
    if !IsRed(t.left) && !IsRed(t.left.left) then
      MoveRedLeftLends(t, BlackHeight(t));
      var m := MoveRedLeft(t);
      BlackHeightIsUnique(m.left, if m.red then BlackHeight(t) else BlackHeight(t) - 1);
      m
    else t
  }

  lemma FinishDelete<V>(m: Tree<V>, u: Tree<V>, n: int)
    requires m.Node? && u.Node? && m.red == u.red
    requires var below := if u.red then n else n - 1; Sound(u.left, below) && Sound(u.right, below)
    requires u.red ==> !IsRed(u.left) && !IsRed(u.right)
    ensures Sound(Balance(u), n)
    ensures !u.red && !(IsRed(u.left) && IsRed(u.right)) ==> !IsRed(Balance(u))
  {
    SoundIsAlmostSound(u.left, if u.red then n else n - 1);
    BalanceRepairs(u, n);
  }

  /** What deleteMax and del see after leaning a red left link to the right. */
  predicate Leaned<V>(a: Tree<V>, n: int) {
    && a.Node?
    && !IsRed(a.left)
    && (if a.red then !IsRed(a.right) else IsRed(a.right))
    && var below := if a.red then n else n - 1;
       Sound(a.left, below) && Sound(a.right, below)
  }

  function Lean<V>(t: Tree<V>): (a: Tree<V>)
    requires EnterableRight(t, BlackHeight(t))
    ensures Leaned(a, BlackHeight(t)) && Size(a) == Size(t) && a.red == t.red
    ensures a.right.Leaf? ==> a == t && t.red && BlackHeight(t) == 0 && t.left.Leaf?
    ensures a == t || (t.left.Node? && a == RotateRight(t) && IsRed(a.right))
  {
    var n := BlackHeight(t);
    Unfold(t, n);
    if IsRed(t.left) then
      Unfold(t.left, n - 1);
      RotateKeepsSize(t);
      Unfold(RotateRight(t).right, n - 1);
      RotateRight(t)
    else
      BlackHeightIsUnique(t.left, if t.red then n else n - 1);
      BlackHeightIsUnique(t.right, if t.red then n else n - 1);
      t
  }

  function LendRight<V>(a: Tree<V>, n: int): (m: Tree<V>)
    requires Leaned(a, n) && a.right.Node?
    ensures m.Node? && Size(m) == Size(a)
    ensures var below := if m.red then n else n - 1;
            && BlackHeight(m.right) == below
            && Sound(m.left, below)
            && if Enterable(m.right, below) then m.key == a.key && m.value == a.value
               else LeansRight(m.right, below) && m.right.key == a.key && a.red
    ensures m.red ==> a.red && !IsRed(m.left) && !IsRed(m.right)
    ensures !a.red ==> m == a
  {
    Unfold(a, n);
    var m := if !IsRed(a.right) && !IsRed(a.right.left) then MoveRedRightLends(a, n); MoveRedRight(a) else a;
    BlackHeightOfLeaning(m.right, if m.red then n else n - 1);
    m
  }

  lemma BlackHeightOfLeaning<V>(t: Tree<V>, n: int)
    requires EnterableRight(t, n)
    ensures BlackHeight(t) == n
  {
    if Enterable(t, n) {
      BlackHeightIsUnique(t, n);
    } else {
      BlackHeightIsUnique(t.left, n - 1);
    }
  }

  function DeleteMax<V>(t: Tree<V>): (r: Tree<V>)
    requires EnterableRight(t, BlackHeight(t))
    ensures Sound(r, BlackHeight(t)) && (!t.red ==> !IsRed(r))
    decreases Size(t)
  {
    var a := Lean(t);
    if a.right.Leaf? then Leaf
    else
      var m := LendRight(a, BlackHeight(t));
      var u := m.(right := DeleteMax(m.right));
      FinishDelete(m, u, BlackHeight(t));
      Balance(u)
  }

  // ---------- Entries in key order ----------

  predicate HasKey<V>(s: seq<Entry<V>>, k: int) {
    exists i :: 0 <= i < |s| && s[i].key == k
  }

  function Without<V>(s: seq<Entry<V>>, k: int): seq<Entry<V>> {
    Below(s, k) + Above(s, k)
  }

  lemma {:induction false} BelowConcat<V>(a: seq<Entry<V>>, b: seq<Entry<V>>, k: int)
    ensures Below(a + b, k) == Below(a, k) + Below(b, k)
  {
    if a == [] {
      assert a + b == b;
    } else {
      assert (a + b)[1..] == a[1..] + b;
      BelowConcat(a[1..], b, k);
    }
  }

  lemma {:induction false} AboveConcat<V>(a: seq<Entry<V>>, b: seq<Entry<V>>, k: int)
    ensures Above(a + b, k) == Above(a, k) + Above(b, k)
  {
    if a == [] {
      assert a + b == b;
    } else {
      assert (a + b)[1..] == a[1..] + b;
      AboveConcat(a[1..], b, k);
    }
  }

  lemma BelowAboveConcat<V>(a: seq<Entry<V>>, b: seq<Entry<V>>, k: int)
    ensures Below(a + b, k) == Below(a, k) + Below(b, k)
    ensures Above(a + b, k) == Above(a, k) + Above(b, k)
  {
    BelowConcat(a, b, k);
    AboveConcat(a, b, k);
  }

  lemma {:induction false} OneSided<V>(s: seq<Entry<V>>, k: int)
    ensures (forall i :: 0 <= i < |s| ==> s[i].key < k) ==> Below(s, k) == s && Above(s, k) == []
    ensures (forall i :: 0 <= i < |s| ==> s[i].key > k) ==> Below(s, k) == [] && Above(s, k) == s
  {
    if s != [] {
      OneSided(s[1..], k);
      assert s == [s[0]] + s[1..];
    }
  }

  lemma SortedParts<V>(a: seq<Entry<V>>, e: Entry<V>, b: seq<Entry<V>>)
    requires Sorted(a + [e] + b)
    ensures Sorted(a) && Sorted(b)
    ensures forall i :: 0 <= i < |a| ==> a[i].key < e.key
    ensures forall i :: 0 <= i < |b| ==> b[i].key > e.key
  {
    var s := a + [e] + b;
    assert forall i :: 0 <= i < |a| ==> s[i] == a[i];
    assert s[|a|] == e;
    assert forall i :: 0 <= i < |b| ==> s[|a| + 1 + i] == b[i];
  }

  /** How a key divides a sorted sequence that has an entry in its middle: below, at and above that entry. */
  lemma DivideLow<V>(a: seq<Entry<V>>, e: Entry<V>, b: seq<Entry<V>>, k: int)
    requires Sorted(a + [e] + b) && k < e.key
    ensures Below(a + [e] + b, k) == Below(a, k)
    ensures Above(a + [e] + b, k) == Above(a, k) + [e] + b
  {
    SortedParts(a, e, b);
    BelowAboveConcat(a + [e], b, k);
    BelowAboveConcat(a, [e], k);
    OneSided(b, k);
    assert Below([e], k) == [] && Above([e], k) == [e];
    NothingAdded(Below(a, k));
  }

  lemma NothingAdded<T>(s: seq<T>)
    ensures s + [] + [] == s
  {
  }

  lemma DivideHigh<V>(a: seq<Entry<V>>, e: Entry<V>, b: seq<Entry<V>>, k: int)
    requires Sorted(a + [e] + b) && k > e.key
    ensures Below(a + [e] + b, k) == a + [e] + Below(b, k)
    ensures Above(a + [e] + b, k) == Above(b, k)
  {
    SortedParts(a, e, b);
    BelowAboveConcat(a + [e], b, k);
    BelowAboveConcat(a, [e], k);
    OneSided(a, k);
    OneSided([e], k);
    NothingBefore(Above(b, k));
  }

  lemma NothingBefore<T>(s: seq<T>)
    ensures [] + [] + s == s
  {
  }

  lemma DivideAt<V>(a: seq<Entry<V>>, e: Entry<V>, b: seq<Entry<V>>)
    requires Sorted(a + [e] + b)
    ensures Below(a + [e] + b, e.key) == a && Above(a + [e] + b, e.key) == b
  {
    SortedParts(a, e, b);
    BelowAboveConcat(a + [e], b, e.key);
    BelowAboveConcat(a, [e], e.key);
    OneSided(a, e.key);
    OneSided(b, e.key);
    assert Below([e], e.key) == [] && Above([e], e.key) == [];
    NothingAdded(a);
    NothingBefore(b);
  }

  lemma DivideKeys<V>(a: seq<Entry<V>>, e: Entry<V>, b: seq<Entry<V>>, k: int)
    requires Sorted(a + [e] + b)
    ensures k < e.key ==> (HasKey(a + [e] + b, k) <==> HasKey(a, k))
    ensures k > e.key ==> (HasKey(a + [e] + b, k) <==> HasKey(b, k))
  {
    SortedParts(a, e, b);
    var s := a + [e] + b;
    assert forall i :: 0 <= i < |a| ==> s[i] == a[i];
    assert s[|a|] == e;
    assert forall i :: 0 <= i < |b| ==> s[|a| + 1 + i] == b[i];
    if i :| 0 <= i < |s| && s[i].key == k {
      assert i < |a| ==> a[i].key == k;
      assert i > |a| ==> b[i - |a| - 1].key == k;
    }
  }

  lemma {:induction false} PutEntries<V>(t: Tree<V>, k: int, v: V)
    requires Sorted(Flat(t))
    ensures Flat(Put(t, k, v)) == Below(Flat(t), k) + [Entry(k, v)] + Above(Flat(t), k)
  {
    if t.Node? {
      var e := Entry(t.key, t.value);
      SortedParts(Flat(t.left), e, Flat(t.right));
      if k < t.key {
        DivideLow(Flat(t.left), e, Flat(t.right), k);
        PutEntries(t.left, k, v);
        BalanceKeepsEntries(t.(left := Put(t.left, k, v)));
        Regroup(Below(Flat(t.left), k), [Entry(k, v)], Above(Flat(t.left), k), [e], Flat(t.right));
      } else if k > t.key {
        DivideHigh(Flat(t.left), e, Flat(t.right), k);
        PutEntries(t.right, k, v);
        BalanceKeepsEntries(t.(right := Put(t.right, k, v)));
        Regroup(Flat(t.left), [e], Below(Flat(t.right), k), [Entry(k, v)], Above(Flat(t.right), k));
      } else {
        DivideAt(Flat(t.left), e, Flat(t.right));
        BalanceKeepsEntries(t.(value := v));
      }
    }
  }

  lemma {:induction false} MinEntryIsFirst<V>(t: Tree<V>)
    requires t.Node?
    ensures Flat(t) != [] && Flat(t)[0] == MinEntry(t)
  {
    if t.left.Node? {
      MinEntryIsFirst(t.left);
    }
  }

  lemma {:induction false} DeleteMinEntries<V>(t: Tree<V>)
    requires Enterable(t, BlackHeight(t))
    ensures Flat(t) != [] && Flat(DeleteMin(t)) == Flat(t)[1..]
    decreases Size(t)
  {
    if t.left.Leaf? {
      MinIsRed(t);
    } else {
      var m := LendLeft(t);
      LendLeftKeepsEntries(t);
      DeleteMinEntries(m.left);
      BalanceKeepsEntries(m.(left := DeleteMin(m.left)));
    }
  }

  lemma {:induction false} DeleteMaxEntries<V>(t: Tree<V>)
    requires EnterableRight(t, BlackHeight(t))
    ensures Flat(t) != [] && Flat(DeleteMax(t)) == Flat(t)[..|Flat(t)| - 1]
    decreases Size(t)
  {
    var a := Lean(t);
    LeanKeepsEntries(t);
    if a.right.Node? {
      var m := LendRight(a, BlackHeight(t));
      LendRightKeepsEntries(a, BlackHeight(t));
      DeleteMaxEntries(m.right);
      BalanceKeepsEntries(m.(right := DeleteMax(m.right)));
    }
  }

  lemma LendLeftKeepsEntries<V>(t: Tree<V>)
    requires Enterable(t, BlackHeight(t)) && t.left.Node?
    ensures Flat(LendLeft(t)) == Flat(t)
  {
    if !IsRed(t.left) && !IsRed(t.left.left) {
      Unfold(t, BlackHeight(t));
      MoveRedLeftLends(t, BlackHeight(t));
      MoveRedLeftKeepsEntries(t);
    }
  }

  lemma LeanKeepsEntries<V>(t: Tree<V>)
    requires EnterableRight(t, BlackHeight(t))
    ensures Flat(Lean(t)) == Flat(t)
  {
    if IsRed(t.left) {
      RotateRightKeepsEntries(t);
    }
  }

  lemma LendRightKeepsEntries<V>(a: Tree<V>, n: int)
    requires Leaned(a, n) && a.right.Node?
    ensures Flat(LendRight(a, n)) == Flat(a)
  {
    if !IsRed(a.right) && !IsRed(a.right.left) {
      MoveRedRightLends(a, n);
      MoveRedRightKeepsEntries(a);
    }
  }

  // ---------- Deleting one key ----------

  /** What del demands of its callers: a key to spare, and the key it is looking for. */
  predicate Deletable<V>(t: Tree<V>, k: int, n: int) {
    && (Enterable(t, n) || (LeansRight(t, n) && t.key <= k))
    && Sorted(Flat(t)) && HasKey(Flat(t), k)
  }

  function Delete<V>(t: Tree<V>, k: int): (r: Tree<V>)
    requires Deletable(t, k, BlackHeight(t))
    ensures Sound(r, BlackHeight(t)) && (!t.red ==> !IsRed(r))
    decreases Size(t)
  {
    var n := BlackHeight(t);
    if k < t.key then
      DeleteGoesLeft(t, k);
      var m := LendLeft(t);
      var u := m.(left := Delete(m.left, k));
      FinishDelete(m, u, n);
      Balance(u)
    else
      var a := Lean(t);
      if k == a.key && a.right.Leaf? then Leaf
      else
        DeleteGoesRight(t, k);
        var m := LendRight(a, n);
        var u := if k == m.key
                 then var e := MinEntry(m.right); m.(key := e.key, value := e.value, right := DeleteMin(m.right))
                 else m.(right := Delete(m.right, k));
        FinishDelete(m, u, n);
        Balance(u)
  }

  lemma DeleteGoesLeft<V>(t: Tree<V>, k: int)
    requires Deletable(t, k, BlackHeight(t)) && k < t.key
    ensures Enterable(t, BlackHeight(t)) && t.left.Node?
    ensures Flat(LendLeft(t)) == Flat(t)
    ensures Deletable(LendLeft(t).left, k, BlackHeight(LendLeft(t).left))
    ensures k < LendLeft(t).key
  {
    DivideKeys(Flat(t.left), Entry(t.key, t.value), Flat(t.right), k);
    LendLeftKeepsEntries(t);
    var m := LendLeft(t);
    AroundRoot(m);
    DivideKeys(Flat(m.left), Entry(m.key, m.value), Flat(m.right), k);
  }

  lemma AroundRoot<V>(t: Tree<V>)
    requires t.Node? && Sorted(Flat(t))
    ensures Sorted(Flat(t.left)) && Sorted(Flat(t.right))
    ensures t.left.Node? ==> t.left.key < t.key
    ensures t.right.Node? ==> t.key < t.right.key
  {
    SortedParts(Flat(t.left), Entry(t.key, t.value), Flat(t.right));
    if t.left.Node? {
      assert Flat(t.left)[|Flat(t.left.left)|] == Entry(t.left.key, t.left.value);
    }
    if t.right.Node? {
      assert Flat(t.right)[|Flat(t.right.left)|] == Entry(t.right.key, t.right.value);
    }
  }

  lemma DeleteGoesRight<V>(t: Tree<V>, k: int)
    requires Deletable(t, k, BlackHeight(t)) && k >= t.key
    requires !(k == Lean(t).key && Lean(t).right.Leaf?)
    ensures Lean(t).right.Node?
    ensures var m := LendRight(Lean(t), BlackHeight(t));
            && Flat(m) == Flat(t)
            && m.key <= k
            && if k == m.key then Enterable(m.right, BlackHeight(m.right))
               else Deletable(m.right, k, BlackHeight(m.right))
  {
    var a := Lean(t);
    LeanKeepsEntries(t);
    AroundRoot(t);
    DivideKeys(Flat(a.left), Entry(a.key, a.value), Flat(a.right), k);
    var m := LendRight(a, BlackHeight(t));
    LendRightKeepsEntries(a, BlackHeight(t));
    AroundRoot(m);
    DivideKeys(Flat(m.left), Entry(m.key, m.value), Flat(m.right), k);
  }

  lemma {:induction false} DeleteEntries<V>(t: Tree<V>, k: int)
    requires Deletable(t, k, BlackHeight(t))
    ensures Flat(Delete(t, k)) == Without(Flat(t), k)
    decreases Size(t), 0
  {
    if k < t.key {
      DeleteGoesLeft(t, k);
      var m := LendLeft(t);
      DeleteEntries(m.left, k);
      DivideLow(Flat(m.left), Entry(m.key, m.value), Flat(m.right), k);
      BalanceKeepsEntries(m.(left := Delete(m.left, k)));
      Regroup2(Below(Flat(m.left), k), Above(Flat(m.left), k), [Entry(m.key, m.value)], Flat(m.right));
    } else {
      var a := Lean(t);
      if k == a.key && a.right.Leaf? {
        DivideAt([], Entry(t.key, t.value), []);
        assert Flat(t) == [] + [Entry(t.key, t.value)] + [];
      } else {
        DeleteGoesRight(t, k);
        var m := LendRight(a, BlackHeight(t));
        if k == m.key {
          DeleteEntriesHere(m);
        } else {
          DeleteEntriesRight(m, k);
        }
      }
    }
  }

  lemma {:induction false} DeleteEntriesRight<V>(m: Tree<V>, k: int)
    requires m.Node? && m.key < k && Sorted(Flat(m)) && Deletable(m.right, k, BlackHeight(m.right))
    ensures Flat(Balance(m.(right := Delete(m.right, k)))) == Without(Flat(m), k)
    decreases Size(m.right), 1
  {
    DeleteEntries(m.right, k);
    DivideHigh(Flat(m.left), Entry(m.key, m.value), Flat(m.right), k);
    BalanceKeepsEntries(m.(right := Delete(m.right, k)));
    Regroup2(Flat(m.left) + [Entry(m.key, m.value)], Below(Flat(m.right), k), Above(Flat(m.right), k), []);
  }

  /** A node with a right subtree is deleted by moving its successor up. */
  lemma DeleteEntriesHere<V>(m: Tree<V>)
    requires m.Node? && Sorted(Flat(m)) && Enterable(m.right, BlackHeight(m.right))
    ensures var e := MinEntry(m.right);
            Flat(Balance(m.(key := e.key, value := e.value, right := DeleteMin(m.right)))) == Without(Flat(m), m.key)
  {
    var e := MinEntry(m.right);
    DivideAt(Flat(m.left), Entry(m.key, m.value), Flat(m.right));
    DeleteMinEntries(m.right);
    MinEntryIsFirst(m.right);
    BalanceKeepsEntries(m.(key := e.key, value := e.value, right := DeleteMin(m.right)));
    MoveFirst(Flat(m.left), Flat(m.right));
  }

  lemma MoveFirst<T>(a: seq<T>, b: seq<T>)
    requires b != []
    ensures a + [b[0]] + b[1..] == a + b
  {
  }

  lemma Regroup2<T>(a: seq<T>, b: seq<T>, c: seq<T>, d: seq<T>)
    ensures a + b + c + d == a + (b + c + d)
    ensures a + b + c + d == a + (b + c) + d
  {
  }

  // ---------- Whole trees ----------

  /** The invariant of a tree between operations: black root, the three rules, keys in order. */
  predicate IsTree<V>(t: Tree<V>) {
    !IsRed(t) && Sound(t, BlackHeight(t)) && Sorted(Flat(t))
  }

  function Blacken<V>(t: Tree<V>): Tree<V> {
    if t.Leaf? then t else t.(red := false)
  }

  /** A deletion starts from a red root where that breaks no rule. */
  function StartDelete<V>(t: Tree<V>): Tree<V>
    requires t.Node?
  {
    if !IsRed(t.left) && !IsRed(t.right) then t.(red := true) else t
  }

  function PutRoot<V>(t: Tree<V>, k: int, v: V): Tree<V> {
    Blacken(Put(t, k, v))
  }

  lemma StartDeleteEnters<V>(t: Tree<V>)
    requires IsTree(t) && t.Node?
    ensures Enterable(StartDelete(t), BlackHeight(StartDelete(t)))
    ensures Flat(StartDelete(t)) == Flat(t)
  {
    var n := BlackHeight(t);
    Unfold(t, n);
    if !IsRed(t.left) && !IsRed(t.right) {
      Unfold(t.(red := true), n - 1);
    }
  }

  function DeleteRoot<V>(t: Tree<V>, k: int): Tree<V>
    requires IsTree(t)
  {
    if !HasKey(Flat(t), k) then t
    else
      StartDeleteEnters(t);
      Blacken(Delete(StartDelete(t), k))
  }

  function DeleteMinRoot<V>(t: Tree<V>): Tree<V>
    requires IsTree(t)
  {
    if t.Leaf? then t else StartDeleteEnters(t); Blacken(DeleteMin(StartDelete(t)))
  }

  function DeleteMaxRoot<V>(t: Tree<V>): Tree<V>
    requires IsTree(t)
  {
    if t.Leaf? then t else StartDeleteEnters(t); Blacken(DeleteMax(StartDelete(t)))
  }

  lemma BlackenIsSound<V>(t: Tree<V>, n: int)
    requires AlmostSound(t, n) && (!IsRed(t) ==> Sound(t, n))
    ensures Sound(Blacken(t), BlackHeight(Blacken(t))) && Flat(Blacken(t)) == Flat(t)
  {
    if IsRed(t) {
      FlipBlackens(t, n);
      BlackHeightIsUnique(Blacken(t), n + 1);
    } else {
      BlackHeightIsUnique(t, n);
    }
  }

  lemma PutRootKeepsTree<V>(t: Tree<V>, k: int, v: V)
    requires IsTree(t)
    ensures IsTree(PutRoot(t, k, v))
    ensures Flat(PutRoot(t, k, v)) == Below(Flat(t), k) + [Entry(k, v)] + Above(Flat(t), k)
  {
    PutKeepsRules(t, k, v, BlackHeight(t));
    BlackenIsSound(Put(t, k, v), BlackHeight(t));
    PutEntries(t, k, v);
    PutStaysSorted(Flat(t), k, v);
  }

  lemma {:induction false} BelowBounds<V>(s: seq<Entry<V>>, k: int, lo: Option<int>)
    requires Within(s, lo, None)
    ensures Within(Below(s, k), lo, Some(k))
  {
    if s != [] {
      BelowBounds(s[1..], k, lo);
    }
  }

  lemma {:induction false} AboveBounds<V>(s: seq<Entry<V>>, k: int, lo: Option<int>)
    requires Within(s, lo, None)
    ensures Within(Above(s, k), lo, None) && Within(Above(s, k), Some(k), None)
  {
    if s != [] {
      AboveBounds(s[1..], k, lo);
    }
  }

  lemma FilterBounds<V>(s: seq<Entry<V>>, k: int, lo: Option<int>)
    requires Within(s, lo, None)
    ensures Within(Below(s, k), lo, Some(k))
    ensures Within(Above(s, k), lo, None) && Within(Above(s, k), Some(k), None)
  {
    BelowBounds(s, k, lo);
    AboveBounds(s, k, lo);
  }

  lemma {:induction false} FilterSorted<V>(s: seq<Entry<V>>, k: int)
    requires Sorted(s)
    ensures Sorted(Below(s, k)) && Sorted(Above(s, k))
  {
    if s != [] {
      FilterSorted(s[1..], k);
      FilterBounds(s[1..], k, Some(s[0].key));
      PrependSorted(s[0], Below(s[1..], k));
      PrependSorted(s[0], Above(s[1..], k));
    }
  }

  lemma PrependSorted<V>(e: Entry<V>, s: seq<Entry<V>>)
    requires Sorted(s) && Within(s, Some(e.key), None)
    ensures Sorted([e] + s) && Sorted([] + s)
  {
  }

  lemma PutStaysSorted<V>(s: seq<Entry<V>>, k: int, v: V)
    requires Sorted(s)
    ensures Sorted(Below(s, k) + [Entry(k, v)] + Above(s, k))
    ensures Sorted(Without(s, k))
  {
    FilterBounds(s, k, None);
    FilterSorted(s, k);
  }

  lemma DeleteRootKeepsTree<V>(t: Tree<V>, k: int)
    requires IsTree(t)
    ensures IsTree(DeleteRoot(t, k))
    ensures Flat(DeleteRoot(t, k)) == Without(Flat(t), k)
  {
    if !HasKey(Flat(t), k) {
      AbsentWithout(Flat(t), k);
    } else {
      StartDeleteEnters(t);
      var u := StartDelete(t);
      DeleteEntries(u, k);
      SoundIsAlmostSound(Delete(u, k), BlackHeight(u));
      BlackenIsSound(Delete(u, k), BlackHeight(u));
      FilterBounds(Flat(t), k, None);
      FilterSorted(Flat(t), k);
    }
  }

  lemma {:induction false} AbsentWithout<V>(s: seq<Entry<V>>, k: int)
    requires Sorted(s) && !HasKey(s, k)
    ensures Without(s, k) == s
  {
    if s != [] {
      assert forall i :: 0 <= i < |s[1..]| ==> s[1..][i] == s[i + 1];
      AbsentWithout(s[1..], k);
      if s[0].key > k {
        OneSided(s, k);
      }
    }
  }

  lemma DeleteMinKeepsTree<V>(t: Tree<V>)
    requires IsTree(t) && t.Node?
    ensures IsTree(DeleteMinRoot(t)) && Flat(t) != [] && Flat(DeleteMinRoot(t)) == Flat(t)[1..]
  {
    StartDeleteEnters(t);
    var u := StartDelete(t);
    DeleteMinEntries(u);
    SoundIsAlmostSound(DeleteMin(u), BlackHeight(u));
    BlackenIsSound(DeleteMin(u), BlackHeight(u));
  }

  lemma DeleteMaxKeepsTree<V>(t: Tree<V>)
    requires IsTree(t) && t.Node?
    ensures IsTree(DeleteMaxRoot(t)) && Flat(t) != [] && Flat(DeleteMaxRoot(t)) == Flat(t)[..|Flat(t)| - 1]
  {
    StartDeleteEnters(t);
    var u := StartDelete(t);
    DeleteMaxEntries(u);
    SoundIsAlmostSound(DeleteMax(u), BlackHeight(u));
    BlackenIsSound(DeleteMax(u), BlackHeight(u));
  }

  // ---------- The finite map a tree stands for ----------

  function AsMap<V>(s: seq<Entry<V>>): map<int, V> {
    if s == [] then map[] else AsMap(s[1..])[s[0].key := s[0].value]
  }

  lemma {:induction false} AsMapBelow<V>(s: seq<Entry<V>>, k: int)
    ensures AsMap(Below(s, k)) == map x | x in AsMap(s) && x < k :: AsMap(s)[x]
  {
    if s != [] {
      AsMapBelow(s[1..], k);
      var b := Below(s[1..], k);
      if s[0].key < k {
        assert ([s[0]] + b)[1..] == b;
      } else {
        assert [] + b == b;
      }
    }
  }

  lemma {:induction false} AsMapAbove<V>(s: seq<Entry<V>>, k: int)
    ensures AsMap(Above(s, k)) == map x | x in AsMap(s) && x > k :: AsMap(s)[x]
  {
    if s != [] {
      AsMapAbove(s[1..], k);
      var b := Above(s[1..], k);
      if s[0].key > k {
        assert ([s[0]] + b)[1..] == b;
      } else {
        assert [] + b == b;
      }
    }
  }

  lemma {:induction false} AsMapConcat<V>(a: seq<Entry<V>>, b: seq<Entry<V>>)
    ensures AsMap(a + b) == AsMap(b) + AsMap(a)
  {
    if a == [] {
      assert a + b == b;
    } else {
      assert (a + b)[1..] == a[1..] + b;
      AsMapConcat(a[1..], b);
    }
  }

  lemma Reassemble<V>(m: map<int, V>, low: map<int, V>, high: map<int, V>, k: int, v: V)
    requires low == map x | x in m && x < k :: m[x]
    requires high == map x | x in m && x > k :: m[x]
    ensures high + (map[k := v] + low) == m[k := v]
  {
  }

  /** Put is a map update. */
  lemma PutOnMap<V>(t: Tree<V>, k: int, v: V)
    requires IsTree(t)
    ensures AsMap(Flat(PutRoot(t, k, v))) == AsMap(Flat(t))[k := v]
  {
    var s := Flat(t);
    PutRootKeepsTree(t, k, v);
    AsMapBelow(s, k);
    AsMapAbove(s, k);
    AsMapConcat(Below(s, k) + [Entry(k, v)], Above(s, k));
    AsMapConcat(Below(s, k), [Entry(k, v)]);
    assert AsMap([Entry(k, v)]) == map[k := v];
    Reassemble(AsMap(s), AsMap(Below(s, k)), AsMap(Above(s, k)), k, v);
  }

  /** Delete is a removal. */
  lemma DeleteOnMap<V>(t: Tree<V>, k: int)
    requires IsTree(t)
    ensures AsMap(Flat(DeleteRoot(t, k))) == AsMap(Flat(t)) - {k}
  {
    var s := Flat(t);
    DeleteRootKeepsTree(t, k);
    AsMapBelow(s, k);
    AsMapAbove(s, k);
    AsMapConcat(Below(s, k), Above(s, k));
  }

  lemma {:induction false} HasKeyOnMap<V>(s: seq<Entry<V>>, k: int)
    ensures HasKey(s, k) <==> k in AsMap(s)
  {
    if s != [] {
      HasKeyOnMap(s[1..], k);
      if HasKey(s[1..], k) {
        var i :| 0 <= i < |s[1..]| && s[1..][i].key == k;
        assert s[i + 1].key == k;
      }
      if i :| 0 <= i < |s| && s[i].key == k {
        assert i > 0 ==> s[1..][i - 1].key == k;
      }
    }
  }

  /** Searching by comparisons finds what the map holds. */
  /** k is the least key, and the rest of the map what is left without it. */
  ghost predicate LeastGone<V>(before: map<int, V>, after: map<int, V>, k: int) {
    k in before && (forall j :: j in before ==> k <= j) && after == before - {k}
  }

  ghost predicate GreatestGone<V>(before: map<int, V>, after: map<int, V>, k: int) {
    k in before && (forall j :: j in before ==> j <= k) && after == before - {k}
  }

  lemma WithoutFirst<V>(s: seq<Entry<V>>)
    requires Sorted(s) && s != []
    ensures LeastGone(AsMap(s), AsMap(s[1..]), s[0].key)
  {
    var m, rest := AsMap(s), AsMap(s[1..]);
    forall j ensures j in m ==> s[0].key <= j {
      HasKeyOnMap(s, j);
    }
    HasKeyOnMap(s[1..], s[0].key);
    assert !HasKey(s[1..], s[0].key);
    assert rest == m - {s[0].key};
  }

  lemma LastInMap<V>(s: seq<Entry<V>>, last: Entry<V>)
    requires !HasKey(s, last.key)
    ensures AsMap(s + [last])[last.key := last.value] == AsMap(s + [last])
    ensures AsMap(s) == AsMap(s + [last]) - {last.key}
  {
    HasKeyOnMap(s, last.key);
    AsMapConcat(s, [last]);
    assert AsMap([last]) == map[last.key := last.value];
  }

  lemma WithoutLast<V>(s: seq<Entry<V>>)
    requires Sorted(s) && s != []
    ensures GreatestGone(AsMap(s), AsMap(s[..|s| - 1]), s[|s| - 1].key)
  {
    var front, last := s[..|s| - 1], s[|s| - 1];
    forall j ensures j in AsMap(s) ==> j <= last.key {
      HasKeyOnMap(s, j);
    }
    assert s == front + [last];
    LastInMap(front, last);
    HasKeyOnMap(s, last.key);
    assert s[|front|].key == last.key;
  }

  lemma {:induction false} LookupOnMap<V>(t: Tree<V>, k: int)
    requires Sorted(Flat(t))
    ensures Lookup(t, k) == if k in AsMap(Flat(t)) then Some(AsMap(Flat(t))[k]) else None
  {
    if t.Node? {
      var a, e, b := Flat(t.left), Entry(t.key, t.value), Flat(t.right);
      SortedParts(a, e, b);
      LookupOnMap(t.left, k);
      LookupOnMap(t.right, k);
      AsMapConcat(a + [e], b);
      AsMapConcat(a, [e]);
      HasKeyOnMap(a, k);
      HasKeyOnMap(b, k);
    }
  }

  lemma {:induction false} FilterCount<V>(s: seq<Entry<V>>, k: int)
    requires Sorted(s)
    ensures |Below(s, k)| + |Above(s, k)| == |s| - if HasKey(s, k) then 1 else 0
  {
    if HasKey(s, k) {
      var i :| 0 <= i < |s| && s[i].key == k;
      assert s == s[..i] + [s[i]] + s[i+1..];
      DivideAt(s[..i], s[i], s[i+1..]);
    } else {
      AbsentWithout(s, k);
    }
  }

  /** Put, seen from outside: a valid tree again, one map update, one more key if it was new. */
  lemma PutOnTree<V>(t: Tree<V>, k: int, v: V)
    requires IsTree(t)
    ensures var u := PutRoot(t, k, v);
            && IsTree(u)
            && AsMap(Flat(u)) == AsMap(Flat(t))[k := v]
            && |Flat(u)| == |Flat(t)| + (if k in AsMap(Flat(t)) then 0 else 1)
    ensures Contains(t, k) <==> k in AsMap(Flat(t))
  {
    PutRootKeepsTree(t, k, v);
    PutOnMap(t, k, v);
    FilterCount(Flat(t), k);
    LookupOnMap(t, k);
    HasKeyOnMap(Flat(t), k);
  }

  /** Delete, seen from outside. */
  lemma DeleteOnTree<V>(t: Tree<V>, k: int)
    requires IsTree(t)
    ensures var u := DeleteRoot(t, k);
            && IsTree(u)
            && AsMap(Flat(u)) == AsMap(Flat(t)) - {k}
            && |Flat(u)| == |Flat(t)| - (if k in AsMap(Flat(t)) then 1 else 0)
    ensures HasKey(Flat(t), k) <==> k in AsMap(Flat(t))
  {
    DeleteRootKeepsTree(t, k);
    DeleteOnMap(t, k);
    FilterCount(Flat(t), k);
    HasKeyOnMap(Flat(t), k);
  }

  // ---------- The checker of the source ----------

  lemma JoinSorted<V>(a: seq<Entry<V>>, e: Entry<V>, b: seq<Entry<V>>)
    requires Sorted(a) && Sorted(b) && Within(a, None, Some(e.key)) && Within(b, Some(e.key), None)
    ensures Sorted(a + [e] + b)
  {
  }

  lemma WithinParts<V>(a: seq<Entry<V>>, e: Entry<V>, b: seq<Entry<V>>, lo: Option<int>, hi: Option<int>)
    ensures Within(a + [e] + b, lo, hi) <==> Within(a, lo, hi) && Within([e], lo, hi) && Within(b, lo, hi)
  {
    var s := a + [e] + b;
    assert forall i :: 0 <= i < |a| ==> s[i] == a[i];
    assert s[|a|] == e;
    assert forall i :: 0 <= i < |b| ==> s[|a| + 1 + i] == b[i];
  }

  lemma OneWithin<V>(e: Entry<V>, lo: Option<int>, hi: Option<int>)
    ensures Within([e], lo, hi) <==> (lo.Some? ==> lo.value < e.key) && (hi.Some? ==> e.key < hi.value)
  {
    assert [e][0] == e;
  }

  lemma SplitAtRoot<V>(a: seq<Entry<V>>, e: Entry<V>, b: seq<Entry<V>>, lo: Option<int>, hi: Option<int>)
    requires Sorted(a + [e] + b) && Within(a + [e] + b, lo, hi)
    ensures Sorted(a) && Within(a, lo, Some(e.key)) && Sorted(b) && Within(b, Some(e.key), hi) && Within([e], lo, hi)
  {
    WithinParts(a, e, b, lo, hi);
    SortedParts(a, e, b);
  }

  lemma JoinAtRoot<V>(a: seq<Entry<V>>, e: Entry<V>, b: seq<Entry<V>>, lo: Option<int>, hi: Option<int>)
    requires Sorted(a) && Within(a, lo, Some(e.key)) && Sorted(b) && Within(b, Some(e.key), hi) && Within([e], lo, hi)
    ensures Sorted(a + [e] + b) && Within(a + [e] + b, lo, hi)
  {
    OneWithin(e, lo, hi);
    JoinSorted(a, e, b);
    assert hi.Some? ==> forall i :: 0 <= i < |a| ==> a[i].key < hi.value;
    assert lo.Some? ==> forall i :: 0 <= i < |b| ==> lo.value < b[i].key;
    WithinParts(a, e, b, lo, hi);
  }

  lemma {:induction false} OrderedIffSorted<V>(t: Tree<V>, lo: Option<int>, hi: Option<int>)
    ensures Ordered(t, lo, hi) <==> Sorted(Flat(t)) && Within(Flat(t), lo, hi)
  {
    if t.Node? {
      var a, e, b := Flat(t.left), Entry(t.key, t.value), Flat(t.right);
      OrderedIffSorted(t.left, lo, Some(t.key));
      OrderedIffSorted(t.right, Some(t.key), hi);
      OneWithin(e, lo, hi);
      if Ordered(t, lo, hi) {
        JoinAtRoot(a, e, b, lo, hi);
      } else if Sorted(a + [e] + b) && Within(a + [e] + b, lo, hi) {
        SplitAtRoot(a, e, b, lo, hi);
      }
    }
  }

  lemma {:induction false} SizeIsLength<V>(t: Tree<V>)
    ensures Size(t) == |Flat(t)|
  {
    if t.Node? {
      SizeIsLength(t.left);
      SizeIsLength(t.right);
    }
  }

  /** On trees with a black root, the source's checker accepts exactly the trees of this model. */
  lemma IsValidIffIsTree<V>(t: Tree<V>, count: int)
    requires !IsRed(t)
    ensures IsValid(t, count) <==> IsTree(t) && count == |Flat(t)|
  {
    OrderedIffSorted(t, None, None);
    SizeIsLength(t);
    if t.Node? {
      Unfold(t, BlackHeight(t));
    }
  }

  /** On any tree, it accepts exactly what is a tree of this model once the root is blackened. */
  lemma IsValidIffBlackenedIsTree<V>(t: Tree<V>, count: int)
    ensures IsValid(t, count) <==> IsTree(Blacken(t)) && count == |Flat(t)|
  {
    var u := Blacken(t);
    IsValidIffIsTree(u, count);
    OrderedIffSorted(t, None, None);
    SizeIsLength(t);
    if IsRed(t) {
      assert BlackHeight(u) == BlackHeight(t) + 1;
      OrderedIffSorted(u, None, None);
      SizeIsLength(u);
    }
  }

  /** So two red links in a row escape it below a red root. */
  lemma DoubledRedAccepted<V>(v: V)
    ensures var t := Node(true, 2, v, Node(true, 1, v, Leaf, Leaf), Leaf);
      IsValid(t, 2) && IsRed(t) && IsRed(t.left)
  {
    var leaf: Tree<V> := Leaf;
    var a := Node(true, 1, v, leaf, leaf);
    var t := Node(true, 2, v, a, leaf);
    assert Ordered(a, None, Some(2)) && Is23(a, false) && BlackBalanced(a, 0) && Size(a) == 1;
    assert BlackHeight(leaf) == 0;
    assert BlackHeight(a) == 0;
    assert Ordered(t, None, None) && Is23(t, true) && BlackBalanced(t, 0);
  }

  // ---------- Height ----------

  lemma {:induction false} BlackHeightBounds<V>(t: Tree<V>, n: nat)
    requires Sound(t, n)
    ensures Size(t) + 1 >= Pow2(n)
    ensures Height(t) <= 2 * n + if IsRed(t) then 1 else 0
  {
    if t.Node? {
      Unfold(t, n);
      var below := if t.red then n else n - 1;
      BlackHeightIsUnique(t, n);
      BlackHeightIsUnique(t.left, below);
      BlackHeightBounds(t.left, below);
      BlackHeightBounds(t.right, below);
    }
  }

  lemma SquareGrows(p: nat, q: nat)
    requires p <= q
    ensures p * p <= q * q
  {
  }

  lemma SquareOfPower(height: nat, n: nat, size: nat)
    requires height <= 2 * n && Pow2(n) <= size
    ensures Pow2(height) <= size * size
  {
    Pow2Grows(height, n + n);
    Pow2Adds(n, n);
    SquareGrows(Pow2(n), size);
  }

  /** Height <= 2 * log2(Len + 1), written without logarithms. */
  lemma HeightIsLogarithmic<V>(t: Tree<V>)
    requires IsTree(t)
    ensures |Flat(t)| + 1 >= Pow2(BlackHeight(t))
    ensures Height(t) <= 2 * BlackHeight(t)
    ensures Pow2(Height(t)) <= (|Flat(t)| + 1) * (|Flat(t)| + 1)
  {
    var n := BlackHeight(t);
    SizeIsLength(t);
    BlackHeightBounds(t, n);
    SquareOfPower(Height(t), n, Size(t) + 1);
  }

  /** As high as its black height allows, a tree holds twice as many keys, give or take one. */
  lemma {:induction false} TallHoldsMore<V>(t: Tree<V>, n: nat)
    requires Sound(t, n)
    ensures !IsRed(t) && Height(t) == 2 * n ==> Size(t) + 2 >= 2 * Pow2(n)
    ensures IsRed(t) && Height(t) == 2 * n + 1 ==> Size(t) + 2 >= 3 * Pow2(n)
  {
    if t.Node? {
      Unfold(t, n);
      var below := if t.red then n else n - 1;
      BlackHeightIsUnique(t.left, below);
      TallHoldsMore(t.left, below);
      TallHoldsMore(t.right, below);
      BlackHeightBounds(t.left, below);
      BlackHeightBounds(t.right, below);
    }
  }

  /** The least squares for which the bound on the height holds. */
  lemma SquareIsEnough(height: nat, n: nat, size: nat)
    requires n >= 1 && height <= 2 * n && size + 1 >= Pow2(n) && size >= 2
    requires height == 2 * n ==> size + 2 >= 2 * Pow2(n)
    ensures Pow2(height) <= size * size
  {
    var p := Pow2(n);
    if n >= 2 {
      Pow2Grows(2, n);
      assert Pow2(2) == 4;
    }
    if height == 2 * n || n == 1 {
      SquareOfPower(height, n, size);
    } else {
      Pow2Grows(height, 2 * n - 1);
      Pow2Adds(n, n);
      assert 2 * Pow2(2 * n - 1) == p * p;
      SquareGrows(p - 1, size);
      HalfOfSquare(p);
    }
  }

  lemma HalfOfSquare(p: nat)
    requires p >= 4
    ensures p * p <= 2 * ((p - 1) * (p - 1))
  {
    assert p * p >= 4 * p;
    assert (p - 1) * (p - 1) == p * p - 2 * p + 1;
  }

  /** Height <= 2 * log2(Len) for every tree but the one with a single key. */
  lemma HeightWithinTwiceLogUnlessOne<V>(t: Tree<V>)
    requires IsTree(t) && t.Node?
    ensures Pow2(Height(t)) <= |Flat(t)| * |Flat(t)| <==> |Flat(t)| != 1
  {
    var n := BlackHeight(t);
    SizeIsLength(t);
    BlackHeightBounds(t, n);
    TallHoldsMore(t, n);
    Unfold(t, n);
    if Size(t) >= 2 {
      SquareIsEnough(Height(t), n, Size(t));
    } else {
      Pow2Grows(1, Height(t));
    }
  }

  // ---------- The rules, told of paths ----------

  datatype Turn = GoLeft | GoRight

  function Child<V>(t: Tree<V>, turn: Turn): Tree<V>
    requires t.Node?
  {
    if turn.GoLeft? then t.left else t.right
  }

  /** What is reached from the root by these turns, a leaf if the path breaks off before. */
  function Reached<V>(t: Tree<V>, p: seq<Turn>): Tree<V> {
    if p == [] || t.Leaf? then t else Reached(Child(t, p[0]), p[1..])
  }

  /** The turns lead from the root over nodes to a missing child. */
  predicate LeadsToNil<V>(t: Tree<V>, p: seq<Turn>) {
    if t.Leaf? then p == [] else p != [] && LeadsToNil(Child(t, p[0]), p[1..])
  }

  /** The black nodes passed on the way. */
  function Blacks<V>(t: Tree<V>, p: seq<Turn>): nat
    requires LeadsToNil(t, p)
  {
    if t.Leaf? then 0 else (if t.red then 0 else 1) + Blacks(Child(t, p[0]), p[1..])
  }

  lemma OneTurn<V>(t: Tree<V>, turn: Turn, p: seq<Turn>)
    requires t.Node?
    ensures Reached(t, [turn] + p) == Reached(Child(t, turn), p)
    ensures LeadsToNil(t, [turn] + p) <==> LeadsToNil(Child(t, turn), p)
    ensures LeadsToNil(Child(t, turn), p) ==>
      Blacks(t, [turn] + p) == (if t.red then 0 else 1) + Blacks(Child(t, turn), p)
  {
    assert ([turn] + p)[1..] == p;
  }

  /** No path passes more nodes than the height says. */
  lemma {:induction false} NoPathIsLonger<V>(t: Tree<V>, p: seq<Turn>)
    requires Reached(t, p).Node?
    ensures |p| + 1 <= Height(t)
  {
    if p != [] {
      NoPathIsLonger(Child(t, p[0]), p[1..]);
    }
  }

  /** And one passes as many. */
  lemma {:induction false} LongestPath<V>(t: Tree<V>) returns (p: seq<Turn>)
    requires t.Node?
    ensures Reached(t, p).Node? && |p| + 1 == Height(t)
  {
    p := [];
    if t.left.Node? || t.right.Node? {
      var turn := if Height(t.left) < Height(t.right) then GoRight else GoLeft;
      var rest := LongestPath(Child(t, turn));
      OneTurn(t, turn, rest);
      p := [turn] + rest;
    }
  }

  /** The height is the number of nodes on a longest path. */
  lemma HeightIsLongestPath<V>(t: Tree<V>)
    ensures forall p :: Reached(t, p).Node? ==> |p| + 1 <= Height(t)
    ensures if t.Leaf? then Height(t) == 0 else exists p :: Reached(t, p).Node? && |p| + 1 == Height(t)
  {
    forall p | Reached(t, p).Node? ensures |p| + 1 <= Height(t) {
      NoPathIsLonger(t, p);
    }
    if t.Node? {
      var p := LongestPath(t);
    }
  }

  /** Every path down a tree of more than one key passes at most 2 * log2(Len) nodes. */
  lemma PathsAreShort<V>(t: Tree<V>, p: seq<Turn>)
    requires IsTree(t) && Reached(t, p).Node? && |Flat(t)| != 1
    ensures Pow2(|p| + 1) <= |Flat(t)| * |Flat(t)|
  {
    NoPathIsLonger(t, p);
    HeightWithinTwiceLogUnlessOne(t);
    Pow2Grows(|p| + 1, Height(t));
  }

  /** Neither a red link to the right nor a red link below a red one. */
  predicate RedsStandAlone<V>(t: Tree<V>) {
    t.Node? ==> !IsRed(t.right) && !(t.red && IsRed(t.left))
  }

  ghost predicate RedsStandAloneEverywhere<V>(t: Tree<V>) {
    forall p {:trigger Reached(t, p)} :: RedsStandAlone(Reached(t, p))
  }

  ghost predicate BlacksOnEveryPath<V>(t: Tree<V>, n: int) {
    forall p {:trigger LeadsToNil(t, p)} :: LeadsToNil(t, p) ==> Blacks(t, p) == n
  }

  lemma EverywhereBelow<V>(t: Tree<V>)
    requires t.Node?
    ensures RedsStandAloneEverywhere(t) <==>
      RedsStandAlone(t) && RedsStandAloneEverywhere(t.left) && RedsStandAloneEverywhere(t.right)
  {
    if RedsStandAloneEverywhere(t) {
      assert Reached(t, []) == t;
      forall p ensures RedsStandAlone(Reached(t.left, p)) && RedsStandAlone(Reached(t.right, p)) {
        OneTurn(t, GoLeft, p);
        OneTurn(t, GoRight, p);
        assert RedsStandAlone(Reached(t, [GoLeft] + p)) && RedsStandAlone(Reached(t, [GoRight] + p));
      }
    }
    if RedsStandAlone(t) && RedsStandAloneEverywhere(t.left) && RedsStandAloneEverywhere(t.right) {
      forall p ensures RedsStandAlone(Reached(t, p)) {
        if p != [] {
          assert RedsStandAlone(Reached(t.left, p[1..])) && RedsStandAlone(Reached(t.right, p[1..]));
        }
      }
    }
  }

  lemma EveryPathBelow<V>(t: Tree<V>, n: int)
    requires t.Node?
    ensures var below := if t.red then n else n - 1;
      BlacksOnEveryPath(t, n) <==> BlacksOnEveryPath(t.left, below) && BlacksOnEveryPath(t.right, below)
  {
    var below := if t.red then n else n - 1;
    if BlacksOnEveryPath(t, n) {
      forall p | LeadsToNil(t.left, p) ensures Blacks(t.left, p) == below {
        OneTurn(t, GoLeft, p);
        assert LeadsToNil(t, [GoLeft] + p);
      }
      forall p | LeadsToNil(t.right, p) ensures Blacks(t.right, p) == below {
        OneTurn(t, GoRight, p);
        assert LeadsToNil(t, [GoRight] + p);
      }
    }
    if BlacksOnEveryPath(t.left, below) && BlacksOnEveryPath(t.right, below) {
      forall p | LeadsToNil(t, p) ensures Blacks(t, p) == n {
        assert LeadsToNil(Child(t, p[0]), p[1..]);
      }
    }
  }

  lemma {:induction false} RulesAreThoseOfPaths<V>(t: Tree<V>, n: int)
    ensures Is23(t, false) <==> RedsStandAloneEverywhere(t)
    ensures BlackBalanced(t, n) <==> BlacksOnEveryPath(t, n)
  {
    match t
    case Leaf =>
      assert LeadsToNil(t, []) && Blacks(t, []) == 0;
    case Node(_, _, _, l, r) =>
      var below := if t.red then n else n - 1;
      RulesAreThoseOfPaths(l, below);
      RulesAreThoseOfPaths(r, below);
      EverywhereBelow(t);
      EveryPathBelow(t, n);
  }

  /** The rules of the tree, node by node and path by path. */
  lemma IsTreeIffRules<V>(t: Tree<V>)
    ensures IsTree(t) <==>
      && !IsRed(t)
      && (forall i, j :: 0 <= i < j < |Flat(t)| ==> Flat(t)[i].key < Flat(t)[j].key)
      && RedsStandAloneEverywhere(t)
      && exists n :: BlacksOnEveryPath(t, n)
  {
    var height: int := BlackHeight(t);
    RulesAreThoseOfPaths(t, height);
    if exists n :: BlacksOnEveryPath(t, n) {
      var n :| BlacksOnEveryPath(t, n);
      RulesAreThoseOfPaths(t, n);
      BlackHeightIsUnique(t, n);
    }
    assert Sound(t, height) <==> RedsStandAloneEverywhere(t) && BlacksOnEveryPath(t, height);
  }
}
