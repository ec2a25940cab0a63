/** The left-leaning red-black tree as the source builds it: nodes linked by pointers, recoloured and
    relinked in place. Every method is proved against its counterpart in RedBlackModel, so no nil
    child is ever dereferenced and the tree always stands for one finite map. */
module RedBlackNodes {
  import M = RedBlackModel

  class Node<V> {
    var key: int
    var value: V
    var left: Node?<V>
    var right: Node?<V>
    var color: bool  // true for a red link from the parent

    constructor (key: int, value: V)
      ensures this.key == key && this.value == value && left == null && right == null && color
    {
      this.key := key;
      this.value := value;
      left := null;
      right := null;
      color := true;
    }
  }

  /** Which node hangs where below a link. Methods pass shapes along as ghosts. */
  datatype Shape<V> = Nil | Fork(node: Node<V>, left: Shape<V>, right: Shape<V>)

  ghost function Root<V>(s: Shape<V>): Node?<V> {
    if s.Nil? then null else s.node
  }

  ghost function Nodes<V>(s: Shape<V>): set<Node<V>> {
    if s.Nil? then {} else {s.node} + Nodes(s.left) + Nodes(s.right)
  }

  /** No node occurs twice. */
  ghost predicate Distinct<V>(s: Shape<V>) {
    s.Fork? ==>
      && s.node !in Nodes(s.left) && s.node !in Nodes(s.right) && Nodes(s.left) !! Nodes(s.right)
      && Distinct(s.left) && Distinct(s.right)
  }

  /** The pointers in the heap form this shape. */
  ghost predicate Linked<V>(s: Shape<V>)
    reads Nodes(s)
  {
    s.Fork? ==>
      && s.node.left == Root(s.left) && s.node.right == Root(s.right)
      && Linked(s.left) && Linked(s.right)
  }

  ghost predicate At<V>(n: Node?<V>, s: Shape<V>)
    reads Nodes(s)
  {
    n == Root(s) && Distinct(s) && Linked(s)
  }

  /** The tree value that a linked shape currently holds. */
  ghost function Model<V>(s: Shape<V>): (t: M.Tree<V>)
    reads Nodes(s)
    ensures t.Leaf? <==> s.Nil?
  {
    if s.Nil? then M.Leaf
    else M.Node(s.node.color, s.node.key, s.node.value, Model(s.left), Model(s.right))
  }

  function IsRed<V>(n: Node?<V>): bool
    reads n
  {
    n != null && n.color
  }

  /** One level of the definitions above, stated once. */
  lemma Children<V>(n: Node<V>, s: Shape<V>)
    requires At(n, s)
    ensures At(n.left, s.left) && At(n.right, s.right)
    ensures Model(s) == M.Node(n.color, n.key, n.value, Model(s.left), Model(s.right))
    ensures n in Nodes(s) && (n.left != null ==> n.left in Nodes(s)) && (n.right != null ==> n.right in Nodes(s))
    ensures IsRed(n.left) == M.IsRed(Model(s.left)) && IsRed(n.right) == M.IsRed(Model(s.right))
  {
  }

  /** Hangs another subtree below the left link. */
  method SetLeft<V>(h: Node<V>, ghost s: Shape<V>, child: Node?<V>, ghost sub: Shape<V>)
    requires s.Fork? && s.node == h && At(h.right, s.right) && At(child, sub)
    requires h !in Nodes(sub) && h !in Nodes(s.right) && Nodes(sub) !! Nodes(s.right)
    modifies h`left
    ensures At(h, s.(left := sub)) && At(h.right, s.right)
    ensures Model(s.(left := sub)) == M.Node(h.color, h.key, h.value, old(Model(sub)), old(Model(s.right)))
  {
    h.left := child;
  }

  /** Hangs another subtree below the right link. */
  method SetRight<V>(h: Node<V>, ghost s: Shape<V>, child: Node?<V>, ghost sub: Shape<V>)
    requires s.Fork? && s.node == h && At(h.left, s.left) && At(child, sub)
    requires h !in Nodes(sub) && h !in Nodes(s.left) && Nodes(sub) !! Nodes(s.left)
    modifies h`right
    ensures At(h, s.(right := sub)) && At(h.left, s.left)
    ensures Model(s.(right := sub)) == M.Node(h.color, h.key, h.value, old(Model(s.left)), old(Model(sub)))
  {
    h.right := child;
  }

  method RotateLeft<V>(h: Node<V>, ghost s: Shape<V>) returns (x: Node<V>, ghost s': Shape<V>)
    requires At(h, s) && s.right.Fork?
    modifies h, h.right
    ensures s' == Fork(s.right.node, Fork(h, s.left, s.right.left), s.right.right)
    ensures At(x, s') && Nodes(s') == Nodes(s)
    ensures Model(s') == M.RotateLeft(old(Model(s)))
  {
    assert At(s.right.node, s.right) && Model(s.right).Node?;
    x := h.right;
    h.right := x.left;
    x.left := h;
    x.color := h.color;
    h.color := true;
    s' := Fork(x, Fork(h, s.left, s.right.left), s.right.right);
  }

  method RotateRight<V>(h: Node<V>, ghost s: Shape<V>) returns (x: Node<V>, ghost s': Shape<V>)
    requires At(h, s) && s.left.Fork?
    modifies h, h.left
    ensures s' == Fork(s.left.node, s.left.left, Fork(h, s.left.right, s.right))
    ensures At(x, s') && Nodes(s') == Nodes(s)
    ensures Model(s') == M.RotateRight(old(Model(s)))
  {
    assert At(s.left.node, s.left) && Model(s.left).Node?;
    x := h.left;
    h.left := x.right;
    x.right := h;
    x.color := h.color;
    h.color := true;
    s' := Fork(x, s.left.left, Fork(h, s.left.right, s.right));
  }

  method FlipColors<V>(h: Node<V>, ghost s: Shape<V>)
    requires At(h, s) && s.left.Fork? && s.right.Fork?
    modifies h`color, h.left`color, h.right`color
    ensures At(h, s)
    ensures Model(s) == M.FlipColors(old(Model(s)))
  {
    assert At(h.left, s.left) && Model(s.left).Node?;
    assert At(h.right, s.right) && Model(s.right).Node?;
    h.color := !h.color;
    h.left.color := !h.left.color;
    h.right.color := !h.right.color;
  }

  method Balance<V>(h: Node<V>, ghost s: Shape<V>) returns (r: Node<V>, ghost s': Shape<V>)
    requires At(h, s)
    modifies Nodes(s)
    ensures At(r, s') && Nodes(s') == Nodes(s)
    ensures Model(s') == M.Balance(old(Model(s)))
  {
    r, s' := h, s;
    Children(r, s');
    if IsRed(r.right) && !IsRed(r.left) {
      r, s' := RotateLeft(r, s');
      Children(r, s');
    }
    if r.left != null {
      Children(r.left, s'.left);
    }
    if IsRed(r.left) && IsRed(r.left.left) {
      r, s' := RotateRight(r, s');
      Children(r, s');
    }
    if IsRed(r.left) && IsRed(r.right) {
      FlipColors(r, s');
    }
  }

  /** Hangs another subtree below the left link and repairs h. */
  method AttachLeft<V>(h: Node<V>, ghost s: Shape<V>, child: Node?<V>, ghost sub: Shape<V>)
    returns (r: Node<V>, ghost s': Shape<V>)
    requires s.Fork? && s.node == h && At(h.right, s.right) && At(child, sub)
    requires h !in Nodes(sub) && h !in Nodes(s.right) && Nodes(sub) !! Nodes(s.right)
    modifies {h} + Nodes(sub) + Nodes(s.right)
    ensures At(r, s') && Nodes(s') == {h} + Nodes(sub) + Nodes(s.right)
    ensures Model(s') == M.Balance(M.Node(old(h.color), old(h.key), old(h.value), old(Model(sub)),
        old(Model(s.right))))
  {
    SetLeft(h, s, child, sub);
    r, s' := Balance(h, s.(left := sub));
  }

  /** Hangs another subtree below the right link and repairs h. */
  method AttachRight<V>(h: Node<V>, ghost s: Shape<V>, child: Node?<V>, ghost sub: Shape<V>)
    returns (r: Node<V>, ghost s': Shape<V>)
    requires s.Fork? && s.node == h && At(h.left, s.left) && At(child, sub)
    requires h !in Nodes(sub) && h !in Nodes(s.left) && Nodes(sub) !! Nodes(s.left)
    modifies {h} + Nodes(sub) + Nodes(s.left)
    ensures At(r, s') && Nodes(s') == {h} + Nodes(sub) + Nodes(s.left)
    ensures Model(s') == M.Balance(M.Node(old(h.color), old(h.key), old(h.value), old(Model(s.left)),
        old(Model(sub))))
  {
    SetRight(h, s, child, sub);
    r, s' := Balance(h, s.(right := sub));
  }

  /** The node itself, if there is one. */
  ghost function Only<V>(n: Node?<V>): set<Node<V>> {
    if n == null then {} else {n}
  }

  /** Returns the new root and, as a ghost, the one node made, if the key was absent. */
  method Put<V>(h: Node?<V>, ghost s: Shape<V>, key: int, value: V)
    returns (r: Node<V>, isNew: bool, ghost s': Shape<V>, ghost made: Node?<V>)
    requires At(h, s)
    modifies Nodes(s)
    ensures At(r, s') && Nodes(s') == Nodes(s) + Only(made) && fresh(Only(made))
    ensures Model(s') == M.Put(old(Model(s)), key, value)
    ensures isNew == (made != null) == !M.Contains(old(Model(s)), key)
    decreases s, 1
  {
    if h == null {
      r := new Node(key, value);
      isNew, s', made := true, Fork(r, Nil, Nil), r;
      return;
    }
    Children(h, s);
    if key < h.key {
      r, isNew, s', made := PutOnLeft(h, s, key, value);
    } else if key > h.key {
      r, isNew, s', made := PutOnRight(h, s, key, value);
    } else {
      SetPayload(h, s, h.key, value);
      isNew, made := false, null;
      r, s' := Balance(h, s);
    }
  }

  /** Insertion below the left link, and the repair at h. */
  method PutOnLeft<V>(h: Node<V>, ghost s: Shape<V>, key: int, value: V)
    returns (r: Node<V>, isNew: bool, ghost s': Shape<V>, ghost made: Node?<V>)
    requires At(h, s)
    modifies Nodes(s)
    ensures At(r, s') && Nodes(s') == Nodes(s) + Only(made) && fresh(Only(made))
    ensures var t := old(Model(s)); Model(s') == M.Balance(t.(left := M.Put(t.left, key, value)))
    ensures isNew == (made != null) == !M.Contains(old(Model(s.left)), key)
    decreases s, 0
  {
    Children(h, s);
    assert allocated(Nodes(s.right));
    var child;
    ghost var sub;
    child, isNew, sub, made := Put(h.left, s.left, key, value);
    r, s' := AttachLeft(h, s, child, sub);
  }

  /** Insertion below the right link, and the repair at h. */
  method PutOnRight<V>(h: Node<V>, ghost s: Shape<V>, key: int, value: V)
    returns (r: Node<V>, isNew: bool, ghost s': Shape<V>, ghost made: Node?<V>)
    requires At(h, s)
    modifies Nodes(s)
    ensures At(r, s') && Nodes(s') == Nodes(s) + Only(made) && fresh(Only(made))
    ensures var t := old(Model(s)); Model(s') == M.Balance(t.(right := M.Put(t.right, key, value)))
    ensures isNew == (made != null) == !M.Contains(old(Model(s.right)), key)
    decreases s, 0
  {
    Children(h, s);
    assert allocated(Nodes(s.left));
    var child;
    ghost var sub;
    child, isNew, sub, made := Put(h.right, s.right, key, value);
    r, s' := AttachRight(h, s, child, sub);
  }

  /** The two rotations of moveRedLeft that carry a key of the right child across h. */
  method RotateAcross<V>(h: Node<V>, ghost s: Shape<V>) returns (r: Node<V>, ghost s': Shape<V>)
    requires At(h, s) && s.right.Fork? && s.right.left.Fork? && Model(s).right.left.Node?
    modifies Nodes(s)
    ensures At(r, s') && Nodes(s') == Nodes(s)
    ensures Root(s'.left) == h && s'.right.Fork?
    ensures var t := old(Model(s)); Model(s') == M.RotateLeft(t.(right := M.RotateRight(t.right)))
  {
    Children(h, s);
    Children(h.right, s.right);
    assert allocated(Nodes(s.left));
    ghost var t := Model(s);
    var child, sub := RotateRight(h.right, s.right);
    SetRight(h, s, child, sub);
    assert Model(s.(right := sub)) == t.(right := M.RotateRight(t.right));
    r, s' := RotateLeft(h, s.(right := sub));
  }

  /** The second half of moveRedLeft: the right child has a key to give. */
  method BorrowFromRight<V>(h: Node<V>, ghost s: Shape<V>) returns (r: Node<V>, ghost s': Shape<V>)
    requires At(h, s) && s.right.Fork? && s.right.left.Fork? && Model(s).right.left.Node?
    modifies Nodes(s)
    ensures At(r, s') && Nodes(s') == Nodes(s)
    ensures var t := old(Model(s)); Model(s') == M.FlipColors(M.RotateLeft(t.(right := M.RotateRight(t.right))))
  {
    r, s' := RotateAcross(h, s);
    FlipColors(r, s');
  }

  method MoveRedLeft<V>(h: Node<V>, ghost s: Shape<V>) returns (r: Node<V>, ghost s': Shape<V>)
    requires At(h, s) && s.left.Fork? && s.right.Fork?
    modifies Nodes(s)
    ensures At(r, s') && Nodes(s') == Nodes(s)
    ensures Model(s') == M.MoveRedLeft(old(Model(s)))
  {
    Children(h, s);
    r, s' := h, s;
    FlipColors(r, s');
    Children(r, s');
    Children(r.right, s'.right);
    if IsRed(r.right.left) {
      r, s' := BorrowFromRight(r, s');
    }
  }

  method MoveRedRight<V>(h: Node<V>, ghost s: Shape<V>) returns (r: Node<V>, ghost s': Shape<V>)
    requires At(h, s) && s.left.Fork? && s.right.Fork?
    modifies Nodes(s)
    ensures At(r, s') && Nodes(s') == Nodes(s)
    ensures Model(s') == M.MoveRedRight(old(Model(s)))
  {
    r, s' := h, s;
    FlipColors(r, s');
    Children(r, s');
    Children(r.left, s'.left);
    if IsRed(r.left.left) {
      r, s' := RotateRight(r, s');
      FlipColors(r, s');
    }
  }

  method DeleteMin<V>(h: Node<V>, ghost s: Shape<V>) returns (r: Node?<V>, ghost s': Shape<V>)
    requires At(h, s) && M.Enterable(Model(s), M.BlackHeight(Model(s)))
    modifies Nodes(s)
    ensures At(r, s') && Nodes(s') <= Nodes(s)
    ensures Model(s') == M.DeleteMin(old(Model(s)))
    decreases M.Size(Model(s)), 0
  {
    Children(h, s);
    if h.left == null {
      return null, Nil;
    }
    var m, sm := LendLeft(h, s);
    Children(m, sm);
    r, s' := DeleteMinOnLeft(m, sm);
  }

  /** Removal of the minimum below the left link, and the repair at h. */
  method DeleteMinOnLeft<V>(h: Node<V>, ghost s: Shape<V>) returns (r: Node<V>, ghost s': Shape<V>)
    requires At(h, s) && var t := Model(s); M.Enterable(t.left, M.BlackHeight(t.left))
    modifies Nodes(s)
    ensures At(r, s') && Nodes(s') <= Nodes(s)
    ensures var t := old(Model(s)); Model(s') == M.Balance(t.(left := M.DeleteMin(t.left)))
    decreases M.Size(Model(s.left)), 1
  {
    Children(h, s);
    assert allocated(Nodes(s.right));
    var child, sub := DeleteMin(h.left, s.left);
    r, s' := AttachLeft(h, s, child, sub);
  }

  /** The step deleteMin and del share on the way down to the left. */
  method LendLeft<V>(h: Node<V>, ghost s: Shape<V>) returns (r: Node<V>, ghost s': Shape<V>)
    requires At(h, s) && M.Enterable(Model(s), M.BlackHeight(Model(s))) && h.left != null
    modifies Nodes(s)
    ensures At(r, s') && Nodes(s') == Nodes(s)
    ensures Model(s') == M.LendLeft(old(Model(s)))
  {
    Children(h, s);
    Children(h.left, s.left);
    r, s' := h, s;
    if !IsRed(h.left) && !IsRed(h.left.left) {
      ghost var t := Model(s);
      M.Unfold(t, M.BlackHeight(t));
      M.MoveRedLeftLends(t, M.BlackHeight(t));
      r, s' := MoveRedLeft(h, s);
    }
  }

  /** The step deleteMax and del share before heading right. */
  method Lean<V>(h: Node<V>, ghost s: Shape<V>) returns (r: Node<V>, ghost s': Shape<V>)
    requires At(h, s) && M.EnterableRight(Model(s), M.BlackHeight(Model(s)))
    modifies Nodes(s)
    ensures At(r, s') && Nodes(s') == Nodes(s)
    ensures Model(s') == M.Lean(old(Model(s)))
  {
    Children(h, s);
    r, s' := h, s;
    if IsRed(h.left) {
      r, s' := RotateRight(h, s);
    }
  }

  method LendRight<V>(h: Node<V>, ghost s: Shape<V>, ghost n: int) returns (r: Node<V>, ghost s': Shape<V>)
    requires At(h, s) && M.Leaned(Model(s), n) && h.right != null
    modifies Nodes(s)
    ensures At(r, s') && Nodes(s') == Nodes(s)
    ensures Model(s') == M.LendRight(old(Model(s)), n)
  {
    Children(h, s);
    Children(h.right, s.right);
    r, s' := h, s;
    if !IsRed(h.right) && !IsRed(h.right.left) {
      M.MoveRedRightLends(Model(s), n);
      r, s' := MoveRedRight(h, s);
    }
  }

  method DeleteMax<V>(h: Node<V>, ghost s: Shape<V>) returns (r: Node?<V>, ghost s': Shape<V>)
    requires At(h, s) && M.EnterableRight(Model(s), M.BlackHeight(Model(s)))
    modifies Nodes(s)
    ensures At(r, s') && Nodes(s') <= Nodes(s)
    ensures Model(s') == M.DeleteMax(old(Model(s)))
    decreases M.Size(Model(s)), 0
  {
    ghost var n := M.BlackHeight(Model(s));
    var a, sa := Lean(h, s);
    Children(a, sa);
    if a.right == null {
      return null, Nil;
    }
    var m, sm := LendRight(a, sa, n);
    Children(m, sm);
    r, s' := DeleteMaxOnRight(m, sm);
  }

  /** Removal of the maximum below the right link, and the repair at h. */
  method DeleteMaxOnRight<V>(h: Node<V>, ghost s: Shape<V>) returns (r: Node<V>, ghost s': Shape<V>)
    requires At(h, s) && var t := Model(s); M.EnterableRight(t.right, M.BlackHeight(t.right))
    modifies Nodes(s)
    ensures At(r, s') && Nodes(s') <= Nodes(s)
    ensures var t := old(Model(s)); Model(s') == M.Balance(t.(right := M.DeleteMax(t.right)))
    decreases M.Size(Model(s.right)), 1
  {
    Children(h, s);
    assert allocated(Nodes(s.left));
    var child, sub := DeleteMax(h.right, s.right);
    r, s' := AttachRight(h, s, child, sub);
  }

  method MinNode<V>(h: Node<V>, ghost s: Shape<V>) returns (n: Node<V>)
    requires At(h, s)
    ensures M.Entry(n.key, n.value) == M.MinEntry(Model(s))
  {
    n := h;
    ghost var rest := s;
    Children(n, rest);
    while n.left != null
      invariant At(n, rest)
      invariant M.MinEntry(Model(rest)) == M.MinEntry(Model(s))
      decreases rest
    {
      Children(n, rest);
      n, rest := n.left, rest.left;
    }
    Children(n, rest);
  }

  /** Removal of the minimum below the right link, and the repair at h. */
  method DeleteMinOnRight<V>(h: Node<V>, ghost s: Shape<V>) returns (r: Node<V>, ghost s': Shape<V>)
    requires At(h, s) && var t := Model(s); M.Enterable(t.right, M.BlackHeight(t.right))
    modifies Nodes(s)
    ensures At(r, s') && Nodes(s') <= Nodes(s)
    ensures var t := old(Model(s)); Model(s') == M.Balance(t.(right := M.DeleteMin(t.right)))
  {
    Children(h, s);
    assert allocated(Nodes(s.left));
    var child, sub := DeleteMin(h.right, s.right);
    r, s' := AttachRight(h, s, child, sub);
  }

  /** The node keeps its place and takes its successor's payload; the successor is unlinked. */
  method ReplaceBySuccessor<V>(h: Node<V>, ghost s: Shape<V>) returns (r: Node<V>, ghost s': Shape<V>)
    requires At(h, s) && var t := Model(s); M.Enterable(t.right, M.BlackHeight(t.right))
    modifies Nodes(s)
    ensures At(r, s') && Nodes(s') <= Nodes(s)
    ensures var t := old(Model(s)); var e := M.MinEntry(t.right);
            Model(s') == M.Balance(t.(key := e.key, value := e.value, right := M.DeleteMin(t.right)))
  {
    Children(h, s);
    assert allocated(Nodes(s.left)) && allocated(Nodes(s.right));
    var successor := MinNode(h.right, s.right);
    SetPayload(h, s, successor.key, successor.value);
    r, s' := DeleteMinOnRight(h, s);
  }

  method SetPayload<V>(h: Node<V>, ghost s: Shape<V>, key: int, value: V)
    requires At(h, s) && Model(s).Node?
    modifies h`key, h`value
    ensures At(h, s) && Model(s) == old(Model(s)).(key := key, value := value)
  {
    h.key := key;
    h.value := value;
  }

  method Del<V>(h: Node<V>, ghost s: Shape<V>, key: int) returns (r: Node?<V>, ghost s': Shape<V>)
    requires At(h, s) && M.Deletable(Model(s), key, M.BlackHeight(Model(s)))
    modifies Nodes(s)
    ensures At(r, s') && Nodes(s') <= Nodes(s)
    ensures Model(s') == M.Delete(old(Model(s)), key)
    decreases M.Size(Model(s)), 2
  {
    Children(h, s);
    if key < h.key {
      M.DeleteGoesLeft(Model(s), key);
      var m, sm := LendLeft(h, s);
      Children(m, sm);
      r, s' := DelOnLeft(m, sm, key);
    } else {
      r, s' := DelHereOrRight(h, s, key);
    }
  }

  /** The rest of del: the key is at h or to its right. */
  method DelHereOrRight<V>(h: Node<V>, ghost s: Shape<V>, key: int) returns (r: Node?<V>, ghost s': Shape<V>)
    requires At(h, s) && M.Deletable(Model(s), key, M.BlackHeight(Model(s))) && h.key <= key
    modifies Nodes(s)
    ensures At(r, s') && Nodes(s') <= Nodes(s)
    ensures Model(s') == M.Delete(old(Model(s)), key)
    decreases M.Size(Model(s)), 1
  {
    ghost var t := Model(s);
    var a, sa := Lean(h, s);
    Children(a, sa);
    if key == a.key && a.right == null {
      return null, Nil;
    }
    r, s' := DelLeaned(a, sa, t, key);
  }

  /** The same after leaning, when there is a right child. */
  method DelLeaned<V>(h: Node<V>, ghost s: Shape<V>, ghost t: M.Tree<V>, key: int)
    returns (r: Node<V>, ghost s': Shape<V>)
    requires At(h, s) && M.Deletable(t, key, M.BlackHeight(t)) && t.key <= key && Model(s) == M.Lean(t)
    requires !(key == Model(s).key && Model(s).right.Leaf?)
    modifies Nodes(s)
    ensures At(r, s') && Nodes(s') <= Nodes(s)
    ensures Model(s') == M.Delete(t, key)
    decreases M.Size(Model(s)), 0
  {
    M.DeleteGoesRight(t, key);
    Children(h, s);
    var m, sm := LendRight(h, s, M.BlackHeight(t));
    Children(m, sm);
    r, s' := DelLent(m, sm, key);
  }

  /** The end of del: the right child can be entered. */
  method DelLent<V>(h: Node<V>, ghost s: Shape<V>, key: int) returns (r: Node<V>, ghost s': Shape<V>)
    requires At(h, s) && s.Fork?
    requires var t := Model(s);
             if key == t.key then M.Enterable(t.right, M.BlackHeight(t.right))
             else M.Deletable(t.right, key, M.BlackHeight(t.right))
    modifies Nodes(s)
    ensures At(r, s') && Nodes(s') <= Nodes(s)
    ensures var t := old(Model(s)); var e := M.MinEntry(t.right);
            Model(s') == M.Balance(
              if key == t.key then t.(key := e.key, value := e.value, right := M.DeleteMin(t.right))
              else t.(right := M.Delete(t.right, key)))
    decreases M.Size(Model(s.right)), 4
  {
    Children(h, s);
    if key == h.key {
      r, s' := ReplaceBySuccessor(h, s);
    } else {
      r, s' := DelOnRight(h, s, key);
    }
  }

  /** Deletion below the left link, and the repair at h. */
  method DelOnLeft<V>(h: Node<V>, ghost s: Shape<V>, key: int) returns (r: Node<V>, ghost s': Shape<V>)
    requires At(h, s) && var t := Model(s); M.Deletable(t.left, key, M.BlackHeight(t.left))
    modifies Nodes(s)
    ensures At(r, s') && Nodes(s') <= Nodes(s)
    ensures var t := old(Model(s)); Model(s') == M.Balance(t.(left := M.Delete(t.left, key)))
    decreases M.Size(Model(s.left)), 3
  {
    Children(h, s);
    assert allocated(Nodes(s.right));
    var child, sub := Del(h.left, s.left, key);
    r, s' := AttachLeft(h, s, child, sub);
  }

  /** Deletion below the right link, and the repair at h. */
  method DelOnRight<V>(h: Node<V>, ghost s: Shape<V>, key: int) returns (r: Node<V>, ghost s': Shape<V>)
    requires At(h, s) && var t := Model(s); M.Deletable(t.right, key, M.BlackHeight(t.right))
    modifies Nodes(s)
    ensures At(r, s') && Nodes(s') <= Nodes(s)
    ensures var t := old(Model(s)); Model(s') == M.Balance(t.(right := M.Delete(t.right, key)))
    decreases M.Size(Model(s.right)), 3
  {
    Children(h, s);
    assert allocated(Nodes(s.left));
    var child, sub := Del(h.right, s.right, key);
    r, s' := AttachRight(h, s, child, sub);
  }

  method PutAtRoot<V>(root: Node?<V>, ghost s: Shape<V>, key: int, value: V)
    returns (r: Node<V>, isNew: bool, ghost s': Shape<V>)
    requires At(root, s)
    modifies Nodes(s)
    ensures At(r, s') && fresh(Nodes(s') - Nodes(s))
    ensures Model(s') == M.PutRoot(old(Model(s)), key, value)
    ensures isNew <==> !M.Contains(old(Model(s)), key)
  {
    ghost var made;
    r, isNew, s', made := Put(root, s, key, value);
    Blacken(r, s');
  }

  method Blacken<V>(root: Node?<V>, ghost s: Shape<V>)
    requires At(root, s)
    modifies root
    ensures At(root, s) && Model(s) == M.Blacken(old(Model(s)))
  {
    if root != null {
      Children(root, s);
      root.color := false;
    }
  }

  /** Recolours the root before a walk down, when neither of its children is red. */
  method LendRoot<V>(root: Node<V>, ghost s: Shape<V>)
    requires At(root, s) && M.IsTree(Model(s))
    modifies root`color
    ensures At(root, s) && Model(s) == M.StartDelete(old(Model(s)))
    ensures M.Enterable(Model(s), M.BlackHeight(Model(s)))
  {
    M.StartDeleteEnters(Model(s));
    Children(root, s);
    if !IsRed(root.left) && !IsRed(root.right) {
      root.color := true;
    }
  }

  method DeleteAtRoot<V>(root: Node<V>, ghost s: Shape<V>, key: int) returns (r: Node?<V>, ghost s': Shape<V>)
    requires At(root, s) && M.IsTree(Model(s)) && M.HasKey(M.Flat(Model(s)), key)
    modifies Nodes(s)
    ensures At(r, s') && Nodes(s') <= Nodes(s)
    ensures Model(s') == M.DeleteRoot(old(Model(s)), key)
  {
    M.StartDeleteEnters(Model(s));
    LendRoot(root, s);
    r, s' := Del(root, s, key);
    Blacken(r, s');
  }

  method DeleteMinAtRoot<V>(root: Node<V>, ghost s: Shape<V>) returns (r: Node?<V>, ghost s': Shape<V>)
    requires At(root, s) && M.IsTree(Model(s))
    modifies Nodes(s)
    ensures At(r, s') && Nodes(s') <= Nodes(s)
    ensures M.IsTree(Model(s'))
    ensures var was := old(M.Flat(Model(s))); was != [] && M.Flat(Model(s')) == was[1..]
  {
    M.DeleteMinKeepsTree(Model(s));
    LendRoot(root, s);
    r, s' := DeleteMin(root, s);
    Blacken(r, s');
  }

  method DeleteMaxAtRoot<V>(root: Node<V>, ghost s: Shape<V>) returns (r: Node?<V>, ghost s': Shape<V>)
    requires At(root, s) && M.IsTree(Model(s))
    modifies Nodes(s)
    ensures At(r, s') && Nodes(s') <= Nodes(s)
    ensures M.IsTree(Model(s'))
    ensures var was := old(M.Flat(Model(s))); was != [] && M.Flat(Model(s')) == was[..|was| - 1]
  {
    M.DeleteMaxKeepsTree(Model(s));
    LendRoot(root, s);
    r, s' := DeleteMax(root, s);
    Blacken(r, s');
  }
}

/** The tree as callers see it: a root pointer and a count. */
module RedBlack {
  import opened Options
  import opened RedBlackNodes

  class Tree<V> {
    var root: Node?<V>
    var count: nat
    ghost var shape: Shape<V>

    ghost predicate Valid()
      reads this, Nodes(shape)
    {
      && At(root, shape)
      && M.IsTree(Model(shape))
      && count == |M.Flat(Model(shape))|
    }

    /** The keys and values held, in key order. */
    ghost function Entries(): seq<M.Entry<V>>
      reads this, Nodes(shape)
    {
      M.Flat(Model(shape))
    }

    ghost function Contents(): map<int, V>
      reads this, Nodes(shape)
    {
      M.AsMap(Entries())
    }

    constructor ()
      ensures Valid() && Contents() == map[] && Nodes(shape) == {}
    {
      root := null;
      count := 0;
      shape := Nil;
      new;
      assert Model(shape) == M.Leaf;
      assert M.Flat<V>(M.Leaf) == [];
      assert M.Sorted<V>([]) && M.AsMap<V>([]) == map[];
    }

    method Get(key: int) returns (r: Option<V>)
      requires Valid()
      ensures r == if key in Contents() then Some(Contents()[key]) else None
    {
      ghost var t := Model(shape);
      M.LookupOnMap(t, key);
      var current := root;
      ghost var below := shape;
      while current != null
        invariant At(current, below) && Model(shape) == t
        invariant M.Lookup(Model(below), key) == M.Lookup(t, key)
        decreases below
      {
        Children(current, below);
        if key == current.key {
          return Some(current.value);
        } else if key < current.key {
          current, below := current.left, below.left;
        } else {
          current, below := current.right, below.right;
        }
      }
      r := None;
    }

    method Put(key: int, value: V) returns (isNew: bool)
      requires Valid()
      modifies this, Nodes(shape)
      ensures Valid() && fresh(Nodes(shape) - old(Nodes(shape)))
      ensures Contents() == old(Contents())[key := value]
      ensures isNew <==> key !in old(Contents())
      ensures count == old(count) + if isNew then 1 else 0
    {
      M.PutOnTree(Model(shape), key, value);
      root, isNew, shape := PutAtRoot(root, shape, key, value);
      if isNew {
        count := count + 1;
      }
    }

    method Delete(key: int) returns (ok: bool)
      requires Valid()
      modifies this, Nodes(shape)
      ensures Valid() && Nodes(shape) <= old(Nodes(shape))
      ensures ok <==> key in old(Contents())
      ensures Contents() == old(Contents()) - {key}
      ensures count == old(count) - if ok then 1 else 0
    {
      M.DeleteOnTree(Model(shape), key);
      assert allocated(Nodes(shape));
      var found := Get(key);
      if found.None? {
        return false;
      }
      root, shape := DeleteAtRoot(root, shape, key);
      count := count - 1;
      ok := true;
    }

    method DeleteMin() returns (ok: bool)
      requires Valid()
      modifies this, Nodes(shape)
      ensures Valid() && Nodes(shape) <= old(Nodes(shape))
      ensures ok <==> old(Entries()) != []
      ensures Entries() == if ok then old(Entries())[1..] else []
      ensures if ok then exists k :: M.LeastGone(old(Contents()), Contents(), k)
              else old(Contents()) == Contents() == map[]
    {
      ghost var entries, before := Entries(), Contents();
      assert before == M.AsMap(entries);
      if root == null {
        return false;
      }
      root, shape := DeleteMinAtRoot(root, shape);
      count := count - 1;
      ok := true;
      M.WithoutFirst(entries);
      assert M.LeastGone(before, Contents(), entries[0].key);
    }

    method DeleteMax() returns (ok: bool)
      requires Valid()
      modifies this, Nodes(shape)
      ensures Valid() && Nodes(shape) <= old(Nodes(shape))
      ensures ok <==> old(Entries()) != []
      ensures Entries() == if ok then old(Entries())[..|old(Entries())| - 1] else []
      ensures if ok then exists k :: M.GreatestGone(old(Contents()), Contents(), k)
              else old(Contents()) == Contents() == map[]
    {
      ghost var entries, before := Entries(), Contents();
      assert before == M.AsMap(entries);
      if root == null {
        return false;
      }
      root, shape := DeleteMaxAtRoot(root, shape);
      count := count - 1;
      ok := true;
      M.WithoutLast(entries);
      assert M.GreatestGone(before, Contents(), entries[|entries| - 1].key);
    }
  }
}
