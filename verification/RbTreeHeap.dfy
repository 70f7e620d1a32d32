// The red-black tree as it is stored: nodes updated in place, each operation refining its value form.
module RbTreeHeap {
  import opened Bytes
  import opened HashTree
  import opened RbTree
  import opened RbDelete
  import opened RbOrder

  type NodeTree = t: Tree | t.Node? witness Node([], Value([]), Nil, Nil, Red, HEmpty)

  class HeapNode {
    var key: bytes
    var value: NestedTree
    var left: HeapNode?
    var right: HeapNode?
    var color: Color
    var subtreeHash: Hash

    // The subtree as a value, and the nodes it is made of.
    ghost var tree: NodeTree
    ghost var repr: set<HeapNode>

    // The node's own bookkeeping agrees with its children's.
    ghost predicate Linked()
      reads this, left, right
    {
      && this in repr
      && (left != null ==> left in repr && left.repr <= repr && this !in left.repr)
      && (right != null ==> right in repr && right.repr <= repr && this !in right.repr)
      && ReprOf(left) !! ReprOf(right)
      && tree == Node(key, value, TreeOf(left), TreeOf(right), color, subtreeHash)
    }

    ghost predicate Valid()
      reads this, repr
      decreases repr
    {
      && this in repr
      && (left != null ==> left in repr && left.repr <= repr && this !in left.repr && left.Valid())
      && (right != null ==> right in repr && right.repr <= repr && this !in right.repr && right.Valid())
      && ReprOf(left) !! ReprOf(right)
      && tree == Node(key, value, TreeOf(left), TreeOf(right), color, subtreeHash)
    }

    lemma Unfold()
      requires Valid()
      ensures Linked() && ValidRef(left) && ValidRef(right)
      ensures left != null ==>
        left in left.repr && left.tree.color == left.color && left.tree.subtreeHash == left.subtreeHash
      ensures right != null ==>
        right in right.repr && right.tree.color == right.color && right.tree.subtreeHash == right.subtreeHash
    {
    }

    lemma Fold()
      requires Linked() && ValidRef(left) && ValidRef(right)
      ensures Valid()
    {
    }

    constructor (key: bytes, value: NestedTree)
      ensures Valid() && tree == NewNode(key, value) && fresh(repr)
    {
      this.key, this.value, left, right, color := key, value, null, null, Red;
      subtreeHash := HLabeled(key, RootHash(value));
      repr := {this};
      tree := NewNode(key, value);
    }

    function ComputeHash(): Hash
      reads this, left, right
    {
      var h := HLabeled(key, RootHash(value));
      if left == null && right == null then h
      else if right == null then HFork(left.subtreeHash, h)
      else if left == null then HFork(h, right.subtreeHash)
      else HFork(left.subtreeHash, HFork(h, right.subtreeHash))
    }

    method UpdateSubtreeHash()
      requires ValidRef(left) && ValidRef(right)
      requires this !in ReprOf(left) && this !in ReprOf(right) && ReprOf(left) !! ReprOf(right)
      modifies this`subtreeHash, this`tree, this`repr
      ensures Valid() && repr == {this} + ReprOf(left) + ReprOf(right)
      ensures tree == Update(Node(key, value, TreeOf(left), TreeOf(right), color, old(subtreeHash)))
    {
      subtreeHash := ComputeHash();
      repr := {this} + ReprOf(left) + ReprOf(right);
      tree := Node(key, value, TreeOf(left), TreeOf(right), color, subtreeHash);
    }

    // Hang a subtree on the left and recompute the hash.
    method SetLeft(l: HeapNode?)
      requires ValidRef(l) && ValidRef(right)
      requires this !in ReprOf(l) && this !in ReprOf(right) && ReprOf(l) !! ReprOf(right)
      modifies this`left, this`subtreeHash, this`tree, this`repr
      ensures Valid() && left == l && repr == {this} + ReprOf(l) + ReprOf(right)
      ensures tree == Update(Node(key, value, TreeOf(l), TreeOf(right), color, old(subtreeHash)))
    {
      left := l;
      UpdateSubtreeHash();
    }

    method SetRight(r: HeapNode?)
      requires ValidRef(left) && ValidRef(r)
      requires this !in ReprOf(left) && this !in ReprOf(r) && ReprOf(left) !! ReprOf(r)
      modifies this`right, this`subtreeHash, this`tree, this`repr
      ensures Valid() && right == r && repr == {this} + ReprOf(left) + ReprOf(r)
      ensures tree == Update(Node(key, value, TreeOf(left), TreeOf(r), color, old(subtreeHash)))
    {
      right := r;
      UpdateSubtreeHash();
    }

    method SetColor(c: Color)
      requires Valid()
      modifies this`color, this`tree
      ensures Valid() && tree == Paint(old(tree), c)
    {
      color := c;
      tree := Paint(tree, c);
    }
  }

  ghost function TreeOf(n: HeapNode?): Tree
    reads n
  {
    if n == null then Nil else n.tree
  }

  ghost function ReprOf(n: HeapNode?): set<HeapNode>
    reads n
  {
    if n == null then {} else n.repr
  }

  ghost predicate ValidRef(n: HeapNode?)
    reads n, ReprOf(n)
  {
    n != null ==> n.Valid()
  }

  predicate IsRedRef(n: HeapNode?)
    reads n
  {
    n != null && n.color.Red?
  }

  // What was valid and has not been written to is valid still.
  twostate lemma Framed(n: HeapNode?)
    requires old(ValidRef(n))
    requires n != null ==> unchanged(n) && unchanged(old(n.repr))
    ensures ValidRef(n) && TreeOf(n) == old(TreeOf(n)) && ReprOf(n) == old(ReprOf(n))
  {
  }

  method HeapRotateRight(h: HeapNode) returns (x: HeapNode)
    requires h.Valid() && IsRed(h.tree.left)
    modifies h, h.left
    ensures x.Valid() && x.tree == RotateRight(old(h.tree)) && x.repr <= old(h.repr)
  {
    hide HeapNode.Valid;
    h.Unfold();
    x := h.left;
    x.Unfold();
    ghost var a, b, c := x.left, x.right, h.right;
    x.color, h.color := h.color, Red;
    Framed(b);
    Framed(c);
    h.SetLeft(x.right);
    Framed(a);
    x.SetRight(h);
  }

  method HeapRotateLeft(h: HeapNode) returns (x: HeapNode)
    requires h.Valid() && IsRed(h.tree.right)
    modifies h, h.right
    ensures x.Valid() && x.tree == RotateLeft(old(h.tree)) && x.repr <= old(h.repr)
  {
    hide HeapNode.Valid;
    h.Unfold();
    x := h.right;
    x.Unfold();
    ghost var a, b, c := h.left, x.left, x.right;
    x.color, h.color := h.color, Red;
    Framed(a);
    Framed(b);
    h.SetRight(x.left);
    Framed(c);
    x.SetLeft(h);
  }

  method HeapFlipColors(h: HeapNode)
    requires h.Valid() && h.tree.left.Node? && h.tree.right.Node?
    modifies h, h.left, h.right
    ensures h.Valid() && h.tree == FlipColors(old(h.tree)) && h.repr == old(h.repr)
  {
    hide HeapNode.Valid;
    h.Unfold();
    h.color := Flip(h.color);
    Framed(h.left);
    Framed(h.right);
    ghost var r := h.right;
    h.left.SetColor(Flip(h.left.color));
    Framed(r);
    ghost var l := h.left;
    h.right.SetColor(Flip(h.right.color));
    h.tree := Node(h.key, h.value, TreeOf(h.left), TreeOf(h.right), h.color, h.subtreeHash);
    h.Fold();
  }

  method HeapBalance(h: HeapNode) returns (r: HeapNode)
    requires h.Valid()
    modifies h.repr
    ensures r.Valid() && r.tree == Balance(old(h.tree)) && r.repr <= old(h.repr)
  {
    hide HeapNode.Valid;
    r := h;
    r.Unfold();
    if IsRedRef(r.right) && !IsRedRef(r.left) {
      r := HeapRotateLeft(r);
      r.Unfold();
    }
    assert r.tree == LeanLeft(old(h.tree));
    if r.left != null { r.left.Unfold(); }
    if IsRedRef(r.left) && IsRedRef(r.left.left) {
      r := HeapRotateRight(r);
      r.Unfold();
    }
    assert r.tree == SplitReds(LeanLeft(old(h.tree)));
    if IsRedRef(r.left) && IsRedRef(r.right) {
      HeapFlipColors(r);
    }
  }

  // ---------- Insert ----------

  method HeapInsertGo(h: HeapNode?, k: bytes, v: NestedTree) returns (r: HeapNode)
    requires ValidRef(h)
    modifies ReprOf(h)
    ensures r.Valid() && r.tree == InsertGo(old(TreeOf(h)), k, v)
    ensures fresh(r.repr - old(ReprOf(h)))
    decreases ReprOf(h), 1
  {
    if h == null {
      r := new HeapNode(k, v);
    } else {
      HeapInsertBelow(h, k, v);
      r := HeapBalance(h);
    }
  }

  // The step at one node, before it is balanced.
  method HeapInsertBelow(h: HeapNode, k: bytes, v: NestedTree)
    requires h.Valid()
    modifies h.repr
    ensures h.Valid() && Balance(h.tree) == InsertGo(old(h.tree), k, v)
    ensures fresh(h.repr - old(h.repr))
    decreases h.repr, 0
  {
    hide HeapNode.Valid, Balance, Update;
    h.Unfold();
    match Cmp(k, h.key)
    case Equal =>
      h.value := v;
      Framed(h.left);
      Framed(h.right);
      h.UpdateSubtreeHash();
    case Less =>
      var l := HeapInsertGo(h.left, k, v);
      Framed(h.right);
      h.SetLeft(l);
    case Greater =>
      var t := HeapInsertGo(h.right, k, v);
      Framed(h.left);
      h.SetRight(t);
  }

  // ---------- Modify ----------

  method HeapModifyGo(h: HeapNode?, key: bytes, f: NestedTree --> NestedTree)
    requires ValidRef(h)
    requires Has(TreeOf(h), key) ==> f.requires(Get(TreeOf(h), key).value)
    modifies ReprOf(h)
    ensures ValidRef(h) && TreeOf(h) == Modify(old(TreeOf(h)), key, f) && ReprOf(h) <= old(ReprOf(h))
    decreases ReprOf(h)
  {
    hide HeapNode.Valid;
    if h != null {
      h.Unfold();
      match Cmp(key, h.key)
      case Equal =>
        h.value := f(h.value);
        Framed(h.left);
        Framed(h.right);
        h.UpdateSubtreeHash();
      case Less =>
        HeapModifyGo(h.left, key, f);
        Framed(h.right);
        h.UpdateSubtreeHash();
      case Greater =>
        HeapModifyGo(h.right, key, f);
        Framed(h.left);
        h.UpdateSubtreeHash();
    }
  }

  // ---------- Delete ----------

  method HeapMoveRedLeft(h: HeapNode) returns (r: HeapNode)
    requires h.Valid() && h.tree.left.Node? && h.tree.right.Node? && !IsRed(h.tree.right)
    modifies h.repr
    ensures r.Valid() && r.tree == MoveRedLeft(old(h.tree)) && r.repr <= old(h.repr)
  {
    hide HeapNode.Valid;
    r := h;
    r.Unfold();
    HeapFlipColors(r);
    r.Unfold();
    r.right.Unfold();
    if IsRedRef(r.right.left) {
      label Flipped:
      var x := HeapRotateRight(r.right);
      Framed@Flipped(r.left);
      x.Unfold();
      label Rotated:
      r.right := x;
      r.tree := Node(r.key, r.value, TreeOf(r.left), TreeOf(x), r.color, r.subtreeHash);
      Framed@Rotated(r.left);
      Framed@Rotated(x);
      r.Fold();
      r := HeapRotateLeft(r);
      r.Unfold();
      HeapFlipColors(r);
    }
  }

  method HeapMoveRedRight(h: HeapNode) returns (r: HeapNode)
    requires h.Valid() && h.tree.left.Node? && h.tree.right.Node? && !IsRed(h.tree.left)
    modifies h.repr
    ensures r.Valid() && r.tree == MoveRedRight(old(h.tree)) && r.repr <= old(h.repr)
  {
    hide HeapNode.Valid;
    r := h;
    r.Unfold();
    HeapFlipColors(r);
    r.Unfold();
    r.left.Unfold();
    if IsRedRef(r.left.left) {
      r := HeapRotateRight(r);
      r.Unfold();
      HeapFlipColors(r);
    }
  }

  // Swaps a key and value with those of the minimum. The cached hashes on the way down go stale;
  // delete_min, called next, refreshes them.
  method HeapSwapMin(h: HeapNode, key: bytes, value: NestedTree) returns (minKey: bytes, minValue: NestedTree)
    requires h.Valid()
    modifies h.repr
    ensures h.Valid() && h.tree == SetMin(old(h.tree), key, value) && h.repr == old(h.repr)
    ensures minKey == MinNode(old(h.tree)).key && minValue == MinNode(old(h.tree)).value
    decreases h.repr
  {
    hide HeapNode.Valid;
    h.Unfold();
    if h.left == null {
      minKey, minValue := h.key, h.value;
      h.key, h.value := key, value;
      Framed(h.right);
    } else {
      minKey, minValue := HeapSwapMin(h.left, key, value);
      Framed(h.right);
      h.left.Unfold();
    }
    label Swapped:
    h.tree := Node(h.key, h.value, TreeOf(h.left), TreeOf(h.right), h.color, h.subtreeHash);
    Framed@Swapped(h.left);
    Framed@Swapped(h.right);
    h.Fold();
  }

  method HeapPrepareLeft(h: HeapNode) returns (r: HeapNode)
    requires h.Valid() && Ready(h.tree) && h.tree.left.Node?
    modifies h.repr
    ensures r.Valid() && r.tree == PrepareLeft(old(h.tree)) && r.repr <= old(h.repr)
  {
    hide HeapNode.Valid, MoveRedLeft;
    h.Unfold();
    h.left.Unfold();
    r := h;
    if !IsRedRef(r.left) && !IsRedRef(r.left.left) {
      r := HeapMoveRedLeft(r);
    }
  }

  method HeapDeleteMin(h: HeapNode) returns (r: HeapNode?)
    requires h.Valid() && Ready(h.tree)
    modifies h.repr
    ensures ValidRef(r) && TreeOf(r) == DeleteMin(old(h.tree)) && ReprOf(r) <= old(h.repr)
    decreases h.repr
  {
    hide HeapNode.Valid, Balance, Update, PrepareLeft;
    h.Unfold();
    if h.left == null {
      assert h.right == null;
      return null;
    }
    PrepareLeftShape(h.tree);
    var x := HeapPrepareLeft(h);
    x.Unfold();
    label Prepared:
    var l := HeapDeleteMin(x.left);
    Framed@Prepared(x.right);
    x.SetLeft(l);
    r := HeapBalance(x);
  }

  method HeapPrepareRight(h: HeapNode) returns (r: HeapNode?)
    requires h.Valid() && (Ready(h.tree) || Leaning(h.tree))
    modifies h.repr
    ensures TurnRight(old(h.tree)).right.Node? ==>
      r != null && r.Valid() && r.tree == PrepareRight(old(h.tree)) && r.repr <= old(h.repr)
    ensures TurnRight(old(h.tree)).right.Nil? ==> r == null && h.Valid() && h.tree == old(h.tree)
  {
    hide HeapNode.Valid, MoveRedRight, RotateRight;
    h.Unfold();
    ghost var was := h.tree;
    var t := h;
    if IsRedRef(t.left) {
      t := HeapRotateRight(t);
    }
    assert t.tree == TurnRight(was);
    t.Unfold();
    if t.right == null {
      LoneNode(was);
      return null;
    }
    t.right.Unfold();
    if !IsRedRef(t.right) && !IsRedRef(t.right.left) {
      CanMoveRight(was);
      t := HeapMoveRedRight(t);
    }
    r := t;
  }

  method HeapDeleteGo(h: HeapNode, key: bytes) returns (r: HeapNode?)
    requires h.Valid() && Deletable(h.tree, key)
    modifies h.repr
    ensures ValidRef(r) && TreeOf(r) == DeleteGo(old(h.tree), key) && ReprOf(r) <= old(h.repr)
    decreases h.repr, 1
  {
    hide HeapNode.Valid, Balance, Update, PrepareLeft, PrepareRight, TurnRight;
    h.Unfold();
    ghost var was := h.tree;
    if Lt(key, h.key) {
      LeftDeletable(was, key);
      var x := HeapPrepareLeft(h);
      x.Unfold();
      label PreparedLeft:
      var l := HeapDeleteGo(x.left, key);
      Framed@PreparedLeft(x.right);
      x.SetLeft(l);
      r := HeapBalance(x);
    } else {
      RightDeletable(was, key);
      var x := HeapPrepareRight(h);
      if x == null {
        return null;
      }
      HeapDeleteRight(x, key);
      r := HeapBalance(x);
    }
  }

  // The descent to the right, or the deletion at the node itself, before it is balanced.
  method HeapDeleteRight(h: HeapNode, key: bytes)
    requires h.Valid()
    requires if key == h.tree.key then Ready(h.tree.right) else Deletable(h.tree.right, key)
    modifies h.repr
    ensures h.Valid() && h.repr <= old(h.repr)
    ensures var w := old(h.tree);
      if key == w.key then
        var m, s := MinNode(w.right), SetMin(w.right, w.key, w.value);
        Ready(s) && h.tree == Update(w.(key := m.key, value := m.value, right := DeleteMin(s)))
      else h.tree == Update(w.(right := DeleteGo(w.right, key)))
    decreases h.repr, 0
  {
    hide HeapNode.Valid, Update;
    h.Unfold();
    if key == h.key {
      HeapDeleteHere(h);
    } else {
      var t := HeapDeleteGo(h.right, key);
      Framed(h.left);
      h.SetRight(t);
    }
  }

  // The node holding the key takes over its successor, which is then deleted.
  method HeapDeleteHere(h: HeapNode)
    requires h.Valid() && Ready(h.tree.right)
    modifies h.repr
    ensures h.Valid() && h.repr <= old(h.repr)
    ensures var w, m := old(h.tree), MinNode(old(h.tree).right);
      Ready(SetMin(w.right, w.key, w.value)) &&
      h.tree == Update(w.(key := m.key, value := m.value, right := DeleteMin(SetMin(w.right, w.key, w.value))))
  {
    hide HeapNode.Valid, Update;
    h.Unfold();
    SetMinShape(h.tree.right, h.key, h.value);
    var k, v := HeapSwapMin(h.right, h.key, h.value);
    h.key, h.value := k, v;
    Framed(h.left);
    label Swapped:
    var t := HeapDeleteMin(h.right);
    Framed@Swapped(h.left);
    h.SetRight(t);
  }

  // ---------- The map ----------

  class RbTreeMap {
    var root: HeapNode?

    ghost predicate Valid()
      reads this, root, ReprOf(root)
    {
      ValidRef(root) && RbTree.Valid(Model())
    }

    // The tree as a value.
    ghost function Model(): Tree
      reads this, root
    {
      TreeOf(root)
    }

    constructor ()
      ensures Valid() && Model() == Nil
    {
      root := null;
    }

    // Looks at no more than 2 * log2(n + 1) nodes.
    method Get(key: bytes) returns (v: Option<NestedTree>, ghost visits: nat)
      requires Valid()
      ensures v == RbTree.Get(Model(), key)
      ensures visits == Visits(Model(), key) && Pow2((visits + 1) / 2) <= Size(Model()) + 1
    {
      LogarithmicSearch(Model(), key);
      var n := root;
      visits := 0;
      while n != null
        invariant ValidRef(n) && RbTree.Get(TreeOf(n), key) == RbTree.Get(Model(), key)
        invariant visits + Visits(TreeOf(n), key) == Visits(Model(), key)
        decreases ReprOf(n)
      {
        n.Unfold();
        visits := visits + 1;
        match Cmp(key, n.key) {
          case Equal => return Some(n.value), visits;
          case Less => n := n.left;
          case Greater => n := n.right;
        }
      }
      return None, visits;
    }

    method Insert(key: bytes, value: NestedTree)
      requires Valid()
      modifies this, ReprOf(root)
      ensures Valid() && Model() == RbTree.Insert(old(Model()), key, value)
      ensures fresh(ReprOf(root) - old(ReprOf(root)))
      ensures forall q :: RbTree.Get(Model(), q) == if q == key then Some(value) else RbTree.Get(old(Model()), q)
    {
      hide HeapNode.Valid, InsertGo, Ordered, Cached, Shaped, BlackHeight;
      InsertCorrect(Model(), key, value);
      var r := HeapInsertGo(root, key, value);
      r.SetColor(Black);
      root := r;
    }

    method Modify(key: bytes, f: NestedTree --> NestedTree)
      requires Valid()
      requires Has(Model(), key) ==> f.requires(RbTree.Get(Model(), key).value)
      modifies ReprOf(root)
      ensures Valid() && Model() == RbTree.Modify(old(Model()), key, f)
      ensures forall q :: (RbTree.Get(Model(), q) ==
        if q == key && Has(old(Model()), key) then Some(f(RbTree.Get(old(Model()), key).value))
        else RbTree.Get(old(Model()), q))
      ensures root == old(root) && ReprOf(root) <= old(ReprOf(root))
    {
      ModifyCorrect(Model(), key, f);
      HeapModifyGo(root, key, f);
    }

    method Delete(key: bytes)
      requires Valid()
      modifies this, ReprOf(root)
      ensures Valid() && Model() == RbDelete.Delete(old(Model()), key)
      ensures ReprOf(root) <= old(ReprOf(root))
      ensures forall q :: RbTree.Get(Model(), q) == if q == key then None else RbTree.Get(old(Model()), q)
    {
      hide HeapNode.Valid, DeleteGo, Deletable, Ordered, Cached, Shaped, BlackHeight;
      DeleteCorrect(Model(), key);
      var found, _ := Get(key);
      if found.None? {
        return;
      }
      DeletableRoot(Model(), key);
      root.Unfold();
      if !IsRedRef(root.left) && !IsRedRef(root.right) {
        root.SetColor(Red);
      }
      root := HeapDeleteGo(root, key);
      if root != null {
        root.Unfold();
        root.SetColor(Black);
      }
    }
  }
}
