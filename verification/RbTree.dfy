// Left-leaning red-black trees whose nodes cache the hash of their subtree, as values.
module RbTree {
  import opened Bytes
  import opened HashTree

  datatype Color = Red | Black

  // What a tree stores under a key: plain bytes, or a whole tree one level down.
  datatype NestedTree = Value(data: bytes) | Nested(tree: Tree)

  datatype Tree =
    | Nil
    | Node(key: bytes, value: NestedTree, left: Tree, right: Tree, color: Color, subtreeHash: Hash)

  // ---------- Hashes ----------

  function RootHash(v: NestedTree): Hash {
    match v
    case Value(data) => HLeaf(data)
    case Nested(tree) => TreeHash(tree)
  }

  function TreeHash(t: Tree): Hash {
    if t.Nil? then HEmpty else t.subtreeHash
  }

  function DataHash(n: Tree): Hash
    requires n.Node?
  {
    HLabeled(n.key, RootHash(n.value))
  }

  function ComputeSubtreeHash(n: Tree): Hash
    requires n.Node?
  {
    var h := DataHash(n);
    match (n.left, n.right)
    case (Nil, Nil) => h
    case (_, Nil) => HFork(n.left.subtreeHash, h)
    case (Nil, _) => HFork(h, n.right.subtreeHash)
    case (_, _) => HFork(n.left.subtreeHash, HFork(h, n.right.subtreeHash))
  }

  function Update(n: Tree): Tree
    requires n.Node?
  {
    n.(subtreeHash := ComputeSubtreeHash(n))
  }

  // Node::new: a red leaf node.
  function NewNode(key: bytes, value: NestedTree): Tree {
    Node(key, value, Nil, Nil, Red, HLabeled(key, RootHash(value)))
  }

  // ---------- Rotations and balancing ----------

  predicate IsRed(t: Tree) {
    t.Node? && t.color.Red?
  }

  function Flip(c: Color): Color {
    if c.Red? then Black else Red
  }

  function Paint(t: Tree, c: Color): Tree
    requires t.Node?
  {
    t.(color := c)
  }

  function RotateRight(h: Tree): Tree
    requires h.Node? && IsRed(h.left)
  {
    var x := h.left;
    var h' := Update(h.(left := x.right));
    Update(x.(right := Paint(h', Red), color := h'.color))
  }

  function RotateLeft(h: Tree): Tree
    requires h.Node? && IsRed(h.right)
  {
    var x := h.right;
    var h' := Update(h.(right := x.left));
    Update(x.(left := Paint(h', Red), color := h'.color))
  }

  function FlipColors(h: Tree): Tree
    requires h.Node? && h.left.Node? && h.right.Node?
  {
    h.(color := Flip(h.color),
       left := Paint(h.left, Flip(h.left.color)),
       right := Paint(h.right, Flip(h.right.color)))
  }

  function LeanLeft(h: Tree): (r: Tree)
    requires h.Node?
    ensures r.Node?
  {
    if IsRed(h.right) && !IsRed(h.left) then RotateLeft(h) else h
  }

  function SplitReds(h: Tree): (r: Tree)
    requires h.Node?
    ensures r.Node?
  {
    if IsRed(h.left) && IsRed(h.left.left) then RotateRight(h) else h
  }

  function LiftReds(h: Tree): (r: Tree)
    requires h.Node?
    ensures r.Node?
  {
    if IsRed(h.left) && IsRed(h.right) then FlipColors(h) else h
  }

  function Balance(h: Tree): (r: Tree)
    requires h.Node?
    ensures r.Node?
  {
    LiftReds(SplitReds(LeanLeft(h)))
  }

  // ---------- Map operations ----------

  function Get(t: Tree, key: bytes): Option<NestedTree> {
    match t
    case Nil => None
    case Node(k, v, l, r, _, _) =>
      match Cmp(key, k)
      case Equal => Some(v)
      case Less => Get(l, key)
      case Greater => Get(r, key)
  }

  predicate Has(t: Tree, key: bytes) {
    Get(t, key).Some?
  }

  function InsertGo(h: Tree, k: bytes, v: NestedTree): (r: Tree)
    ensures r.Node?
  {
    match h
    case Nil => NewNode(k, v)
    case Node(key, _, _, _, _, _) =>
      var h' := match Cmp(k, key)
        case Equal => h.(value := v)
        case Less => h.(left := InsertGo(h.left, k, v))
        case Greater => h.(right := InsertGo(h.right, k, v));
      Balance(Update(h'))
  }

  function Insert(t: Tree, k: bytes, v: NestedTree): (r: Tree)
    ensures r.Node?
  {
    Paint(InsertGo(t, k, v), Black)
  }

  // The in-place update: f runs once, on the value stored under the key, if there is one.
  function Modify(t: Tree, key: bytes, f: NestedTree --> NestedTree): Tree
    requires Has(t, key) ==> f.requires(Get(t, key).value)
  {
    match t
    case Nil => Nil
    case Node(k, v, l, r, _, _) =>
      match Cmp(key, k)
      case Equal => Update(t.(value := f(v)))
      case Less => Update(t.(left := Modify(l, key, f)))
      case Greater => Update(t.(right := Modify(r, key, f)))
  }

  // ---------- Invariants ----------

  datatype Bound = Open | At(key: bytes)

  predicate Above(lo: Bound, k: bytes) {
    lo.Open? || Lt(lo.key, k)
  }

  predicate Below(k: bytes, hi: Bound) {
    hi.Open? || Lt(k, hi.key)
  }

  // Search order, every key strictly between the bounds.
  ghost predicate Ordered(t: Tree, lo: Bound, hi: Bound) {
    t.Nil? ||
    (Above(lo, t.key) && Below(t.key, hi) && Ordered(t.left, lo, At(t.key)) && Ordered(t.right, At(t.key), hi))
  }

  // Every cached hash on this level is the one computed from the node's data and children.
  ghost predicate Cached(t: Tree) {
    t.Nil? || (t.subtreeHash == ComputeSubtreeHash(t) && Cached(t.left) && Cached(t.right))
  }

  ghost function BlackHeight(t: Tree): nat {
    if t.Nil? then 0 else BlackHeight(t.left) + if t.color.Black? then 1 else 0
  }

  // Equal black heights, no red node with a red child, no red right link.
  ghost predicate Shaped(t: Tree) {
    t.Nil? ||
    (Shaped(t.left) && Shaped(t.right) && BlackHeight(t.left) == BlackHeight(t.right)
     && !IsRed(t.right) && (t.color.Red? ==> !IsRed(t.left)))
  }

  // What every tree keeps between operations.
  ghost predicate Valid(t: Tree) {
    Ordered(t, Open, Open) && Cached(t) && Shaped(t) && !IsRed(t)
  }

  // ---------- Order ----------

  lemma {:induction false} OrderedWiden(t: Tree, lo: Bound, hi: Bound, lo': Bound, hi': Bound)
    requires Ordered(t, lo, hi)
    requires lo'.Open? || (lo.At? && (lo == lo' || Lt(lo'.key, lo.key)))
    requires hi'.Open? || (hi.At? && (hi == hi' || Lt(hi.key, hi'.key)))
    ensures Ordered(t, lo', hi')
  {
    if t.Node? {
      TotalOrder();
      OrderedWiden(t.left, lo, At(t.key), lo', At(t.key));
      OrderedWiden(t.right, At(t.key), hi, At(t.key), hi');
    }
  }

  lemma {:induction false} GetInBounds(t: Tree, lo: Bound, hi: Bound, q: bytes)
    requires Ordered(t, lo, hi) && Has(t, q)
    ensures Above(lo, q) && Below(q, hi)
  {
    TotalOrder();
    match Cmp(q, t.key)
    case Equal =>
    case Less => GetInBounds(t.left, lo, At(t.key), q);
    case Greater => GetInBounds(t.right, At(t.key), hi, q);
  }

  // One step of the search.
  lemma GetStep(t: Tree, q: bytes)
    requires t.Node?
    ensures Get(t, q) == if q == t.key then Some(t.value) else if Lt(q, t.key) then Get(t.left, q) else Get(t.right, q)
  {
    CmpEqual(q, t.key);
  }

  lemma PaintKeeps(t: Tree, c: Color, lo: Bound, hi: Bound)
    requires t.Node?
    ensures Ordered(t, lo, hi) ==> Ordered(Paint(t, c), lo, hi)
    ensures forall q :: Get(Paint(t, c), q) == Get(t, q)
    ensures Cached(t) ==> Cached(Paint(t, c))
  {
  }

  lemma RotateRightGet(h: Tree, lo: Bound, hi: Bound, q: bytes)
    requires h.Node? && IsRed(h.left) && Ordered(h, lo, hi)
    ensures Get(RotateRight(h), q) == Get(h, q)
  {
    var x, r := h.left, RotateRight(h);
    GetStep(h, q);
    GetStep(x, q);
    GetStep(r, q);
    GetStep(r.right, q);
    TotalOrder();
  }

  lemma RotateRightKeeps(h: Tree, lo: Bound, hi: Bound)
    requires h.Node? && IsRed(h.left)
    ensures Ordered(h, lo, hi) ==> Ordered(RotateRight(h), lo, hi)
    ensures Ordered(h, lo, hi) ==> forall q :: Get(RotateRight(h), q) == Get(h, q)
    ensures Cached(h.left) && Cached(h.right) ==> Cached(RotateRight(h))
  {
    var x, r := h.left, RotateRight(h);
    assert Cached(h.left) && Cached(h.right) ==> Cached(r.right);
    if Ordered(h, lo, hi) {
      TotalOrder();
      assert Ordered(x, lo, At(h.key));
      assert Ordered(r.right, At(r.key), hi);
      forall q ensures Get(r, q) == Get(h, q) { RotateRightGet(h, lo, hi, q); }
    }
  }

  lemma RotateLeftGet(h: Tree, lo: Bound, hi: Bound, q: bytes)
    requires h.Node? && IsRed(h.right) && Ordered(h, lo, hi)
    ensures Get(RotateLeft(h), q) == Get(h, q)
  {
    var x, r := h.right, RotateLeft(h);
    GetStep(h, q);
    GetStep(x, q);
    GetStep(r, q);
    GetStep(r.left, q);
    TotalOrder();
  }

  lemma RotateLeftKeeps(h: Tree, lo: Bound, hi: Bound)
    requires h.Node? && IsRed(h.right)
    ensures Ordered(h, lo, hi) ==> Ordered(RotateLeft(h), lo, hi)
    ensures Ordered(h, lo, hi) ==> forall q :: Get(RotateLeft(h), q) == Get(h, q)
    ensures Cached(h.left) && Cached(h.right) ==> Cached(RotateLeft(h))
  {
    var x, r := h.right, RotateLeft(h);
    assert Cached(h.left) && Cached(h.right) ==> Cached(r.left);
    if Ordered(h, lo, hi) {
      TotalOrder();
      assert Ordered(x, At(h.key), hi);
      assert Ordered(r.left, lo, At(r.key));
      forall q ensures Get(r, q) == Get(h, q) { RotateLeftGet(h, lo, hi, q); }
    }
  }

  lemma FlipKeeps(h: Tree, lo: Bound, hi: Bound)
    requires h.Node? && h.left.Node? && h.right.Node?
    ensures Ordered(h, lo, hi) ==> Ordered(FlipColors(h), lo, hi)
    ensures forall q :: Get(FlipColors(h), q) == Get(h, q)
    ensures Cached(h) ==> Cached(FlipColors(h))
  {
    PaintKeeps(h.left, Flip(h.left.color), lo, At(h.key));
    PaintKeeps(h.right, Flip(h.right.color), At(h.key), hi);
  }

  lemma BalanceKeeps(h: Tree, lo: Bound, hi: Bound)
    requires h.Node?
    ensures Ordered(h, lo, hi) ==> Ordered(Balance(h), lo, hi)
    ensures Ordered(h, lo, hi) ==> forall q :: Get(Balance(h), q) == Get(h, q)
    ensures Cached(h) ==> Cached(Balance(h))
  {
    var a := LeanLeft(h);
    if IsRed(h.right) && !IsRed(h.left) { RotateLeftKeeps(h, lo, hi); }
    var b := SplitReds(a);
    if IsRed(a.left) && IsRed(a.left.left) { RotateRightKeeps(a, lo, hi); }
    if IsRed(b.left) && IsRed(b.right) { FlipKeeps(b, lo, hi); }
  }

  // ---------- Insert ----------

  // Red-red is allowed at the root only: what insertion leaves behind below a node it will balance.
  ghost predicate AlmostShaped(t: Tree) {
    && t.Node?
    && Shaped(t.left) && Shaped(t.right) && BlackHeight(t.left) == BlackHeight(t.right)
    && !IsRed(t.right)
  }

  // The shape insertion gives back: red-red only where the old root was red already.
  lemma {:induction false} InsertShape(h: Tree, k: bytes, v: NestedTree)
    requires Shaped(h)
    ensures AlmostShaped(InsertGo(h, k, v)) && BlackHeight(InsertGo(h, k, v)) == BlackHeight(h)
    ensures !IsRed(h) ==> Shaped(InsertGo(h, k, v))
  {
    if h.Node? {
      InsertShape(h.left, k, v);
      InsertShape(h.right, k, v);
      match Cmp(k, h.key)
      case Equal => BalanceShapeInsert(Update(h.(value := v)), h.left, h.right);
      case Less => BalanceShapeInsert(Update(h.(left := InsertGo(h.left, k, v))), h.left, h.right);
      case Greater => BalanceShapeInsert(Update(h.(right := InsertGo(h.right, k, v))), h.left, h.right);
    }
  }

  // A child as insertion may have changed it: was is the child before, t the child now.
  ghost predicate Grown(t: Tree, was: Tree) {
    && Shaped(was) && (Shaped(t) || (AlmostShaped(t) && IsRed(was))) && BlackHeight(t) == BlackHeight(was)
  }

  lemma BalanceShapeInsert(h: Tree, l: Tree, r: Tree)
    requires h.Node? && BlackHeight(l) == BlackHeight(r) && !IsRed(r) && (h.color.Red? ==> !IsRed(l))
    requires (Grown(h.left, l) && h.right == r && Shaped(r)) || (h.left == l && Shaped(l) && Grown(h.right, r))
    ensures AlmostShaped(Balance(h)) && BlackHeight(Balance(h)) == BlackHeight(l) + (if h.color.Black? then 1 else 0)
    ensures h.color.Black? ==> Shaped(Balance(h))
  {
    var a := LeanLeft(h);
    var b := SplitReds(a);
    assert b == Balance(h) || LiftReds(b) == Balance(h);
  }

  lemma {:induction false} InsertMap(h: Tree, k: bytes, v: NestedTree, lo: Bound, hi: Bound)
    requires Ordered(h, lo, hi) && Above(lo, k) && Below(k, hi) && Cached(h)
    ensures Ordered(InsertGo(h, k, v), lo, hi) && Cached(InsertGo(h, k, v))
    ensures forall q :: Get(InsertGo(h, k, v), q) == if q == k then Some(v) else Get(h, q)
  {
    TotalOrder();
    if h.Nil? {
      assert Ordered(Nil, lo, At(k)) && Ordered(Nil, At(k), hi);
    } else {
      match Cmp(k, h.key)
      case Equal =>
        var h' := Update(h.(value := v));
        BalanceKeeps(h', lo, hi);
        forall q ensures Get(h', q) == if q == k then Some(v) else Get(h, q) { GetStep(h, q); GetStep(h', q); }
      case Less =>
        InsertMap(h.left, k, v, lo, At(h.key));
        var h' := Update(h.(left := InsertGo(h.left, k, v)));
        BalanceKeeps(h', lo, hi);
        forall q ensures Get(h', q) == if q == k then Some(v) else Get(h, q) { GetStep(h, q); GetStep(h', q); }
      case Greater =>
        InsertMap(h.right, k, v, At(h.key), hi);
        var h' := Update(h.(right := InsertGo(h.right, k, v)));
        BalanceKeeps(h', lo, hi);
        forall q ensures Get(h', q) == if q == k then Some(v) else Get(h, q) { GetStep(h, q); GetStep(h', q); }
    }
  }

  // Insertion keeps every invariant and is a map update.
  lemma InsertCorrect(t: Tree, k: bytes, v: NestedTree)
    requires Valid(t)
    ensures Valid(Insert(t, k, v))
    ensures forall q :: Get(Insert(t, k, v), q) == if q == k then Some(v) else Get(t, q)
  {
    InsertMap(t, k, v, Open, Open);
    InsertShape(t, k, v);
    PaintKeeps(InsertGo(t, k, v), Black, Open, Open);
  }

  // ---------- Modify ----------

  lemma {:induction false} ModifyMap(t: Tree, key: bytes, f: NestedTree --> NestedTree, lo: Bound, hi: Bound)
    requires Has(t, key) ==> f.requires(Get(t, key).value)
    requires Ordered(t, lo, hi) && Cached(t)
    ensures var m := Modify(t, key, f);
      && Ordered(m, lo, hi) && Cached(m)
      && BlackHeight(m) == BlackHeight(t) && IsRed(m) == IsRed(t) && (Shaped(t) ==> Shaped(m))
      && forall q :: Get(m, q) == if q == key && Has(t, key) then Some(f(Get(t, key).value)) else Get(t, q)
  {
    if t.Node? {
      var m := Modify(t, key, f);
      GetStep(t, key);
      CmpEqual(key, t.key);
      match Cmp(key, t.key)
      case Equal =>
        forall q ensures Get(m, q) == if q == key then Some(f(Get(t, key).value)) else Get(t, q) {
          GetStep(t, q);
          GetStep(m, q);
        }
      case Less =>
        ModifyMap(t.left, key, f, lo, At(t.key));
        forall q ensures Get(m, q) == if q == key && Has(t, key) then Some(f(Get(t, key).value)) else Get(t, q) {
          GetStep(t, q);
          GetStep(m, q);
        }
      case Greater =>
        ModifyMap(t.right, key, f, At(t.key), hi);
        forall q ensures Get(m, q) == if q == key && Has(t, key) then Some(f(Get(t, key).value)) else Get(t, q) {
          GetStep(t, q);
          GetStep(m, q);
        }
    }
  }

  // Modify keeps every invariant and rewrites one value.
  lemma ModifyCorrect(t: Tree, key: bytes, f: NestedTree --> NestedTree)
    requires Valid(t) && (Has(t, key) ==> f.requires(Get(t, key).value))
    ensures Valid(Modify(t, key, f))
    ensures forall q ::
      Get(Modify(t, key, f), q) == if q == key && Has(t, key) then Some(f(Get(t, key).value)) else Get(t, q)
  {
    ModifyMap(t, key, f, Open, Open);
  }
}
