// Turning a red-black tree into hash trees: in full, and pruned to what a proof needs.
module Witnesses {
  import opened Bytes
  import opened HashTree
  import opened RbTree

  function ThreeWayFork(l: HashTree, m: HashTree, r: HashTree): HashTree {
    match (l, m, r)
    case (Empty, _, Empty) => m
    case (_, _, Empty) => Fork(l, m)
    case (Empty, _, _) => Fork(m, r)
    case (Pruned(lh), Pruned(mh), Pruned(rh)) => Pruned(HFork(lh, HFork(mh, rh)))
    case (_, Pruned(mh), Pruned(rh)) => Fork(l, Pruned(HFork(mh, rh)))
    case _ => Fork(l, Fork(m, r))
  }

  // The two ways a witness shows a node: with its value in full, or with the value pruned.
  datatype Show = DataTree | WitnessTree

  function AsHashTree(v: NestedTree): HashTree
    decreases v, 0
  {
    match v
    case Value(data) => Leaf(data)
    case Nested(tree) => FullWitnessTree(tree, DataTree)
  }

  function NodeTree(n: Tree, show: Show): HashTree
    requires n.Node?
    decreases n, 0
  {
    match show
    case DataTree => Labeled(n.key, AsHashTree(n.value))
    case WitnessTree => Labeled(n.key, Pruned(RootHash(n.value)))
  }

  function FullWitnessTree(t: Tree, show: Show): HashTree
    decreases t, 1
  {
    if t.Nil? then Empty
    else ThreeWayFork(FullWitnessTree(t.left, show), NodeTree(t, show), FullWitnessTree(t.right, show))
  }

  // The pruned stand-in for a subtree.
  function PrunedTree(t: Tree): HashTree {
    if t.Nil? then Empty else Pruned(t.subtreeHash)
  }

  // The whole tree, nothing hidden.
  function Whole(t: Tree): HashTree {
    FullWitnessTree(t, DataTree)
  }

  // Valid on this level and on every level below.
  ghost predicate Good(v: NestedTree)
    decreases v, 0
  {
    v.Nested? ==> Valid(v.tree) && AllGood(v.tree)
  }

  ghost predicate AllGood(t: Tree)
    decreases t, 0
  {
    t.Node? ==> Good(t.value) && AllGood(t.left) && AllGood(t.right)
  }

  // ---------- Forks ----------

  lemma ForkLabels(l: HashTree, m: HashTree, r: HashTree)
    ensures Labels(ThreeWayFork(l, m, r)) == Labels(l) + Labels(m) + Labels(r)
  {
  }

  // A part of a fork: nothing at all, or a sorted spine.
  ghost predicate Part(t: HashTree) {
    t.Empty? || Spine(t)
  }

  lemma ForkSpine(l: HashTree, m: HashTree, r: HashTree)
    requires Part(l) && m.Labeled? && Part(r)
    requires forall x :: x in Labels(l) ==> Lt(x, m.name)
    requires forall x :: x in Labels(r) ==> Lt(m.name, x)
    ensures Spine(ThreeWayFork(l, m, r))
  {
    TotalOrder();
    forall x, y | x in Labels(l) && y in Labels(r) ensures Lt(x, y) { LtTrans(x, m.name, y); }
  }

  // A verdict about the right part, seen from the whole fork.
  function FromRight(r: LabelResult): LabelResult {
    if r.Less? then Absent else r
  }

  function FromLeft(r: LabelResult): LabelResult {
    if r.Greater? then Absent else r
  }

  lemma ForkLookup(l: HashTree, k: bytes, s: HashTree, r: HashTree, x: bytes)
    requires Part(l) && Part(r)
    requires forall y :: y in Labels(l) ==> Lt(y, k)
    requires forall y :: y in Labels(r) ==> Lt(k, y)
    ensures LookupLabel(ThreeWayFork(l, Labeled(k, s), r), x) ==
      if x == k then Found(s)
      else if Lt(x, k) then (if l.Empty? then LabelResult.Less else FromLeft(LookupLabel(l, x)))
      else (if r.Empty? then LabelResult.Greater else FromRight(LookupLabel(r, x)))
  {
    CmpEqual(x, k);
    var m := Labeled(k, s);
    assert LookupLabel(m, x) == if x == k then Found(s) else if Lt(x, k) then LabelResult.Less else LabelResult.Greater;
    assert LookupLabel(Fork(m, r), x) ==
      if x == k then Found(s) else if Lt(x, k) then LabelResult.Less else FromRight(LookupLabel(r, x));
    if !Lt(x, k) && Spine(l) {
      forall y | y in Labels(l) ensures Lt(y, x) {
        CmpFlip(k, x);
        if x != k { LtTrans(y, k, x); }
      }
      VerdictMeaning(l, x);
    }
  }

  // With the node itself hidden, only one side can decide.
  lemma ForkLookupRight(l: HashTree, h: Hash, r: HashTree, x: bytes)
    requires l.Empty? || l.Pruned?
    requires Spine(r) && Labels(r) != {}
    ensures LookupLabel(ThreeWayFork(l, Pruned(h), r), x) ==
      if LookupLabel(r, x).Less? then LabelResult.Unknown else LookupLabel(r, x)
  {
    assert LookupLabel(Fork(Pruned(h), r), x) ==
      if LookupLabel(r, x).Less? then LabelResult.Unknown else LookupLabel(r, x);
  }

  lemma ForkLookupLeft(l: HashTree, h: Hash, r: HashTree, x: bytes)
    requires r.Empty? || r.Pruned?
    requires Spine(l) && Labels(l) != {} && !LookupLabel(l, x).Unknown?
    ensures LookupLabel(ThreeWayFork(l, Pruned(h), r), x) ==
      if LookupLabel(l, x).Greater? then LabelResult.Unknown else LookupLabel(l, x)
  {
  }

  // Hidden parts next to each other become one.
  lemma ForkTight(l: HashTree, m: HashTree, r: HashTree)
    requires Tight(l) && Tight(m) && Tight(r) && (m.Labeled? || m.Pruned?)
    requires m.Labeled? || !(l.Pruned? || l.Empty?) || !(r.Pruned? || r.Empty?)
    ensures Tight(ThreeWayFork(l, m, r))
  {
  }

  // Collapsing pruned parts never shows in the digest.
  lemma ForkDigest(l: HashTree, m: HashTree, r: HashTree)
    ensures Digest(ThreeWayFork(l, m, r)) ==
      if l.Empty? && r.Empty? then Digest(m)
      else if r.Empty? then HFork(Digest(l), Digest(m))
      else if l.Empty? then HFork(Digest(m), Digest(r))
      else HFork(Digest(l), HFork(Digest(m), Digest(r)))
  {
    assert Digest(Fork(m, r)) == HFork(Digest(m), Digest(r));
  }

  // Pruning the parts prunes the fork, whichever way the pruned parts collapse.
  lemma ForkPrunes(l: HashTree, m: HashTree, r: HashTree, L: HashTree, M: HashTree, R: HashTree)
    requires Prunes(l, L) && Prunes(m, M) && Prunes(r, R)
    requires M.Labeled? && !L.Pruned? && !R.Pruned?
    requires l.Empty? == L.Empty? && r.Empty? == R.Empty?
    ensures Prunes(ThreeWayFork(l, m, r), ThreeWayFork(L, M, R))
  {
    PrunesDigest(l, L);
    PrunesDigest(m, M);
    PrunesDigest(r, R);
  }

  // ---------- The full tree ----------

  lemma WholeNode(t: Tree)
    requires t.Node?
    ensures Whole(t) == ThreeWayFork(Whole(t.left), Labeled(t.key, AsHashTree(t.value)), Whole(t.right))
  {
    assert NodeTree(t, DataTree) == Labeled(t.key, AsHashTree(t.value));
  }

  lemma WholeShape(t: Tree)
    ensures Whole(t).Empty? <==> t.Nil?
    ensures !Whole(t).Pruned?
  {
    if t.Node? { WholeNode(t); }
  }

  lemma {:induction false} GoodHash(v: NestedTree)
    requires Good(v)
    ensures Digest(AsHashTree(v)) == RootHash(v) && Full(AsHashTree(v))
    decreases v, 0
  {
    if v.Nested? { WholeHash(v.tree); }
  }

  // The cached hash is the digest of the tree rebuilt from scratch, through every level.
  lemma {:induction false} WholeHash(t: Tree)
    requires Cached(t) && AllGood(t)
    ensures Digest(Whole(t)) == TreeHash(t) && Full(Whole(t))
    decreases t, 0
  {
    if t.Node? {
      WholeNode(t);
      WholeHash(t.left);
      WholeHash(t.right);
      GoodHash(t.value);
      WholeShape(t.left);
      WholeShape(t.right);
      ForkDigest(Whole(t.left), Labeled(t.key, AsHashTree(t.value)), Whole(t.right));
    }
  }

  lemma {:induction false} WholeLabels(t: Tree, lo: Bound, hi: Bound)
    requires Ordered(t, lo, hi)
    ensures forall x :: x in Labels(Whole(t)) <==> Has(t, x)
    ensures forall x :: x in Labels(Whole(t)) ==> Above(lo, x) && Below(x, hi)
    ensures Part(Whole(t))
  {
    if t.Node? {
      WholeLabels(t.left, lo, At(t.key));
      WholeLabels(t.right, At(t.key), hi);
      ForkLabels(Whole(t.left), NodeTree(t, DataTree), Whole(t.right));
      forall x ensures x in Labels(Whole(t)) <==> Has(t, x) {
        GetStep(t, x);
        if x in Labels(Whole(t.left)) { LtLinear(x, t.key); }
        if x in Labels(Whole(t.right)) { LtLinear(x, t.key); }
      }
      forall x | Has(t, x) ensures Above(lo, x) && Below(x, hi) { GetInBounds(t, lo, hi, x); }
      ForkSpine(Whole(t.left), NodeTree(t, DataTree), Whole(t.right));
    }
  }

  // On the full tree a label lookup is the map lookup.
  lemma {:induction false} WholeLookup(t: Tree, lo: Bound, hi: Bound, x: bytes)
    requires Ordered(t, lo, hi)
    ensures match Get(t, x)
      case Some(v) => LookupLabel(Whole(t), x) == Found(AsHashTree(v))
      case None => !LookupLabel(Whole(t), x).Found? && !LookupLabel(Whole(t), x).Unknown?
  {
    if t.Node? {
      WholeNode(t);
      WholeLookup(t.left, lo, At(t.key), x);
      WholeLookup(t.right, At(t.key), hi, x);
      WholeLabels(t.left, lo, At(t.key));
      WholeLabels(t.right, At(t.key), hi);
      GetStep(t, x);
      ForkLookup(Whole(t.left), t.key, AsHashTree(t.value), Whole(t.right), x);
    }
  }

  lemma {:induction false} ForkSubLevels(l: HashTree, m: HashTree, r: HashTree)
    requires SubLevels(l) && SubLevels(m) && SubLevels(r)
    ensures SubLevels(ThreeWayFork(l, m, r))
  {
  }

  // The full tree is sorted on every level.
  lemma {:induction false} GoodLevel(v: NestedTree)
    requires Good(v)
    ensures Level(AsHashTree(v))
    decreases v, 0
  {
    if v.Nested? {
      WholeLabels(v.tree, Open, Open);
      WholeSubLevels(v.tree);
    }
  }

  lemma {:induction false} WholeSubLevels(t: Tree)
    requires AllGood(t)
    ensures SubLevels(Whole(t))
    decreases t, 0
  {
    if t.Node? {
      GoodLevel(t.value);
      WholeSubLevels(t.left);
      WholeSubLevels(t.right);
      ForkSubLevels(Whole(t.left), NodeTree(t, DataTree), Whole(t.right));
    }
  }
}
