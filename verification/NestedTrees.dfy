// Trees of trees: a store indexed by paths, its witnesses, and what a verifier learns from them.
module NestedTrees {
  import opened Bytes
  import opened HashTree
  import opened RbTree
  import opened RbDelete
  import opened Witnesses
  import opened RangeWitnesses
  import opened RangeProofs

  function GetPath(v: NestedTree, path: Path): Option<bytes>
    decreases |path|
  {
    if path == [] then
      match v
      case Value(data) => Some(data)
      case Nested(_) => None
    else
      match v
      case Value(_) => None
      case Nested(tree) =>
        match Get(tree, path[0])
        case Some(child) => GetPath(child, path[1..])
        case None => None
  }

  predicate ContainsLeaf(v: NestedTree, path: Path)
    decreases |path|
  {
    if path == [] then v.Value?
    else
      match v
      case Value(_) => false
      case Nested(tree) =>
        match Get(tree, path[0])
        case Some(child) => ContainsLeaf(child, path[1..])
        case None => false
  }

  predicate ContainsPath(v: NestedTree, path: Path)
    decreases |path|
  {
    if path == [] then true
    else
      match v
      case Value(_) => false
      case Nested(tree) =>
        match Get(tree, path[0])
        case Some(child) => ContainsPath(child, path[1..])
        case None => false
  }

  const DEFAULT: NestedTree := Nested(Nil)

  // How many times insert calls itself on the same path: a leaf is cleared first, a missing key
  // is inserted first.
  function Detours(v: NestedTree, path: Path): nat {
    if path == [] then 0
    else if v.Value? then 2
    else if Has(v.tree, path[0]) then 0 else 1
  }

  function InsertPath(v: NestedTree, path: Path, value: bytes): NestedTree
    requires Good(v)
    decreases |path|, Detours(v, path)
  {
    if path == [] then Value(value)
    else
      match v
      case Value(_) => InsertPath(DEFAULT, path, value)
      case Nested(tree) =>
        if Has(tree, path[0]) then
          GoodChild(tree, path[0]);
          Nested(Modify(tree, path[0], (child: NestedTree) requires Good(child) => InsertPath(child, path[1..], value)))
        else
          InsertKeepsGood(tree, path[0], DEFAULT);
          InsertPath(Nested(Insert(tree, path[0], DEFAULT)), path, value)
  }

  function DeletePath(v: NestedTree, path: Path): NestedTree
    requires Good(v)
    decreases |path|
  {
    if path == [] then DEFAULT
    else
      match v
      case Value(_) => v
      case Nested(tree) =>
        var f := (child: NestedTree) requires Good(child) => DeletePath(child, path[1..]);
        GoodChild(tree, path[0]);
        var t := Modify(tree, path[0], f);
        ModifyCorrect(tree, path[0], f);
        match Get(t, path[0])
        case Some(Nested(Nil)) => Nested(Delete(t, path[0]))
        case _ => Nested(t)
  }

  function Witness(v: NestedTree, path: Path): HashTree
    decreases |path|
  {
    if path == [] then AsHashTree(v)
    else
      match v
      case Value(data) => Leaf(data)
      case Nested(tree) => NestedWitness(tree, path[0], child => Witness(child, path[1..]))
  }

  // ---------- Validity on every level ----------

  ghost predicate AllValues(t: Tree, p: NestedTree -> bool) {
    t.Node? ==> p(t.value) && AllValues(t.left, p) && AllValues(t.right, p)
  }

  // In a search tree, every stored value is one that a lookup reaches.
  lemma {:induction false} AllValuesReachable(t: Tree, lo: Bound, hi: Bound, p: NestedTree -> bool)
    requires Ordered(t, lo, hi)
    ensures AllValues(t, p) <==> forall q :: Has(t, q) ==> p(Get(t, q).value)
  {
    if t.Node? {
      AllValuesReachable(t.left, lo, At(t.key), p);
      AllValuesReachable(t.right, At(t.key), hi, p);
      forall q ensures Has(t.left, q) ==> Get(t, q) == Get(t.left, q)
               ensures Has(t.right, q) ==> Get(t, q) == Get(t.right, q)
      {
        GetStep(t, q);
        LtLinear(q, t.key);
        if Has(t.left, q) { GetInBounds(t.left, lo, At(t.key), q); }
        if Has(t.right, q) { GetInBounds(t.right, At(t.key), hi, q); }
      }
      GetStep(t, t.key);
      assert Has(t, t.key) && Get(t, t.key).value == t.value;
      forall q | Has(t, q)
        ensures
          || q == t.key
          || (Has(t.left, q) && Get(t, q) == Get(t.left, q))
          || (Has(t.right, q) && Get(t, q) == Get(t.right, q))
      {
        GetStep(t, q);
      }
      if AllValues(t, p) {
        forall q | Has(t, q) ensures p(Get(t, q).value) {
          if q == t.key { GetStep(t, q); }
        }
      }
      if forall q :: Has(t, q) ==> p(Get(t, q).value) {
        forall q | Has(t.left, q) ensures p(Get(t.left, q).value) { assert Has(t, q); }
        forall q | Has(t.right, q) ensures p(Get(t.right, q).value) { assert Has(t, q); }
      }
    }
  }

  lemma {:induction false} AllGoodIsAll(t: Tree)
    ensures AllGood(t) <==> AllValues(t, (v: NestedTree) => Good(v))
  {
    if t.Node? {
      AllGoodIsAll(t.left);
      AllGoodIsAll(t.right);
    }
  }

  // Good, as the map sees it.
  lemma GoodAsMap(t: Tree)
    requires Valid(t)
    ensures Good(Nested(t)) <==> forall q :: Has(t, q) ==> Good(Get(t, q).value)
  {
    AllGoodIsAll(t);
    AllValuesReachable(t, Open, Open, (v: NestedTree) => Good(v));
  }

  lemma GoodChild(t: Tree, key: bytes)
    requires Good(Nested(t))
    ensures Has(t, key) ==> Good(Get(t, key).value)
  {
    GoodAsMap(t);
  }

  lemma InsertKeepsGood(t: Tree, key: bytes, v: NestedTree)
    requires Good(Nested(t)) && Good(v)
    ensures Good(Nested(Insert(t, key, v)))
    ensures forall q :: Get(Insert(t, key, v), q) == if q == key then Some(v) else Get(t, q)
  {
    InsertCorrect(t, key, v);
    GoodAsMap(t);
    var r := Insert(t, key, v);
    forall q | Has(r, q) ensures Good(Get(r, q).value) { assert q == key || Has(t, q); }
    GoodAsMap(r);
  }

  lemma ModifyKeepsGood(t: Tree, key: bytes, f: NestedTree --> NestedTree)
    requires Good(Nested(t))
    requires Has(t, key) ==> f.requires(Get(t, key).value) && Good(f(Get(t, key).value))
    ensures Good(Nested(Modify(t, key, f)))
    ensures forall q ::
      Get(Modify(t, key, f), q) == if q == key && Has(t, key) then Some(f(Get(t, key).value)) else Get(t, q)
  {
    ModifyCorrect(t, key, f);
    GoodAsMap(t);
    var m := Modify(t, key, f);
    forall q | Has(m, q) ensures Good(Get(m, q).value) {
      if q != key || !Has(t, key) { assert Get(m, q) == Get(t, q) && Has(t, q); }
    }
    GoodAsMap(m);
  }

  lemma DeleteKeepsGood(t: Tree, key: bytes)
    requires Good(Nested(t))
    ensures Good(Nested(Delete(t, key)))
    ensures forall q :: Get(Delete(t, key), q) == if q == key then None else Get(t, q)
  {
    DeleteCorrect(t, key);
    GoodAsMap(t);
    var r := Delete(t, key);
    forall q | Has(r, q) ensures Good(Get(r, q).value) { assert Has(t, q); }
    GoodAsMap(r);
  }

  // ---------- The path map ----------

  // One path lies on the way to the other, or is the other.
  predicate Comparable(p: Path, q: Path) {
    p <= q || q <= p
  }

  lemma TailPrefix(p: Path, q: Path)
    requires p != [] && q != [] && p[0] == q[0]
    ensures p <= q <==> p[1..] <= q[1..]
    ensures p == q <==> p[1..] == q[1..]
  {
    assert p == [p[0]] + p[1..] && q == [q[0]] + q[1..];
  }

  lemma HeadDiffers(p: Path, q: Path)
    requires p != [] && q != [] && p[0] != q[0]
    ensures !Comparable(p, q) && p != q
  {
  }

  // insert sets its path, drops the paths above and below it, and keeps every other path.
  lemma {:induction false} InsertPathCorrect(v: NestedTree, path: Path, value: bytes)
    requires Good(v)
    ensures Good(InsertPath(v, path, value))
    ensures forall q :: (GetPath(InsertPath(v, path, value), q) ==
      if q == path then Some(value) else if Comparable(path, q) then None else GetPath(v, q))
    decreases |path|, Detours(v, path)
  {
    if path != [] {
      match v
      case Value(_) => InsertPathCorrect(DEFAULT, path, value);
      case Nested(tree) =>
        if Has(tree, path[0]) {
          GoodChild(tree, path[0]);
          var c := Get(tree, path[0]).value;
          InsertPathCorrect(c, path[1..], value);
          var f := (child: NestedTree) requires Good(child) => InsertPath(child, path[1..], value);
          ModifyKeepsGood(tree, path[0], f);
          var t := Modify(tree, path[0], f);
          assert InsertPath(v, path, value) == Nested(t);
          forall q ensures GetPath(Nested(t), q) ==
            if q == path then Some(value) else if Comparable(path, q) then None else GetPath(v, q)
          {
            if q != [] && q[0] == path[0] {
              TailPrefix(path, q);
              TailPrefix(q, path);
            } else if q != [] {
              HeadDiffers(path, q);
            }
          }
        } else {
          InsertKeepsGood(tree, path[0], DEFAULT);
          var t := Insert(tree, path[0], DEFAULT);
          InsertPathCorrect(Nested(t), path, value);
          forall q ensures GetPath(Nested(t), q) == GetPath(v, q) {
            if q != [] && q[0] == path[0] { assert GetPath(DEFAULT, q[1..]) == None; }
          }
        }
    }
  }

  // delete removes its path and everything below it, and keeps every other path.
  lemma {:induction false} DeletePathCorrect(v: NestedTree, path: Path)
    requires Good(v)
    ensures Good(DeletePath(v, path))
    ensures forall q :: GetPath(DeletePath(v, path), q) == (if path <= q then None else GetPath(v, q))
    decreases |path|
  {
    if path != [] && v.Nested? {
      var tree := v.tree;
      var f := (child: NestedTree) requires Good(child) => DeletePath(child, path[1..]);
      if Has(tree, path[0]) {
        GoodChild(tree, path[0]);
        DeletePathCorrect(Get(tree, path[0]).value, path[1..]);
      }
      ModifyKeepsGood(tree, path[0], f);
      var t := Modify(tree, path[0], f);
      DeleteKeepsGood(t, path[0]);
      var r := DeletePath(v, path);
      assert r == if Get(t, path[0]) == Some(DEFAULT) then Nested(Delete(t, path[0])) else Nested(t);
      forall q ensures GetPath(r, q) == if path <= q then None else GetPath(v, q) {
        if q != [] && q[0] == path[0] {
          TailPrefix(path, q);
          assert GetPath(DEFAULT, q[1..]) == None;
        }
      }
    }
  }

  // ---------- Nothing empty below the root ----------

  ghost predicate Dense(v: NestedTree)
    decreases v, 0
  {
    v.Nested? ==> AllDense(v.tree)
  }

  ghost predicate AllDense(t: Tree)
    decreases t, 0
  {
    t.Node? ==> t.value != DEFAULT && Dense(t.value) && AllDense(t.left) && AllDense(t.right)
  }

  lemma {:induction false} AllDenseIsAll(t: Tree)
    ensures AllDense(t) <==> AllValues(t, (v: NestedTree) => v != DEFAULT && Dense(v))
  {
    if t.Node? {
      AllDenseIsAll(t.left);
      AllDenseIsAll(t.right);
    }
  }

  lemma DenseAsMap(t: Tree)
    requires Valid(t)
    ensures Dense(Nested(t)) <==> forall q :: Has(t, q) ==> Get(t, q).value != DEFAULT && Dense(Get(t, q).value)
  {
    AllDenseIsAll(t);
    AllValuesReachable(t, Open, Open, (v: NestedTree) => v != DEFAULT && Dense(v));
  }

  // Dense, but for an empty tree waiting under the next key of the path.
  ghost predicate DenseFor(v: NestedTree, path: Path) {
    path != [] && v.Nested? ==>
      forall q :: Has(v.tree, q) ==> Dense(Get(v.tree, q).value) && (q != path[0] ==> Get(v.tree, q).value != DEFAULT)
  }

  lemma DenseImpliesFor(v: NestedTree, path: Path)
    requires Good(v) && Dense(v)
    ensures DenseFor(v, path)
  {
    if v.Nested? { DenseAsMap(v.tree); }
  }

  lemma {:induction false} InsertStaysDense(v: NestedTree, path: Path, value: bytes)
    requires Good(v) && DenseFor(v, path)
    ensures Dense(InsertPath(v, path, value)) && InsertPath(v, path, value) != DEFAULT
    decreases |path|, Detours(v, path)
  {
    if path != [] {
      match v
      case Value(_) => InsertStaysDense(DEFAULT, path, value);
      case Nested(tree) =>
        if Has(tree, path[0]) {
          GoodChild(tree, path[0]);
          var c := Get(tree, path[0]).value;
          DenseImpliesFor(c, path[1..]);
          InsertStaysDense(c, path[1..], value);
          InsertPathCorrect(c, path[1..], value);
          var f := (child: NestedTree) requires Good(child) => InsertPath(child, path[1..], value);
          ModifyKeepsGood(tree, path[0], f);
          var t := Modify(tree, path[0], f);
          assert InsertPath(v, path, value) == Nested(t);
          DenseAsMap(t);
        } else {
          InsertKeepsGood(tree, path[0], DEFAULT);
          InsertStaysDense(Nested(Insert(tree, path[0], DEFAULT)), path, value);
        }
    }
  }

  lemma {:induction false} DeleteStaysDense(v: NestedTree, path: Path)
    requires Good(v) && Dense(v)
    ensures Dense(DeletePath(v, path))
    decreases |path|
  {
    if path != [] && v.Nested? {
      var tree, key := v.tree, path[0];
      DenseAsMap(tree);
      var f := (child: NestedTree) requires Good(child) => DeletePath(child, path[1..]);
      GoodChild(tree, key);
      if Has(tree, key) {
        DeleteStaysDense(Get(tree, key).value, path[1..]);
        DeletePathCorrect(Get(tree, key).value, path[1..]);
      }
      ModifyKeepsGood(tree, key, f);
      DropIfEmptyDense(tree, key, Modify(tree, key, f));
      assert DeletePath(v, path) == DropIfEmpty(Modify(tree, key, f), key);
    }
  }

  // The clean-up after deleting below a key.
  ghost function DropIfEmpty(t: Tree, key: bytes): NestedTree
    requires Valid(t)
  {
    if Get(t, key) == Some(DEFAULT) then Nested(Delete(t, key)) else Nested(t)
  }

  lemma DropIfEmptyDense(before: Tree, key: bytes, t: Tree)
    requires Valid(before) && Dense(Nested(before)) && Valid(t)
    requires forall q :: q != key ==> Get(t, q) == Get(before, q)
    requires Has(t, key) ==> Dense(Get(t, key).value)
    ensures Dense(DropIfEmpty(t, key))
  {
    DenseAsMap(before);
    DeleteCorrect(t, key);
    DenseAsMap(t);
    DenseAsMap(Delete(t, key));
    forall q | Has(t, q) && q != key
      ensures Get(t, q).value != DEFAULT && Dense(Get(t, q).value)
    {
      assert Has(before, q);
    }
    if Get(t, key) == Some(DEFAULT) {
      forall q | Has(Delete(t, key), q)
        ensures Get(Delete(t, key), q).value != DEFAULT && Dense(Get(Delete(t, key), q).value)
      {
        assert Has(t, q);
      }
    }
  }

  lemma {:induction false} DenseHasLeaf(v: NestedTree) returns (r: Path)
    requires Good(v) && Dense(v) && v != DEFAULT
    ensures GetPath(v, r).Some?
    decreases v
  {
    if v.Value? {
      r := [];
    } else {
      var k := v.tree.key;
      GetStep(v.tree, k);
      var rest := DenseHasLeaf(v.tree.value);
      r := [k] + rest;
      assert r[1..] == rest;
    }
  }

  // In a store without empty subtrees, a path exists exactly when a leaf lies at it or below it.
  lemma {:induction false} DenseContains(v: NestedTree, q: Path)
    requires Good(v) && Dense(v)
    ensures ContainsPath(v, q) <==> q == [] || exists r: Path :: GetPath(v, q + r).Some?
    decreases |q|
  {
    if q != [] {
      if v.Nested? && Has(v.tree, q[0]) {
        GoodChild(v.tree, q[0]);
        DenseAsMap(v.tree);
        var c := Get(v.tree, q[0]).value;
        forall r: Path ensures GetPath(v, q + r) == GetPath(c, q[1..] + r) { assert (q + r)[1..] == q[1..] + r; }
        DenseContains(c, q[1..]);
        if q[1..] == [] {
          var r := DenseHasLeaf(c);
          assert [] + r == r;
          assert GetPath(c, q[1..] + r).Some?;
        }
      } else {
        forall r: Path ensures GetPath(v, q + r).None? {}
      }
    }
  }

  // ---------- Witnesses ----------

  // The subtree stored at a path.
  ghost function SubtreeAt(v: NestedTree, path: Path): Option<NestedTree>
    decreases |path|
  {
    if path == [] then Some(v)
    else if v.Nested? && Has(v.tree, path[0]) then SubtreeAt(Get(v.tree, path[0]).value, path[1..])
    else None
  }

  lemma {:induction false} SubtreeAtMeaning(v: NestedTree, path: Path)
    ensures ContainsPath(v, path) <==> SubtreeAt(v, path).Some?
    ensures ContainsLeaf(v, path) <==> GetPath(v, path).Some?
    ensures forall d :: GetPath(v, path) == Some(d) <==> SubtreeAt(v, path) == Some(Value(d))
    decreases |path|
  {
    if path != [] && v.Nested? && Has(v.tree, path[0]) {
      SubtreeAtMeaning(Get(v.tree, path[0]).value, path[1..]);
    }
  }

  // Lookups in the full hash tree are lookups in the store.
  lemma {:induction false} FullLookups(v: NestedTree, path: Path)
    requires Good(v)
    ensures match GetPath(v, path)
      case Some(d) => LookupPath(AsHashTree(v), path) == PathFound(d)
      case None =>
        LookupPath(AsHashTree(v), path) ==
          if ContainsPath(v, path) && SubtreeAt(v, path) != Some(DEFAULT) then PathError else PathAbsent
    ensures match SubtreeAt(v, path)
      case Some(s) => LookupSubtree(AsHashTree(v), path) == SubtreeFound(AsHashTree(s))
      case None => LookupSubtree(AsHashTree(v), path) == SubtreeAbsent
    decreases |path|
  {
    if path == [] {
      if v.Nested? && v.tree.Node? { WholeNode(v.tree); }
    } else if v.Nested? {
      WholeLookup(v.tree, Open, Open, path[0]);
      if Has(v.tree, path[0]) {
        GoodChild(v.tree, path[0]);
        FullLookups(Get(v.tree, path[0]).value, path[1..]);
      }
      SubtreeAtMeaning(v, path);
    }
  }

  // A witness for a path prunes the full tree and answers the path, present or absent.
  lemma {:induction false} WitnessProof(v: NestedTree, path: Path)
    requires Good(v)
    ensures Prunes(Witness(v, path), AsHashTree(v)) && Digest(Witness(v, path)) == RootHash(v)
    ensures Tight(Witness(v, path))
    ensures match SubtreeAt(v, path)
      case Some(s) => LookupSubtree(Witness(v, path), path) == SubtreeFound(AsHashTree(s))
      case None => LookupSubtree(Witness(v, path), path) == SubtreeAbsent
    decreases |path|
  {
    GoodHash(v);
    if path == [] {
      PrunesRefl(AsHashTree(v));
      FullIsTight(AsHashTree(v));
    } else if v.Nested? {
      var key := path[0];
      if Has(v.tree, key) {
        GoodChild(v.tree, key);
        WitnessProof(Get(v.tree, key).value, path[1..]);
      }
      NestedWitnessProof(v.tree, key, (child: NestedTree) => Witness(child, path[1..]));
    }
  }

  // ---------- What a witness keeps to itself ----------

  // The path ends at a key next to where the asked path leaves the store.
  ghost predicate Beside(v: NestedTree, path: Path, q: Path)
    decreases |path|
  {
    && path != [] && q != [] && v.Nested?
    && if q[0] == path[0] then Has(v.tree, q[0]) && Beside(Get(v.tree, q[0]).value, path[1..], q[1..])
       else |q| == 1 && Nearest(v.tree, path[0], q[0])
  }

  ghost predicate Discloses(v: NestedTree, path: Path, q: Path) {
    Comparable(path, q) || Beside(v, path, q)
  }

  lemma NestedShows(t: Tree, path: Path, x: bytes)
    requires Good(Nested(t)) && path != []
    ensures var r := LookupLabel(Witness(Nested(t), path), x);
      && (r.Found? <==> Nearest(t, path[0], x))
      && (r.Found? && x == path[0] ==> r.node == Witness(Get(t, x).value, path[1..]))
      && (r.Found? && x != path[0] ==> r.node == Pruned(RootHash(Get(t, x).value)))
  {
    hide Nearest;
    var f := (child: NestedTree) => Witness(child, path[1..]);
    var w := NestedWitness(t, path[0], f);
    assert Witness(Nested(t), path) == w;
    if Has(t, path[0]) {
      GoodChild(t, path[0]);
      WitnessProof(Get(t, path[0]).value, path[1..]);
    }
    NestedWitnessProof(t, path[0], f);
    WholeLabels(t, Open, Open);
    PrunesLabels(w, Whole(t));
    if Spine(w) { VerdictMeaning(w, x); }
  }

  // The labels a witness shows are those of paths above and below the one asked for, and of the neighbours of a
  // missing key, whose values are hidden.
  lemma {:induction false} WitnessShows(v: NestedTree, path: Path, q: Path)
    requires Good(v)
    ensures var r := LookupSubtree(Witness(v, path), q);
      && (r.SubtreeFound? <==> ContainsPath(v, q) && Discloses(v, path, q))
      && (r.SubtreeFound? && !Comparable(path, q) ==> r.tree.Pruned?)
    decreases |path|
  {
    if path == [] {
      FullLookups(v, q);
      SubtreeAtMeaning(v, q);
    } else if q != [] && v.Nested? {
      NestedShows(v.tree, path, q[0]);
      if q[0] == path[0] {
        TailPrefix(path, q);
        TailPrefix(q, path);
        if Has(v.tree, q[0]) {
          GoodChild(v.tree, q[0]);
          WitnessShows(Get(v.tree, q[0]).value, path[1..], q[1..]);
        }
      } else {
        HeadDiffers(path, q);
      }
    }
  }

  lemma {:induction false} PathOfSubtree(t: HashTree, q: Path)
    ensures LookupPath(t, q) == match LookupSubtree(t, q)
      case SubtreeFound(n) => LookupPath(n, [])
      case SubtreeAbsent => PathAbsent
      case SubtreeUnknown => PathUnknown
    decreases |q|
  {
    if q != [] && LookupLabel(t, q[0]).Found? { PathOfSubtree(LookupLabel(t, q[0]).node, q[1..]); }
  }

  // So a stored value that is neither above nor below the path asked for stays hidden.
  lemma WitnessHides(v: NestedTree, path: Path, q: Path)
    requires Good(v) && GetPath(v, q).Some? && !Comparable(path, q)
    ensures LookupPath(Witness(v, path), q) == PathUnknown
  {
    WitnessProof(v, path);
    WitnessShows(v, path, q);
    GoodLevel(v);
    SubtreeAtMeaning(v, q);
    FullLookups(v, q);
    UnpruneSubtree(Witness(v, path), AsHashTree(v), q);
    PathOfSubtree(Witness(v, path), q);
  }

  // ---------- What a verifier learns ----------

  // Any hash tree with the store's root hash, whoever built it, tells the truth.
  lemma VerifierSound(v: NestedTree, t: HashTree, path: Path)
    requires Good(v) && Digest(t) == RootHash(v)
    ensures match LookupPath(t, path)
      case PathFound(d) => GetPath(v, path) == Some(d)
      case PathAbsent => GetPath(v, path) == None
      case PathError => GetPath(v, path) == None && ContainsPath(v, path) && SubtreeAt(v, path) != Some(DEFAULT)
      case PathUnknown => true
    ensures match LookupSubtree(t, path)
      case SubtreeFound(n) =>
        ContainsPath(v, path) && SubtreeAt(v, path).Some? && Prunes(n, AsHashTree(SubtreeAt(v, path).value))
      case SubtreeAbsent => !ContainsPath(v, path)
      case SubtreeUnknown => true
  {
    GoodHash(v);
    GoodLevel(v);
    SameDigestPrunes(t, AsHashTree(v));
    UnprunePath(t, AsHashTree(v), path);
    UnpruneSubtree(t, AsHashTree(v), path);
    FullLookups(v, path);
    SubtreeAtMeaning(v, path);
  }

  // ---------- Whole histories ----------

  datatype Op = InsertOp(path: Path, value: bytes) | DeleteOp(path: Path) | ClearOp

  function Step(v: NestedTree, op: Op): NestedTree
    requires Good(v)
  {
    match op
    case InsertOp(path, value) => InsertPath(v, path, value)
    case DeleteOp(path) => DeletePath(v, path)
    case ClearOp => DEFAULT
  }

  // The store after a history, oldest operation first.
  function Run(ops: seq<Op>): (v: NestedTree)
    ensures Good(v)
  {
    if ops == [] then DEFAULT
    else
      var v := Run(ops[..|ops| - 1]);
      var op := ops[|ops| - 1];
      StepGood(v, op);
      Step(v, op)
  }

  lemma StepGood(v: NestedTree, op: Op)
    requires Good(v)
    ensures Good(Step(v, op))
  {
    match op
    case InsertOp(path, value) => InsertPathCorrect(v, path, value);
    case DeleteOp(path) => DeletePathCorrect(v, path);
    case ClearOp =>
  }

  // The same history on a plain map.
  ghost function History(ops: seq<Op>): map<Path, bytes> {
    if ops == [] then map[]
    else
      var m := History(ops[..|ops| - 1]);
      match ops[|ops| - 1]
      case InsertOp(path, value) => (map q | q in m && !Comparable(path, q) :: m[q])[path := value]
      case DeleteOp(path) => map q | q in m && !(path <= q) :: m[q]
      case ClearOp => map[]
  }

  ghost function Find(m: map<Path, bytes>, path: Path): Option<bytes> {
    if path in m then Some(m[path]) else None
  }

  // After any history the store is the prefix-free path map, with no empty subtree below the root.
  lemma {:induction false} RunRefines(ops: seq<Op>)
    ensures Good(Run(ops)) && Dense(Run(ops))
    ensures forall q :: GetPath(Run(ops), q) == Find(History(ops), q)
    ensures forall p, q :: p in History(ops) && q in History(ops) && p <= q ==> p == q
  {
    if ops != [] {
      var before := ops[..|ops| - 1];
      RunRefines(before);
      var v := Run(before);
      match ops[|ops| - 1]
      case InsertOp(path, value) =>
        DenseImpliesFor(v, path);
        InsertStaysDense(v, path, value);
        InsertPathCorrect(v, path, value);
      case DeleteOp(path) =>
        DeleteStaysDense(v, path);
        DeletePathCorrect(v, path);
      case ClearOp =>
    }
  }

  // A certificate checked against the root hash after any history answers from that history.
  lemma RunSound(ops: seq<Op>, t: HashTree, path: Path)
    requires Digest(t) == RootHash(Run(ops))
    ensures match LookupPath(t, path)
      case PathFound(d) => path in History(ops) && History(ops)[path] == d
      case PathAbsent => path !in History(ops)
      case PathError => path !in History(ops) && exists r: Path :: path + r in History(ops)
      case PathUnknown => true
    ensures match LookupSubtree(t, path)
      case SubtreeFound(_) => path == [] || exists r: Path :: path + r in History(ops)
      case SubtreeAbsent => forall r: Path :: path + r !in History(ops)
      case SubtreeUnknown => true
  {
    var v := Run(ops);
    RunRefines(ops);
    VerifierSound(v, t, path);
    DenseContains(v, path);
    forall r: Path ensures GetPath(v, path + r).Some? <==> path + r in History(ops) {}
    if path == [] && LookupPath(t, path).PathError? {
      var r := DenseHasLeaf(v);
      assert path + r == r;
    }
  }
}
