// The stores a canister keeps and updates in place.
module Stores {
  import opened Bytes
  import opened HashTree
  import opened RbTree
  import RbDelete
  import opened Witnesses
  import opened NestedTrees
  import opened HttpTree

  // A nested tree behind a mutable reference.
  class NestedTreeStore {
    var node: NestedTree

    ghost predicate Valid()
      reads this
    {
      Good(node)
    }

    constructor ()
      ensures Valid() && Dense(node) && node == DEFAULT
    {
      node := DEFAULT;
    }

    method Clear()
      modifies this
      ensures Valid() && Dense(node) && node == DEFAULT
    {
      node := DEFAULT;
    }

    // Calls itself again on the same path after making room, at most twice in a row.
    method Insert(path: Path, value: bytes)
      requires Valid()
      modifies this
      ensures Valid() && node == InsertPath(old(node), path, value)
      ensures DenseFor(old(node), path) ==> Dense(node)
      ensures forall q :: (GetPath(node, q) ==
        if q == path then Some(value) else if Comparable(path, q) then None else GetPath(old(node), q))
      decreases |path|, Detours(node, path)
    {
      InsertPathCorrect(node, path, value);
      if DenseFor(node, path) { InsertStaysDense(node, path, value); }
      if path != [] {
        match node
        case Value(_) =>
          Clear();
          Insert(path, value);
        case Nested(tree) =>
          if Has(tree, path[0]) {
            GoodChild(tree, path[0]);
            var f := (child: NestedTree) requires Good(child) => InsertPath(child, path[1..], value);
            node := Nested(Modify(tree, path[0], f));
          } else {
            InsertKeepsGood(tree, path[0], DEFAULT);
            node := Nested(RbTree.Insert(tree, path[0], DEFAULT));
            Insert(path, value);
          }
      } else {
        node := Value(value);
      }
    }

    method Delete(path: Path)
      requires Valid()
      modifies this
      ensures Valid() && node == DeletePath(old(node), path)
      ensures old(Dense(node)) ==> Dense(node)
      ensures forall q :: (GetPath(node, q) == if path <= q then None else GetPath(old(node), q))
    {
      DeletePathCorrect(node, path);
      if Dense(node) { DeleteStaysDense(node, path); }
      if path != [] {
        if node.Nested? {
          var tree := node.tree;
          var f := (child: NestedTree) requires Good(child) => DeletePath(child, path[1..]);
          GoodChild(tree, path[0]);
          ModifyCorrect(tree, path[0], f);
          var modified := Modify(tree, path[0], f);
          node := Nested(modified);
          var below := Get(modified, path[0]);
          if below == Some(Nested(Nil)) {
            node := Nested(RbDelete.Delete(modified, path[0]));
          }
        }
      } else {
        Clear();
      }
    }
  }

  // The certification tree, over one nested tree of empty values.
  class HttpCertificationTree {
    const tree: NestedTreeStore

    ghost predicate Valid()
      reads this, tree
    {
      tree.Valid() && Dense(tree.node)
    }

    constructor ()
      ensures Valid() && tree.node == DEFAULT && fresh(tree)
    {
      tree := new NestedTreeStore();
    }

    function RootHash(): Hash
      reads tree
    {
      HttpRootHash(tree.node)
    }

    method Insert(entry: HttpCertificationTreeEntry)
      requires Valid()
      modifies tree
      ensures Valid()
      ensures forall q :: (GetPath(tree.node, q) ==
        if q == entry.ToTreePath() then Some([])
        else if Comparable(entry.ToTreePath(), q) then None
        else GetPath(old(tree.node), q))
    {
      DenseImpliesFor(tree.node, entry.ToTreePath());
      var treePath := BuildTreePath(entry);
      tree.Insert(treePath, []);
    }

    method Delete(entry: HttpCertificationTreeEntry)
      requires Valid()
      modifies tree
      ensures Valid()
      ensures forall q ::
        (GetPath(tree.node, q) == if entry.ToTreePath() <= q then None else GetPath(old(tree.node), q))
    {
      var treePath := BuildTreePath(entry);
      tree.Delete(treePath);
    }

    // Every certification under the path goes, nothing else does.
    method DeleteByPath(path: HttpCertificationPath)
      requires Valid()
      modifies tree
      ensures Valid()
      ensures forall q :: (GetPath(tree.node, q) == if path.ToTreePath() <= q then None else GetPath(old(tree.node), q))
    {
      tree.Delete(path.ToTreePath());
    }

    method Clear()
      modifies tree
      ensures Valid() && tree.node == DEFAULT
    {
      tree.Clear();
    }

    // Never panics; what it returns carries the root hash, settles every path it has to, and shows no more of the
    // tree than the paths it is made of ask for.
    method Witness(entry: HttpCertificationTreeEntry, requestUrl: bytes) returns (r: WitnessResult)
      requires Valid()
      ensures !r.WitnessPanics?
      ensures r.WildcardPathNotValidForRequestPath? <==>
        entry.path.WildcardPath? && |entry.path.ToTreePath()| > |ExactPath(requestUrl).ToTreePath()|
      ensures r.WildcardPathNotValidForRequestPath? ==>
        r.wildcardPath == entry.path.path && r.requestPath == requestUrl
      ensures r.Witnessed? ==> Digest(r.tree) == RootHash() && Tight(r.tree)
      ensures r.Witnessed? ==> forall path :: MustDecide(entry, requestUrl, path) ==> Settles(r.tree, tree.node, path)
      ensures r.Witnessed? ==> forall q :: Discreet(r.tree, tree.node, Asked(entry, requestUrl), q)
    {
      hide Settles, Discreet;
      HttpWitnessTight(tree.node, entry, requestUrl);
      HttpWitnessComplete(tree.node, entry, requestUrl);
      forall q ensures HttpWitness(tree.node, entry, requestUrl).Witnessed? ==>
        Discreet(HttpWitness(tree.node, entry, requestUrl).tree, tree.node, Asked(entry, requestUrl), q)
      {
        HttpWitnessHides(tree.node, entry, requestUrl, q);
      }
      r := HttpWitness(tree.node, entry, requestUrl);
    }
  }
}
