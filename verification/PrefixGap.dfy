// A store whose witness leaves a more specific wildcard open, because the request starts with "http_expr".
module PrefixGap {
  import opened Bytes
  import opened HashTree
  import opened Merge
  import opened RbTree
  import opened Witnesses
  import opened RangeWitnesses
  import opened NestedTrees
  import opened WildcardPaths
  import opened HttpTree
  import opened AssetScopes

  // "<&>", a segment between the two terminators.
  const BETWEEN_TERMINATORS: bytes := [60, 38, 62]

  // The map of two keys, as insertion in their order leaves it.
  function Pair(k: bytes, v: NestedTree, l: bytes, u: NestedTree): Tree {
    Update(Node(l, u, NewNode(k, v), Nil, Black, HEmpty))
  }

  lemma PairIsReached(k: bytes, v: NestedTree, l: bytes, u: NestedTree)
    requires Lt(k, l)
    ensures Pair(k, v, l, u) == Insert(Insert(Nil, k, v), l, u)
  {
    LtLinear(k, l);
    CmpFlip(k, l);
    var first := Insert(Nil, k, v);
    assert first == Paint(Update(NewNode(k, v)), Black);
    assert InsertGo(Nil, l, u) == NewNode(l, u);
  }

  lemma PairGood(k: bytes, v: NestedTree, l: bytes, u: NestedTree)
    requires Lt(k, l) && Good(v) && Good(u)
    ensures Good(Nested(Pair(k, v, l, u)))
    ensures Get(Pair(k, v, l, u), k) == Some(v) && Get(Pair(k, v, l, u), l) == Some(u)
  {
    PairIsReached(k, v, l, u);
    InsertKeepsGood(Nil, k, v);
    InsertKeepsGood(Insert(Nil, k, v), l, u);
    LtLinear(k, l);
  }

  // ---------- The four witnesses of a pair ----------

  lemma LowWitness(k: bytes, v: NestedTree, l: bytes, u: NestedTree, f: NestedTree --> HashTree)
    requires Lt(k, l) && f.requires(v)
    ensures Get(Pair(k, v, l, u), k) == Some(v)
    ensures NestedWitness(Pair(k, v, l, u), k, f) == Fork(Labeled(k, f(v)), Pruned(HLabeled(l, RootHash(u))))
  {
    CmpEqual(k, k);
    assert LookupAndBuildWitness(NewNode(k, v), k, f) == Some(Labeled(k, f(v)));
  }

  lemma HighWitness(k: bytes, v: NestedTree, l: bytes, u: NestedTree, f: NestedTree --> HashTree)
    requires Lt(k, l) && f.requires(u)
    ensures Get(Pair(k, v, l, u), l) == Some(u)
    ensures NestedWitness(Pair(k, v, l, u), l, f) == Fork(Pruned(HLabeled(k, RootHash(v))), Labeled(l, f(u)))
  {
    CmpEqual(l, l);
  }

  lemma BelowWitness(k: bytes, v: NestedTree, l: bytes, u: NestedTree, x: bytes, f: NestedTree --> HashTree)
    requires Lt(k, l) && Lt(x, k)
    ensures Get(Pair(k, v, l, u), x) == None
    ensures NestedWitness(Pair(k, v, l, u), x, f) ==
      Fork(Labeled(k, Pruned(RootHash(v))), Pruned(HLabeled(l, RootHash(u))))
  {
    LtTrans(x, k, l);
    CmpFlip(x, k);
    CmpFlip(x, l);
    CmpFlip(k, l);
    CmpEqual(k, k);
    var n, t := NewNode(k, v), Pair(k, v, l, u);
    assert Get(n, x) == None;
    assert LowerBound(n, x) == None && UpperBound(n, x) == Some(Neighbor(k));
    assert LowerBound(t, x) == None && UpperBound(t, x) == Some(Neighbor(k));
    assert WitnessRangeBelow(n, Neighbor(k), WitnessTree) == Labeled(k, Pruned(RootHash(v)));
    assert LookupAndBuildWitness(n, x, f) == None;
    assert LookupAndBuildWitness(t, x, f) == None;
    assert WitnessRangeBelow(t, Neighbor(k), WitnessTree) == Fork(Labeled(k, Pruned(RootHash(v))), Pruned(DataHash(t)));
  }

  lemma BetweenWitness(k: bytes, v: NestedTree, l: bytes, u: NestedTree, x: bytes, f: NestedTree --> HashTree)
    requires Lt(k, x) && Lt(x, l)
    ensures Get(Pair(k, v, l, u), x) == None
    ensures NestedWitness(Pair(k, v, l, u), x, f) ==
      Fork(Labeled(k, Pruned(RootHash(v))), Labeled(l, Pruned(RootHash(u))))
  {
    LtTrans(k, x, l);
    CmpFlip(k, x);
    CmpFlip(x, l);
    CmpFlip(k, l);
    CmpEqual(k, k);
    CmpEqual(l, l);
    var n, t := NewNode(k, v), Pair(k, v, l, u);
    assert Get(n, x) == None;
    assert LowerBound(n, x) == Some(Neighbor(k)) && UpperBound(n, x) == None;
    assert LowerBound(t, x) == Some(Neighbor(k)) && UpperBound(t, x) == Some(Neighbor(l));
    assert WitnessRangeBetween(n, Neighbor(k), Neighbor(l), WitnessTree) == Labeled(k, Pruned(RootHash(v)));
    assert LookupAndBuildWitness(n, x, f) == None;
    assert LookupAndBuildWitness(t, x, f) == None;
  }

  // ---------- The store ----------

  function Inner(other: NestedTree, wildcard: NestedTree): NestedTree {
    Nested(Pair(BETWEEN_TERMINATORS, other, WILDCARD_PATH_TERMINATOR, wildcard))
  }

  // What the request's witness shows of it: that nothing comes before the other entry.
  function InnerWitness(other: NestedTree, wildcard: NestedTree): HashTree {
    Fork(Labeled(BETWEEN_TERMINATORS, Pruned(RootHash(other))),
         Pruned(HLabeled(WILDCARD_PATH_TERMINATOR, RootHash(wildcard))))
  }

  // A wildcard at "/" and, below "/http_expr", another entry and a wildcard.
  function Store(atRoot: NestedTree, other: NestedTree, wildcard: NestedTree): NestedTree {
    Nested(Pair(PATH_DIR_SEPARATOR, atRoot, PATH_PREFIX, Inner(other, wildcard)))
  }

  lemma Order()
    ensures Lt(PATH_DIR_SEPARATOR, PATH_PREFIX)
    ensures Lt(EXACT_PATH_TERMINATOR, BETWEEN_TERMINATORS) && Lt(BETWEEN_TERMINATORS, WILDCARD_PATH_TERMINATOR)
    ensures Lt(PATH_DIR_SEPARATOR, WILDCARD_PATH_TERMINATOR) && Lt(WILDCARD_PATH_TERMINATOR, PATH_PREFIX)
  {
    assert EXACT_PATH_TERMINATOR[1..][0] == 36 && BETWEEN_TERMINATORS[1..][0] == 38
      && WILDCARD_PATH_TERMINATOR[1..][0] == 42;
  }

  // What the request path and the two wildcards are witnessed as.
  lemma StoreWitnesses(atRoot: NestedTree, other: NestedTree, wildcard: NestedTree)
    ensures var v := Store(atRoot, other, wildcard);
      var below := InnerWitness(other, wildcard);
      && Witness(v, [PATH_PREFIX, EXACT_PATH_TERMINATOR]) ==
           Fork(Pruned(HLabeled(PATH_DIR_SEPARATOR, RootHash(atRoot))), Labeled(PATH_PREFIX, below))
      && Witness(v, [PATH_DIR_SEPARATOR, WILDCARD_PATH_TERMINATOR]) ==
           Fork(Labeled(PATH_DIR_SEPARATOR, Witness(atRoot, [WILDCARD_PATH_TERMINATOR])),
             Pruned(HLabeled(PATH_PREFIX, RootHash(Inner(other, wildcard)))))
      && Witness(v, [WILDCARD_PATH_TERMINATOR]) ==
           Fork(Labeled(PATH_DIR_SEPARATOR, Pruned(RootHash(atRoot))),
             Labeled(PATH_PREFIX, Pruned(RootHash(Inner(other, wildcard)))))
  {
    hide NestedWitness, Pair, Lt;
    Order();
    var inner := Inner(other, wildcard);
    var p, q := [PATH_PREFIX, EXACT_PATH_TERMINATOR], [PATH_DIR_SEPARATOR, WILDCARD_PATH_TERMINATOR];
    var r := [WILDCARD_PATH_TERMINATOR];
    assert p[1..] == [EXACT_PATH_TERMINATOR] && q[1..] == [WILDCARD_PATH_TERMINATOR];
    HighWitness(PATH_DIR_SEPARATOR, atRoot, PATH_PREFIX, inner, child => Witness(child, p[1..]));
    BelowWitness(BETWEEN_TERMINATORS, other, WILDCARD_PATH_TERMINATOR, wildcard, EXACT_PATH_TERMINATOR,
                 child => Witness(child, p[1..][1..]));
    LowWitness(PATH_DIR_SEPARATOR, atRoot, PATH_PREFIX, inner, child => Witness(child, q[1..]));
    BetweenWitness(PATH_DIR_SEPARATOR, atRoot, PATH_PREFIX, inner, WILDCARD_PATH_TERMINATOR,
      child => Witness(child, r[1..]));
  }

  // ---------- The gap ----------

  lemma ListForGap()
    ensures MoreSpecificWildcards([PATH_PREFIX, EXACT_PATH_TERMINATOR],
      [PATH_DIR_SEPARATOR, WILDCARD_PATH_TERMINATOR]) == [[WILDCARD_PATH_TERMINATOR]]
  {
    var requested, responding := [PATH_PREFIX, EXACT_PATH_TERMINATOR], [PATH_DIR_SEPARATOR, WILDCARD_PATH_TERMINATOR];
    assert requested == [PATH_PREFIX] + [EXACT_PATH_TERMINATOR]
      && responding == [PATH_DIR_SEPARATOR] + [WILDCARD_PATH_TERMINATOR];
    StrippedTreePath([PATH_PREFIX], EXACT_PATH_TERMINATOR);
    StrippedTreePath([PATH_DIR_SEPARATOR], WILDCARD_PATH_TERMINATOR);
    assert [PATH_PREFIX][1..] == [];
    var foot := [PATH_DIR_SEPARATOR];
    assert foot[..0] == [];
    assert Target([], foot) == foot;
    assert Widen([]) == foot;
    WildcardsDownStep([], foot, foot);
    WildcardsDownStep(foot, Widen(foot), foot);
    assert [] + [WILDCARD_PATH_TERMINATOR] == [WILDCARD_PATH_TERMINATOR];
  }

  lemma GapSegments()
    ensures Segments([SLASH] + PATH_PREFIX) == [PATH_PREFIX] && Segments([SLASH]) == [PATH_DIR_SEPARATOR]
  {
    SegmentsOfPiece(PATH_PREFIX);
    assert Split([SLASH]) == [[], []];
    assert NonEmpty([[], []]) == [];
  }

  lemma StoreGood(atRoot: NestedTree, other: NestedTree, wildcard: NestedTree)
    requires Good(atRoot) && Good(other) && Good(wildcard)
    ensures Good(Store(atRoot, other, wildcard))
    ensures ContainsPath(Store(atRoot, other, wildcard), [PATH_PREFIX] + [WILDCARD_PATH_TERMINATOR])
  {
    hide Pair;
    Order();
    PairGood(BETWEEN_TERMINATORS, other, WILDCARD_PATH_TERMINATOR, wildcard);
    var inner := Inner(other, wildcard);
    PairGood(PATH_DIR_SEPARATOR, atRoot, PATH_PREFIX, inner);
    var path := [PATH_PREFIX] + [WILDCARD_PATH_TERMINATOR];
    assert path[1..] == [WILDCARD_PATH_TERMINATOR];
    assert ContainsPath(inner, path[1..]);
  }

  // What the merged witness is, whatever the parts are.
  lemma GapMerge(l: Hash, root: HashTree, below: HashTree, s: Hash)
    requires !below.Pruned?
    ensures MergeHashTrees(Fork(Pruned(l), Labeled(PATH_PREFIX, below)),
                           Fork(Labeled(PATH_DIR_SEPARATOR, root), Pruned(s)))
      == Ok(Fork(Labeled(PATH_DIR_SEPARATOR, root), Labeled(PATH_PREFIX, below)))
  {
  }

  lemma GapMergeAgain(root: HashTree, below: HashTree, h: Hash, s: Hash)
    requires !below.Pruned? && (root.Pruned? ==> root.digest == h)
    ensures MergeHashTrees(Fork(Labeled(PATH_DIR_SEPARATOR, root), Labeled(PATH_PREFIX, below)),
                           Fork(Labeled(PATH_DIR_SEPARATOR, Pruned(h)), Labeled(PATH_PREFIX, Pruned(s))))
      == Ok(Fork(Labeled(PATH_DIR_SEPARATOR, root), Labeled(PATH_PREFIX, below)))
  {
    assert MergeHashTrees(root, Pruned(h)) == Ok(root) && MergeHashTrees(below, Pruned(s)) == Ok(below);
    assert MergeHashTrees(Labeled(PATH_DIR_SEPARATOR, root), Labeled(PATH_DIR_SEPARATOR, Pruned(h))) ==
      Ok(Labeled(PATH_DIR_SEPARATOR, root));
    assert MergeHashTrees(Labeled(PATH_PREFIX, below), Labeled(PATH_PREFIX, Pruned(s))) ==
      Ok(Labeled(PATH_PREFIX, below));
  }

  lemma OneMoreMerge(v: NestedTree, acc: HashTree)
    requires MergeHashTrees(acc, Witness(v, [WILDCARD_PATH_TERMINATOR])) == Ok(acc)
    ensures MergeWitnesses(v, acc, [[WILDCARD_PATH_TERMINATOR]]) == Ok(acc)
  {
    var paths := [[WILDCARD_PATH_TERMINATOR]];
    assert paths[1..] == [];
    assert MergeWitnesses(v, acc, []) == Ok(acc);
  }

  lemma GapLookup(root: HashTree, h: Hash, s: Hash)
    ensures var below := Fork(Labeled(BETWEEN_TERMINATORS, Pruned(h)), Pruned(s));
      var w := Labeled(PATH_PREFIX, Fork(Labeled(PATH_DIR_SEPARATOR, root), Labeled(PATH_PREFIX, below)));
      LookupSubtree(w, [PATH_PREFIX] + ([PATH_PREFIX] + [WILDCARD_PATH_TERMINATOR])).SubtreeUnknown?
  {
    hide Cmp;
    OrderCompares();
    var path := [PATH_PREFIX] + ([PATH_PREFIX] + [WILDCARD_PATH_TERMINATOR]);
    assert path[1..][0] == PATH_PREFIX && path[1..][1..] == [WILDCARD_PATH_TERMINATOR];
    var below := Fork(Labeled(BETWEEN_TERMINATORS, Pruned(h)), Pruned(s));
    var inner := Fork(Labeled(PATH_DIR_SEPARATOR, root), Labeled(PATH_PREFIX, below));
    assert LookupLabel(below, WILDCARD_PATH_TERMINATOR) == LabelResult.Unknown;
    assert LookupLabel(inner, PATH_PREFIX) == Found(below);
    assert LookupSubtree(below, path[1..][1..]) == SubtreeUnknown;
    assert LookupSubtree(inner, path[1..]) == SubtreeUnknown;
  }

  lemma OrderCompares()
    ensures Cmp(PATH_PREFIX, PATH_DIR_SEPARATOR) == Ordering.Greater && Cmp(PATH_PREFIX, PATH_PREFIX) == Equal
    ensures Cmp(WILDCARD_PATH_TERMINATOR, BETWEEN_TERMINATORS) == Ordering.Greater
  {
    CmpFlip(PATH_DIR_SEPARATOR, PATH_PREFIX);
    CmpFlip(BETWEEN_TERMINATORS, WILDCARD_PATH_TERMINATOR);
    CmpEqual(PATH_PREFIX, PATH_PREFIX);
    Order();
  }

  // GET /http_expr answered by the wildcard at "/", although there is a wildcard at "/http_expr": the witness
  // is made without complaint and leaves that wildcard open.
  lemma MoreSpecificLeftOpen(
      atRoot: NestedTree, other: NestedTree, wildcard: NestedTree, certification: HttpCertification)
    requires Good(atRoot) && Good(other) && Good(wildcard)
    ensures var v := Store(atRoot, other, wildcard);
      var url := [SLASH] + PATH_PREFIX;
      var open := [PATH_PREFIX] + [WILDCARD_PATH_TERMINATOR];
      var r := HttpWitness(v, Entry(WildcardPath([SLASH]), certification), url);
      && Good(v) && r.Witnessed?
      && MoreSpecific([PATH_PREFIX], Segments(url), Segments([SLASH]))
      && ContainsPath(v, open) && LookupSubtree(r.tree, [PATH_PREFIX] + open).SubtreeUnknown?
  {
    hide Store, Segments, Witness, MergeHashTrees, MoreSpecificWildcards, LookupSubtree, ContainsPath;
    GapSegments();
    ListForGap();
    StoreGood(atRoot, other, wildcard);
    StoreWitnesses(atRoot, other, wildcard);
    var v := Store(atRoot, other, wildcard);
    var below := InnerWitness(other, wildcard);
    var s := RootHash(Inner(other, wildcard));
    var root := Witness(atRoot, [WILDCARD_PATH_TERMINATOR]);
    GapMerge(HLabeled(PATH_DIR_SEPARATOR, RootHash(atRoot)), root, below, HLabeled(PATH_PREFIX, s));
    WitnessProof(atRoot, [WILDCARD_PATH_TERMINATOR]);
    PrunesDigest(root, AsHashTree(atRoot));
    GapMergeAgain(root, below, RootHash(atRoot), s);
    GapLookup(root, RootHash(other), HLabeled(WILDCARD_PATH_TERMINATOR, RootHash(wildcard)));
    assert [PATH_PREFIX] + [EXACT_PATH_TERMINATOR] == [PATH_PREFIX, EXACT_PATH_TERMINATOR];
    assert [PATH_DIR_SEPARATOR] + [WILDCARD_PATH_TERMINATOR] == [PATH_DIR_SEPARATOR, WILDCARD_PATH_TERMINATOR];
    OneMoreMerge(v, Fork(Labeled(PATH_DIR_SEPARATOR, root), Labeled(PATH_PREFIX, below)));
    assert [PATH_DIR_SEPARATOR][..0] == [];
  }

  // ---------- The store is reached ----------

  function Single(k: bytes, v: NestedTree): Tree {
    Insert(Nil, k, v)
  }

  // The store that holds one path.
  function Chain(path: Path): NestedTree {
    if path == [] then Value([]) else Nested(Single(path[0], Chain(path[1..])))
  }

  lemma SingleFacts(k: bytes, v: NestedTree, x: bytes, f: NestedTree --> NestedTree)
    requires f.requires(v)
    ensures Get(Single(k, v), k) == Some(v) && Modify(Single(k, v), k, f) == Single(k, f(v))
    ensures x != k ==> Get(Single(k, v), x) == None
  {
    CmpEqual(k, k);
    CmpEqual(x, k);
    assert Single(k, v) == Paint(NewNode(k, v), Black);
  }

  lemma HighModified(k: bytes, v: NestedTree, l: bytes, u: NestedTree, f: NestedTree --> NestedTree)
    requires Lt(k, l) && f.requires(u)
    ensures Get(Pair(k, v, l, u), l) == Some(u) && Modify(Pair(k, v, l, u), l, f) == Pair(k, v, l, f(u))
  {
    CmpEqual(l, l);
  }

  lemma {:induction false} ChainGood(path: Path)
    ensures Good(Chain(path)) && InsertPath(DEFAULT, path, []) == Chain(path)
  {
    if path != [] {
      ChainGood(path[1..]);
      InsertKeepsGood(Nil, path[0], DEFAULT);
      var f := (child: NestedTree) requires Good(child) => InsertPath(child, path[1..], []);
      SingleFacts(path[0], DEFAULT, path[0], f);
      InsertAtPresent(Single(path[0], DEFAULT), path);
    }
  }

  // One step of insertion, below a key that is there and at one that is not.
  lemma InsertAtPresent(t: Tree, path: Path)
    requires Good(Nested(t)) && path != [] && Has(t, path[0])
    ensures Good(Get(t, path[0]).value)
    ensures InsertPath(Nested(t), path, []) ==
      Nested(Modify(t, path[0], (child: NestedTree) requires Good(child) => InsertPath(child, path[1..], [])))
  {
    GoodChild(t, path[0]);
  }

  lemma InsertAtMissing(t: Tree, path: Path)
    requires Good(Nested(t)) && path != [] && !Has(t, path[0])
    ensures Good(Nested(Insert(t, path[0], DEFAULT)))
    ensures InsertPath(Nested(t), path, []) == InsertPath(Nested(Insert(t, path[0], DEFAULT)), path, [])
  {
    InsertKeepsGood(t, path[0], DEFAULT);
  }

  // A second path under a larger key.
  lemma InsertSecond(k: bytes, v: NestedTree, path: Path)
    requires path != [] && Lt(k, path[0]) && Good(v)
    ensures Good(Nested(Single(k, v)))
    ensures InsertPath(Nested(Single(k, v)), path, []) == Nested(Pair(k, v, path[0], Chain(path[1..])))
  {
    LtLinear(k, path[0]);
    ChainGood(path[1..]);
    InsertKeepsGood(Nil, k, v);
    var f := (child: NestedTree) requires Good(child) => InsertPath(child, path[1..], []);
    SingleFacts(k, v, path[0], (child: NestedTree) => child);
    InsertAtMissing(Single(k, v), path);
    PairIsReached(k, v, path[0], DEFAULT);
    HighModified(k, v, path[0], DEFAULT, f);
    InsertAtPresent(Pair(k, v, path[0], DEFAULT), path);
  }

  // A path under a key that is the larger of two, and whose own store holds one smaller path.
  lemma InsertThird(k: bytes, v: NestedTree, l: bytes, a: bytes, u: NestedTree, path: Path)
    requires Lt(k, l) && path != [] && Lt(a, path[0]) && Good(v) && Good(u)
    ensures Good(Nested(Pair(k, v, l, Nested(Single(a, u)))))
    ensures InsertPath(Nested(Pair(k, v, l, Nested(Single(a, u)))), [l] + path, []) ==
      Nested(Pair(k, v, l, Nested(Pair(a, u, path[0], Chain(path[1..])))))
  {
    hide Pair, Single, Lt;
    InsertSecond(a, u, path);
    PairGood(k, v, l, Nested(Single(a, u)));
    var whole := [l] + path;
    assert whole[1..] == path;
    var f := (child: NestedTree) requires Good(child) => InsertPath(child, whole[1..], []);
    HighModified(k, v, l, Nested(Single(a, u)), f);
    InsertAtPresent(Pair(k, v, l, Nested(Single(a, u))), whole);
  }

  // Three insertions lead to the store.
  lemma StoreIsReached(p: Path, q: Path, r: Path)
    ensures Run([InsertOp([PATH_DIR_SEPARATOR] + p, []),
                 InsertOp([PATH_PREFIX] + ([BETWEEN_TERMINATORS] + q), []),
                 InsertOp([PATH_PREFIX] + ([WILDCARD_PATH_TERMINATOR] + r), [])])
      == Store(Chain(p), Chain(q), Chain(r))
  {
    hide InsertPath, Pair, Single, Lt, Chain;
    Order();
    var first, second := [PATH_DIR_SEPARATOR] + p, [PATH_PREFIX] + ([BETWEEN_TERMINATORS] + q);
    var third := [PATH_PREFIX] + ([WILDCARD_PATH_TERMINATOR] + r);
    ChainStep(PATH_DIR_SEPARATOR, p);
    ChainStep(BETWEEN_TERMINATORS, q);
    ChainGood(first);
    ChainGood(p);
    ChainGood(q);
    assert second[1..] == [BETWEEN_TERMINATORS] + q;
    InsertSecond(PATH_DIR_SEPARATOR, Chain(p), second);
    var rest := [WILDCARD_PATH_TERMINATOR] + r;
    assert rest[1..] == r;
    InsertThird(PATH_DIR_SEPARATOR, Chain(p), PATH_PREFIX, BETWEEN_TERMINATORS, Chain(q), rest);
    RunThree(InsertOp(first, []), InsertOp(second, []), InsertOp(third, []));
  }

  lemma ChainStep(k: bytes, path: Path)
    ensures Chain([k] + path) == Nested(Single(k, Chain(path)))
  {
    assert ([k] + path)[1..] == path;
  }

  lemma RunThree(a: Op, b: Op, c: Op)
    ensures Run([a]) == Step(DEFAULT, a) && Run([a, b]) == Step(Run([a]), b) && Run([a, b, c]) == Step(Run([a, b]), c)
  {
    hide Step;
    assert [a, b, c][..2] == [a, b] && [a, b][..1] == [a] && [a][..0] == [];
  }

  // The entries are three that a canister can insert: the wildcards at "/" and at "/http_expr", and the exact path
  // "/http_expr/<&>".
  lemma GapIsReached(root: HttpCertification, between: HttpCertification, wildcard: HttpCertification)
    ensures var url := [SLASH] + PATH_PREFIX;
      var entry := Entry(WildcardPath([SLASH]), root);
      var v := Run([
        InsertOp(entry.ToTreePath(), []),
        InsertOp(Entry(ExactPath(url + [SLASH] + BETWEEN_TERMINATORS), between).ToTreePath(), []),
        InsertOp(Entry(WildcardPath(url), wildcard).ToTreePath(), [])]);
      var open := WildcardPath(url).ToTreePath();
      var r := HttpWitness(v, entry, url);
      && r.Witnessed? && MoreSpecific([PATH_PREFIX], Segments(url), Segments([SLASH]))
      && ContainsPath(v, open) && LookupSubtree(r.tree, [PATH_PREFIX] + open).SubtreeUnknown?
  {
    hide Store, Segments, HttpWitness, LookupSubtree, ContainsPath, Run, Chain, MoreSpecific;
    hide HttpCertification.ToTreePath;
    var url := [SLASH] + PATH_PREFIX;
    GapSegments();
    BetweenSegments();
    var p := [WILDCARD_PATH_TERMINATOR] + root.ToTreePath();
    var q := [EXACT_PATH_TERMINATOR] + between.ToTreePath();
    var r := wildcard.ToTreePath();
    EntryPath([PATH_DIR_SEPARATOR], WILDCARD_PATH_TERMINATOR, root.ToTreePath());
    EntryPath([PATH_PREFIX, BETWEEN_TERMINATORS], EXACT_PATH_TERMINATOR, between.ToTreePath());
    EntryPath([PATH_PREFIX], WILDCARD_PATH_TERMINATOR, r);
    assert [PATH_PREFIX, BETWEEN_TERMINATORS] + q == [PATH_PREFIX] + ([BETWEEN_TERMINATORS] + q);
    StoreIsReached(p, q, r);
    ChainGood(p);
    ChainGood(q);
    ChainGood(r);
    MoreSpecificLeftOpen(Chain(p), Chain(q), Chain(r), root);
  }

  lemma EntryPath(segments: Path, terminator: bytes, rest: Path)
    ensures (segments + [terminator]) + rest == segments + ([terminator] + rest)
  {
  }

  lemma BetweenSegments()
    ensures Segments([SLASH] + PATH_PREFIX + [SLASH] + BETWEEN_TERMINATORS) == [PATH_PREFIX, BETWEEN_TERMINATORS]
  {
    var segments := [PATH_PREFIX, BETWEEN_TERMINATORS];
    DirectorySegments(segments);
    var pieces := [[]] + segments;
    assert pieces[1..] == segments && segments[1..] == [BETWEEN_TERMINATORS];
    assert Join(segments, [SLASH]) == PATH_PREFIX + [SLASH] + BETWEEN_TERMINATORS;
    assert Join(pieces, [SLASH]) == [SLASH] + PATH_PREFIX + [SLASH] + BETWEEN_TERMINATORS by {
      assert Join(pieces, [SLASH]) == [] + [SLASH] + Join(segments, [SLASH]);
    }
  }
}
