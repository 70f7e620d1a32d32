// The partially pruned hash tree a client receives, its digest and its lookups.
module HashTree {
  import opened Bytes

  // SHA-256 with the four domain separators, kept symbolic: a digest remembers which kind of node
  // was hashed and what went in, so that two digests agree exactly when their inputs do.
  datatype Hash =
    | HEmpty
    | HFork(left: Hash, right: Hash)
    | HLabeled(name: bytes, content: Hash)
    | HLeaf(data: bytes)

  datatype HashTree =
    | Empty
    | Fork(left: HashTree, right: HashTree)
    | Labeled(name: bytes, sub: HashTree)
    | Leaf(data: bytes)
    | Pruned(digest: Hash)

  // Private result of a single-label search.
  datatype LabelResult =
    | Absent
    | Unknown
    | Less
    | Greater
    | Found(node: HashTree)

  datatype LookupResult =
    | PathAbsent
    | PathUnknown
    | PathFound(data: bytes)
    | PathError

  datatype SubtreeResult =
    | SubtreeAbsent
    | SubtreeUnknown
    | SubtreeFound(tree: HashTree)

  type Path = seq<bytes>

  function Digest(t: HashTree): Hash {
    match t
    case Empty => HEmpty
    case Fork(l, r) => HFork(Digest(l), Digest(r))
    case Labeled(name, sub) => HLabeled(name, Digest(sub))
    case Leaf(data) => HLeaf(data)
    case Pruned(h) => h
  }

  function LookupLabel(t: HashTree, name: bytes): LabelResult {
    match t
    case Labeled(l, node) =>
      (match Cmp(name, l)
       case Greater => LabelResult.Greater
       case Equal => Found(node)
       case Less => LabelResult.Less)
    case Fork(l, r) =>
      (match LookupLabel(l, name)
       case Greater =>
         (match LookupLabel(r, name)
          case Less => Absent
          case result => result)
       case Unknown =>
         (match LookupLabel(r, name)
          case Less => Unknown
          case result => result)
       case result => result)
    case Pruned(_) => Unknown
    case _ => Absent
  }

  function LookupPath(t: HashTree, path: Path): LookupResult
    decreases |path|
  {
    if path == [] then
      match t
      case Leaf(data) => PathFound(data)
      case Empty => PathAbsent
      case Pruned(_) => PathUnknown
      case _ => PathError
    else
      match LookupLabel(t, path[0])
      case Found(node) => LookupPath(node, path[1..])
      case Unknown => PathUnknown
      case _ => PathAbsent
  }

  function LookupSubtree(t: HashTree, path: Path): SubtreeResult
    decreases |path|
  {
    if path == [] then SubtreeFound(t)
    else
      match LookupLabel(t, path[0])
      case Found(node) => LookupSubtree(node, path[1..])
      case Unknown => SubtreeUnknown
      case _ => SubtreeAbsent
  }

  // ---------- Pruning ----------

  // t is T with some subtrees replaced by their digests.
  ghost predicate Prunes(t: HashTree, T: HashTree) {
    t == Pruned(Digest(T)) ||
    match t
    case Empty => T == Empty
    case Leaf(_) => T == t
    case Pruned(_) => false
    case Labeled(l, s) => T.Labeled? && T.name == l && Prunes(s, T.sub)
    case Fork(l, r) => T.Fork? && Prunes(l, T.left) && Prunes(r, T.right)
  }

  // Nothing is pruned anywhere.
  ghost predicate Full(t: HashTree) {
    match t
    case Empty => true
    case Leaf(_) => true
    case Pruned(_) => false
    case Labeled(_, s) => Full(s)
    case Fork(l, r) => Full(l) && Full(r)
  }

  lemma {:induction false} PrunesRefl(t: HashTree)
    ensures Prunes(t, t)
  {
    match t
    case Labeled(_, s) => PrunesRefl(s);
    case Fork(l, r) => PrunesRefl(l); PrunesRefl(r);
    case _ =>
  }

  lemma {:induction false} PrunesDigest(t: HashTree, T: HashTree)
    requires Prunes(t, T)
    ensures Digest(t) == Digest(T)
  {
    match t
    case Labeled(_, s) => PrunesDigest(s, T.sub);
    case Fork(l, r) => PrunesDigest(l, T.left); PrunesDigest(r, T.right);
    case _ =>
  }

  lemma {:induction false} PrunesTrans(a: HashTree, b: HashTree, c: HashTree)
    requires Prunes(a, b) && Prunes(b, c)
    ensures Prunes(a, c)
  {
    PrunesDigest(b, c);
    match a
    case Labeled(_, s) => PrunesTrans(s, b.sub, c.sub);
    case Fork(l, r) => PrunesTrans(l, b.left, c.left); PrunesTrans(r, b.right, c.right);
    case _ =>
  }

  lemma {:induction false} PrunesAntisym(a: HashTree, b: HashTree)
    requires Prunes(a, b) && Prunes(b, a)
    ensures a == b
  {
    match a
    case Labeled(_, s) => PrunesAntisym(s, b.sub);
    case Fork(l, r) => PrunesAntisym(l, b.left); PrunesAntisym(r, b.right);
    case _ =>
  }

  // Collision freedom at work: whatever has the digest of a full tree is a pruning of it.
  lemma {:induction false} SameDigestPrunes(t: HashTree, T: HashTree)
    requires Full(T) && Digest(t) == Digest(T)
    ensures Prunes(t, T)
  {
    match t
    case Labeled(_, s) => SameDigestPrunes(s, T.sub);
    case Fork(l, r) => SameDigestPrunes(l, T.left); SameDigestPrunes(r, T.right);
    case _ =>
  }

  // The one full tree behind a digest.
  function Unhash(h: Hash): (t: HashTree)
    ensures Full(t) && Digest(t) == h
  {
    match h
    case HEmpty => Empty
    case HFork(l, r) => Fork(Unhash(l), Unhash(r))
    case HLabeled(l, c) => Labeled(l, Unhash(c))
    case HLeaf(d) => Leaf(d)
  }

  // No fork hides both its sides: it would be hidden as a whole.
  ghost predicate Tight(t: HashTree) {
    match t
    case Labeled(_, s) => Tight(s)
    case Fork(l, r) => !(l.Pruned? && r.Pruned?) && Tight(l) && Tight(r)
    case _ => true
  }

  lemma {:induction false} FullIsTight(t: HashTree)
    requires Full(t)
    ensures Tight(t)
  {
    match t
    case Labeled(_, s) => FullIsTight(s);
    case Fork(l, r) => FullIsTight(l); FullIsTight(r);
    case _ =>
  }

  // ---------- Lookups on sorted spines ----------

  // The labels visible at the top level, below forks only.
  ghost function Labels(t: HashTree): set<bytes> {
    match t
    case Labeled(l, _) => {l}
    case Fork(l, r) => Labels(l) + Labels(r)
    case _ => {}
  }

  ghost predicate AllBefore(a: set<bytes>, b: set<bytes>) {
    forall x, y :: x in a && y in b ==> Lt(x, y)
  }

  // Only Labeled, Pruned and Fork nodes on the spine, labels strictly increasing left to right.
  ghost predicate Spine(t: HashTree) {
    match t
    case Labeled(_, _) => true
    case Pruned(_) => true
    case Fork(l, r) => Spine(l) && Spine(r) && AllBefore(Labels(l), Labels(r))
    case _ => false
  }

  // A verdict about t that a verdict about a less pruned T must repeat.
  ghost predicate Refines(r: LabelResult, R: LabelResult) {
    match r
    case Unknown => true
    case Found(n) => R.Found? && Prunes(n, R.node)
    case _ => R == r
  }

  lemma {:induction false} PrunesLabels(t: HashTree, T: HashTree)
    requires Prunes(t, T)
    ensures Labels(t) <= Labels(T)
    ensures Spine(T) ==> Spine(t)
  {
    match t
    case Fork(l, r) => PrunesLabels(l, T.left); PrunesLabels(r, T.right);
    case _ =>
  }

  // What each verdict says about the visible labels.
  lemma {:induction false} VerdictMeaning(t: HashTree, x: bytes)
    requires Spine(t)
    ensures LookupLabel(t, x).Less? ==> Labels(t) != {} && forall l :: l in Labels(t) ==> Lt(x, l)
    ensures LookupLabel(t, x).Greater? ==> Labels(t) != {} && forall l :: l in Labels(t) ==> Lt(l, x)
    ensures LookupLabel(t, x).Found? <==> x in Labels(t)
    ensures LookupLabel(t, x).Absent? ==> exists l :: l in Labels(t) && Lt(l, x)
    ensures LookupLabel(t, x).Absent? ==> exists l :: l in Labels(t) && Lt(x, l)
    ensures Labels(t) == {} ==> LookupLabel(t, x) == Unknown
    ensures (forall l :: l in Labels(t) ==> Lt(l, x)) ==> LookupLabel(t, x).Greater? || LookupLabel(t, x).Unknown?
  {
    TotalOrder();
    match t
    case Labeled(l, _) => assert l in Labels(t);
    case Pruned(_) =>
    case Fork(l, r) =>
      VerdictMeaning(l, x);
      VerdictMeaning(r, x);
      assert Labels(l) <= Labels(t) && Labels(r) <= Labels(t);
  }

  // Un-pruning never changes a definite answer.
  lemma {:induction false} UnpruneLabel(t: HashTree, T: HashTree, x: bytes)
    requires Prunes(t, T) && Spine(T)
    ensures Refines(LookupLabel(t, x), LookupLabel(T, x))
  {
    match t
    case Fork(l, r) =>
      UnpruneLabel(l, T.left, x);
      UnpruneLabel(r, T.right, x);
      ForkVerdicts(T.left, T.right, x);
    case _ =>
  }

  // In a sorted fork the label is not on the left if the right side starts below it, and the other way round.
  lemma ForkVerdicts(l: HashTree, r: HashTree, x: bytes)
    requires Spine(Fork(l, r))
    ensures LookupLabel(l, x).Less? ==>
      !LookupLabel(r, x).Greater? && !LookupLabel(r, x).Found? && !LookupLabel(r, x).Absent?
    ensures LookupLabel(l, x).Absent? || LookupLabel(l, x).Found? ==>
      LookupLabel(r, x).Less? || LookupLabel(r, x).Unknown?
  {
    hide LookupLabel, Labels, Spine;
    TotalOrder();
    SpineFork(l, r);
    VerdictMeaning(l, x);
    VerdictMeaning(r, x);
  }

  lemma SpineFork(l: HashTree, r: HashTree)
    requires Spine(Fork(l, r))
    ensures Spine(l) && Spine(r) && AllBefore(Labels(l), Labels(r))
  {
  }

  // ---------- The flattened reference ----------

  // The spine read left to right, forks removed.
  ghost function Flatten(t: HashTree): seq<HashTree> {
    match t
    case Fork(l, r) => Flatten(l) + Flatten(r)
    case _ => [t]
  }

  ghost predicate AllAbove(items: seq<HashTree>, x: bytes) {
    forall j :: 0 <= j < |items| && items[j].Labeled? ==> Lt(x, items[j].name)
  }

  ghost predicate AllBelow(items: seq<HashTree>, x: bytes) {
    forall j :: 0 <= j < |items| && items[j].Labeled? ==> Lt(items[j].name, x)
  }

  // Item i is pruned and x would have to sit there: smaller labels before it, larger ones after it.
  ghost predicate HidesAt(items: seq<HashTree>, i: nat, x: bytes) {
    i < |items| && items[i].Pruned? && AllBelow(items[..i], x) && AllAbove(items[i + 1..], x)
  }

  ghost predicate Hides(items: seq<HashTree>, x: bytes) {
    exists i: nat :: HidesAt(items, i, x)
  }

  lemma {:induction false} FlattenBounds(t: HashTree, x: bytes)
    ensures AllAbove(Flatten(t), x) <==> forall l :: l in Labels(t) ==> Lt(x, l)
    ensures AllBelow(Flatten(t), x) <==> forall l :: l in Labels(t) ==> Lt(l, x)
  {
    match t
    case Fork(l, r) =>
      FlattenBounds(l, x);
      FlattenBounds(r, x);
      BoundsConcat(Flatten(l), Flatten(r), x);
      assert Labels(t) == Labels(l) + Labels(r);
    case Labeled(n, _) => assert Flatten(t)[0].name == n;
    case _ =>
  }

  lemma BoundsConcat(a: seq<HashTree>, b: seq<HashTree>, x: bytes)
    ensures AllAbove(a + b, x) <==> AllAbove(a, x) && AllAbove(b, x)
    ensures AllBelow(a + b, x) <==> AllBelow(a, x) && AllBelow(b, x)
  {
    forall j | 0 <= j < |a| ensures (a + b)[j] == a[j] {}
    forall j | 0 <= j < |b| ensures (a + b)[|a| + j] == b[j] {}
  }

  // A gap in a concatenation is a gap in one half with the other half out of the way.
  lemma HidesConcat(a: seq<HashTree>, b: seq<HashTree>, x: bytes)
    ensures Hides(a + b, x) <==> (Hides(a, x) && AllAbove(b, x)) || (Hides(b, x) && AllBelow(a, x))
  {
    var s := a + b;
    forall i: nat | i < |a| ensures HidesAt(s, i, x) <==> HidesAt(a, i, x) && AllAbove(b, x) {
      assert s[..i] == a[..i] && s[i + 1..] == a[i + 1..] + b;
      BoundsConcat(a[i + 1..], b, x);
    }
    forall i: nat | i < |b| ensures HidesAt(s, |a| + i, x) <==> HidesAt(b, i, x) && AllBelow(a, x) {
      assert s[..|a| + i] == a + b[..i] && s[|a| + i + 1..] == b[i + 1..];
      BoundsConcat(a, b[..i], x);
    }
    if Hides(s, x) {
      var i: nat :| HidesAt(s, i, x);
      assert if i < |a| then HidesAt(a, i, x) else HidesAt(b, i - |a|, x);
    }
    if Hides(a, x) && AllAbove(b, x) {
      var i: nat :| HidesAt(a, i, x);
      assert HidesAt(s, i, x);
    }
    if Hides(b, x) && AllBelow(a, x) {
      var i: nat :| HidesAt(b, i, x);
      assert HidesAt(s, |a| + i, x);
    }
  }

  // lookup_label decides exactly as a scan of the flattened spine does: found when the label is
  // visible, unknown when a pruned item lies in the gap where it would sit, otherwise absent.
  lemma {:induction false} LookupLabelMeaning(t: HashTree, x: bytes)
    requires Spine(t)
    ensures LookupLabel(t, x).Found? ==> Labeled(x, LookupLabel(t, x).node) in Flatten(t)
    ensures LookupLabel(t, x).Found? <==> x in Labels(t)
    ensures LookupLabel(t, x).Unknown? <==> x !in Labels(t) && Hides(Flatten(t), x)
  {
    match t
    case Labeled(l, _) => CmpEqual(x, l);
    case Pruned(_) => assert HidesAt(Flatten(t), 0, x);
    case Fork(l, r) =>
      LookupLabelMeaning(l, x);
      LookupLabelMeaning(r, x);
      VerdictMeaning(l, x);
      VerdictMeaning(r, x);
      LookupForkHides(l, r, x);
  }

  // The verdicts in terms of the flattened items.
  lemma VerdictBounds(t: HashTree, x: bytes)
    requires Spine(t)
    ensures match LookupLabel(t, x)
      case Less => AllAbove(Flatten(t), x) && !AllBelow(Flatten(t), x)
      case Greater => AllBelow(Flatten(t), x) && !AllAbove(Flatten(t), x)
      case Unknown => true
      case _ => !AllBelow(Flatten(t), x) && !AllAbove(Flatten(t), x)
  {
    TotalOrder();
    VerdictMeaning(t, x);
    FlattenBounds(t, x);
  }

  // Whatever lies between two sorted halves leaves one of them out of the way.
  lemma ForkSplits(l: HashTree, r: HashTree, x: bytes)
    requires Spine(Fork(l, r)) && x !in Labels(l) && x !in Labels(r)
    ensures AllBelow(Flatten(l), x) || AllAbove(Flatten(r), x)
  {
    FlattenBounds(l, x);
    FlattenBounds(r, x);
    if a, b :| a in Labels(l) && !Lt(a, x) && b in Labels(r) && !Lt(x, b) {
      LtLinear(a, x);
      LtLinear(x, b);
      LtTrans(b, x, a);
      LtLinear(a, b);
    }
  }

  lemma LookupForkHides(l: HashTree, r: HashTree, x: bytes)
    requires Spine(Fork(l, r))
    requires LookupLabel(l, x).Found? <==> x in Labels(l)
    requires LookupLabel(r, x).Found? <==> x in Labels(r)
    requires LookupLabel(l, x).Unknown? <==> x !in Labels(l) && Hides(Flatten(l), x)
    requires LookupLabel(r, x).Unknown? <==> x !in Labels(r) && Hides(Flatten(r), x)
    ensures LookupLabel(Fork(l, r), x).Unknown? <==> x !in Labels(Fork(l, r)) && Hides(Flatten(Fork(l, r)), x)
  {
    VerdictBounds(l, x);
    VerdictBounds(r, x);
    HidesConcat(Flatten(l), Flatten(r), x);
    if x !in Labels(l) && x !in Labels(r) { ForkSplits(l, r, x); }
  }

  // ---------- Lookups along a path ----------

  // Sorted at every level: each level is empty, a leaf, hidden, or a sorted spine.
  ghost predicate Level(t: HashTree)
    decreases t, 1
  {
    t.Empty? || t.Leaf? || (Spine(t) && SubLevels(t))
  }

  ghost predicate SubLevels(t: HashTree)
    decreases t, 0
  {
    match t
    case Labeled(_, s) => Level(s)
    case Fork(l, r) => SubLevels(l) && SubLevels(r)
    case _ => true
  }

  lemma {:induction false} FoundLevel(t: HashTree, x: bytes)
    requires SubLevels(t) && LookupLabel(t, x).Found?
    ensures Level(LookupLabel(t, x).node)
  {
    match t
    case Fork(l, r) =>
      if LookupLabel(l, x).Found? { FoundLevel(l, x); } else { FoundLevel(r, x); }
    case _ =>
  }

  // Hiding parts of a tree that is sorted at every level leaves it so.
  lemma {:induction false} PruningIsSorted(t: HashTree, T: HashTree)
    requires Prunes(t, T)
    ensures Level(T) ==> Level(t)
    ensures SubLevels(T) ==> SubLevels(t)
  {
    PrunesLabels(t, T);
    assert Level(T) && !T.Empty? && !T.Leaf? ==> SubLevels(T);
    match t
    case Labeled(_, s) => PruningIsSorted(s, T.sub);
    case Fork(l, r) =>
      PruningIsSorted(l, T.left);
      PruningIsSorted(r, T.right);
      assert SubLevels(T) ==> SubLevels(t);
    case _ =>
  }

  lemma UnpruneStep(t: HashTree, T: HashTree, x: bytes)
    requires Prunes(t, T) && Level(T)
    ensures Refines(LookupLabel(t, x), LookupLabel(T, x))
    ensures LookupLabel(T, x).Found? ==> Level(LookupLabel(T, x).node)
  {
    if Spine(T) { UnpruneLabel(t, T, x); }
    if LookupLabel(T, x).Found? { FoundLevel(T, x); }
  }

  lemma {:induction false} UnprunePath(t: HashTree, T: HashTree, p: Path)
    requires Prunes(t, T) && Level(T)
    ensures LookupPath(t, p).PathUnknown? || LookupPath(t, p) == LookupPath(T, p)
    decreases |p|
  {
    if p != [] {
      UnpruneStep(t, T, p[0]);
      if LookupLabel(t, p[0]).Found? {
        UnprunePath(LookupLabel(t, p[0]).node, LookupLabel(T, p[0]).node, p[1..]);
      }
    }
  }

  lemma {:induction false} UnpruneSubtree(t: HashTree, T: HashTree, p: Path)
    requires Prunes(t, T) && Level(T)
    ensures match LookupSubtree(t, p)
      case SubtreeUnknown => true
      case SubtreeAbsent => LookupSubtree(T, p).SubtreeAbsent?
      case SubtreeFound(n) => LookupSubtree(T, p).SubtreeFound? && Prunes(n, LookupSubtree(T, p).tree)
    decreases |p|
  {
    if p != [] {
      UnpruneStep(t, T, p[0]);
      if LookupLabel(t, p[0]).Found? {
        UnpruneSubtree(LookupLabel(t, p[0]).node, LookupLabel(T, p[0]).node, p[1..]);
      }
    }
  }

  // A definite subtree answer survives any un-pruning that stays within the full tree.
  lemma {:induction false} DecidedStays(t: HashTree, m: HashTree, T: HashTree, p: Path)
    requires Prunes(t, m) && Prunes(m, T) && Level(T)
    requires !LookupSubtree(t, p).SubtreeUnknown?
    ensures !LookupSubtree(m, p).SubtreeUnknown?
    decreases |p|
  {
    if p != [] {
      if Spine(T) {
        PrunesLabels(m, T);
        UnpruneLabel(t, m, p[0]);
      }
      UnpruneStep(m, T, p[0]);
      if LookupLabel(t, p[0]).Found? {
        DecidedStays(LookupLabel(t, p[0]).node, LookupLabel(m, p[0]).node, LookupLabel(T, p[0]).node, p[1..]);
      }
    }
  }
}
