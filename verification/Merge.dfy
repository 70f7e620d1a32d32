// Merging two witnesses of one tree.
module Merge {
  import opened Bytes
  import opened HashTree

  // The ways merge_hash_trees can panic.
  datatype Panic = InconsistentHashes | InconsistentLabels | InconsistentLeaves | InconsistentStructure

  datatype Merged = Ok(tree: HashTree) | Panics(reason: Panic)

  function MergeHashTrees(lhs: HashTree, rhs: HashTree): Merged {
    match (lhs, rhs)
    case (Pruned(l), Pruned(r)) => if l != r then Panics(InconsistentHashes) else Ok(Pruned(l))
    case (Pruned(_), r) => Ok(r)
    case (l, Pruned(_)) => Ok(l)
    case (Fork(ll, lr), Fork(rl, rr)) =>
      (match MergeHashTrees(ll, rl)
       case Panics(e) => Panics(e)
       case Ok(left) =>
         match MergeHashTrees(lr, rr)
         case Panics(e) => Panics(e)
         case Ok(right) => Ok(Fork(left, right)))
    case (Labeled(ln, l), Labeled(rn, r)) =>
      if ln != rn then Panics(InconsistentLabels)
      else (match MergeHashTrees(l, r)
            case Panics(e) => Panics(e)
            case Ok(sub) => Ok(Labeled(ln, sub)))
    case (Empty, Empty) => Ok(Empty)
    case (Empty, r) => Ok(r)
    case (l, Empty) => Ok(l)
    case (Leaf(l), Leaf(r)) => if l != r then Panics(InconsistentLeaves) else Ok(Leaf(l))
    case _ => Panics(InconsistentStructure)
  }

  // Positions in a tree: false is the left child (or a label's subtree), true the right child.
  type Position = seq<bool>

  // The node at this position exists and is not hidden.
  ghost predicate Reveals(t: HashTree, pos: Position)
    decreases |pos|
  {
    if pos == [] then !t.Pruned?
    else
      match t
      case Fork(l, r) => Reveals(if pos[0] then r else l, pos[1..])
      case Labeled(_, s) => !pos[0] && Reveals(s, pos[1..])
      case _ => false
  }

  // ---------- Node by node ----------

  // A node without what is below it.
  datatype Mark = MEmpty | MFork | MLabeled(name: bytes) | MLeaf(data: bytes) | MPruned(digest: Hash)

  function MarkOf(t: HashTree): Mark {
    match t
    case Empty => MEmpty
    case Fork(_, _) => MFork
    case Labeled(name, _) => MLabeled(name)
    case Leaf(data) => MLeaf(data)
    case Pruned(digest) => MPruned(digest)
  }

  // The node at a position, if the tree has one there.
  function MarkAt(t: HashTree, pos: Position): Option<Mark>
    decreases |pos|
  {
    if pos == [] then Some(MarkOf(t))
    else
      match t
      case Fork(l, r) => MarkAt(if pos[0] then r else l, pos[1..])
      case Labeled(_, s) => if pos[0] then None else MarkAt(s, pos[1..])
      case _ => None
  }

  // What two nodes cannot agree on: a hidden and an empty one agree with everything but two different digests.
  function Conflict(a: Mark, b: Mark): Option<Panic> {
    if a == b then None
    else if a.MPruned? && b.MPruned? then Some(InconsistentHashes)
    else if a.MPruned? || b.MPruned? || a.MEmpty? || b.MEmpty? then None
    else if a.MLabeled? && b.MLabeled? then Some(InconsistentLabels)
    else if a.MLeaf? && b.MLeaf? then Some(InconsistentLeaves)
    else Some(InconsistentStructure)
  }

  function ConflictAt(a: HashTree, b: HashTree, pos: Position): Option<Panic> {
    if MarkAt(a, pos).Some? && MarkAt(b, pos).Some? then Conflict(MarkAt(a, pos).value, MarkAt(b, pos).value) else None
  }

  // The node of a merge: a node beats no node, a shown one a hidden one, and any shown one an empty one.
  function Joined(a: Option<Mark>, b: Option<Mark>): Option<Mark> {
    if a.None? then b
    else if b.None? then a
    else if a.value.MPruned? || (a.value.MEmpty? && !b.value.MPruned?) then b
    else a
  }

  // A parent comes before its children, and all of a left child before the right one.
  predicate Before(p: Position, q: Position) {
    if q == [] then false
    else p == [] || (if p[0] == q[0] then Before(p[1..], q[1..]) else q[0])
  }

  // A merge that succeeds is the join of the two trees at every position, whatever their digests.
  lemma {:induction false} MergePointwise(a: HashTree, b: HashTree, pos: Position)
    requires MergeHashTrees(a, b).Ok?
    ensures MarkAt(MergeHashTrees(a, b).tree, pos) == Joined(MarkAt(a, pos), MarkAt(b, pos))
    ensures ConflictAt(a, b, pos) == None
    decreases |pos|
  {
    if pos != [] {
      match (a, b)
      case (Fork(al, ar), Fork(bl, br)) =>
        if pos[0] { MergePointwise(ar, br, pos[1..]); } else { MergePointwise(al, bl, pos[1..]); }
      case (Labeled(_, s), Labeled(_, u)) => if !pos[0] { MergePointwise(s, u, pos[1..]); }
      case _ =>
    }
  }

  // A merge that panics does so at the first position where the two trees have nodes that cannot agree.
  lemma {:induction false} MergePanics(a: HashTree, b: HashTree) returns (pos: Position)
    requires MergeHashTrees(a, b).Panics?
    ensures ConflictAt(a, b, pos) == Some(MergeHashTrees(a, b).reason)
    ensures forall p :: Before(p, pos) ==> ConflictAt(a, b, p) == None
  {
    pos := [];
    match (a, b)
    case (Fork(al, ar), Fork(bl, br)) =>
      if MergeHashTrees(al, bl).Panics? {
        var below := MergePanics(al, bl);
        pos := [false] + below;
      } else {
        var below := MergePanics(ar, br);
        pos := [true] + below;
        forall p: Position | p != [] && !p[0] ensures ConflictAt(a, b, p) == None { MergePointwise(al, bl, p[1..]); }
      }
    case (Labeled(_, s), Labeled(_, u)) =>
      if MarkOf(a) == MarkOf(b) {
        var below := MergePanics(s, u);
        pos := [false] + below;
      }
    case _ =>
  }

  // So it panics exactly when some position has such nodes.
  lemma MergePanicsExactly(a: HashTree, b: HashTree)
    ensures MergeHashTrees(a, b).Panics? <==> exists pos :: ConflictAt(a, b, pos).Some?
  {
    if MergeHashTrees(a, b).Panics? {
      var pos := MergePanics(a, b);
    } else {
      forall pos ensures ConflictAt(a, b, pos) == None { MergePointwise(a, b, pos); }
    }
  }

  // ---------- Prunings of one tree ----------

  // Two prunings of one tree merge without a panic into their least upper bound.
  lemma {:induction false} MergeJoins(a: HashTree, b: HashTree, T: HashTree)
    requires Prunes(a, T) && Prunes(b, T)
    ensures MergeHashTrees(a, b).Ok?
    ensures Prunes(MergeHashTrees(a, b).tree, T)
    ensures Prunes(a, MergeHashTrees(a, b).tree) && Prunes(b, MergeHashTrees(a, b).tree)
  {
    PrunesDigest(a, T);
    PrunesDigest(b, T);
    PrunesRefl(a);
    PrunesRefl(b);
    match (a, b)
    case (Fork(al, ar), Fork(bl, br)) =>
      MergeJoins(al, bl, T.left);
      MergeJoins(ar, br, T.right);
    case (Labeled(_, s), Labeled(_, u)) => MergeJoins(s, u, T.sub);
    case _ =>
  }

  lemma {:induction false} MergeTight(a: HashTree, b: HashTree)
    requires MergeHashTrees(a, b).Ok? && Tight(a) && Tight(b)
    ensures Tight(MergeHashTrees(a, b).tree)
  {
    match (a, b)
    case (Fork(al, ar), Fork(bl, br)) =>
      MergeTight(al, bl);
      MergeTight(ar, br);
    case (Labeled(_, s), Labeled(_, u)) => MergeTight(s, u);
    case _ =>
  }

  lemma {:induction false} MergeLeast(a: HashTree, b: HashTree, u: HashTree)
    requires MergeHashTrees(a, b).Ok? && Digest(a) == Digest(b)
    requires Prunes(a, u) && Prunes(b, u)
    ensures Prunes(MergeHashTrees(a, b).tree, u)
  {
    match (a, b)
    case (Fork(al, ar), Fork(bl, br)) =>
      MergeLeast(al, bl, u.left);
      MergeLeast(ar, br, u.right);
    case (Labeled(_, s), Labeled(_, v)) => MergeLeast(s, v, u.sub);
    case _ =>
  }

  // Equal digests are all merge_hash_trees needs.
  lemma MergeSafe(a: HashTree, b: HashTree)
    requires Digest(a) == Digest(b)
    ensures MergeHashTrees(a, b).Ok?
    ensures Digest(MergeHashTrees(a, b).tree) == Digest(a)
    ensures Prunes(a, MergeHashTrees(a, b).tree) && Prunes(b, MergeHashTrees(a, b).tree)
  {
    var T := Unhash(Digest(a));
    SameDigestPrunes(a, T);
    SameDigestPrunes(b, T);
    MergeJoins(a, b, T);
    PrunesDigest(MergeHashTrees(a, b).tree, T);
  }

  // ---------- What a merge reveals ----------

  // The merge reveals exactly the nodes that one of the two reveals.
  lemma MergeReveals(a: HashTree, b: HashTree, pos: Position)
    requires MergeHashTrees(a, b).Ok?
    ensures Reveals(MergeHashTrees(a, b).tree, pos) <==> Reveals(a, pos) || Reveals(b, pos)
  {
    MergePointwise(a, b, pos);
    RevealsMark(a, pos);
    RevealsMark(b, pos);
    RevealsMark(MergeHashTrees(a, b).tree, pos);
  }

  lemma {:induction false} RevealsMark(t: HashTree, pos: Position)
    ensures Reveals(t, pos) <==> MarkAt(t, pos).Some? && !MarkAt(t, pos).value.MPruned?
    decreases |pos|
  {
    if pos != [] {
      match t
      case Fork(l, r) => RevealsMark(if pos[0] then r else l, pos[1..]);
      case Labeled(_, s) => RevealsMark(s, pos[1..]);
      case _ =>
    }
  }

  lemma Shown(t: HashTree, x: bytes, T: HashTree)
    requires Prunes(t, T) && Spine(T) && x in Labels(T)
    ensures LookupLabel(T, x).Found? && (LookupLabel(t, x).Found? || LookupLabel(t, x).Unknown?)
    ensures LookupLabel(t, x).Found? ==> Prunes(LookupLabel(t, x).node, LookupLabel(T, x).node)
  {
    VerdictMeaning(T, x);
    UnpruneLabel(t, T, x);
  }

  // A label of one side of a sorted fork is looked up on that side.
  lemma ForkSide(l: HashTree, r: HashTree, x: bytes, L: HashTree, R: HashTree)
    requires Prunes(l, L) && Prunes(r, R) && Spine(Fork(L, R)) && (x in Labels(L) || x in Labels(R))
    ensures LookupLabel(Fork(l, r), x) == LookupLabel(if x in Labels(L) then l else r, x)
  {
    hide Spine, Labels, Prunes;
    SpineFork(L, R);
    ForkVerdicts(L, R, x);
    VerdictMeaning(L, x);
    VerdictMeaning(R, x);
    UnpruneLabel(l, L, x);
    UnpruneLabel(r, R, x);
  }

  // The answer of a merge from the answers of its parts, for what the tree behind them has.
  function JoinedResult(a: LabelResult, b: LabelResult): LabelResult
    requires a.Found? && b.Found? ==> MergeHashTrees(a.node, b.node).Ok?
  {
    if a.Found? && b.Found? then Found(MergeHashTrees(a.node, b.node).tree)
    else if a.Found? then a else b
  }

  lemma {:induction false} MergeLabel(a: HashTree, b: HashTree, T: HashTree, x: bytes)
    requires Prunes(a, T) && Prunes(b, T) && Spine(T) && x in Labels(T)
    ensures MergeHashTrees(a, b).Ok?
    ensures var p, q := LookupLabel(a, x), LookupLabel(b, x);
      && (p.Found? && q.Found? ==> MergeHashTrees(p.node, q.node).Ok?)
      && LookupLabel(MergeHashTrees(a, b).tree, x) == JoinedResult(p, q)
  {
    MergeJoins(a, b, T);
    Shown(a, x, T);
    Shown(b, x, T);
    match (a, b)
    case (Fork(al, ar), Fork(bl, br)) =>
      MergeJoins(al, bl, T.left);
      MergeJoins(ar, br, T.right);
      ForkSide(al, ar, x, T.left, T.right);
      ForkSide(bl, br, x, T.left, T.right);
      ForkSide(MergeHashTrees(al, bl).tree, MergeHashTrees(ar, br).tree, x, T.left, T.right);
      if x in Labels(T.left) { MergeLabel(al, bl, T.left, x); } else { MergeLabel(ar, br, T.right, x); }
    case _ =>
  }

  // Two prunings of a sorted tree answer for a path together: each shows what it shows alone, and no more.
  lemma {:induction false} MergeSubtree(a: HashTree, b: HashTree, T: HashTree, path: Path)
    requires Prunes(a, T) && Prunes(b, T) && Level(T) && LookupSubtree(T, path).SubtreeFound?
    ensures MergeHashTrees(a, b).Ok?
    ensures var p, q := LookupSubtree(a, path), LookupSubtree(b, path);
      LookupSubtree(MergeHashTrees(a, b).tree, path) ==
        if p.SubtreeFound? && q.SubtreeFound? && MergeHashTrees(p.tree, q.tree).Ok? then
          SubtreeFound(MergeHashTrees(p.tree, q.tree).tree)
        else if p.SubtreeFound? then p else q
    decreases |path|
  {
    hide Prunes, Labels, Spine, MergeHashTrees;
    MergeJoins(a, b, T);
    UnpruneSubtree(a, T, path);
    UnpruneSubtree(b, T, path);
    if path != [] {
      VerdictMeaning(T, path[0]);
      MergeLabel(a, b, T, path[0]);
      Shown(a, path[0], T);
      Shown(b, path[0], T);
      FoundLevel(T, path[0]);
      var p, q := LookupLabel(a, path[0]), LookupLabel(b, path[0]);
      if p.Found? && q.Found? {
        MergeJoins(p.node, q.node, LookupLabel(T, path[0]).node);
        MergeSubtree(p.node, q.node, LookupLabel(T, path[0]).node, path[1..]);
      }
    }
  }

  // ---------- Merging as an operation ----------

  lemma {:induction false} MergeIdempotent(a: HashTree)
    ensures MergeHashTrees(a, a) == Ok(a)
  {
    MergeSafe(a, a);
    PrunesRefl(a);
    MergeLeast(a, a, a);
    PrunesAntisym(a, MergeHashTrees(a, a).tree);
  }

  lemma {:induction false} MergeCommutes(a: HashTree, b: HashTree)
    requires Digest(a) == Digest(b)
    ensures MergeHashTrees(a, b) == MergeHashTrees(b, a)
  {
    MergeSafe(a, b);
    MergeSafe(b, a);
    MergeLeast(a, b, MergeHashTrees(b, a).tree);
    MergeLeast(b, a, MergeHashTrees(a, b).tree);
    PrunesAntisym(MergeHashTrees(a, b).tree, MergeHashTrees(b, a).tree);
  }

  lemma {:induction false} MergeAssociates(a: HashTree, b: HashTree, c: HashTree)
    requires Digest(a) == Digest(b) == Digest(c)
    ensures MergeHashTrees(a, b).Ok? && MergeHashTrees(b, c).Ok?
    ensures MergeHashTrees(MergeHashTrees(a, b).tree, c) == MergeHashTrees(a, MergeHashTrees(b, c).tree)
  {
    MergeSafe(a, b);
    MergeSafe(b, c);
    var ab, bc := MergeHashTrees(a, b).tree, MergeHashTrees(b, c).tree;
    MergeSafe(ab, c);
    MergeSafe(a, bc);
    var l, r := MergeHashTrees(ab, c).tree, MergeHashTrees(a, bc).tree;
    PrunesTrans(a, ab, l);
    PrunesTrans(b, ab, l);
    PrunesTrans(b, bc, r);
    PrunesTrans(c, bc, r);
    MergeLeast(b, c, l);
    MergeLeast(a, bc, l);
    MergeLeast(a, b, r);
    MergeLeast(ab, c, r);
    PrunesAntisym(l, r);
  }
}
