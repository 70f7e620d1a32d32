// The explicit-stack iterator over a stored tree.
module RbIter {
  import opened Bytes
  import opened RbTree
  import opened RbDelete
  import opened RbOrder
  import opened RbTreeHeap

  datatype Visit = Pre | In | Post

  // One node of the stack as a value, and whether it hangs on the left of the node before it.
  datatype Frame = Frame(tree: NodeTree, onLeft: bool)

  // What is still to come above the last frame, once that frame's subtree is finished.
  ghost function PendingAbove(spine: seq<Frame>): seq<Entry> {
    if |spine| <= 1 then []
    else
      var parent := spine[|spine| - 2].tree;
      (if spine[|spine| - 1].onLeft then [(parent.key, parent.value)] + Entries(parent.right) else [])
      + PendingAbove(spine[..|spine| - 1])
  }

  // The entries the iterator has not yielded yet.
  ghost function Pending(visit: Visit, spine: seq<Frame>): seq<Entry> {
    if spine == [] then []
    else
      var tip := spine[|spine| - 1].tree;
      (match visit
       case Pre => Entries(tip)
       case In => Entries(tip.right)
       case Post => [])
      + PendingAbove(spine)
  }

  // What a step yields by where it leads.
  ghost function Yield(visit: Visit, spine: seq<Frame>): seq<Entry> {
    if visit == In && spine != [] then [(spine[|spine| - 1].tree.key, spine[|spine| - 1].tree.value)] else []
  }

  ghost function StepsAbove(spine: seq<Frame>): nat {
    if |spine| <= 1 then 0
    else
      (if spine[|spine| - 1].onLeft then 3 * Size(spine[|spine| - 2].tree.right) + 2 else 1)
      + StepsAbove(spine[..|spine| - 1])
  }

  // The successful steps still ahead.
  ghost function StepsLeft(visit: Visit, spine: seq<Frame>): nat {
    if spine == [] then 0
    else
      var tip := spine[|spine| - 1].tree;
      (match visit
       case Pre => 3 * Size(tip)
       case In => 3 * Size(tip.right) + 2
       case Post => 1)
      + StepsAbove(spine)
  }

  lemma Finished(visit: Visit)
    ensures Pending(visit, []) == [] && StepsLeft(visit, []) == 0
  {
  }

  // Going down one link leaves the rest of the path as it was.
  lemma Pushed(spine: seq<Frame>, f: Frame)
    requires spine != []
    ensures var tip := spine[|spine| - 1].tree;
      && PendingAbove(spine + [f]) ==
        (if f.onLeft then [(tip.key, tip.value)] + Entries(tip.right) else []) + PendingAbove(spine)
      && StepsAbove(spine + [f]) == (if f.onLeft then 3 * Size(tip.right) + 2 else 1) + StepsAbove(spine)
  {
    hide Entries, Size;
    var more := spine + [f];
    assert more[..|more| - 1] == spine && more[|more| - 2] == spine[|spine| - 1] && more[|more| - 1] == f;
  }

  // Where one step leads.
  ghost function StepTo(visit: Visit, spine: seq<Frame>): (Visit, seq<Frame>)
    requires spine != []
  {
    var tip := spine[|spine| - 1];
    match visit
    case Pre => if tip.tree.left.Node? then (Pre, spine + [Frame(tip.tree.left, true)]) else (In, spine)
    case In => if tip.tree.right.Node? then (Pre, spine + [Frame(tip.tree.right, false)]) else (Post, spine)
    case Post => (if |spine| > 1 && tip.onLeft then In else Post, spine[..|spine| - 1])
  }

  lemma PreAccounts(spine: seq<Frame>)
    requires spine != []
    ensures var (v, s) := StepTo(Pre, spine);
      Pending(Pre, spine) == Yield(v, s) + Pending(v, s) && StepsLeft(Pre, spine) == StepsLeft(v, s) + 1
  {
    hide PendingAbove, StepsAbove;
    var tip := spine[|spine| - 1].tree;
    var l, m, r, above := Entries(tip.left), [(tip.key, tip.value)], Entries(tip.right), PendingAbove(spine);
    assert Entries(tip) == l + m + r;
    assert l + m + r + above == l + (m + r + above);
    assert Size(tip) == 1 + Size(tip.left) + Size(tip.right);
    if tip.left.Node? {
      Pushed(spine, Frame(tip.left, true));
    } else {
      assert l + (m + r + above) == m + (r + above);
    }
  }

  lemma InAccounts(spine: seq<Frame>)
    requires spine != []
    ensures var (v, s) := StepTo(In, spine);
      Pending(In, spine) == Yield(v, s) + Pending(v, s) && StepsLeft(In, spine) == StepsLeft(v, s) + 1
  {
    hide PendingAbove, StepsAbove;
    var tip := spine[|spine| - 1].tree;
    if tip.right.Node? {
      Pushed(spine, Frame(tip.right, false));
    } else {
      assert Entries(tip.right) == [] && Size(tip.right) == 0;
    }
  }

  lemma PostAccounts(spine: seq<Frame>)
    requires spine != []
    ensures var (v, s) := StepTo(Post, spine);
      Pending(Post, spine) == Yield(v, s) + Pending(v, s) && StepsLeft(Post, spine) == StepsLeft(v, s) + 1
  {
    if |spine| > 1 {
      hide PendingAbove, StepsAbove, Entries, Size;
      var rest := spine[..|spine| - 1];
      Pushed(rest, spine[|spine| - 1]);
      assert rest + [spine[|spine| - 1]] == spine;
    }
  }

  lemma StepToAccounts(visit: Visit, spine: seq<Frame>)
    requires spine != []
    ensures var (v, s) := StepTo(visit, spine);
      Pending(visit, spine) == Yield(v, s) + Pending(v, s) && StepsLeft(visit, spine) == StepsLeft(v, s) + 1
  {
    match visit
    case Pre => PreAccounts(spine);
    case In => InAccounts(spine);
    case Post => PostAccounts(spine);
  }

  // The stack is a path of the tree: every node on it hangs on the one before.
  ghost predicate Stack(parents: seq<HeapNode>, spine: seq<Frame>)
    reads parents, set i, o: object | 0 <= i < |parents| && o in parents[i].repr :: o
  {
    && |spine| == |parents|
    && (forall i :: 0 <= i < |parents| ==> parents[i].Valid() && parents[i].tree == spine[i].tree)
    && (forall i :: 0 < i < |parents| ==>
          parents[i] == if spine[i].onLeft then parents[i - 1].left else parents[i - 1].right)
  }

  lemma StackTip(parents: seq<HeapNode>, spine: seq<Frame>)
    requires Stack(parents, spine) && parents != []
    ensures spine != []
    ensures var tip := parents[|parents| - 1];
      && spine[|spine| - 1].tree ==
        Node(tip.key, tip.value, TreeOf(tip.left), TreeOf(tip.right), tip.color, tip.subtreeHash)
      && ValidRef(tip.left) && ValidRef(tip.right)
  {
    parents[|parents| - 1].Unfold();
  }

  lemma StackPush(parents: seq<HeapNode>, spine: seq<Frame>, n: HeapNode, f: Frame)
    requires Stack(parents, spine) && parents != [] && n.Valid() && n.tree == f.tree
    requires n == if f.onLeft then parents[|parents| - 1].left else parents[|parents| - 1].right
    ensures Stack(parents + [n], spine + [f])
  {
    hide HeapNode.Valid;
  }

  lemma StackPop(parents: seq<HeapNode>, spine: seq<Frame>)
    requires Stack(parents, spine) && parents != []
    ensures Stack(parents[..|parents| - 1], spine[..|spine| - 1])
    ensures |parents| > 1 ==> (spine[|spine| - 1].onLeft <==> parents[|parents| - 2].left == parents[|parents| - 1])
  {
    hide HeapNode.Valid;
    if |parents| > 1 { parents[|parents| - 2].Unfold(); }
  }

  lemma StackLength(parents: seq<HeapNode>, spine: seq<Frame>)
    requires Stack(parents, spine)
    ensures |spine| == |parents|
  {
  }

  lemma StackEmpty(parents: seq<HeapNode>, spine: seq<Frame>)
    requires Stack(parents, spine)
    ensures parents == [] ==> spine == []
  {
  }

  class Iter {
    var visit: Visit
    var parents: seq<HeapNode>
    ghost var spine: seq<Frame>

    ghost predicate Valid()
      reads this, parents, set i, o: object | 0 <= i < |parents| && o in parents[i].repr :: o
    {
      Stack(parents, spine)
    }

    constructor (t: RbTreeMap)
      requires t.Valid()
      ensures Valid()
      ensures Pending(visit, spine) == Entries(t.Model())
      ensures StepsLeft(visit, spine) == 3 * Size(t.Model())
    {
      visit := Pre;
      parents := if t.root == null then [] else [t.root];
      spine := if t.root == null then [] else [Frame(t.root.tree, false)];
    }

    // One step of the traversal; stepping onto a node in passing yields its entry.
    method Step() returns (more: bool)
      requires Valid()
      modifies this
      ensures Valid()
      ensures more == (old(parents) != [])
      ensures more ==> StepsLeft(visit, spine) == old(StepsLeft(visit, spine)) - 1
      ensures !more ==> visit == old(visit) && spine == old(spine) && parents == old(parents)
      ensures more ==> old(Pending(visit, spine)) == Yield(visit, spine) + Pending(visit, spine)
    {
      hide HeapNode.Valid, Stack, Pending, StepsLeft, Yield, Entries, Size;
      if parents == [] {
        return false;
      }
      var tip := parents[|parents| - 1];
      StackTip(parents, spine);
      StepToAccounts(visit, spine);
      match visit {
        case Pre =>
          if tip.left != null {
            StackPush(parents, spine, tip.left, Frame(tip.left.tree, true));
            parents := parents + [tip.left];
            spine := spine + [Frame(tip.left.tree, true)];
          } else {
            visit := In;
          }
        case In =>
          if tip.right != null {
            StackPush(parents, spine, tip.right, Frame(tip.right.tree, false));
            parents := parents + [tip.right];
            spine := spine + [Frame(tip.right.tree, false)];
            visit := Pre;
          } else {
            visit := Post;
          }
        case Post =>
          StackPop(parents, spine);
          parents := parents[..|parents| - 1];
          spine := spine[..|spine| - 1];
          if parents != [] {
            if parents[|parents| - 1].left == tip {
              visit := In;
            }
          }
      }
      more := true;
      assert (visit, spine) == StepTo(old(visit), old(spine)) by { StackLength(old(parents), old(spine)); }
    }

    // The next entry in order, or the end.
    method Next() returns (item: Option<Entry>)
      requires Valid()
      modifies this
      ensures Valid()
      ensures match item
        case Some(e) => old(Pending(visit, spine)) == [e] + Pending(visit, spine)
        case None => old(Pending(visit, spine)) == [] && parents == []
    {
      hide HeapNode.Valid, Stack, Pending, StepsLeft, Entries, Size;
      var more := Step();
      while more
        invariant Valid()
        invariant old(Pending(visit, spine)) == (if more then Yield(visit, spine) else []) + Pending(visit, spine)
        invariant !more ==> parents == []
        decreases StepsLeft(visit, spine), more
      {
        if visit == In && parents != [] {
          var tip := parents[|parents| - 1];
          StackTip(parents, spine);
          return Some((tip.key, tip.value));
        }
        StackEmpty(parents, spine);
        more := Step();
      }
      StackEmpty(parents, spine);
      Finished(visit);
      return None;
    }
  }

  lemma Regroup(a: seq<Entry>, b: seq<Entry>, c: seq<Entry>)
    ensures a + b + c == a + (b + c) && [] + c == c
  {
  }

  // Iterating a map yields its entries in order, each once, in three steps a node.
  method Collect(t: RbTreeMap) returns (entries: seq<Entry>, steps: nat)
    requires t.Valid()
    ensures entries == Entries(t.Model()) && steps == 3 * Size(t.Model())
  {
    hide HeapNode.Valid, RbTreeMap.Valid, Stack, Pending, StepsLeft, Entries, Size;
    var iter := new Iter(t);
    ghost var model := t.Model();
    entries, steps := [], 0;
    var more := iter.Step();
    while more
      invariant iter.Valid() && fresh(iter) && t.Model() == model
      invariant entries + (if more then Yield(iter.visit, iter.spine) else []) + Pending(iter.visit, iter.spine) ==
        Entries(model)
      invariant steps + (if more then 1 else 0) + StepsLeft(iter.visit, iter.spine) == 3 * Size(model)
      invariant !more ==> iter.parents == []
      decreases StepsLeft(iter.visit, iter.spine), more
    {
      Regroup(entries, Yield(iter.visit, iter.spine), Pending(iter.visit, iter.spine));
      ghost var before, yielded := entries, Yield(iter.visit, iter.spine);
      StackEmpty(iter.parents, iter.spine);
      if iter.visit == In && iter.parents != [] {
        var tip := iter.parents[|iter.parents| - 1];
        StackTip(iter.parents, iter.spine);
        entries := entries + [(tip.key, tip.value)];
      }
      assert entries == before + yielded;
      steps := steps + 1;
      more := iter.Step();
      Regroup(entries, if more then Yield(iter.visit, iter.spine) else [], Pending(iter.visit, iter.spine));
    }
    StackEmpty(iter.parents, iter.spine);
    Finished(iter.visit);
  }
}
