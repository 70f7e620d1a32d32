// Deletion from a left-leaning red-black tree.
module RbDelete {
  import opened Bytes
  import opened RbTree

  ghost function Size(t: Tree): nat {
    if t.Nil? then 0 else 1 + Size(t.left) + Size(t.right)
  }

  // ---------- Where deletion may stand ----------

  // A node deletion can descend into: a red link is at hand to borrow from.
  ghost predicate Ready(h: Tree) {
    h.Node? && Shaped(h) && (h.color.Red? || IsRed(h.left))
  }

  // The passing state move_red_right leaves behind when left.left was red: a black node with a
  // red right link, reached only by keys that are not to its left.
  ghost predicate Leaning(h: Tree) {
    && h.Node? && h.color.Black?
    && Shaped(h.left) && Shaped(h.right) && BlackHeight(h.left) == BlackHeight(h.right)
    && !IsRed(h.left) && IsRed(h.right)
  }

  function MoveRedLeft(h: Tree): (r: Tree)
    requires h.Node? && h.left.Node? && h.right.Node? && !IsRed(h.right)
    ensures r.Node?
  {
    var f := FlipColors(h);
    if IsRed(f.right.left) then FlipColors(RotateLeft(f.(right := RotateRight(f.right)))) else f
  }

  function MoveRedRight(h: Tree): (r: Tree)
    requires h.Node? && h.left.Node? && h.right.Node? && !IsRed(h.left)
    ensures r.Node?
  {
    var f := FlipColors(h);
    if IsRed(f.left.left) then FlipColors(RotateRight(f)) else f
  }

  // The step before descending to the left.
  function PrepareLeft(h: Tree): (r: Tree)
    requires Ready(h) && h.left.Node?
    ensures r.Node?
  {
    if !IsRed(h.left) && !IsRed(h.left.left) then MoveRedLeft(h) else h
  }

  // The two steps before descending to the right.
  function TurnRight(h: Tree): (r: Tree)
    requires h.Node?
    ensures r.Node?
  {
    if IsRed(h.left) then RotateRight(h) else h
  }

  function PrepareRight(h: Tree): (r: Tree)
    requires Ready(h) || Leaning(h)
    requires TurnRight(h).right.Node?
    ensures r.Node?
  {
    var t := TurnRight(h);
    if !IsRed(t.right) && !IsRed(t.right.left) then MoveRedRight(t) else t
  }

  // A black right child without a red left one leaves a black left child to take from.
  lemma CanMoveRight(h: Tree)
    requires (Ready(h) || Leaning(h)) && TurnRight(h).right.Node?
    requires !IsRed(TurnRight(h).right) && !IsRed(TurnRight(h).right.left)
    ensures TurnRight(h) == h && h.left.Node? && !IsRed(h.left)
  {
  }

  // What Balance can repair once the left child has been deleted from.
  ghost predicate OpenLeft(r: Tree) {
    && r.Node?
    && Shaped(r.right) && BlackHeight(r.left) == BlackHeight(r.right)
    && if r.color.Red? then !IsRed(r.left) && !IsRed(r.right) else IsRed(r.left)
  }

  ghost predicate OpenRight(r: Tree) {
    && r.Node?
    && Shaped(r.left) && BlackHeight(r.left) == BlackHeight(r.right)
    && if r.color.Red? then !IsRed(r.left) && !IsRed(r.right) else IsRed(r.right)
  }

  lemma PaintShape(t: Tree, c: Color)
    requires t.Node?
    ensures BlackHeight(Paint(t, c)) == BlackHeight(t.left) + (if c.Black? then 1 else 0)
    ensures Shaped(Paint(t, c)) <==>
      (Shaped(t.left) && Shaped(t.right) && BlackHeight(t.left) == BlackHeight(t.right)
       && !IsRed(t.right) && (c.Red? ==> !IsRed(t.left)))
    ensures Size(Paint(t, c)) == Size(t)
  {
  }

  // Borrowing from a right sibling that has a red left child: the resulting nodes, spelled out.
  lemma MoveRedLeftBorrows(h: Tree)
    requires h.Node? && h.left.Node? && h.right.Node? && !IsRed(h.right) && IsRed(h.right.left) && IsRed(h)
      && !IsRed(h.left)
    ensures var l, s, x, y := h.left, h.right, h.right.left, MoveRedLeft(h);
      && y.color == Red && y.key == x.key && y.value == x.value
      && y.left.Node? && y.left.key == h.key && y.left.value == h.value && y.left.color == Black
      && y.left.left == Paint(l, Red) && y.left.right == x.left
      && y.right.Node? && y.right.key == s.key && y.right.value == s.value && y.right.color == Black
      && y.right.left == x.right && y.right.right == s.right
  {
  }

  lemma PrepareLeftShape(h: Tree)
    requires Ready(h) && h.left.Node?
    ensures var r := PrepareLeft(h);
      && OpenLeft(r) && Ready(r.left) && BlackHeight(r) == BlackHeight(h)
      && (h.color.Black? ==> r.color.Black? && !IsRed(r.right))
      && Size(r) == Size(h)
  {
    assert Shaped(h.left) && Shaped(h.right);
    if !IsRed(h.left) && !IsRed(h.left.left) {
      var s := h.right;
      PaintShape(h.left, Red);
      PaintShape(s, Red);
      if IsRed(s.left) {
        MoveRedLeftBorrows(h);
        var y := MoveRedLeft(h);
        assert Shaped(s.left) && Shaped(s.left.left) && Shaped(s.left.right);
        assert Shaped(y.left) && BlackHeight(y.left) == BlackHeight(s);
        assert Shaped(y.right);
        assert Size(y.left) == 1 + Size(h.left) + Size(s.left.left);
      }
    }
  }

  lemma PrepareRightShape(h: Tree)
    requires Ready(h) || Leaning(h)
    requires TurnRight(h).right.Node?
    ensures var r := PrepareRight(h);
      && OpenRight(r) && BlackHeight(r) == BlackHeight(h)
      && (Ready(r.right) || (Leaning(r.right) && r.right.key == h.key && r.key == h.left.key && h.left.Node?))
      && (h.color.Black? ==> r.color.Black? && !IsRed(r.left))
      && Size(r) == Size(h)
  {
    assert Shaped(h.left) && Shaped(h.right);
    var t := TurnRight(h);
    if IsRed(h.left) {
      assert Size(t) == Size(h);
      assert Shaped(h.left.left) && Shaped(h.left.right);
    } else if !IsRed(t.right) && !IsRed(t.right.left) {
      assert h.left.Node?;
      assert Shaped(h.left.left) && Shaped(h.left.right);
      var f := FlipColors(h);
      if IsRed(f.left.left) {
        var x := RotateRight(f);
        assert Size(x) == Size(f);
        assert BlackHeight(x.left) == BlackHeight(x.right);
      }
    }
  }

  lemma RepairLeft(r: Tree, l: Tree)
    requires OpenLeft(r) && Shaped(l) && BlackHeight(l) == BlackHeight(r.left) && (IsRed(l) ==> IsRed(r.left))
    ensures var b := Balance(Update(r.(left := l)));
      && Shaped(b) && BlackHeight(b) == BlackHeight(r) && (r.color.Black? && !IsRed(r.right) ==> !IsRed(b))
  {
    var h := Update(r.(left := l));
    var a := LeanLeft(h);
    assert SplitReds(a) == a;
    if r.right.Node? { assert Shaped(r.right.left) && Shaped(r.right.right); }
  }

  lemma RepairRight(h: Tree, k: bytes, v: NestedTree, r: Tree)
    requires OpenRight(h) && Shaped(r) && BlackHeight(r) == BlackHeight(h.right) && (IsRed(r) ==> IsRed(h.right))
    ensures var b := Balance(Update(h.(key := k, value := v, right := r)));
      && Shaped(b) && BlackHeight(b) == BlackHeight(h) && (h.color.Black? && !IsRed(h.left) ==> !IsRed(b))
  {
    var h' := Update(h.(key := k, value := v, right := r));
    if h.left.Node? { assert Shaped(h.left.left) && Shaped(h.left.right); }
    if r.Node? { assert Shaped(r.left) && Shaped(r.right); }
    if IsRed(r) && IsRed(h.left) {
      PaintShape(h.left, Black);
      PaintShape(r, Black);
    } else if IsRed(r) {
      var a := LeanLeft(h');
      assert a.left.left == h.left && a.left.right == r.left && a.right == r.right;
      assert Shaped(a.left);
    }
  }

  // ---------- Deleting the minimum ----------

  function MinNode(t: Tree): (m: Tree)
    requires t.Node?
    ensures m.Node?
  {
    if t.left.Nil? then t else MinNode(t.left)
  }

  // Swapping another key and value into the minimum's node; the cached hashes above it go stale.
  function SetMin(t: Tree, key: bytes, value: NestedTree): (r: Tree)
    requires t.Node?
    ensures r.Node?
  {
    if t.left.Nil? then t.(key := key, value := value) else t.(left := SetMin(t.left, key, value))
  }

  lemma {:induction false} SetMinShape(t: Tree, key: bytes, value: NestedTree)
    requires t.Node?
    ensures BlackHeight(SetMin(t, key, value)) == BlackHeight(t)
    ensures Shaped(t) ==> Shaped(SetMin(t, key, value))
    ensures IsRed(SetMin(t, key, value)) == IsRed(t) && Size(SetMin(t, key, value)) == Size(t)
  {
    if t.left.Node? { SetMinShape(t.left, key, value); }
  }

  function DeleteMin(h: Tree): Tree
    requires Ready(h)
    decreases Size(h)
  {
    if h.left.Nil? then
      assert h.right.Nil?;
      Nil
    else
      PrepareLeftShape(h);
      var r := PrepareLeft(h);
      Balance(Update(r.(left := DeleteMin(r.left))))
  }

  lemma {:induction false} DeleteMinShape(h: Tree)
    requires Ready(h)
    ensures Shaped(DeleteMin(h)) && BlackHeight(DeleteMin(h)) == BlackHeight(h)
    ensures h.color.Black? ==> !IsRed(DeleteMin(h))
    decreases Size(h)
  {
    if h.left.Node? {
      PrepareLeftShape(h);
      var r := PrepareLeft(h);
      DeleteMinShape(r.left);
      RepairLeft(r, DeleteMin(r.left));
    }
  }

  // ---------- Order and caches on the way down ----------

  lemma PrepareLeftMap(h: Tree, lo: Bound, hi: Bound)
    requires Ready(h) && h.left.Node? && Ordered(h, lo, hi)
    ensures var r := PrepareLeft(h);
      && Ordered(r, lo, hi) && (r.key == h.key || Lt(h.key, r.key))
      && (forall q :: Get(r, q) == Get(h, q))
      && (Cached(h) ==> Cached(r))
  {
    if !IsRed(h.left) && !IsRed(h.left.left) {
      PrepareLeftShape(h);
      var f := FlipColors(h);
      FlipKeeps(h, lo, hi);
      if IsRed(f.right.left) {
        var x := RotateRight(f.right);
        RotateRightKeeps(f.right, At(h.key), hi);
        var g := f.(right := x);
        forall q ensures Get(g, q) == Get(h, q) { GetStep(g, q); GetStep(f, q); }
        RotateLeftKeeps(g, lo, hi);
        FlipKeeps(RotateLeft(g), lo, hi);
      }
    }
  }

  lemma PrepareRightMap(h: Tree, lo: Bound, hi: Bound)
    requires (Ready(h) || Leaning(h)) && TurnRight(h).right.Node? && Ordered(h, lo, hi)
    ensures var r := PrepareRight(h);
      && Ordered(r, lo, hi) && (r.key == h.key || Lt(r.key, h.key))
      && (forall q :: Get(r, q) == Get(h, q))
      && (Cached(h) ==> Cached(r))
  {
    var t := TurnRight(h);
    if IsRed(h.left) { RotateRightKeeps(h, lo, hi); }
    if !IsRed(t.right) && !IsRed(t.right.left) {
      PrepareRightShape(h);
      var f := FlipColors(t);
      FlipKeeps(t, lo, hi);
      if IsRed(f.left.left) {
        RotateRightKeeps(f, lo, hi);
        FlipKeeps(RotateRight(f), lo, hi);
      }
    }
  }

  // ---------- Deleting the minimum: what the minimum's own key and caches do not matter for ----------

  // Ordered, but for the key of the minimum.
  ghost predicate TailOrdered(t: Tree, lo: Bound, hi: Bound) {
    t.Node? &&
    if t.left.Nil? then Ordered(t.right, lo, hi)
    else Above(lo, t.key) && Below(t.key, hi) && TailOrdered(t.left, lo, At(t.key)) && Ordered(t.right, At(t.key), hi)
  }

  // Cached, but for the hashes on the way to the minimum.
  ghost predicate TailCached(t: Tree) {
    t.Node? && Cached(t.right) && (t.left.Node? ==> TailCached(t.left))
  }

  // The map without the minimum.
  ghost function TailGet(t: Tree, q: bytes): Option<NestedTree>
    requires t.Node?
  {
    if t.left.Nil? then Get(t.right, q)
    else if q == t.key then Some(t.value)
    else if Lt(q, t.key) then TailGet(t.left, q)
    else Get(t.right, q)
  }

  lemma {:induction false} TailOfOrdered(t: Tree, lo: Bound, hi: Bound)
    requires t.Node? && Ordered(t, lo, hi)
    ensures var m := MinNode(t);
      && Above(lo, m.key) && Below(m.key, hi) && TailOrdered(t, At(m.key), hi)
      && (forall q :: TailGet(t, q) == if q == m.key then None else Get(t, q))
      && Get(t, m.key) == Some(m.value)
    ensures Cached(t) ==> TailCached(t)
  {
    TotalOrder();
    var m := MinNode(t);
    if t.left.Node? {
      TailOfOrdered(t.left, lo, At(t.key));
      forall q ensures TailGet(t, q) == if q == m.key then None else Get(t, q) { GetStep(t, q); }
      GetStep(t, m.key);
    } else {
      forall q ensures TailGet(t, q) == if q == m.key then None else Get(t, q) {
        GetStep(t, q);
        if Has(t.right, q) { GetInBounds(t.right, At(t.key), hi, q); }
      }
      GetStep(t, m.key);
    }
  }

  // The tail does not see the swap.
  lemma {:induction false} TailOfSwap(t: Tree, key: bytes, value: NestedTree, lo: Bound, hi: Bound)
    requires t.Node?
    ensures var s := SetMin(t, key, value);
      && (TailOrdered(t, lo, hi) ==> TailOrdered(s, lo, hi))
      && (forall q :: TailGet(s, q) == TailGet(t, q))
      && (TailCached(t) ==> TailCached(s))
  {
    var s := SetMin(t, key, value);
    if t.left.Node? {
      TailOfSwap(t.left, key, value, lo, At(t.key));
      forall q ensures TailGet(s, q) == TailGet(t, q) {}
    }
  }

  lemma {:induction false} PaintTail(t: Tree, c: Color, lo: Bound, hi: Bound)
    requires t.Node?
    ensures TailOrdered(t, lo, hi) ==> TailOrdered(Paint(t, c), lo, hi)
    ensures forall q :: TailGet(Paint(t, c), q) == TailGet(t, q)
    ensures TailCached(t) ==> TailCached(Paint(t, c))
  {
  }

  lemma FlipTail(h: Tree, lo: Bound, hi: Bound)
    requires h.Node? && h.left.Node? && h.right.Node?
    ensures TailOrdered(h, lo, hi) ==> TailOrdered(FlipColors(h), lo, hi)
    ensures forall q :: TailGet(FlipColors(h), q) == TailGet(h, q)
    ensures TailCached(h) ==> TailCached(FlipColors(h))
  {
    PaintTail(h.left, Flip(h.left.color), lo, At(h.key));
    PaintKeeps(h.right, Flip(h.right.color), At(h.key), hi);
  }

  lemma RotateLeftTail(h: Tree, lo: Bound, hi: Bound)
    requires h.Node? && h.left.Node? && IsRed(h.right) && TailOrdered(h, lo, hi)
    ensures TailOrdered(RotateLeft(h), lo, hi)
    ensures forall q :: TailGet(RotateLeft(h), q) == TailGet(h, q)
    ensures TailCached(h) ==> TailCached(RotateLeft(h))
  {
    TotalOrder();
    var x, r := h.right, RotateLeft(h);
    assert Ordered(x, At(h.key), hi);
    assert TailOrdered(r.left, lo, At(r.key));
    forall q ensures TailGet(r, q) == TailGet(h, q) {
      GetStep(x, q);
      assert TailGet(r.left, q) ==
        if q == h.key then Some(h.value) else if Lt(q, h.key) then TailGet(h.left, q) else Get(x.left, q);
    }
    assert TailCached(h) ==> Cached(x) && TailCached(r.left);
  }

  lemma PrepareLeftTail(h: Tree, lo: Bound, hi: Bound)
    requires Ready(h) && h.left.Node? && TailOrdered(h, lo, hi) && TailCached(h)
    ensures var r := PrepareLeft(h);
      r.left.Node? && TailOrdered(r, lo, hi) && TailCached(r) && forall q :: TailGet(r, q) == TailGet(h, q)
  {
    PrepareLeftShape(h);
    if !IsRed(h.left) && !IsRed(h.left.left) {
      var f := FlipColors(h);
      FlipTail(h, lo, hi);
      if IsRed(f.right.left) {
        RotateRightKeeps(f.right, At(h.key), hi);
        var g := f.(right := RotateRight(f.right));
        RotateLeftTail(g, lo, hi);
        FlipTail(RotateLeft(g), lo, hi);
      }
    }
  }

  // delete_min takes out the minimum, whatever was swapped into it, and leaves every hash fresh.
  lemma {:induction false} DeleteMinMap(h: Tree, lo: Bound, hi: Bound)
    requires Ready(h) && TailOrdered(h, lo, hi) && TailCached(h)
    ensures Ordered(DeleteMin(h), lo, hi) && Cached(DeleteMin(h))
    ensures forall q :: Get(DeleteMin(h), q) == TailGet(h, q)
    decreases Size(h)
  {
    if h.left.Node? {
      PrepareLeftShape(h);
      PrepareLeftTail(h, lo, hi);
      var r := PrepareLeft(h);
      DeleteMinMap(r.left, lo, At(r.key));
      var h' := Update(r.(left := DeleteMin(r.left)));
      BalanceKeeps(h', lo, hi);
      forall q ensures Get(h', q) == TailGet(h, q) { GetStep(h', q); }
    }
  }

  // ---------- Deleting a key ----------

  // A key deletion may look for in h.
  ghost predicate Deletable(h: Tree, key: bytes) {
    && (Ready(h) || (Leaning(h) && !Lt(key, h.key)))
    && Ordered(h, Open, Open) && Has(h, key)
  }

  lemma LeftDeletable(h: Tree, key: bytes)
    requires Deletable(h, key) && Lt(key, h.key)
    ensures Ready(h) && h.left.Node? && Deletable(PrepareLeft(h).left, key)
    ensures Size(PrepareLeft(h).left) < Size(h) && Lt(key, PrepareLeft(h).key)
  {
    TotalOrder();
    GetStep(h, key);
    PrepareLeftShape(h);
    PrepareLeftMap(h, Open, Open);
    var r := PrepareLeft(h);
    GetStep(r, key);
    OrderedWiden(r.left, Open, At(r.key), Open, Open);
  }

  // Nothing to the right of the key deletion is after: it is a lone red node.
  lemma LoneNode(h: Tree)
    requires (Ready(h) || Leaning(h)) && TurnRight(h).right.Nil?
    ensures TurnRight(h) == h && h.left.Nil? && h.right.Nil? && h.color.Red?
  {
  }

  lemma RightDeletable(h: Tree, key: bytes)
    requires Deletable(h, key) && !Lt(key, h.key)
    ensures TurnRight(h).right.Nil? ==> key == TurnRight(h).key
    ensures TurnRight(h).right.Node? ==>
      var r := PrepareRight(h);
      && Size(r.right) < Size(h)
      && (key == r.key ==> Ready(r.right))
      && (key != r.key ==> Deletable(r.right, key) && Lt(r.key, key))
  {
    TotalOrder();
    if TurnRight(h).right.Nil? {
      LoneNode(h);
      GetStep(h, key);
    } else {
      PrepareRightShape(h);
      PrepareRightMap(h, Open, Open);
      var r := PrepareRight(h);
      GetStep(r, key);
      OrderedWiden(r.right, At(r.key), Open, Open, Open);
      if Leaning(r.right) && !Ready(r.right) {
        assert Ordered(h.left, Open, At(h.key));
      }
    }
  }

  function DeleteGo(h: Tree, key: bytes): Tree
    requires Deletable(h, key)
    decreases Size(h)
  {
    if Lt(key, h.key) then
      LeftDeletable(h, key);
      var r := PrepareLeft(h);
      Balance(Update(r.(left := DeleteGo(r.left, key))))
    else
      RightDeletable(h, key);
      var t := TurnRight(h);
      if key == t.key && t.right.Nil? then
        LoneNode(h);
        assert t.left.Nil?;
        Nil
      else
        var r := PrepareRight(h);
        if key == r.key then
          var m := MinNode(r.right);
          SetMinShape(r.right, r.key, r.value);
          Balance(Update(r.(key := m.key, value := m.value, right := DeleteMin(SetMin(r.right, r.key, r.value)))))
        else
          Balance(Update(r.(right := DeleteGo(r.right, key))))
  }

  lemma {:induction false} DeleteShape(h: Tree, key: bytes)
    requires Deletable(h, key)
    ensures Shaped(DeleteGo(h, key)) && BlackHeight(DeleteGo(h, key)) == BlackHeight(h)
    ensures h.color.Black? ==> !IsRed(DeleteGo(h, key))
    decreases Size(h)
  {
    if Lt(key, h.key) {
      LeftDeletable(h, key);
      PrepareLeftShape(h);
      var r := PrepareLeft(h);
      DeleteShape(r.left, key);
      RepairLeft(r, DeleteGo(r.left, key));
    } else {
      RightDeletable(h, key);
      if TurnRight(h).right.Nil? {
        LoneNode(h);
      } else {
        PrepareRightShape(h);
        var r := PrepareRight(h);
        if key == r.key {
          var m := MinNode(r.right);
          var s := SetMin(r.right, r.key, r.value);
          SetMinShape(r.right, r.key, r.value);
          DeleteMinShape(s);
          RepairRight(r, m.key, m.value, DeleteMin(s));
        } else {
          DeleteShape(r.right, key);
          RepairRight(r, r.key, r.value, DeleteGo(r.right, key));
        }
      }
    }
  }

  // Deletion takes its key out of the map and leaves every other key, the order and the hashes in place.
  lemma {:induction false} DeleteMap(h: Tree, key: bytes, lo: Bound, hi: Bound)
    requires Deletable(h, key) && Ordered(h, lo, hi) && Cached(h)
    ensures Ordered(DeleteGo(h, key), lo, hi) && Cached(DeleteGo(h, key))
    ensures forall q :: Get(DeleteGo(h, key), q) == if q == key then None else Get(h, q)
    decreases Size(h)
  {
    if Lt(key, h.key) {
      LeftDeletable(h, key);
      PrepareLeftMap(h, lo, hi);
      var r := PrepareLeft(h);
      DeleteMap(r.left, key, lo, At(r.key));
      DeleteInLeft(r, key, DeleteGo(r.left, key), lo, hi);
    } else {
      RightDeletable(h, key);
      if TurnRight(h).right.Nil? {
        LoneNode(h);
        forall q ensures Get(DeleteGo(h, key), q) == if q == key then None else Get(h, q) { GetStep(h, q); }
      } else {
        PrepareRightMap(h, lo, hi);
        var r := PrepareRight(h);
        if key == r.key {
          DeleteHere(r, lo, hi);
        } else {
          DeleteMap(r.right, key, At(r.key), hi);
          DeleteInRight(r, key, DeleteGo(r.right, key), lo, hi);
        }
      }
    }
  }

  // Deletion from the left side of a prepared node.
  lemma DeleteInLeft(r: Tree, key: bytes, l: Tree, lo: Bound, hi: Bound)
    requires r.Node? && Ordered(r, lo, hi) && Cached(r) && Lt(key, r.key)
    requires Ordered(l, lo, At(r.key)) && Cached(l)
    requires forall q :: Get(l, q) == if q == key then None else Get(r.left, q)
    ensures var b := Balance(Update(r.(left := l)));
      Ordered(b, lo, hi) && Cached(b) && forall q :: Get(b, q) == if q == key then None else Get(r, q)
  {
    TotalOrder();
    var h := Update(r.(left := l));
    BalanceKeeps(h, lo, hi);
    forall q ensures Get(h, q) == if q == key then None else Get(r, q) { GetStep(h, q); GetStep(r, q); }
  }

  lemma DeleteInRight(r: Tree, key: bytes, t: Tree, lo: Bound, hi: Bound)
    requires r.Node? && Ordered(r, lo, hi) && Cached(r) && Lt(r.key, key)
    requires Ordered(t, At(r.key), hi) && Cached(t)
    requires forall q :: Get(t, q) == if q == key then None else Get(r.right, q)
    ensures var b := Balance(Update(r.(right := t)));
      Ordered(b, lo, hi) && Cached(b) && forall q :: Get(b, q) == if q == key then None else Get(r, q)
  {
    TotalOrder();
    var h := Update(r.(right := t));
    BalanceKeeps(h, lo, hi);
    forall q ensures Get(h, q) == if q == key then None else Get(r, q) { GetStep(h, q); GetStep(r, q); }
  }

  // The min-swap case: the successor moves up and its old place is deleted.
  lemma DeleteHere(r: Tree, lo: Bound, hi: Bound)
    requires r.Node? && Ordered(r, lo, hi) && Cached(r) && Ready(r.right)
    ensures var m, s := MinNode(r.right), SetMin(r.right, r.key, r.value);
      Ready(s) &&
      var b := Balance(Update(r.(key := m.key, value := m.value, right := DeleteMin(s))));
      Ordered(b, lo, hi) && Cached(b) && forall q :: Get(b, q) == if q == r.key then None else Get(r, q)
  {
    var m, s := MinNode(r.right), SetMin(r.right, r.key, r.value);
    SetMinShape(r.right, r.key, r.value);
    TailOfOrdered(r.right, At(r.key), hi);
    TailOfSwap(r.right, r.key, r.value, At(m.key), hi);
    DeleteMinMap(s, At(m.key), hi);
    MoveMinUp(r, m, DeleteMin(s), lo, hi);
    BalanceKeeps(Update(r.(key := m.key, value := m.value, right := DeleteMin(s))), lo, hi);
  }

  lemma MoveMinUp(r: Tree, m: Tree, d: Tree, lo: Bound, hi: Bound)
    requires r.Node? && m.Node? && Ordered(r, lo, hi) && Cached(r)
    requires Lt(r.key, m.key) && Below(m.key, hi) && Get(r.right, m.key) == Some(m.value)
    requires Ordered(d, At(m.key), hi) && Cached(d)
    requires forall q :: Get(d, q) == if q == m.key then None else Get(r.right, q)
    ensures var h := Update(r.(key := m.key, value := m.value, right := d));
      Ordered(h, lo, hi) && Cached(h) && forall q :: Get(h, q) == if q == r.key then None else Get(r, q)
  {
    var h := Update(r.(key := m.key, value := m.value, right := d));
    TotalOrder();
    OrderedWiden(r.left, lo, At(r.key), lo, At(m.key));
    forall q ensures Get(h, q) == if q == r.key then None else Get(r, q) {
      GetStep(h, q);
      GetStep(r, q);
      if Has(r.left, q) { GetInBounds(r.left, lo, At(r.key), q); }
      if Has(d, q) { GetInBounds(d, At(m.key), hi, q); }
      if Has(r.right, q) { GetInBounds(r.right, At(r.key), hi, q); }
    }
  }

  lemma DeletableRoot(t: Tree, key: bytes)
    requires Valid(t) && Has(t, key)
    ensures Deletable(if !IsRed(t.left) && !IsRed(t.right) then Paint(t, Red) else t, key)
  {
    PaintKeeps(t, Red, Open, Open);
  }

  // Removes the key, if it is there.
  function Delete(t: Tree, key: bytes): Tree
    requires Valid(t)
  {
    if Get(t, key).None? then t
    else
      DeletableRoot(t, key);
      var h := if !IsRed(t.left) && !IsRed(t.right) then Paint(t, Red) else t;
      var r := DeleteGo(h, key);
      if r.Node? then Paint(r, Black) else r
  }

  // Deletion keeps every invariant and is a map removal.
  lemma DeleteCorrect(t: Tree, key: bytes)
    requires Valid(t)
    ensures Valid(Delete(t, key))
    ensures forall q :: Get(Delete(t, key), q) == if q == key then None else Get(t, q)
  {
    if Has(t, key) {
      DeletableRoot(t, key);
      var h := if !IsRed(t.left) && !IsRed(t.right) then Paint(t, Red) else t;
      PaintKeeps(t, Red, Open, Open);
      DeleteShape(h, key);
      DeleteMap(h, key, Open, Open);
      var r := DeleteGo(h, key);
      if r.Node? { PaintKeeps(r, Black, Open, Open); }
    }
  }
}
