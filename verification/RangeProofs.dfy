// What the witnesses of one tree prove to their reader.
module RangeProofs {
  import opened Bytes
  import opened HashTree
  import opened RbTree
  import opened Witnesses
  import opened RangeWitnesses
  import opened RbDelete
  import opened RbOrder

  // ---------- The bounds ----------

  // e is the greatest key that is not above the given one.
  ghost predicate IsFloor(t: Tree, key: bytes, e: Option<KeyBound>) {
    match e
    case None => forall q :: Has(t, q) ==> Lt(key, q)
    case Some(Exact(k)) => k == key && Has(t, k)
    case Some(Neighbor(k)) => Has(t, k) && Lt(k, key) && forall q :: Has(t, q) && Lt(k, q) ==> Lt(key, q)
  }

  // e is the least key that is not below the given one.
  ghost predicate IsCeiling(t: Tree, key: bytes, e: Option<KeyBound>) {
    match e
    case None => forall q :: Has(t, q) ==> Lt(q, key)
    case Some(Exact(k)) => k == key && Has(t, k)
    case Some(Neighbor(k)) => Has(t, k) && Lt(key, k) && forall q :: Has(t, q) && Lt(q, k) ==> Lt(q, key)
  }

  // e is the least key above the prefix that does not carry it.
  ghost predicate IsBlockEnd(t: Tree, prefix: bytes, e: Option<KeyBound>) {
    match e
    case None => forall q :: Has(t, q) && Lt(prefix, q) ==> prefix <= q
    case Some(Exact(_)) => false
    case Some(Neighbor(k)) =>
      Has(t, k) && Lt(prefix, k) && !(prefix <= k)
      && forall q :: Has(t, q) && Lt(prefix, q) && Lt(q, k) ==> prefix <= q
  }

  lemma {:induction false} LowerBoundIsFloor(t: Tree, a: Bound, b: Bound, key: bytes)
    requires Ordered(t, a, b)
    ensures IsFloor(t, key, LowerBound(t, key))
  {
    if t.Node? {
      TotalOrder();
      LowerBoundIsFloor(t.left, a, At(t.key), key);
      LowerBoundIsFloor(t.right, At(t.key), b, key);
      forall q ensures Has(t, q) <==> q == t.key || Has(t.left, q) || Has(t.right, q) { HasGoesDown(t, a, b, q); }
      forall q | Has(t.left, q) ensures Lt(q, t.key) { GetInBounds(t.left, a, At(t.key), q); }
      forall q | Has(t.right, q) ensures Lt(t.key, q) { GetInBounds(t.right, At(t.key), b, q); }
    }
  }

  lemma {:induction false} UpperBoundIsCeiling(t: Tree, a: Bound, b: Bound, key: bytes)
    requires Ordered(t, a, b)
    ensures IsCeiling(t, key, UpperBound(t, key))
  {
    if t.Node? {
      TotalOrder();
      UpperBoundIsCeiling(t.left, a, At(t.key), key);
      UpperBoundIsCeiling(t.right, At(t.key), b, key);
      forall q ensures Has(t, q) <==> q == t.key || Has(t.left, q) || Has(t.right, q) { HasGoesDown(t, a, b, q); }
      forall q | Has(t.left, q) ensures Lt(q, t.key) { GetInBounds(t.left, a, At(t.key), q); }
      forall q | Has(t.right, q) ensures Lt(t.key, q) { GetInBounds(t.right, At(t.key), b, q); }
    }
  }

  lemma {:induction false} PrefixNotAbove(p: bytes, x: bytes)
    requires p <= x
    ensures !Lt(x, p)
  {
    if p != [] {
      assert p[0] == x[0] && p[1..] == x[1..][0..|p| - 1];
      PrefixNotAbove(p[1..], x[1..]);
    }
  }

  // The strings with a given prefix form one block of the order.
  lemma {:induction false} PrefixBlock(p: bytes, x: bytes, k: bytes)
    requires p <= x && Lt(p, k) && !(p <= k)
    ensures Lt(x, k)
  {
    if p != [] {
      assert p[0] == x[0] && p[1..] == x[1..][0..|p| - 1];
      if k != [] && p[0] == k[0] {
        PrefixCons(p, k);
        PrefixBlock(p[1..], x[1..], k[1..]);
      }
    }
  }

  lemma PrefixCons(p: bytes, k: bytes)
    requires p != [] && k != [] && p[0] == k[0]
    ensures p <= k <==> p[1..] <= k[1..]
  {
    if |p| <= |k| {
      assert k[0..|p|] == [k[0]] + k[1..][0..|p| - 1];
      assert p == [p[0]] + p[1..];
      assert k[0..|p|][1..] == k[1..][0..|p| - 1];
    }
  }

  lemma {:induction false} PrefixNeighborEndsBlock(t: Tree, a: Bound, b: Bound, prefix: bytes)
    requires Ordered(t, a, b)
    ensures IsBlockEnd(t, prefix, RightPrefixNeighbor(t, prefix))
  {
    if t.Node? {
      PrefixNeighborEndsBlock(t.left, a, At(t.key), prefix);
      PrefixNeighborEndsBlock(t.right, At(t.key), b, prefix);
      forall q ensures Has(t, q) <==> q == t.key || Has(t.left, q) || Has(t.right, q) { HasGoesDown(t, a, b, q); }
      forall q | Has(t.left, q) ensures Lt(q, t.key) { GetInBounds(t.left, a, At(t.key), q); }
      forall q | Has(t.right, q) ensures Lt(t.key, q) { GetInBounds(t.right, At(t.key), b, q); }
      CmpFlip(prefix, t.key);
      CmpEqual(t.key, prefix);
      if Lt(prefix, t.key) && IsPrefixOf(prefix, t.key) {
        forall q | Has(t.left, q) && Lt(prefix, q) ensures prefix <= q {
          if !(prefix <= q) { PrefixBlock(prefix, t.key, q); LtLinear(q, t.key); }
        }
      }
      TotalOrder();
    }
  }

  // ---------- Range proofs ----------

  ghost predicate IsKey(t: Tree, e: Option<KeyBound>) {
    e.Some? ==> Has(t, e.value.key)
  }

  // The tree says nothing open about x: its value as the range shows it, or proof that it has none.
  ghost predicate Answers(w: HashTree, t: Tree, x: bytes, shown: bool) {
    match Get(t, x)
    case Some(v) => LookupLabel(w, x) == Found(ShownTree(v, shown))
    case None => !LookupLabel(w, x).Found? && !LookupLabel(w, x).Unknown?
  }

  // What every range witness proves about the keys from its lower to its upper bound.
  lemma RangeProof(t: Tree, lo: Option<KeyBound>, hi: Option<KeyBound>, show: Show)
    requires Valid(t) && AllGood(t) && LowToHigh(lo, hi) && IsKey(t, lo) && IsKey(t, hi)
    ensures var w := RangeWitness(t, lo, hi, show);
      && Prunes(w, Whole(t)) && Digest(w) == TreeHash(t) && Tight(w)
      && (forall x :: x in Labels(w) <==> Has(t, x) && AtLeast(x, lo) && AtMost(x, hi))
      && forall x :: AtLeast(x, lo) && AtMost(x, hi) ==> Answers(w, t, x, show.DataTree? && ShownInFull(x, lo, hi))
  {
    var w := RangeWitness(t, lo, hi, show);
    RangeWitnessIsRange(t, lo, hi, show);
    RangePrunes(t, lo, hi, show);
    PrunesDigest(w, Whole(t));
    WholeHash(t);
    RangeSpine(t, Open, Open, lo, hi, show);
    if t.Node? { RangeTouched(t, lo, hi, show); }
    RangeTight(t, Open, Open, lo, hi, show);
    forall x | AtLeast(x, lo) && AtMost(x, hi)
      ensures Answers(w, t, x, show.DataTree? && ShownInFull(x, lo, hi))
    {
      if t.Node? {
        RangeTouched(t, lo, hi, show);
        RangeDecides(t, Open, Open, lo, hi, show, x);
        LookupLabelMeaning(w, x);
        if Has(t, x) { RangeValues(t, Open, Open, lo, hi, show, Labeled(x, LookupLabel(w, x).node)); }
      }
    }
  }

  lemma RangeTouched(t: Tree, lo: Option<KeyBound>, hi: Option<KeyBound>, show: Show)
    requires t.Node? && Valid(t) && AllGood(t) && LowToHigh(lo, hi) && IsKey(t, lo) && IsKey(t, hi)
    ensures Labels(Range(t, lo, hi, show)) != {}
  {
    RangeSpine(t, Open, Open, lo, hi, show);
    GetStep(t, t.key);
    var k := if lo.Some? then lo.value.key else if hi.Some? then hi.value.key else t.key;
    LtLinear(k, k);
    assert k in Labels(Range(t, lo, hi, show));
  }

  // key_range and value_range: every key in [first, last] is answered, and nothing is shown in full
  // outside it.
  lemma KeyRangeProof(t: Tree, first: bytes, last: bytes, show: Show)
    requires Valid(t) && AllGood(t) && !Lt(last, first)
    ensures var lo, hi := LowerBound(t, first), UpperBound(t, last);
      var w := if show.DataTree? then ValueRange(t, first, last) else KeyRange(t, first, last);
      && IsFloor(t, first, lo) && IsCeiling(t, last, hi) && LowToHigh(lo, hi)
      && Prunes(w, Whole(t)) && Digest(w) == TreeHash(t) && Tight(w)
      && (forall x :: x in Labels(w) <==> Has(t, x) && AtLeast(x, lo) && AtMost(x, hi))
      && (forall x :: !Lt(x, first) && !Lt(last, x) ==> Answers(w, t, x, show.DataTree?))
      && (forall x :: x in Labels(w) && (Lt(x, first) || Lt(last, x)) ==> Answers(w, t, x, false))
  {
    var lo, hi := LowerBound(t, first), UpperBound(t, last);
    LowerBoundIsFloor(t, Open, Open, first);
    UpperBoundIsCeiling(t, Open, Open, last);
    var w := if show.DataTree? then ValueRange(t, first, last) else KeyRange(t, first, last);
    if lo.Some? && hi.Some? {
      LtLinear(lo.value.key, first);
      LtLinear(hi.value.key, last);
      NotAboveTrans(lo.value.key, first, last);
      NotAboveTrans(lo.value.key, last, hi.value.key);
    }
    RangeProof(t, lo, hi, show);
    forall x ensures !Lt(x, first) && !Lt(last, x) ==> Answers(w, t, x, show.DataTree?)
             ensures x in Labels(w) && (Lt(x, first) || Lt(last, x)) ==> Answers(w, t, x, false)
    {
      if !Lt(x, first) && !Lt(last, x) {
        if lo.Some? { LtLinear(lo.value.key, first); NotAboveTrans(lo.value.key, first, x); }
        if hi.Some? { LtLinear(hi.value.key, last); NotAboveTrans(x, last, hi.value.key); }
        InsideShown(t, first, last, x);
      }
      if x in Labels(w) && (Lt(x, first) || Lt(last, x)) { OutsideHidden(t, first, last, x); }
    }
  }

  lemma NotAboveTrans(a: bytes, b: bytes, c: bytes)
    requires !Lt(b, a) && !Lt(c, b)
    ensures !Lt(c, a)
  {
    LtLinear(a, b);
    LtLinear(b, c);
    if Lt(c, a) {
      if a == b { LtLinear(a, c); } else { LtTrans(c, a, b); LtLinear(b, c); }
    }
  }

  lemma InsideShown(t: Tree, first: bytes, last: bytes, x: bytes)
    requires IsFloor(t, first, LowerBound(t, first)) && IsCeiling(t, last, UpperBound(t, last))
    requires !Lt(x, first) && !Lt(last, x)
    ensures ShownInFull(x, LowerBound(t, first), UpperBound(t, last))
  {
    LtLinear(x, first);
    LtLinear(x, last);
  }

  lemma OutsideHidden(t: Tree, first: bytes, last: bytes, x: bytes)
    requires IsFloor(t, first, LowerBound(t, first)) && IsCeiling(t, last, UpperBound(t, last))
    requires Has(t, x) && AtLeast(x, LowerBound(t, first)) && AtMost(x, UpperBound(t, last)) && !Lt(last, first)
    requires Lt(x, first) || Lt(last, x)
    ensures !ShownInFull(x, LowerBound(t, first), UpperBound(t, last))
  {
    TotalOrder();
  }

  // keys_with_prefix answers every key that carries the prefix.
  lemma KeysWithPrefixProof(t: Tree, prefix: bytes)
    requires Valid(t) && AllGood(t)
    ensures var lo, hi := LowerBound(t, prefix), RightPrefixNeighbor(t, prefix);
      var w := KeysWithPrefix(t, prefix);
      && IsFloor(t, prefix, lo) && IsBlockEnd(t, prefix, hi) && LowToHigh(lo, hi)
      && Prunes(w, Whole(t)) && Digest(w) == TreeHash(t) && Tight(w)
      && (forall x :: x in Labels(w) <==> Has(t, x) && AtLeast(x, lo) && AtMost(x, hi))
      && (forall x :: prefix <= x ==> Answers(w, t, x, false))
  {
    var lo, hi := LowerBound(t, prefix), RightPrefixNeighbor(t, prefix);
    LowerBoundIsFloor(t, Open, Open, prefix);
    PrefixNeighborEndsBlock(t, Open, Open, prefix);
    if lo.Some? && hi.Some? {
      LtLinear(prefix, hi.value.key);
      LtLinear(prefix, lo.value.key);
      NotAboveTrans(lo.value.key, prefix, hi.value.key);
    }
    RangeProof(t, lo, hi, WitnessTree);
    forall x | prefix <= x ensures Answers(KeysWithPrefix(t, prefix), t, x, false) {
      PrefixNotAbove(prefix, x);
      if lo.Some? { LtLinear(prefix, lo.value.key); NotAboveTrans(lo.value.key, prefix, x); }
      if hi.Some? { PrefixBlock(prefix, x, hi.value.key); LtLinear(x, hi.value.key); }
      assert AtLeast(x, lo) && AtMost(x, hi);
      assert Answers(RangeWitness(t, lo, hi, WitnessTree), t, x, WitnessTree.DataTree? && ShownInFull(x, lo, hi));
    }
  }

  // ---------- Presence and absence ----------

  lemma {:induction false} LookupWitness(t: Tree, key: bytes, f: NestedTree --> HashTree)
    requires Cached(t) && AllGood(t)
    requires Has(t, key) ==>
      f.requires(Get(t, key).value) && Prunes(f(Get(t, key).value), AsHashTree(Get(t, key).value))
    ensures LookupAndBuildWitness(t, key, f).Some? <==> Has(t, key)
    ensures Has(t, key) ==>
      var w := LookupAndBuildWitness(t, key, f).value;
      Prunes(w, Whole(t)) && LookupLabel(w, key) == Found(f(Get(t, key).value))
  {
    hide ThreeWayFork, Whole;
    if t.Node? {
      PrunedPrunes(t.left);
      PrunedPrunes(t.right);
      WholeShape(t.left);
      WholeShape(t.right);
      WholeNode(t);
      NodePrunes(t, DataTree);
      CmpEqual(key, t.key);
      var L, M, R := Whole(t.left), Labeled(t.key, AsHashTree(t.value)), Whole(t.right);
      match Cmp(key, t.key)
      case Equal =>
        var m := Labeled(t.key, f(t.value));
        ForkPrunes(PrunedTree(t.left), m, PrunedTree(t.right), L, M, R);
        ForkLookup(PrunedTree(t.left), t.key, m.sub, PrunedTree(t.right), key);
      case Less =>
        LookupWitness(t.left, key, f);
        if Has(t, key) {
          var sub := LookupAndBuildWitness(t.left, key, f).value;
          ForkPrunes(sub, Pruned(DataHash(t)), PrunedTree(t.right), L, M, R);
          FoundOnTheLeft(sub, DataHash(t), PrunedTree(t.right), key);
        }
      case Greater =>
        LookupWitness(t.right, key, f);
        if Has(t, key) {
          var sub := LookupAndBuildWitness(t.right, key, f).value;
          ForkPrunes(PrunedTree(t.left), Pruned(DataHash(t)), sub, L, M, R);
          FoundOnTheRight(PrunedTree(t.left), DataHash(t), sub, key);
        }
    }
  }

  lemma {:induction false} LookupTight(t: Tree, key: bytes, f: NestedTree --> HashTree)
    requires Has(t, key) && f.requires(Get(t, key).value) && Tight(f(Get(t, key).value))
    ensures LookupAndBuildWitness(t, key, f).Some? && Tight(LookupAndBuildWitness(t, key, f).value)
  {
    CmpEqual(key, t.key);
    PresenceLabels(t, key, f);
    var l, r, hidden := PrunedTree(t.left), PrunedTree(t.right), Pruned(DataHash(t));
    match Cmp(key, t.key)
    case Equal => ForkTight(l, Labeled(t.key, f(t.value)), r);
    case Less =>
      LookupTight(t.left, key, f);
      PresenceLabels(t.left, key, f);
      ForkTight(LookupAndBuildWitness(t.left, key, f).value, hidden, r);
    case Greater =>
      LookupTight(t.right, key, f);
      PresenceLabels(t.right, key, f);
      ForkTight(l, hidden, LookupAndBuildWitness(t.right, key, f).value);
  }

  lemma FoundOnTheLeft(l: HashTree, h: Hash, r: HashTree, x: bytes)
    requires LookupLabel(l, x).Found?
    ensures LookupLabel(ThreeWayFork(l, Pruned(h), r), x) == LookupLabel(l, x)
  {
  }

  lemma FoundOnTheRight(l: HashTree, h: Hash, r: HashTree, x: bytes)
    requires (l.Empty? || l.Pruned?) && LookupLabel(r, x).Found?
    ensures LookupLabel(ThreeWayFork(l, Pruned(h), r), x) == LookupLabel(r, x)
  {
    assert LookupLabel(Fork(Pruned(h), r), x) == LookupLabel(r, x);
  }

  // The stored keys nearest to the given one: the key itself, or its neighbours on either side.
  ghost predicate Nearest(t: Tree, key: bytes, x: bytes) {
    Has(t, x) && forall y :: Has(t, y) ==> (Lt(x, y) ==> Lt(key, y)) && (Lt(y, x) ==> Lt(y, key))
  }

  lemma {:induction false} PresenceLabels(t: Tree, key: bytes, f: NestedTree --> HashTree)
    requires Has(t, key) && f.requires(Get(t, key).value)
    ensures LookupAndBuildWitness(t, key, f).Some? && Labels(LookupAndBuildWitness(t, key, f).value) == {key}
  {
    CmpEqual(key, t.key);
    var l, r := PrunedTree(t.left), PrunedTree(t.right);
    match Cmp(key, t.key)
    case Equal => ForkLabels(l, Labeled(t.key, f(t.value)), r);
    case Less =>
      PresenceLabels(t.left, key, f);
      ForkLabels(LookupAndBuildWitness(t.left, key, f).value, Pruned(DataHash(t)), r);
    case Greater =>
      PresenceLabels(t.right, key, f);
      ForkLabels(l, Pruned(DataHash(t)), LookupAndBuildWitness(t.right, key, f).value);
  }

  lemma NearestIsItself(t: Tree, key: bytes, x: bytes)
    requires Has(t, key)
    ensures Nearest(t, key, x) <==> x == key
  {
    LtLinear(x, key);
    LtLinear(key, key);
  }

  // Beside an absent key the nearest are its floor and its ceiling.
  lemma NearestIsBetween(t: Tree, key: bytes, lo: Option<KeyBound>, hi: Option<KeyBound>, x: bytes)
    requires !Has(t, key) && IsFloor(t, key, lo) && IsCeiling(t, key, hi)
    ensures Nearest(t, key, x) <==> Has(t, x) && AtLeast(x, lo) && AtMost(x, hi)
  {
    TotalOrder();
  }

  // nested_witness answers the key it was asked for, with the value as f shows it or with proof of absence. It shows
  // no other key but, beside an absent one, the two neighbours, with their values pruned.
  lemma NestedWitnessProof(t: Tree, key: bytes, f: NestedTree --> HashTree)
    requires Valid(t) && AllGood(t)
    requires Has(t, key) ==>
      f.requires(Get(t, key).value) && Prunes(f(Get(t, key).value), AsHashTree(Get(t, key).value))
    ensures var w := NestedWitness(t, key, f);
      && Prunes(w, Whole(t)) && Digest(w) == TreeHash(t)
      && match Get(t, key)
         case Some(v) => LookupLabel(w, key) == Found(f(v))
         case None => !LookupLabel(w, key).Found? && !LookupLabel(w, key).Unknown?
    ensures var w := NestedWitness(t, key, f);
      && (forall x :: x in Labels(w) <==> Nearest(t, key, x))
      && forall x :: x in Labels(w) && x != key ==> LookupLabel(w, x) == Found(Pruned(RootHash(Get(t, x).value)))
    ensures (Has(t, key) ==> Tight(f(Get(t, key).value))) ==> Tight(NestedWitness(t, key, f))
  {
    hide Nearest, Tight;
    LookupWitness(t, key, f);
    var w := NestedWitness(t, key, f);
    if Has(t, key) {
      PrunesDigest(w, Whole(t));
      WholeHash(t);
      PresenceLabels(t, key, f);
      forall x ensures x in Labels(w) <==> Nearest(t, key, x) { NearestIsItself(t, key, x); }
      if Tight(f(Get(t, key).value)) { LookupTight(t, key, f); }
    } else {
      LtLinear(key, key);
      KeyRangeProof(t, key, key, WitnessTree);
      assert w == KeyRange(t, key, key);
      assert Answers(w, t, key, false);
      var lo, hi := LowerBound(t, key), UpperBound(t, key);
      forall x ensures x in Labels(w) <==> Nearest(t, key, x) { NearestIsBetween(t, key, lo, hi, x); }
      forall x | x in Labels(w) ensures LookupLabel(w, x) == Found(Pruned(RootHash(Get(t, x).value))) {
        LtLinear(x, key);
        assert Answers(w, t, x, false);
      }
    }
  }

  // ---------- The size of a witness ----------

  function Weight(t: HashTree): nat {
    match t
    case Fork(l, r) => 1 + Weight(l) + Weight(r)
    case Labeled(_, s) => 1 + Weight(s)
    case _ => 1
  }

  lemma ForkWeight(l: HashTree, m: HashTree, r: HashTree)
    ensures Weight(ThreeWayFork(l, m, r)) <= 2 + Weight(l) + Weight(m) + Weight(r)
  {
  }

  // Each node the search passes adds at most four nodes to the witness, beside what is shown of the value.
  lemma {:induction false} WitnessWeight(t: Tree, key: bytes, f: NestedTree --> HashTree)
    requires Has(t, key) && f.requires(Get(t, key).value)
    ensures LookupAndBuildWitness(t, key, f).Some?
    ensures Weight(LookupAndBuildWitness(t, key, f).value) <= Weight(f(Get(t, key).value)) + 4 * Visits(t, key) + 1
  {
    var l, r := PrunedTree(t.left), PrunedTree(t.right);
    match Cmp(key, t.key)
    case Equal => ForkWeight(l, Labeled(t.key, f(t.value)), r);
    case Less =>
      WitnessWeight(t.left, key, f);
      ForkWeight(LookupAndBuildWitness(t.left, key, f).value, Pruned(DataHash(t)), r);
    case Greater =>
      WitnessWeight(t.right, key, f);
      ForkWeight(l, Pruned(DataHash(t)), LookupAndBuildWitness(t.right, key, f).value);
  }

  lemma NodeWeight(n: Tree, lo: Option<KeyBound>, hi: Option<KeyBound>)
    requires n.Node?
    ensures Weight(RangeNode(n, lo, hi, WitnessTree)) == 2 && Weight(Pruned(DataHash(n))) == 1
    ensures Weight(PrunedTree(n.left)) == 1 && Weight(PrunedTree(n.right)) == 1 && Weight(Empty) == 1
  {
  }

  // So does each node passed on the way to where an absent key would be.
  lemma {:induction false} AbsenceWeight(
      t: Tree, a: Bound, b: Bound, key: bytes, lo: Option<KeyBound>, hi: Option<KeyBound>)
    requires Ordered(t, a, b)
    requires lo.Some? ==> Lt(lo.value.key, key)
    requires hi.Some? ==> Lt(key, hi.value.key)
    requires forall q :: Has(t, q) && AtLeast(q, lo) && AtMost(q, hi) ==>
      (lo.Some? && q == lo.value.key) || (hi.Some? && q == hi.value.key)
    ensures Weight(Range(t, lo, hi, WitnessTree)) <= 5 * Visits(t, key) + 1
  {
    hide ThreeWayFork;
    if t.Node? {
      TotalOrder();
      GetStep(t, t.key);
      NodeWeight(t, lo, hi);
      forall q | Has(t.left, q) || Has(t.right, q) ensures Has(t, q) { HasGoesDown(t, a, b, q); }
      var l, r := PrunedTree(t.left), PrunedTree(t.right);
      var n := RangeNode(t, lo, hi, WitnessTree);
      var hidden := Pruned(DataHash(t));
      if Lt(key, t.key) {
        AbsenceWeight(t.left, a, At(t.key), key, lo, hi);
        var w := Range(t.left, lo, hi, WitnessTree);
        ForkWeight(w, n, r);
        ForkWeight(w, hidden, r);
      } else {
        AbsenceWeight(t.right, At(t.key), b, key, lo, hi);
        var w := Range(t.right, lo, hi, WitnessTree);
        ForkWeight(l, n, w);
        ForkWeight(l, hidden, w);
      }
    }
  }

  // A witness is small: beside the value of a present key, five nodes and a bit for each of the 2 * log2(n + 1)
  // nodes that the search for the key passes.
  lemma LogarithmicWitness(t: Tree, key: bytes, f: NestedTree --> HashTree)
    requires Valid(t) && (Has(t, key) ==> f.requires(Get(t, key).value))
    ensures Weight(NestedWitness(t, key, f)) <=
      (if Has(t, key) then Weight(f(Get(t, key).value)) else 0) + 5 * Visits(t, key) + 1
    ensures Pow2((Visits(t, key) + 1) / 2) <= Size(t) + 1
  {
    LogarithmicSearch(t, key);
    if Has(t, key) {
      WitnessWeight(t, key, f);
    } else {
      LookupMisses(t, key, f);
      var lo, hi := LowerBound(t, key), UpperBound(t, key);
      LowerBoundIsFloor(t, Open, Open, key);
      UpperBoundIsCeiling(t, Open, Open, key);
      TotalOrder();
      RangeWitnessIsRange(t, lo, hi, WitnessTree);
      AbsenceWeight(t, Open, Open, key, lo, hi);
    }
  }

  lemma {:induction false} LookupMisses(t: Tree, key: bytes, f: NestedTree --> HashTree)
    requires !Has(t, key)
    ensures LookupAndBuildWitness(t, key, f).None?
  {
    if t.Node? {
      match Cmp(key, t.key)
      case Equal =>
      case Less => LookupMisses(t.left, key, f);
      case Greater => LookupMisses(t.right, key, f);
    }
  }
}
