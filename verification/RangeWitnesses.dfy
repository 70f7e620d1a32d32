// Witnesses that prove presence, absence and the exact contents of a key range.
module RangeWitnesses {
  import opened Bytes
  import opened HashTree
  import opened RbTree
  import opened Witnesses

  datatype KeyBound = Exact(key: bytes) | Neighbor(key: bytes)

  // ---------- Presence ----------

  function LookupAndBuildWitness(t: Tree, key: bytes, f: NestedTree --> HashTree): Option<HashTree>
    requires Has(t, key) ==> f.requires(Get(t, key).value)
  {
    match t
    case Nil => None
    case Node(k, v, l, r, _, _) =>
      match Cmp(key, k)
      case Equal => Some(ThreeWayFork(PrunedTree(l), Labeled(k, f(v)), PrunedTree(r)))
      case Less =>
        (match LookupAndBuildWitness(l, key, f)
         case None => None
         case Some(sub) => Some(ThreeWayFork(sub, Pruned(DataHash(t)), PrunedTree(r))))
      case Greater =>
        match LookupAndBuildWitness(r, key, f)
        case None => None
        case Some(sub) => Some(ThreeWayFork(PrunedTree(l), Pruned(DataHash(t)), sub))
  }

  // ---------- Bounds ----------

  function LowerBound(t: Tree, key: bytes): Option<KeyBound> {
    match t
    case Nil => None
    case Node(k, _, l, r, _, _) =>
      match Cmp(k, key)
      case Less => (match LowerBound(r, key) case None => Some(Neighbor(k)) case b => b)
      case Equal => Some(Exact(k))
      case Greater => LowerBound(l, key)
  }

  function UpperBound(t: Tree, key: bytes): Option<KeyBound> {
    match t
    case Nil => None
    case Node(k, _, l, r, _, _) =>
      match Cmp(k, key)
      case Less => UpperBound(r, key)
      case Equal => Some(Exact(k))
      case Greater => match UpperBound(l, key) case None => Some(Neighbor(k)) case b => b
  }

  predicate IsPrefixOf(p: bytes, x: bytes)
    ensures IsPrefixOf(p, x) <==> p <= x
  {
    if |p| > |x| then false else x[0..|p|] == p
  }

  function RightPrefixNeighbor(t: Tree, prefix: bytes): Option<KeyBound> {
    match t
    case Nil => None
    case Node(k, _, l, r, _, _) =>
      match Cmp(k, prefix)
      case Greater =>
        if IsPrefixOf(prefix, k) then RightPrefixNeighbor(r, prefix)
        else (match RightPrefixNeighbor(l, prefix) case None => Some(Neighbor(k)) case b => b)
      case _ => RightPrefixNeighbor(r, prefix)
  }

  // ---------- Range witnesses ----------

  function BoundTree(n: Tree, b: KeyBound, show: Show): HashTree
    requires n.Node?
  {
    match b
    case Exact(_) => NodeTree(n, show)
    case Neighbor(_) => NodeTree(n, WitnessTree)
  }

  function WitnessRangeAbove(t: Tree, lo: KeyBound, show: Show): HashTree {
    if t.Nil? then Empty
    else
      match Cmp(t.key, lo.key)
      case Equal => ThreeWayFork(PrunedTree(t.left), BoundTree(t, lo, show), FullWitnessTree(t.right, show))
      case Less => ThreeWayFork(PrunedTree(t.left), Pruned(DataHash(t)), WitnessRangeAbove(t.right, lo, show))
      case Greater => ThreeWayFork(WitnessRangeAbove(t.left, lo, show), NodeTree(t, show),
        FullWitnessTree(t.right, show))
  }

  function WitnessRangeBelow(t: Tree, hi: KeyBound, show: Show): HashTree {
    if t.Nil? then Empty
    else
      match Cmp(t.key, hi.key)
      case Equal => ThreeWayFork(FullWitnessTree(t.left, show), BoundTree(t, hi, show), PrunedTree(t.right))
      case Greater => ThreeWayFork(WitnessRangeBelow(t.left, hi, show), Pruned(DataHash(t)), PrunedTree(t.right))
      case Less => ThreeWayFork(FullWitnessTree(t.left, show), NodeTree(t, show), WitnessRangeBelow(t.right, hi, show))
  }

  function WitnessRangeBetween(t: Tree, lo: KeyBound, hi: KeyBound, show: Show): HashTree {
    if t.Nil? then Empty
    else
      match (Cmp(lo.key, t.key), Cmp(t.key, hi.key))
      case (Less, Less) =>
        ThreeWayFork(WitnessRangeBetween(t.left, lo, hi, show), NodeTree(t, show),
          WitnessRangeBetween(t.right, lo, hi, show))
      case (Equal, Equal) =>
        ThreeWayFork(PrunedTree(t.left),
                     NodeTree(t, if lo.Exact? then show else if hi.Exact? then show else WitnessTree),
                     PrunedTree(t.right))
      case (_, Equal) =>
        ThreeWayFork(WitnessRangeBetween(t.left, lo, hi, show), BoundTree(t, hi, show), PrunedTree(t.right))
      case (Equal, _) =>
        ThreeWayFork(PrunedTree(t.left), BoundTree(t, lo, show), WitnessRangeBetween(t.right, lo, hi, show))
      case (Less, Greater) =>
        ThreeWayFork(WitnessRangeBetween(t.left, lo, hi, show), Pruned(DataHash(t)), PrunedTree(t.right))
      case (Greater, Less) =>
        ThreeWayFork(PrunedTree(t.left), Pruned(DataHash(t)), WitnessRangeBetween(t.right, lo, hi, show))
      case _ => Pruned(t.subtreeHash)
  }

  function RangeWitness(t: Tree, left: Option<KeyBound>, right: Option<KeyBound>, show: Show): HashTree {
    match (left, right)
    case (None, None) => FullWitnessTree(t, show)
    case (Some(l), None) => WitnessRangeAbove(t, l, show)
    case (None, Some(r)) => WitnessRangeBelow(t, r, show)
    case (Some(l), Some(r)) => WitnessRangeBetween(t, l, r, show)
  }

  function NestedWitness(t: Tree, key: bytes, f: NestedTree --> HashTree): HashTree
    requires Has(t, key) ==> f.requires(Get(t, key).value)
  {
    match LookupAndBuildWitness(t, key, f)
    case Some(w) => w
    case None => RangeWitness(t, LowerBound(t, key), UpperBound(t, key), WitnessTree)
  }

  function KeyRange(t: Tree, first: bytes, last: bytes): HashTree {
    RangeWitness(t, LowerBound(t, first), UpperBound(t, last), WitnessTree)
  }

  function ValueRange(t: Tree, first: bytes, last: bytes): HashTree {
    RangeWitness(t, LowerBound(t, first), UpperBound(t, last), DataTree)
  }

  function KeysWithPrefix(t: Tree, prefix: bytes): HashTree {
    RangeWitness(t, LowerBound(t, prefix), RightPrefixNeighbor(t, prefix), WitnessTree)
  }

  // ---------- One range for all four ----------

  function FromLow(lo: Option<KeyBound>, k: bytes): Ordering {
    if lo.None? then Ordering.Less else Cmp(lo.value.key, k)
  }

  function ToHigh(k: bytes, hi: Option<KeyBound>): Ordering {
    if hi.None? then Ordering.Less else Cmp(k, hi.value.key)
  }

  predicate AtLeast(k: bytes, lo: Option<KeyBound>) {
    lo.None? || !Lt(k, lo.value.key)
  }

  predicate AtMost(k: bytes, hi: Option<KeyBound>) {
    hi.None? || !Lt(hi.value.key, k)
  }

  // Whether the node at this key is shown by the caller's choice rather than with its value pruned.
  predicate ShownInFull(k: bytes, lo: Option<KeyBound>, hi: Option<KeyBound>) {
    (lo.Some? && lo.value == Exact(k)) || (hi.Some? && hi.value == Exact(k)) ||
    !((lo.Some? && lo.value == Neighbor(k)) || (hi.Some? && hi.value == Neighbor(k)))
  }

  function RangeNode(n: Tree, lo: Option<KeyBound>, hi: Option<KeyBound>, show: Show): HashTree
    requires n.Node?
  {
    NodeTree(n, if ShownInFull(n.key, lo, hi) then show else WitnessTree)
  }

  ghost function Range(t: Tree, lo: Option<KeyBound>, hi: Option<KeyBound>, show: Show): HashTree {
    if t.Nil? then Empty
    else if AtLeast(t.key, lo) && AtMost(t.key, hi) then
      ThreeWayFork(if FromLow(lo, t.key).Equal? then PrunedTree(t.left) else Range(t.left, lo, hi, show),
                   RangeNode(t, lo, hi, show),
                   if ToHigh(t.key, hi).Equal? then PrunedTree(t.right) else Range(t.right, lo, hi, show))
    else if AtLeast(t.key, lo) then
      ThreeWayFork(Range(t.left, lo, hi, show), Pruned(DataHash(t)), PrunedTree(t.right))
    else
      ThreeWayFork(PrunedTree(t.left), Pruned(DataHash(t)), Range(t.right, lo, hi, show))
  }

  // A bound that the subtree's key interval contains is a key of the subtree.
  ghost predicate Anchored(t: Tree, a: Bound, b: Bound, e: Option<KeyBound>) {
    e.Some? && Above(a, e.value.key) && Below(e.value.key, b) ==> Has(t, e.value.key)
  }

  ghost predicate LowToHigh(lo: Option<KeyBound>, hi: Option<KeyBound>) {
    lo.Some? && hi.Some? ==> !Lt(hi.value.key, lo.value.key)
  }

  lemma {:induction false} RangeAll(t: Tree, a: Bound, b: Bound, lo: Option<KeyBound>, hi: Option<KeyBound>, show: Show)
    requires Ordered(t, a, b)
    requires lo.Some? ==> a.At? && !Lt(a.key, lo.value.key)
    requires hi.Some? ==> b.At? && !Lt(hi.value.key, b.key)
    ensures Range(t, lo, hi, show) == FullWitnessTree(t, show)
  {
    if t.Node? {
      TotalOrder();
      RangeAll(t.left, a, At(t.key), lo, hi, show);
      RangeAll(t.right, At(t.key), b, lo, hi, show);
    }
  }

  lemma {:induction false} AboveIsRange(t: Tree, a: Bound, b: Bound, lo: KeyBound, show: Show)
    requires Ordered(t, a, b)
    ensures WitnessRangeAbove(t, lo, show) == Range(t, Some(lo), None, show)
  {
    if t.Node? {
      TotalOrder();
      AboveIsRange(t.left, a, At(t.key), lo, show);
      AboveIsRange(t.right, At(t.key), b, lo, show);
      if !Lt(t.key, lo.key) { RangeAll(t.right, At(t.key), b, Some(lo), None, show); }
    }
  }

  lemma {:induction false} BelowIsRange(t: Tree, a: Bound, b: Bound, hi: KeyBound, show: Show)
    requires Ordered(t, a, b)
    ensures WitnessRangeBelow(t, hi, show) == Range(t, None, Some(hi), show)
  {
    if t.Node? {
      TotalOrder();
      BelowIsRange(t.left, a, At(t.key), hi, show);
      BelowIsRange(t.right, At(t.key), b, hi, show);
      if !Lt(hi.key, t.key) { RangeAll(t.left, a, At(t.key), None, Some(hi), show); }
    }
  }

  lemma {:induction false} BetweenIsRange(t: Tree, lo: KeyBound, hi: KeyBound, show: Show)
    requires !Lt(hi.key, lo.key)
    ensures WitnessRangeBetween(t, lo, hi, show) == Range(t, Some(lo), Some(hi), show)
  {
    if t.Node? {
      TotalOrder();
      BetweenIsRange(t.left, lo, hi, show);
      BetweenIsRange(t.right, lo, hi, show);
      assert !(Lt(hi.key, t.key) && Lt(t.key, lo.key));
      match (Cmp(lo.key, t.key), Cmp(t.key, hi.key))
      case (Less, Less) =>
      case (Equal, Equal) => assert lo.key == t.key == hi.key;
      case (Less, Equal) => assert t.key == hi.key != lo.key;
      case (Equal, Less) => assert t.key == lo.key != hi.key;
      case (Less, Greater) =>
      case (Greater, Less) =>
      case (_, _) =>
    }
  }

  // The four witness functions are one range, open or closed at either end.
  lemma RangeWitnessIsRange(t: Tree, lo: Option<KeyBound>, hi: Option<KeyBound>, show: Show)
    requires Ordered(t, Open, Open) && LowToHigh(lo, hi)
    ensures RangeWitness(t, lo, hi, show) == Range(t, lo, hi, show)
  {
    match (lo, hi)
    case (None, None) => RangeAll(t, Open, Open, lo, hi, show);
    case (Some(l), None) => AboveIsRange(t, Open, Open, l, show);
    case (None, Some(r)) => BelowIsRange(t, Open, Open, r, show);
    case (Some(l), Some(r)) => BetweenIsRange(t, l, r, show);
  }

  // ---------- What a range shows ----------

  lemma PrunedPrunes(t: Tree)
    requires Cached(t) && AllGood(t)
    ensures Prunes(PrunedTree(t), Whole(t)) && (PrunedTree(t).Empty? <==> Whole(t).Empty?)
  {
    WholeHash(t);
    WholeShape(t);
  }

  lemma NodePrunes(n: Tree, show: Show)
    requires n.Node? && Good(n.value)
    ensures Prunes(NodeTree(n, show), Labeled(n.key, AsHashTree(n.value)))
    ensures Prunes(Pruned(DataHash(n)), Labeled(n.key, AsHashTree(n.value)))
  {
    GoodHash(n.value);
    PrunesRefl(AsHashTree(n.value));
    assert Digest(Labeled(n.key, AsHashTree(n.value))) == DataHash(n);
  }

  // A range witness is a pruning of the full tree.
  lemma {:induction false} RangePrunes(t: Tree, lo: Option<KeyBound>, hi: Option<KeyBound>, show: Show)
    requires Cached(t) && AllGood(t)
    ensures Prunes(Range(t, lo, hi, show), Whole(t))
    ensures Range(t, lo, hi, show).Empty? <==> Whole(t).Empty?
  {
    hide ThreeWayFork, Prunes, Digest;
    WholeShape(t);
    PrunesRefl(Whole(t));
    if t.Node? {
      RangePrunes(t.left, lo, hi, show);
      RangePrunes(t.right, lo, hi, show);
      PrunedPrunes(t.left);
      PrunedPrunes(t.right);
      WholeShape(t.left);
      WholeShape(t.right);
      WholeNode(t);
      var L, M, R := Whole(t.left), Labeled(t.key, AsHashTree(t.value)), Whole(t.right);
      var goLeft, goRight := !FromLow(lo, t.key).Equal?, !ToHigh(t.key, hi).Equal?;
      var l := if AtLeast(t.key, lo) && goLeft then Range(t.left, lo, hi, show) else PrunedTree(t.left);
      var r := if AtMost(t.key, hi) && goRight then Range(t.right, lo, hi, show) else PrunedTree(t.right);
      assert forall show :: Prunes(NodeTree(t, show), M) by { forall show { NodePrunes(t, show); } }
      NodePrunes(t, show);
      if AtLeast(t.key, lo) && AtMost(t.key, hi) {
        ForkPrunes(l, RangeNode(t, lo, hi, show), r, L, M, R);
      } else if AtLeast(t.key, lo) {
        ForkPrunes(Range(t.left, lo, hi, show), Pruned(DataHash(t)), PrunedTree(t.right), L, M, R);
      } else {
        ForkPrunes(PrunedTree(t.left), Pruned(DataHash(t)), Range(t.right, lo, hi, show), L, M, R);
      }
    }
  }

  // The visible labels are exactly the keys from the lower to the upper bound.
  lemma {:induction false} RangeLabels(
      t: Tree, a: Bound, b: Bound, lo: Option<KeyBound>, hi: Option<KeyBound>, show: Show)
    requires Ordered(t, a, b)
    ensures forall x :: x in Labels(Range(t, lo, hi, show)) <==> Has(t, x) && AtLeast(x, lo) && AtMost(x, hi)
  {
    if t.Node? {
      var w := Range(t, lo, hi, show);
      RangeLabels(t.left, a, At(t.key), lo, hi, show);
      RangeLabels(t.right, At(t.key), b, lo, hi, show);
      forall x ensures x in Labels(w) <==> Has(t, x) && AtLeast(x, lo) && AtMost(x, hi) {
        RangeLabel(t, a, b, lo, hi, show, x);
      }
    }
  }

  // The labels of one step of the range.
  lemma RangeLabelsStep(t: Tree, lo: Option<KeyBound>, hi: Option<KeyBound>, show: Show, x: bytes)
    requires t.Node?
    ensures x in Labels(Range(t, lo, hi, show)) <==>
      || (AtLeast(t.key, lo) && AtMost(t.key, hi) && x == t.key)
      || (AtLeast(t.key, lo) && !(AtMost(t.key, hi) && FromLow(lo, t.key).Equal?)
        && x in Labels(Range(t.left, lo, hi, show)))
      || (AtMost(t.key, hi) && !(AtLeast(t.key, lo) && ToHigh(t.key, hi).Equal?)
        && x in Labels(Range(t.right, lo, hi, show)))
      || (!AtLeast(t.key, lo) && !AtMost(t.key, hi) && x in Labels(Range(t.right, lo, hi, show)))
  {
    hide AtLeast, AtMost, FromLow, ToHigh;
    var l := if FromLow(lo, t.key).Equal? then PrunedTree(t.left) else Range(t.left, lo, hi, show);
    var r := if ToHigh(t.key, hi).Equal? then PrunedTree(t.right) else Range(t.right, lo, hi, show);
    if AtLeast(t.key, lo) && AtMost(t.key, hi) {
      ForkLabels(l, RangeNode(t, lo, hi, show), r);
    } else if AtLeast(t.key, lo) {
      ForkLabels(Range(t.left, lo, hi, show), Pruned(DataHash(t)), PrunedTree(t.right));
    } else {
      ForkLabels(PrunedTree(t.left), Pruned(DataHash(t)), Range(t.right, lo, hi, show));
    }
  }

  lemma RangeLabel(t: Tree, a: Bound, b: Bound, lo: Option<KeyBound>, hi: Option<KeyBound>, show: Show, x: bytes)
    requires t.Node? && Ordered(t, a, b)
    requires x in Labels(Range(t.left, lo, hi, show)) <==> Has(t.left, x) && AtLeast(x, lo) && AtMost(x, hi)
    requires x in Labels(Range(t.right, lo, hi, show)) <==> Has(t.right, x) && AtLeast(x, lo) && AtMost(x, hi)
    ensures x in Labels(Range(t, lo, hi, show)) <==> Has(t, x) && AtLeast(x, lo) && AtMost(x, hi)
  {
    hide Range, Labels, Get;
    RangeLabelsStep(t, lo, hi, show, x);
    TotalOrder();
    HasGoesDown(t, a, b, x);
  }

  lemma HasGoesDown(t: Tree, a: Bound, b: Bound, x: bytes)
    requires t.Node? && Ordered(t, a, b)
    ensures Has(t, x) <==> x == t.key || Has(t.left, x) || Has(t.right, x)
    ensures Has(t.left, x) ==> Lt(x, t.key)
    ensures Has(t.right, x) ==> Lt(t.key, x)
  {
    GetStep(t, x);
    LtLinear(x, t.key);
    if Has(t.left, x) { GetInBounds(t.left, a, At(t.key), x); }
    if Has(t.right, x) { GetInBounds(t.right, At(t.key), b, x); }
  }

  lemma FlattenFork(l: HashTree, m: HashTree, r: HashTree, i: HashTree)
    requires i.Labeled?
    ensures i in Flatten(ThreeWayFork(l, m, r)) <==> i in Flatten(l) || i in Flatten(m) || i in Flatten(r)
  {
  }

  // The subtree a range shows under a key: in full, or only its hash.
  ghost function ShownTree(v: NestedTree, inFull: bool): HashTree {
    if inFull then AsHashTree(v) else Pruned(RootHash(v))
  }

  ghost predicate ShowsValue(t: Tree, lo: Option<KeyBound>, hi: Option<KeyBound>, show: Show, i: HashTree)
    requires i.Labeled?
  {
    && Has(t, i.name)
    && i.sub == ShownTree(Get(t, i.name).value, show.DataTree? && ShownInFull(i.name, lo, hi))
  }

  // Under each visible key the range shows that key's value, in full or pruned as asked.
  lemma {:induction false} RangeValues(
      t: Tree, a: Bound, b: Bound, lo: Option<KeyBound>, hi: Option<KeyBound>, show: Show, i: HashTree)
    requires Ordered(t, a, b) && i.Labeled? && i in Flatten(Range(t, lo, hi, show))
    ensures ShowsValue(t, lo, hi, show, i)
  {
    TotalOrder();
    var m := RangeNode(t, lo, hi, show);
    var l := if FromLow(lo, t.key).Equal? then PrunedTree(t.left) else Range(t.left, lo, hi, show);
    var r := if ToHigh(t.key, hi).Equal? then PrunedTree(t.right) else Range(t.right, lo, hi, show);
    if AtLeast(t.key, lo) && AtMost(t.key, hi) {
      FlattenFork(l, m, r, i);
    } else if AtLeast(t.key, lo) {
      FlattenFork(Range(t.left, lo, hi, show), Pruned(DataHash(t)), PrunedTree(t.right), i);
    } else {
      FlattenFork(PrunedTree(t.left), Pruned(DataHash(t)), Range(t.right, lo, hi, show), i);
    }
    GetStep(t, i.name);
    if i in Flatten(Range(t.left, lo, hi, show)) {
      RangeValues(t.left, a, At(t.key), lo, hi, show, i);
      GetInBounds(t.left, a, At(t.key), i.name);
    } else if i in Flatten(Range(t.right, lo, hi, show)) {
      RangeValues(t.right, At(t.key), b, lo, hi, show, i);
      GetInBounds(t.right, At(t.key), b, i.name);
    } else {
      assert i == m;
    }
  }

  // ---------- What a range decides ----------

  lemma RangeSpine(t: Tree, a: Bound, b: Bound, lo: Option<KeyBound>, hi: Option<KeyBound>, show: Show)
    requires Ordered(t, a, b) && Cached(t) && AllGood(t)
    ensures Part(Range(t, lo, hi, show)) && (Range(t, lo, hi, show).Empty? <==> t.Nil?)
    ensures forall x :: x in Labels(Range(t, lo, hi, show)) <==> Has(t, x) && AtLeast(x, lo) && AtMost(x, hi)
    ensures forall x :: x in Labels(Range(t, lo, hi, show)) ==> Above(a, x) && Below(x, b)
  {
    RangePrunes(t, lo, hi, show);
    WholeLabels(t, a, b);
    WholeShape(t);
    RangeLabels(t, a, b, lo, hi, show);
    if Spine(Whole(t)) { PrunesLabels(Range(t, lo, hi, show), Whole(t)); }
  }

  ghost predicate Asked(t: Tree, a: Bound, b: Bound, lo: Option<KeyBound>, hi: Option<KeyBound>, x: bytes) {
    && Ordered(t, a, b) && Cached(t) && AllGood(t)
    && Anchored(t, a, b, lo) && Anchored(t, a, b, hi)
    && LowToHigh(lo, hi) && AtLeast(x, lo) && AtMost(x, hi)
  }

  lemma AnchoredChildren(t: Tree, a: Bound, b: Bound, e: Option<KeyBound>)
    requires t.Node? && Ordered(t, a, b) && Anchored(t, a, b, e)
    ensures Anchored(t.left, a, At(t.key), e) && Anchored(t.right, At(t.key), b, e)
  {
    TotalOrder();
    if e.Some? { GetStep(t, e.value.key); }
  }

  // A nonempty left subtree of a node above the lower bound has a visible key, and the other way round.
  lemma LeftTouched(t: Tree, a: Bound, b: Bound, lo: Option<KeyBound>, hi: Option<KeyBound>, show: Show)
    requires t.Node? && Ordered(t, a, b) && Cached(t) && AllGood(t) && Anchored(t, a, b, lo) && LowToHigh(lo, hi)
    requires lo.None? || Lt(lo.value.key, t.key)
    requires AtMost(t.key, hi)
    requires t.left.Node?
    ensures Labels(Range(t.left, lo, hi, show)) != {}
  {
    TotalOrder();
    RangeSpine(t.left, a, At(t.key), lo, hi, show);
    AnchoredChildren(t, a, b, lo);
    var k := t.left.key;
    GetStep(t.left, k);
    if !AtLeast(k, lo) { assert Has(t.left, lo.value.key); }
    assert k in Labels(Range(t.left, lo, hi, show)) || lo.value.key in Labels(Range(t.left, lo, hi, show));
  }

  lemma RightTouched(t: Tree, a: Bound, b: Bound, lo: Option<KeyBound>, hi: Option<KeyBound>, show: Show)
    requires t.Node? && Ordered(t, a, b) && Cached(t) && AllGood(t) && Anchored(t, a, b, hi) && LowToHigh(lo, hi)
    requires hi.None? || Lt(t.key, hi.value.key)
    requires AtLeast(t.key, lo)
    requires t.right.Node?
    ensures Labels(Range(t.right, lo, hi, show)) != {}
  {
    TotalOrder();
    RangeSpine(t.right, At(t.key), b, lo, hi, show);
    AnchoredChildren(t, a, b, hi);
    var k := t.right.key;
    GetStep(t.right, k);
    if !AtMost(k, hi) { assert Has(t.right, hi.value.key); }
    assert k in Labels(Range(t.right, lo, hi, show)) || hi.value.key in Labels(Range(t.right, lo, hi, show));
  }

  // What lies outside the range is hidden in as few parts as the tree allows.
  lemma {:induction false} RangeTight(
      t: Tree, a: Bound, b: Bound, lo: Option<KeyBound>, hi: Option<KeyBound>, show: Show)
    requires Ordered(t, a, b) && Cached(t) && AllGood(t)
    requires Anchored(t, a, b, lo) && Anchored(t, a, b, hi) && LowToHigh(lo, hi)
    requires t.Nil? || Labels(Range(t, lo, hi, show)) != {}
    ensures Tight(Range(t, lo, hi, show))
  {
    hide ThreeWayFork;
    if t.Node? {
      TotalOrder();
      AnchoredChildren(t, a, b, lo);
      AnchoredChildren(t, a, b, hi);
      var l, r := Range(t.left, lo, hi, show), Range(t.right, lo, hi, show);
      if AtLeast(t.key, lo) && AtMost(t.key, hi) {
        NodeTight(t, lo, hi, show);
        if !FromLow(lo, t.key).Equal? {
          if t.left.Node? { LeftTouched(t, a, b, lo, hi, show); }
          RangeTight(t.left, a, At(t.key), lo, hi, show);
        }
        if !ToHigh(t.key, hi).Equal? {
          if t.right.Node? { RightTouched(t, a, b, lo, hi, show); }
          RangeTight(t.right, At(t.key), b, lo, hi, show);
        }
        ForkTight(if FromLow(lo, t.key).Equal? then PrunedTree(t.left) else l, RangeNode(t, lo, hi, show),
          if ToHigh(t.key, hi).Equal? then PrunedTree(t.right) else r);
      } else if AtLeast(t.key, lo) {
        ForkLabels(l, Pruned(DataHash(t)), PrunedTree(t.right));
        NothingHidden(l, PrunedTree(t.right));
        RangeTight(t.left, a, At(t.key), lo, hi, show);
        ForkTight(l, Pruned(DataHash(t)), PrunedTree(t.right));
      } else {
        ForkLabels(PrunedTree(t.left), Pruned(DataHash(t)), r);
        NothingHidden(r, PrunedTree(t.left));
        RangeTight(t.right, At(t.key), b, lo, hi, show);
        ForkTight(PrunedTree(t.left), Pruned(DataHash(t)), r);
      }
    }
  }

  lemma NodeTight(n: Tree, lo: Option<KeyBound>, hi: Option<KeyBound>, show: Show)
    requires n.Node? && Good(n.value)
    ensures RangeNode(n, lo, hi, show).Labeled? && Tight(RangeNode(n, lo, hi, show))
  {
    GoodHash(n.value);
    FullIsTight(AsHashTree(n.value));
  }

  lemma NothingHidden(t: HashTree, other: HashTree)
    requires other.Empty? || other.Pruned?
    ensures Labels(t) != {} ==> !t.Pruned? && !t.Empty?
    ensures Labels(other) == {} && Labels(Pruned(Digest(other))) == {}
  {
  }

  // Between its bounds a range witness leaves no question open.
  lemma {:induction false} RangeDecides(
      t: Tree, a: Bound, b: Bound, lo: Option<KeyBound>, hi: Option<KeyBound>, show: Show, x: bytes)
    requires Asked(t, a, b, lo, hi, x)
    requires Labels(Range(t, lo, hi, show)) != {}
    ensures !LookupLabel(Range(t, lo, hi, show), x).Unknown?
  {
    AnchoredChildren(t, a, b, lo);
    AnchoredChildren(t, a, b, hi);
    if AtLeast(t.key, lo) && AtMost(t.key, hi) {
      if Lt(x, t.key) && t.left.Node? {
        LowBelow(t, lo, x);
        LeftTouched(t, a, b, lo, hi, show);
        RangeDecides(t.left, a, At(t.key), lo, hi, show, x);
      }
      if Lt(t.key, x) && t.right.Node? {
        HighAbove(t, hi, x);
        RightTouched(t, a, b, lo, hi, show);
        RangeDecides(t.right, At(t.key), b, lo, hi, show, x);
      }
      DecidesInside(t, a, b, lo, hi, show, x);
    } else if AtLeast(t.key, lo) {
      ForkLabels(Range(t.left, lo, hi, show), Pruned(DataHash(t)), PrunedTree(t.right));
      RangeDecides(t.left, a, At(t.key), lo, hi, show, x);
      DecidesLeft(t, a, b, lo, hi, show, x);
    } else {
      ForkLabels(PrunedTree(t.left), Pruned(DataHash(t)), Range(t.right, lo, hi, show));
      RangeDecides(t.right, At(t.key), b, lo, hi, show, x);
      DecidesRight(t, a, b, lo, hi, show, x);
    }
  }

  lemma LowBelow(t: Tree, lo: Option<KeyBound>, x: bytes)
    requires t.Node? && AtLeast(x, lo) && Lt(x, t.key)
    ensures lo.None? || Lt(lo.value.key, t.key)
  {
    if lo.Some? {
      LtLinear(x, lo.value.key);
      if Lt(lo.value.key, x) { LtTrans(lo.value.key, x, t.key); }
    }
  }

  lemma HighAbove(t: Tree, hi: Option<KeyBound>, x: bytes)
    requires t.Node? && AtMost(x, hi) && Lt(t.key, x)
    ensures hi.None? || Lt(t.key, hi.value.key)
  {
    if hi.Some? {
      LtLinear(x, hi.value.key);
      if Lt(x, hi.value.key) { LtTrans(t.key, x, hi.value.key); }
    }
  }

  lemma DecidesInside(t: Tree, a: Bound, b: Bound, lo: Option<KeyBound>, hi: Option<KeyBound>, show: Show, x: bytes)
    requires t.Node? && Asked(t, a, b, lo, hi, x) && AtLeast(t.key, lo) && AtMost(t.key, hi)
    requires Lt(x, t.key) && t.left.Node? ==> !LookupLabel(Range(t.left, lo, hi, show), x).Unknown?
    requires Lt(t.key, x) && t.right.Node? ==> !LookupLabel(Range(t.right, lo, hi, show), x).Unknown?
    ensures !LookupLabel(Range(t, lo, hi, show), x).Unknown?
  {
    hide LookupLabel, ThreeWayFork, Has, Anchored, AtLeast, AtMost;
    var l := if FromLow(lo, t.key).Equal? then PrunedTree(t.left) else Range(t.left, lo, hi, show);
    var r := if ToHigh(t.key, hi).Equal? then PrunedTree(t.right) else Range(t.right, lo, hi, show);
    RangeSpine(t.left, a, At(t.key), lo, hi, show);
    RangeSpine(t.right, At(t.key), b, lo, hi, show);
    LtLinear(x, t.key);
    if Lt(x, t.key) {
      LowBelow(t, lo, x);
      assert !FromLow(lo, t.key).Equal?;
    } else if Lt(t.key, x) {
      HighAbove(t, hi, x);
      assert !ToHigh(t.key, hi).Equal?;
    }
    DecidesAround(l, t.key, RangeNode(t, lo, hi, show).sub, r, x);
  }

  lemma DecidesAround(l: HashTree, k: bytes, s: HashTree, r: HashTree, x: bytes)
    requires Part(l) && Part(r)
    requires forall y :: y in Labels(l) ==> Lt(y, k)
    requires forall y :: y in Labels(r) ==> Lt(k, y)
    requires Lt(x, k) && !l.Empty? ==> !LookupLabel(l, x).Unknown?
    requires Lt(k, x) && !r.Empty? ==> !LookupLabel(r, x).Unknown?
    ensures !LookupLabel(ThreeWayFork(l, Labeled(k, s), r), x).Unknown?
  {
    LtLinear(x, k);
    ForkLookup(l, k, s, r, x);
  }

  lemma DecidesLeft(t: Tree, a: Bound, b: Bound, lo: Option<KeyBound>, hi: Option<KeyBound>, show: Show, x: bytes)
    requires t.Node? && Asked(t, a, b, lo, hi, x) && AtLeast(t.key, lo) && !AtMost(t.key, hi)
    requires Labels(Range(t.left, lo, hi, show)) != {} && !LookupLabel(Range(t.left, lo, hi, show), x).Unknown?
    ensures !LookupLabel(Range(t, lo, hi, show), x).Unknown?
  {
    var l := Range(t.left, lo, hi, show);
    RangeSpine(t.left, a, At(t.key), lo, hi, show);
    AnchoredChildren(t, a, b, hi);
    ForkLookupLeft(l, DataHash(t), PrunedTree(t.right), x);
    VerdictMeaning(l, x);
    var y :| y in Labels(l);
    var h := hi.value.key;
    assert Has(t.left, h) by {
      LtLinear(y, h);
      if a.At? && Lt(y, h) { LtTrans(a.key, y, h); }
    }
    LtLinear(h, h);
    assert AtLeast(h, lo);
    assert h in Labels(l);
    LtLinear(x, h);
  }

  lemma DecidesRight(t: Tree, a: Bound, b: Bound, lo: Option<KeyBound>, hi: Option<KeyBound>, show: Show, x: bytes)
    requires t.Node? && Asked(t, a, b, lo, hi, x) && !AtLeast(t.key, lo)
    requires Labels(Range(t.right, lo, hi, show)) != {} && !LookupLabel(Range(t.right, lo, hi, show), x).Unknown?
    ensures !LookupLabel(Range(t, lo, hi, show), x).Unknown?
  {
    var r := Range(t.right, lo, hi, show);
    RangeSpine(t.right, At(t.key), b, lo, hi, show);
    AnchoredChildren(t, a, b, lo);
    ForkLookupRight(PrunedTree(t.left), DataHash(t), r, x);
    VerdictMeaning(r, x);
    var y :| y in Labels(r);
    var g := lo.value.key;
    assert Has(t.right, g) by {
      LtLinear(y, g);
      if b.At? && Lt(g, y) { LtTrans(g, y, b.key); }
    }
    LtLinear(g, g);
    assert AtMost(g, hi);
    assert g in Labels(r);
    LtLinear(x, g);
  }
}
