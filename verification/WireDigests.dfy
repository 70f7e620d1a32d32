// Digests as bytes, for any hash function: the symbolic digests stand for them up to an explicit collision.
module WireDigests {
  import opened Bytes
  import opened HashTree
  import opened RbTree
  import opened Witnesses
  import opened NestedTrees
  import Cbor

  type WireTree = Cbor.WireTree
  type Hasher = bytes -> bytes

  // One byte of length, then "ic-hashtree-empty", "-fork", "-labeled" and "-leaf".
  const IC_HASHTREE: bytes := [105, 99, 45, 104, 97, 115, 104, 116, 114, 101, 101, 45]
  const EMPTY_DOMAIN: bytes := [17] + IC_HASHTREE + [101, 109, 112, 116, 121]
  const FORK_DOMAIN: bytes := [16] + IC_HASHTREE + [102, 111, 114, 107]
  const LABELED_DOMAIN: bytes := [19] + IC_HASHTREE + [108, 97, 98, 101, 108, 101, 100]
  const LEAF_DOMAIN: bytes := [16] + IC_HASHTREE + [108, 101, 97, 102]

  ghost predicate Hashes32(H: Hasher) {
    forall x :: |H(x)| == 32
  }

  // Every hidden digest has the length the decoder asks for.
  predicate Sized(t: WireTree) {
    match t
    case Fork(l, r) => Sized(l) && Sized(r)
    case Labeled(_, sub) => Sized(sub)
    case Pruned(digest) => |digest| == 32
    case _ => true
  }

  // What is fed to the hasher for this node.
  function Preimage(H: Hasher, t: WireTree): bytes
    requires !t.Pruned?
    decreases t, 0
  {
    match t
    case Empty => EMPTY_DOMAIN
    case Fork(l, r) => FORK_DOMAIN + WireDigest(H, l) + WireDigest(H, r)
    case Labeled(name, sub) => LABELED_DOMAIN + name + WireDigest(H, sub)
    case Leaf(data) => LEAF_DOMAIN + data
  }

  function WireDigest(H: Hasher, t: WireTree): bytes
    decreases t, 1
  {
    if t.Pruned? then t.digest else H(Preimage(H, t))
  }

  // The bytes a symbolic digest stands for: what the store's own hash functions compute.
  function Concrete(H: Hasher, h: Hash): bytes {
    match h
    case HEmpty => H(EMPTY_DOMAIN)
    case HFork(l, r) => H(FORK_DOMAIN + Concrete(H, l) + Concrete(H, r))
    case HLabeled(name, content) => H(LABELED_DOMAIN + name + Concrete(H, content))
    case HLeaf(data) => H(LEAF_DOMAIN + data)
  }

  function ToWire(H: Hasher, t: HashTree): WireTree {
    match t
    case Empty => Cbor.Empty
    case Fork(l, r) => Cbor.Fork(ToWire(H, l), ToWire(H, r))
    case Labeled(name, sub) => Cbor.Labeled(name, ToWire(H, sub))
    case Leaf(data) => Cbor.Leaf(data)
    case Pruned(h) => Cbor.Pruned(Concrete(H, h))
  }

  // The client's digest of a sent tree is what the store computed for it.
  lemma {:induction false} ToWireDigest(H: Hasher, t: HashTree)
    ensures WireDigest(H, ToWire(H, t)) == Concrete(H, Digest(t))
  {
    match t
    case Fork(l, r) => ToWireDigest(H, l); ToWireDigest(H, r);
    case Labeled(_, sub) => ToWireDigest(H, sub);
    case _ =>
  }

  lemma {:induction false} WireDigestSize(H: Hasher, t: WireTree)
    requires Hashes32(H) && Sized(t)
    ensures |WireDigest(H, t)| == 32
  {
  }

  // ---------- Collisions ----------

  // Everything hashed on the way to a tree's digest.
  function Hashed(H: Hasher, t: WireTree): set<bytes> {
    match t
    case Pruned(_) => {}
    case Fork(l, r) => {Preimage(H, t)} + Hashed(H, l) + Hashed(H, r)
    case Labeled(_, sub) => {Preimage(H, t)} + Hashed(H, sub)
    case _ => {Preimage(H, t)}
  }

  // Two different inputs with one hash, one hashed for t and one for u.
  ghost predicate Collides(H: Hasher, t: WireTree, u: WireTree) {
    exists x, y :: x in Hashed(H, t) && y in Hashed(H, u) && x != y && H(x) == H(y)
  }

  lemma CollidesAbove(H: Hasher, t: WireTree, u: WireTree, T: WireTree, U: WireTree)
    requires Collides(H, t, u) && Hashed(H, t) <= Hashed(H, T) && Hashed(H, u) <= Hashed(H, U)
    ensures Collides(H, T, U)
  {
    var x, y :| x in Hashed(H, t) && y in Hashed(H, u) && x != y && H(x) == H(y);
    assert x in Hashed(H, T) && y in Hashed(H, U);
  }

  // The domain separators, the fixed digest length and the place of the label keep inputs apart.
  lemma PreimageInjective(H: Hasher, t: WireTree, u: WireTree)
    requires Hashes32(H) && Sized(t) && Sized(u) && !t.Pruned? && !u.Pruned?
    requires Preimage(H, t) == Preimage(H, u)
    ensures match t
      case Empty => u.Empty?
      case Leaf(data) => u == t
      case Labeled(name, sub) => u.Labeled? && u.name == name && WireDigest(H, u.sub) == WireDigest(H, sub)
      case Fork(l, r) =>
        u.Fork? && WireDigest(H, u.left) == WireDigest(H, l) && WireDigest(H, u.right) == WireDigest(H, r)
      case Pruned(_) => false
  {
    var x, y := Preimage(H, t), Preimage(H, u);
    SameKind(H, t, u);
    match t
    case Empty =>
    case Leaf(data) =>
      assert x[|LEAF_DOMAIN|..] == data && y[|LEAF_DOMAIN|..] == u.data;
    case Labeled(name, sub) =>
      WireDigestSize(H, sub);
      WireDigestSize(H, u.sub);
      assert x[|LABELED_DOMAIN|..|x| - 32] == name && y[|LABELED_DOMAIN|..|y| - 32] == u.name;
      assert x[|x| - 32..] == WireDigest(H, sub) && y[|y| - 32..] == WireDigest(H, u.sub);
    case Fork(l, r) =>
      WireDigestSize(H, l);
      WireDigestSize(H, u.left);
      var d := |FORK_DOMAIN|;
      assert x[d..d + 32] == WireDigest(H, l) && y[d..d + 32] == WireDigest(H, u.left);
      assert x[d + 32..] == WireDigest(H, r) && y[d + 32..] == WireDigest(H, u.right);
  }

  lemma SameKind(H: Hasher, t: WireTree, u: WireTree)
    requires !t.Pruned? && !u.Pruned? && Preimage(H, t) == Preimage(H, u)
    ensures (t.Empty? <==> u.Empty?) && (t.Leaf? <==> u.Leaf?) && (t.Labeled? <==> u.Labeled?) && (t.Fork? <==> u.Fork?)
  {
    PreimageStart(H, t);
    PreimageStart(H, u);
  }

  lemma PreimageStart(H: Hasher, t: WireTree)
    requires !t.Pruned?
    ensures |Preimage(H, t)| >= 17
    ensures Preimage(H, t)[0] == (if t.Empty? then 17 else if t.Labeled? then 19 else 16)
    ensures t.Fork? ==> Preimage(H, t)[13] == 102
    ensures t.Leaf? ==> Preimage(H, t)[13] == 108
  {
  }

  // ---------- Pruning or collision ----------

  // The symbolic tree of the same shape as t, its hidden digests taken from T.
  function Lifted(t: WireTree, T: HashTree): HashTree {
    match t
    case Pruned(_) => HashTree.Pruned(Digest(T))
    case Empty => HashTree.Empty
    case Leaf(data) => HashTree.Leaf(data)
    case Labeled(name, sub) => HashTree.Labeled(name, Lifted(sub, if T.Labeled? then T.sub else T))
    case Fork(l, r) =>
      HashTree.Fork(Lifted(l, if T.Fork? then T.left else T), Lifted(r, if T.Fork? then T.right else T))
  }

  // Whatever has the digest of the store's tree either is a pruning of it, byte for byte, or shows a collision.
  lemma {:induction false} PrunesOrCollides(H: Hasher, t: WireTree, T: HashTree)
    requires Hashes32(H) && Sized(t) && Full(T)
    requires WireDigest(H, t) == Concrete(H, Digest(T))
    ensures Collides(H, t, ToWire(H, T)) || (Prunes(Lifted(t, T), T) && ToWire(H, Lifted(t, T)) == t)
  {
    var u := ToWire(H, T);
    ToWireDigest(H, T);
    FullIsSized(H, T);
    if !t.Pruned? {
      var x, y := Preimage(H, t), Preimage(H, u);
      assert x in Hashed(H, t) && y in Hashed(H, u);
      if x == y {
        PreimageInjective(H, t, u);
        match t {
          case Labeled(_, sub) =>
            ToWireDigest(H, T.sub);
            PrunesOrCollides(H, sub, T.sub);
            if Collides(H, sub, u.sub) { CollidesAbove(H, sub, u.sub, t, u); }
          case Fork(l, r) =>
            ToWireDigest(H, T.left);
            ToWireDigest(H, T.right);
            PrunesOrCollides(H, l, T.left);
            PrunesOrCollides(H, r, T.right);
            if Collides(H, l, u.left) { CollidesAbove(H, l, u.left, t, u); }
            if Collides(H, r, u.right) { CollidesAbove(H, r, u.right, t, u); }
          case _ =>
        }
      }
    }
  }

  lemma {:induction false} FullIsSized(H: Hasher, T: HashTree)
    requires Full(T)
    ensures Sized(ToWire(H, T)) && !ToWire(H, T).Pruned?
  {
    match T
    case Fork(l, r) => FullIsSized(H, l); FullIsSized(H, r);
    case Labeled(_, sub) => FullIsSized(H, sub);
    case _ =>
  }

  // ---------- What a client learns from bytes ----------

  // Lookups never look at digests, so a client's lookups run on the tree with the digests blanked.
  function Blank(t: WireTree): HashTree {
    match t
    case Empty => HashTree.Empty
    case Fork(l, r) => HashTree.Fork(Blank(l), Blank(r))
    case Labeled(name, sub) => HashTree.Labeled(name, Blank(sub))
    case Leaf(data) => HashTree.Leaf(data)
    case Pruned(_) => HashTree.Pruned(HEmpty)
  }

  lemma {:induction false} BlankLabel(H: Hasher, t: HashTree, name: bytes)
    ensures match LookupLabel(t, name)
      case Found(n) => LookupLabel(Blank(ToWire(H, t)), name) == Found(Blank(ToWire(H, n)))
      case r => LookupLabel(Blank(ToWire(H, t)), name) == r
  {
    match t
    case Fork(l, r) => BlankLabel(H, l, name); BlankLabel(H, r, name);
    case _ =>
  }

  lemma {:induction false} BlankLookups(H: Hasher, t: HashTree, path: Path)
    ensures LookupPath(Blank(ToWire(H, t)), path) == LookupPath(t, path)
    ensures match LookupSubtree(t, path)
      case SubtreeFound(n) => LookupSubtree(Blank(ToWire(H, t)), path) == SubtreeFound(Blank(ToWire(H, n)))
      case r => LookupSubtree(Blank(ToWire(H, t)), path) == r
    decreases |path|
  {
    if path != [] {
      BlankLabel(H, t, path[0]);
      var found := LookupLabel(t, path[0]);
      if found.Found? { BlankLookups(H, found.node, path[1..]); }
    }
  }

  lemma {:induction false} DecodedIsSized(v: Cbor.CborValue)
    ensures Cbor.ParsedCborToTree(v).Tree? ==> Sized(Cbor.ParsedCborToTree(v).tree)
  {
    if Cbor.ParsedCborToTree(v).Tree? && v.Array? {
      match v.items[0].tag
      case TagLabelled => DecodedIsSized(v.items[2]);
      case TagFork => DecodedIsSized(v.items[1]); DecodedIsSized(v.items[2]);
      case _ =>
    }
  }

  // Any bytes that decode to a tree with the store's root hash tell the truth about the store, for any 32-byte
  // hash function, unless they exhibit two inputs that collide under it.
  lemma ReceivedBytesSound(utf8: bytes -> bool, cbor: bytes, H: Hasher, v: NestedTree, path: Path)
    requires Hashes32(H) && Good(v) && Cbor.FromCbor(utf8, cbor).Tree?
    requires WireDigest(H, Cbor.FromCbor(utf8, cbor).tree) == Concrete(H, RootHash(v))
    ensures var t := Cbor.FromCbor(utf8, cbor).tree;
      || Collides(H, t, ToWire(H, AsHashTree(v)))
      || (&& (match LookupPath(Blank(t), path)
              case PathFound(d) => GetPath(v, path) == Some(d)
              case PathAbsent => GetPath(v, path) == None
              case PathError => GetPath(v, path) == None && ContainsPath(v, path)
              case PathUnknown => true)
          && (match LookupSubtree(Blank(t), path)
              case SubtreeFound(_) => ContainsPath(v, path)
              case SubtreeAbsent => !ContainsPath(v, path)
              case SubtreeUnknown => true))
  {
    var t := Cbor.FromCbor(utf8, cbor).tree;
    DecodedIsSized(Cbor.ParseCbor(utf8, cbor).value);
    GoodHash(v);
    WholeTree(v);
    PrunesOrCollides(H, t, AsHashTree(v));
    if !Collides(H, t, ToWire(H, AsHashTree(v))) {
      var s := Lifted(t, AsHashTree(v));
      PrunesDigest(s, AsHashTree(v));
      VerifierSound(v, s, path);
      BlankLookups(H, s, path);
    }
  }

  lemma WholeTree(v: NestedTree)
    requires Good(v)
    ensures Full(AsHashTree(v)) && Digest(AsHashTree(v)) == RootHash(v)
  {
    GoodLevel(v);
    GoodHash(v);
  }

  // And an honest witness, sent as bytes, always arrives: it decodes, has the root hash and answers its path.
  lemma SentWitnessArrives(utf8: bytes -> bool, H: Hasher, v: NestedTree, path: Path)
    requires Hashes32(H) && Good(v)
    requires Cbor.Encodable(ToWire(H, Witness(v, path)))
    ensures var t := ToWire(H, Witness(v, path));
      && Cbor.FromCbor(utf8, Cbor.Encode(t)) == Cbor.Tree(t)
      && WireDigest(H, t) == Concrete(H, RootHash(v))
      && (if ContainsPath(v, path) then LookupSubtree(Blank(t), path).SubtreeFound?
          else LookupSubtree(Blank(t), path).SubtreeAbsent?)
  {
    var w := Witness(v, path);
    Cbor.CborRoundTrip(utf8, ToWire(H, w));
    ToWireDigest(H, w);
    WitnessProof(v, path);
    WholeTree(v);
    PrunesDigest(w, AsHashTree(v));
    BlankLookups(H, w, path);
    WitnessAnswers(v, path);
  }

  lemma WitnessAnswers(v: NestedTree, path: Path)
    requires Good(v)
    ensures if ContainsPath(v, path) then LookupSubtree(Witness(v, path), path).SubtreeFound?
      else LookupSubtree(Witness(v, path), path).SubtreeAbsent?
  {
    WitnessProof(v, path);
    SubtreeAtMeaning(v, path);
  }
}
