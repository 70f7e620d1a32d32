// The CBOR form of hash trees (RFC 8949) and the parser that reads it back.
module Cbor {
  import opened Bytes

  // A hash tree with digests as the 32 bytes that travel.
  datatype WireTree =
    | Empty
    | Fork(left: WireTree, right: WireTree)
    | Labeled(name: bytes, sub: WireTree)
    | Leaf(data: bytes)
    | Pruned(digest: bytes)

  datatype UnsignedInt = UInt8(v: nat) | UInt16(v: nat) | UInt32(v: nat) | UInt64(v: nat)

  datatype NegativeInt = Int8(n: int) | Int16(n: int) | Int32(n: int) | Int64(n: int)

  datatype TreeTag = TagEmpty | TagFork | TagLabelled | TagLeaf | TagPruned

  datatype CborValue =
    | Unsigned(u: UnsignedInt)
    | Signed(s: NegativeInt)
    | ByteString(bytes: bytes)
    | Array(items: seq<CborValue>)
    | Map(entries: map<bytes, CborValue>)
    | HashTreeTag(tag: TreeTag)

  // A parser's result: the value and the input after it, or an error.
  datatype Parsed<+T> = Ok(value: T, rest: bytes) | Err

  datatype CborError =
    | MalformedCbor
    | MalformedCertificate(reason: string)
    | MalformedHashTree(reason: string)
    | IncorrectPrunedDataLength

  datatype Decoded = Tree(tree: WireTree) | Failed(error: CborError)

  // ---------- Parsing ----------

  // The high three bits.
  function CborType(e: byte): nat {
    (e as int) / 32
  }

  // The low five bits.
  function CborInfo(e: byte): nat {
    (e as int) % 32
  }

  // A big-endian number.
  function BigEndian(s: bytes): nat {
    if s == [] then 0 else 256 * BigEndian(s[..|s| - 1]) + (s[|s| - 1] as int)
  }

  function TakeNumber(i: bytes, width: nat): Parsed<nat> {
    if |i| < width then Err else Ok(BigEndian(i[..width]), i[width..])
  }

  function ExtractCborValue(i: bytes): (r: Parsed<UnsignedInt>)
    ensures r.Ok? ==> |r.rest| < |i|
  {
    if i == [] then Err
    else
      var info := CborInfo(i[0]);
      if info <= 23 then Ok(UInt8(info), i[1..])
      else if info == 24 then (match TakeNumber(i[1..], 1) case Ok(n, rest) => Ok(UInt8(n), rest) case Err => Err)
      else if info == 25 then (match TakeNumber(i[1..], 2) case Ok(n, rest) => Ok(UInt16(n), rest) case Err => Err)
      else if info == 26 then (match TakeNumber(i[1..], 4) case Ok(n, rest) => Ok(UInt32(n), rest) case Err => Err)
      else if info == 27 then (match TakeNumber(i[1..], 8) case Ok(n, rest) => Ok(UInt64(n), rest) case Err => Err)
      else Err
  }

  // An `as` cast to a signed integer: the upper half of the range wraps to the negatives.
  function AsSigned(n: nat, modulus: nat): int {
    if n < modulus / 2 then n else n - modulus
  }

  function ToNegative(u: UnsignedInt): NegativeInt {
    match u
    case UInt8(n) => Int8(-1 - AsSigned(n, 0x100))
    case UInt16(n) => Int16(-1 - AsSigned(n, 0x1_0000))
    case UInt32(n) => Int32(-1 - AsSigned(n, 0x1_0000_0000))
    case UInt64(n) => Int64(-1 - AsSigned(n, 0x1_0000_0000_0000_0000))
  }

  // Unsigned 0 to 4 in one byte are hash tree tags.
  function UnsignedValue(u: UnsignedInt): CborValue {
    match u
    case UInt8(0) => HashTreeTag(TagEmpty)
    case UInt8(1) => HashTreeTag(TagFork)
    case UInt8(2) => HashTreeTag(TagLabelled)
    case UInt8(3) => HashTreeTag(TagLeaf)
    case UInt8(4) => HashTreeTag(TagPruned)
    case _ => Unsigned(u)
  }

  // utf8 says which byte strings are valid UTF-8.
  function Parser(utf8: bytes -> bool, i: bytes): (r: Parsed<CborValue>)
    ensures r.Ok? ==> |r.rest| < |i|
    decreases |i|, 0
  {
    match ExtractCborValue(i)
    case Err => Err
    case Ok(n, rest) =>
      var kind := CborType(i[0]);
      if kind == 0 then Ok(UnsignedValue(n), rest)
      else if kind == 1 then Ok(Signed(ToNegative(n)), rest)
      else if kind == 2 || kind == 3 then
        if |rest| < n.v then Err else Ok(ByteString(rest[..n.v]), rest[n.v..])
      else if kind == 4 then
        (match Count(utf8, rest, n.v)
         case Ok(items, rest') => Ok(Array(items), rest')
         case Err => Err)
      else if kind == 5 then
        var (entries, rest') := FoldPairs(utf8, rest, n.v, map[]);
        Ok(Map(entries), rest')
      else Parser(utf8, rest)
  }

  // count(parser, n): exactly n values.
  function Count(utf8: bytes -> bool, i: bytes, n: nat): (r: Parsed<seq<CborValue>>)
    ensures r.Ok? ==> |r.rest| <= |i| && |r.value| == n
    decreases |i|, 1
  {
    if n == 0 then Ok([], i)
    else
      match Parser(utf8, i)
      case Err => Err
      case Ok(v, rest) =>
        match Count(utf8, rest, n - 1)
        case Err => Err
        case Ok(vs, rest') => Ok([v] + vs, rest')
  }

  function ExtractKeyValPair(utf8: bytes -> bool, i: bytes): (r: Parsed<(bytes, CborValue)>)
    ensures r.Ok? ==> |r.rest| < |i|
    decreases |i|, 1
  {
    match Parser(utf8, i)
    case Ok(ByteString(key), rest) =>
      if utf8(key) then
        (match Parser(utf8, rest)
         case Ok(v, rest') => Ok((key, v), rest')
         case Err => Err)
      else Err
    case _ => Err
  }

  // fold_many_m_n(0, n, ..): at most n pairs, stopping quietly at the first that does not parse.
  function FoldPairs(
      utf8: bytes -> bool, i: bytes, n: nat, acc: map<bytes, CborValue>): (r: (map<bytes, CborValue>, bytes))
    ensures |r.1| <= |i|
    decreases |i|, 2
  {
    if n == 0 then (acc, i)
    else
      match ExtractKeyValPair(utf8, i)
      case Ok(pair, rest) => FoldPairs(utf8, rest, n - 1, acc[pair.0 := pair.1])
      case Err => (acc, i)
  }

  // The whole input has to be one value.
  function ParseCbor(utf8: bytes -> bool, i: bytes): Option<CborValue> {
    match Parser(utf8, i)
    case Ok(v, rest) => if rest == [] then Some(v) else None
    case Err => None
  }

  function ParsedCborToTree(v: CborValue): Decoded {
    match v
    case Array(items) =>
      if |items| > 0 && items[0].HashTreeTag? then
        match items[0].tag
        case TagEmpty => Tree(Empty)
        case TagLeaf =>
          if |items| > 1 && items[1].ByteString? then Tree(Leaf(items[1].bytes))
          else Failed(MalformedHashTree("Missing ByteString for Leaf node"))
        case TagPruned =>
          if |items| > 1 && items[1].ByteString? then
            if |items[1].bytes| == 32 then Tree(Pruned(items[1].bytes)) else Failed(IncorrectPrunedDataLength)
          else Failed(MalformedHashTree("Missing ByteString for Pruned node"))
        case TagLabelled =>
          if |items| > 2 && items[1].ByteString? then
            (match ParsedCborToTree(items[2])
             case Tree(sub) => Tree(Labeled(items[1].bytes, sub))
             case Failed(e) => Failed(e))
          else Failed(MalformedHashTree("Missing ByteString or child node for Labelled node"))
        case TagFork =>
          if |items| > 2 then
            (match ParsedCborToTree(items[1])
             case Failed(e) => Failed(e)
             case Tree(left) =>
               match ParsedCborToTree(items[2])
               case Failed(e) => Failed(e)
               case Tree(right) => Tree(Fork(left, right)))
          else Failed(MalformedHashTree("Missing child nodes for Fork node"))
      else Failed(MalformedHashTree("Expected Hash Tree cbor tag"))
    case _ => Failed(MalformedHashTree("Expected Array cbor tag"))
  }

  function FromCbor(utf8: bytes -> bool, cbor: bytes): Decoded {
    match ParseCbor(utf8, cbor)
    case None => Failed(MalformedCbor)
    case Some(v) => ParsedCborToTree(v)
  }

  // ---------- Encoding ----------

  const MAX_LENGTH: nat := 0x1_0000_0000_0000_0000

  function NumberBytes(n: nat, width: nat): (r: bytes)
    ensures |r| == width
  {
    if width == 0 then [] else NumberBytes(n / 256, width - 1) + [(n % 256) as byte]
  }

  // How many bytes follow the first one of a head: none for a number below 24 that it holds itself.
  predicate Fits(n: nat, width: nat) {
    match width
    case 0 => n < 24
    case 1 => n < 0x100
    case 2 => n < 0x1_0000
    case 4 => n < 0x1_0000_0000
    case 8 => n < MAX_LENGTH
    case _ => false
  }

  function HeadOf(kind: nat, n: nat, width: nat): bytes
    requires kind < 8 && Fits(n, width)
  {
    var info := match width case 0 => n case 1 => 24 case 2 => 25 case 4 => 26 case _ => 27;
    [(kind * 32 + info) as byte] + NumberBytes(n, width)
  }

  function Shortest(n: nat): (width: nat)
    requires n < MAX_LENGTH
    ensures Fits(n, width) && forall w :: Fits(n, w) ==> width <= w
  {
    if n < 24 then 0 else if n < 0x100 then 1 else if n < 0x1_0000 then 2 else if n < 0x1_0000_0000 then 4 else 8
  }

  // A head with its argument in the shortest form.
  function Head(kind: nat, n: nat): bytes
    requires kind < 8 && n < MAX_LENGTH
  {
    HeadOf(kind, n, Shortest(n))
  }

  function EncodeBytes(b: bytes): bytes
    requires |b| < MAX_LENGTH
  {
    Head(2, |b|) + b
  }

  // Labels and leaves fit a 64-bit length, digests are 32 bytes.
  predicate Encodable(t: WireTree) {
    match t
    case Empty => true
    case Fork(l, r) => Encodable(l) && Encodable(r)
    case Labeled(name, sub) => |name| < MAX_LENGTH && Encodable(sub)
    case Leaf(data) => |data| < MAX_LENGTH
    case Pruned(digest) => |digest| == 32
  }

  function Encode(t: WireTree): bytes
    requires Encodable(t)
  {
    match t
    case Empty => Head(4, 1) + Head(0, 0)
    case Fork(l, r) => Head(4, 3) + Head(0, 1) + Encode(l) + Encode(r)
    case Labeled(name, sub) => Head(4, 3) + Head(0, 2) + EncodeBytes(name) + Encode(sub)
    case Leaf(data) => Head(4, 2) + Head(0, 3) + EncodeBytes(data)
    case Pruned(digest) => Head(4, 2) + Head(0, 4) + EncodeBytes(digest)
  }

  // The self-describe tag 55799 of section 3.4.6.
  const SELF_DESCRIBE: bytes := [0xd9, 0xd9, 0xf7]

  // The parsed form of a tree's encoding.
  function TreeValue(t: WireTree): CborValue {
    match t
    case Empty => Array([HashTreeTag(TagEmpty)])
    case Fork(l, r) => Array([HashTreeTag(TagFork), TreeValue(l), TreeValue(r)])
    case Labeled(name, sub) => Array([HashTreeTag(TagLabelled), ByteString(name), TreeValue(sub)])
    case Leaf(data) => Array([HashTreeTag(TagLeaf), ByteString(data)])
    case Pruned(digest) => Array([HashTreeTag(TagPruned), ByteString(digest)])
  }

  // ---------- Items ----------

  // A data item of definite length as it stands in the input, with the width of each of its heads. A map has the pairs
  // that can be read and the number it claims.
  datatype Item =
    | IUnsigned(n: nat, width: nat)
    | INegative(n: nat, width: nat)
    | IString(text: bool, b: bytes, width: nat)
    | IArray(items: seq<Item>, width: nat)
    | IMap(pairs: seq<Pair>, claimed: nat, width: nat)
    | ITagged(kind: nat, tag: nat, width: nat, item: Item)

  datatype Pair = Pair(key: Item, value: Item)

  // Heads that hold their arguments, and strings for keys.
  predicate WellFormed(utf8: bytes -> bool, item: Item) {
    match item
    case IUnsigned(n, width) => Fits(n, width)
    case INegative(n, width) => Fits(n, width)
    case IString(_, b, width) => Fits(|b|, width)
    case IArray(items, width) => Fits(|items|, width) && AllWellFormed(utf8, items)
    case IMap(pairs, claimed, width) =>
      Fits(claimed, width) && |pairs| <= claimed && PairsWellFormed(utf8, pairs)
    case ITagged(kind, tag, width, inner) => 6 <= kind < 8 && Fits(tag, width) && WellFormed(utf8, inner)
  }

  predicate AllWellFormed(utf8: bytes -> bool, items: seq<Item>) {
    items == [] || (WellFormed(utf8, items[0]) && AllWellFormed(utf8, items[1..]))
  }

  predicate PairsWellFormed(utf8: bytes -> bool, pairs: seq<Pair>) {
    pairs == [] || (PairWellFormed(utf8, pairs[0]) && PairsWellFormed(utf8, pairs[1..]))
  }

  predicate PairWellFormed(utf8: bytes -> bool, pair: Pair) {
    && WellFormed(utf8, pair.key) && WellFormed(utf8, pair.value)
    && ItemValue(pair.key).ByteString? && utf8(ItemValue(pair.key).bytes)
  }

  // Every map has the pairs it claims.
  predicate Honest(item: Item) {
    match item
    case IArray(items, _) => AllHonest(items)
    case IMap(pairs, claimed, _) => |pairs| == claimed && PairsHonest(pairs)
    case ITagged(_, _, _, inner) => Honest(inner)
    case _ => true
  }

  predicate AllHonest(items: seq<Item>) {
    items == [] || (Honest(items[0]) && AllHonest(items[1..]))
  }

  predicate PairsHonest(pairs: seq<Pair>) {
    pairs == [] || (PairHonest(pairs[0]) && PairsHonest(pairs[1..]))
  }

  predicate PairHonest(pair: Pair) {
    Honest(pair.key) && Honest(pair.value)
  }

  function EncodeItem(utf8: bytes -> bool, item: Item): bytes
    requires WellFormed(utf8, item)
  {
    match item
    case IUnsigned(n, width) => HeadOf(0, n, width)
    case INegative(n, width) => HeadOf(1, n, width)
    case IString(text, b, width) => HeadOf(if text then 3 else 2, |b|, width) + b
    case IArray(items, width) => HeadOf(4, |items|, width) + EncodeItems(utf8, items)
    case IMap(pairs, claimed, width) => HeadOf(5, claimed, width) + EncodePairs(utf8, pairs)
    case ITagged(kind, tag, width, inner) => HeadOf(kind, tag, width) + EncodeItem(utf8, inner)
  }

  function EncodeItems(utf8: bytes -> bool, items: seq<Item>): bytes
    requires AllWellFormed(utf8, items)
  {
    if items == [] then [] else EncodeItem(utf8, items[0]) + EncodeItems(utf8, items[1..])
  }

  function EncodePairs(utf8: bytes -> bool, pairs: seq<Pair>): bytes
    requires PairsWellFormed(utf8, pairs)
  {
    if pairs == [] then [] else EncodePair(utf8, pairs[0]) + EncodePairs(utf8, pairs[1..])
  }

  function EncodePair(utf8: bytes -> bool, pair: Pair): bytes
    requires PairWellFormed(utf8, pair)
  {
    EncodeItem(utf8, pair.key) + EncodeItem(utf8, pair.value)
  }

  // The unsigned type of a head's width.
  function Sized(n: nat, width: nat): UnsignedInt
    requires Fits(n, width)
  {
    match width case 2 => UInt16(n) case 4 => UInt32(n) case 8 => UInt64(n) case _ => UInt8(n)
  }

  // What a number below zero wraps around to in a signed type of so many values.
  function Wrapped(m: int, modulus: nat): int {
    if m < -(modulus / 2) then m + modulus else m
  }

  // -1 - n, wrapped around in the signed type of the head's width.
  function Negated(n: nat, width: nat): NegativeInt {
    match width
    case 2 => Int16(Wrapped(-1 - n, 0x1_0000))
    case 4 => Int32(Wrapped(-1 - n, 0x1_0000_0000))
    case 8 => Int64(Wrapped(-1 - n, MAX_LENGTH))
    case _ => Int8(Wrapped(-1 - n, 0x100))
  }

  // What an item says: of two pairs with one key the later counts, and tags count for nothing.
  function ItemValue(item: Item): CborValue {
    match item
    case IUnsigned(n, width) =>
      if n < 5 && width < 2 then HashTreeTag([TagEmpty, TagFork, TagLabelled, TagLeaf, TagPruned][n])
      else Unsigned(match width case 2 => UInt16(n) case 4 => UInt32(n) case 8 => UInt64(n) case _ => UInt8(n))
    case INegative(n, width) => Signed(Negated(n, width))
    case IString(_, b, _) => ByteString(b)
    case IArray(items, _) => Array(ItemValues(items))
    case IMap(pairs, _, _) => Map(PairValues(pairs))
    case ITagged(_, _, _, inner) => ItemValue(inner)
  }

  function ItemValues(items: seq<Item>): seq<CborValue> {
    if items == [] then [] else [ItemValue(items[0])] + ItemValues(items[1..])
  }

  function PairValues(pairs: seq<Pair>): map<bytes, CborValue> {
    if pairs == [] then map[] else PairValue(pairs[0]) + PairValues(pairs[1..])
  }

  function PairValue(pair: Pair): map<bytes, CborValue> {
    var key := ItemValue(pair.key);
    if key.ByteString? then map[key.bytes := ItemValue(pair.value)] else map[]
  }

  // ---------- Round trip ----------

  ghost function Pow256(n: nat): nat {
    if n == 0 then 1 else 256 * Pow256(n - 1)
  }

  lemma {:induction false} NumberRoundTrip(n: nat, width: nat)
    requires n < Pow256(width)
    ensures BigEndian(NumberBytes(n, width)) == n
  {
    if width > 0 {
      NumberRoundTrip(n / 256, width - 1);
      var s := NumberBytes(n, width);
      assert s[..|s| - 1] == NumberBytes(n / 256, width - 1);
    }
  }

  lemma Widths()
    ensures Pow256(1) == 0x100 && Pow256(2) == 0x1_0000 && Pow256(4) == 0x1_0000_0000 && Pow256(8) == MAX_LENGTH
  {
    assert Pow256(1) == 256 * Pow256(0);
    assert Pow256(2) == 256 * Pow256(1);
    assert Pow256(3) == 256 * Pow256(2);
    assert Pow256(4) == 256 * Pow256(3);
    assert Pow256(5) == 256 * Pow256(4);
    assert Pow256(6) == 256 * Pow256(5);
    assert Pow256(7) == 256 * Pow256(6);
  }

  // Reading a head gives its kind and argument back, whatever its width, and leaves what follows.
  lemma HeadRoundTrip(kind: nat, n: nat, width: nat, rest: bytes)
    requires kind < 8 && Fits(n, width)
    ensures var i := HeadOf(kind, n, width) + rest;
      |i| > 0 && CborType(i[0]) == kind && ExtractCborValue(i) == Ok(Sized(n, width), rest)
  {
    hide Pow256;
    Widths();
    var number := NumberBytes(n, width);
    var i := HeadOf(kind, n, width) + rest;
    assert i[1..] == number + rest;
    assert (number + rest)[..width] == number && (number + rest)[width..] == rest;
    if width > 0 { NumberRoundTrip(n, width); }
  }

  lemma NegativeRead(n: nat, width: nat)
    requires Fits(n, width)
    ensures ToNegative(Sized(n, width)) == Negated(n, width)
  {
  }

  // A negative integer is read as itself exactly when it has a place in the signed type of its width.
  lemma NegativeExact(n: nat, width: nat)
    requires Fits(n, width)
    ensures Negated(n, width).n == -1 - n <==>
      n < match width case 2 => 0x8000 case 4 => 0x8000_0000 case 8 => 0x8000_0000_0000_0000 case _ => 0x80
  {
  }

  // Every item of definite length is read back as what it says, and the parser stops exactly at its end.
  lemma {:induction false} ItemRoundTrip(utf8: bytes -> bool, item: Item, rest: bytes)
    requires WellFormed(utf8, item) && Honest(item)
    ensures Parser(utf8, EncodeItem(utf8, item) + rest) == Ok(ItemValue(item), rest)
    decreases item, 1
  {
    hide HeadOf, ExtractCborValue, Sized, Fits, Negated, ToNegative, CborType;
    match item
    case IUnsigned(n, width) => UnsignedRead(utf8, n, width, rest);
    case INegative(n, width) =>
      HeadRoundTrip(1, n, width, rest);
      NegativeRead(n, width);
    case IString(text, b, width) => StringRead(utf8, text, b, width, rest);
    case IArray(items, width) =>
      HeadFirst(4, |items|, width, EncodeItems(utf8, items), rest);
      ItemsRoundTrip(utf8, items, rest);
    case IMap(pairs, claimed, width) =>
      HeadFirst(5, claimed, width, EncodePairs(utf8, pairs), rest);
      PairsRoundTrip(utf8, pairs, claimed, map[], rest);
      assert map[] + PairValues(pairs) == PairValues(pairs);
    case ITagged(kind, tag, width, inner) =>
      HeadFirst(kind, tag, width, EncodeItem(utf8, inner), rest);
      ItemRoundTrip(utf8, inner, rest);
  }

  lemma HeadFirst(kind: nat, n: nat, width: nat, body: bytes, rest: bytes)
    requires kind < 8 && Fits(n, width)
    ensures var i := HeadOf(kind, n, width) + body + rest;
      |i| > 0 && CborType(i[0]) == kind && ExtractCborValue(i) == Ok(Sized(n, width), body + rest)
      && Sized(n, width).v == n
  {
    HeadRoundTrip(kind, n, width, body + rest);
    assert HeadOf(kind, n, width) + body + rest == HeadOf(kind, n, width) + (body + rest);
  }

  lemma UnsignedRead(utf8: bytes -> bool, n: nat, width: nat, rest: bytes)
    requires Fits(n, width)
    ensures Parser(utf8, HeadOf(0, n, width) + rest) == Ok(ItemValue(IUnsigned(n, width)), rest)
  {
    HeadRoundTrip(0, n, width, rest);
  }

  lemma StringRead(utf8: bytes -> bool, text: bool, b: bytes, width: nat, rest: bytes)
    requires Fits(|b|, width)
    ensures Parser(utf8, HeadOf(if text then 3 else 2, |b|, width) + b + rest) == Ok(ByteString(b), rest)
  {
    HeadFirst(if text then 3 else 2, |b|, width, b, rest);
    assert (b + rest)[..|b|] == b && (b + rest)[|b|..] == rest;
  }

  lemma {:induction false} ItemsRoundTrip(utf8: bytes -> bool, items: seq<Item>, rest: bytes)
    requires AllWellFormed(utf8, items) && AllHonest(items)
    ensures Count(utf8, EncodeItems(utf8, items) + rest, |items|) == Ok(ItemValues(items), rest)
    decreases items, 0
  {
    hide Parser, EncodeItem, ItemValue, WellFormed, Honest;
    if items == [] {
      assert [] + rest == rest;
    } else {
      var tail := EncodeItems(utf8, items[1..]);
      ItemRoundTrip(utf8, items[0], tail + rest);
      ItemsRoundTrip(utf8, items[1..], rest);
      assert EncodeItem(utf8, items[0]) + tail + rest == EncodeItem(utf8, items[0]) + (tail + rest);
    }
  }

  // A map takes the pairs there are, up to the number claimed, and stops without an error where none can be read.
  lemma {:induction false} PairsRoundTrip(
      utf8: bytes -> bool, pairs: seq<Pair>, claimed: nat, acc: map<bytes, CborValue>, rest: bytes)
    requires PairsWellFormed(utf8, pairs) && PairsHonest(pairs)
    requires |pairs| == claimed || (|pairs| < claimed && ExtractKeyValPair(utf8, rest).Err?)
    ensures FoldPairs(utf8, EncodePairs(utf8, pairs) + rest, claimed, acc) == (acc + PairValues(pairs), rest)
    decreases pairs, 0
  {
    hide ExtractKeyValPair, EncodePair, ItemValue, WellFormed, Honest;
    if pairs == [] {
      assert [] + rest == rest;
      assert acc + map[] == acc;
    } else {
      var tail := EncodePairs(utf8, pairs[1..]);
      var name, value := ItemValue(pairs[0].key).bytes, ItemValue(pairs[0].value);
      PairRoundTrip(utf8, pairs[0], tail + rest);
      PairsRoundTrip(utf8, pairs[1..], claimed - 1, acc[name := value], rest);
      assert EncodePair(utf8, pairs[0]) + tail + rest == EncodePair(utf8, pairs[0]) + (tail + rest);
      AddPair(acc, name, value, PairValues(pairs[1..]));
    }
  }

  lemma {:induction false} PairRoundTrip(utf8: bytes -> bool, pair: Pair, rest: bytes)
    requires PairWellFormed(utf8, pair) && PairHonest(pair)
    ensures ExtractKeyValPair(utf8, EncodePair(utf8, pair) + rest) ==
      Ok((ItemValue(pair.key).bytes, ItemValue(pair.value)), rest)
    decreases pair, 0
  {
    hide Parser, EncodeItem, ItemValue, WellFormed, Honest;
    var k, v := EncodeItem(utf8, pair.key), EncodeItem(utf8, pair.value);
    ItemRoundTrip(utf8, pair.key, v + rest);
    ItemRoundTrip(utf8, pair.value, rest);
    assert k + v + rest == k + (v + rest);
  }

  lemma AddPair(acc: map<bytes, CborValue>, name: bytes, value: CborValue, more: map<bytes, CborValue>)
    ensures acc[name := value] + more == acc + (map[name := value] + more)
  {
  }

  // So a map may claim more pairs than it has.
  lemma MapStopsQuietly(utf8: bytes -> bool, pairs: seq<Pair>, claimed: nat, width: nat, rest: bytes)
    requires PairsWellFormed(utf8, pairs) && PairsHonest(pairs) && |pairs| < claimed && Fits(claimed, width)
    requires ExtractKeyValPair(utf8, rest).Err?
    ensures Parser(utf8, HeadOf(5, claimed, width) + EncodePairs(utf8, pairs) + rest) ==
      Ok(Map(PairValues(pairs)), rest)
  {
    hide HeadOf, ExtractCborValue, Sized, Fits, CborType;
    HeadFirst(5, claimed, width, EncodePairs(utf8, pairs), rest);
    PairsRoundTrip(utf8, pairs, claimed, map[], rest);
    assert map[] + PairValues(pairs) == PairValues(pairs);
  }

  // ---------- Nothing else is read ----------

  lemma {:induction false} NumberBack(s: bytes)
    ensures Pow256(|s|) > BigEndian(s) && NumberBytes(BigEndian(s), |s|) == s
  {
    if s != [] {
      var front := s[..|s| - 1];
      NumberBack(front);
      assert s == front + [s[|s| - 1]];
      assert BigEndian(s) / 256 == BigEndian(front);
    }
  }

  lemma FirstByte(e: byte)
    ensures CborType(e) < 8 && CborInfo(e) < 32 && (e as int) == CborType(e) * 32 + CborInfo(e)
  {
  }

  // Whatever is read as a head is one.
  lemma HeadBack(i: bytes) returns (n: nat, width: nat)
    requires ExtractCborValue(i).Ok?
    ensures i != [] && CborType(i[0]) < 8 && Fits(n, width)
    ensures ExtractCborValue(i).value == Sized(n, width)
    ensures i == HeadOf(CborType(i[0]), n, width) + ExtractCborValue(i).rest
  {
    hide Pow256, BigEndian, NumberBytes, CborType, CborInfo;
    Widths();
    FirstByte(i[0]);
    var info := CborInfo(i[0]);
    width := match info case 24 => 1 case 25 => 2 case 26 => 4 case 27 => 8 case _ => 0;
    var number := i[1..][..width];
    NumberBack(number);
    n := if info <= 23 then info else BigEndian(number);
    assert info <= 23 ==> NumberBytes(n, 0) == [] == number;
    assert i == [i[0]] + number + i[1..][width..];
  }

  // Whatever the parser accepts is an item, up to where the parser stops, and is read as what it says.
  lemma {:induction false} ParsedIsItem(utf8: bytes -> bool, i: bytes) returns (item: Item)
    requires Parser(utf8, i).Ok?
    ensures WellFormed(utf8, item) && ItemValue(item) == Parser(utf8, i).value
    ensures i == EncodeItem(utf8, item) + Parser(utf8, i).rest
    decreases |i|, 0
  {
    hide HeadOf, ExtractCborValue, Sized, Fits, Negated, ToNegative, CborType, Count, FoldPairs, UnsignedValue;
    hide EncodeItems, EncodePairs, AllWellFormed, PairsWellFormed, ItemValues, PairValues;
    var n, width := HeadBack(i);
    SizedIs(n, width);
    var kind, rest := CborType(i[0]), ExtractCborValue(i).rest;
    var head, end := HeadOf(kind, n, width), Parser(utf8, i).rest;
    if kind == 0 {
      item := IUnsigned(n, width);
      UnsignedIs(n, width);
    } else if kind == 1 {
      item := INegative(n, width);
      NegativeRead(n, width);
    } else if kind == 2 || kind == 3 {
      item := IString(kind == 3, rest[..n], width);
      assert rest == rest[..n] + rest[n..];
      Reattach(head, rest[..n], end);
    } else if kind == 4 {
      var items := CountedAreItems(utf8, rest, n);
      item := IArray(items, width);
      Reattach(head, EncodeItems(utf8, items), end);
    } else if kind == 5 {
      var pairs := FoldedArePairs(utf8, rest, n, map[]);
      item := IMap(pairs, n, width);
      assert map[] + PairValues(pairs) == PairValues(pairs);
      Reattach(head, EncodePairs(utf8, pairs), end);
    } else {
      var inner := ParsedIsItem(utf8, rest);
      item := ITagged(kind, n, width, inner);
      Reattach(head, EncodeItem(utf8, inner), end);
    }
  }

  lemma Reattach(head: bytes, body: bytes, rest: bytes)
    ensures head + (body + rest) == head + body + rest
  {
  }

  lemma SizedIs(n: nat, width: nat)
    requires Fits(n, width)
    ensures Sized(n, width).v == n
  {
  }

  lemma UnsignedIs(n: nat, width: nat)
    requires Fits(n, width)
    ensures UnsignedValue(Sized(n, width)) == ItemValue(IUnsigned(n, width))
  {
  }

  lemma {:induction false} CountedAreItems(utf8: bytes -> bool, i: bytes, n: nat) returns (items: seq<Item>)
    requires Count(utf8, i, n).Ok?
    ensures |items| == n && AllWellFormed(utf8, items) && ItemValues(items) == Count(utf8, i, n).value
    ensures i == EncodeItems(utf8, items) + Count(utf8, i, n).rest
    decreases |i|, 1
  {
    hide Parser, EncodeItem, ItemValue, WellFormed;
    if n == 0 {
      items := [];
      assert i == [] + i;
    } else {
      var rest := Parser(utf8, i).rest;
      var item := ParsedIsItem(utf8, i);
      var more := CountedAreItems(utf8, rest, n - 1);
      items := [item] + more;
      OneMoreItem(utf8, item, more);
      assert i == EncodeItem(utf8, item) + (EncodeItems(utf8, more) + Count(utf8, i, n).rest);
    }
  }

  lemma {:induction false} FoldedArePairs(
      utf8: bytes -> bool, i: bytes, n: nat, acc: map<bytes, CborValue>) returns (pairs: seq<Pair>)
    ensures |pairs| <= n && PairsWellFormed(utf8, pairs)
    ensures FoldPairs(utf8, i, n, acc).0 == acc + PairValues(pairs)
    ensures i == EncodePairs(utf8, pairs) + FoldPairs(utf8, i, n, acc).1
    ensures |pairs| < n ==> ExtractKeyValPair(utf8, FoldPairs(utf8, i, n, acc).1).Err?
    decreases |i|, 1
  {
    hide Parser, EncodeItem, ItemValue, WellFormed;
    pairs := [];
    if n == 0 || ExtractKeyValPair(utf8, i).Err? {
      assert i == [] + i;
      assert acc + map[] == acc;
    } else {
      var (name, value) := ExtractKeyValPair(utf8, i).value;
      var middle, rest := Parser(utf8, i).rest, ExtractKeyValPair(utf8, i).rest;
      var k := ParsedIsItem(utf8, i);
      var v := ParsedIsItem(utf8, middle);
      var more := FoldedArePairs(utf8, rest, n - 1, acc[name := value]);
      var end := FoldPairs(utf8, i, n, acc).1;
      pairs := [Pair(k, v)] + more;
      OnePairMore(utf8, Pair(k, v), more);
      assert i == EncodePair(utf8, Pair(k, v)) + EncodePairs(utf8, more) + end by {
        Regroup(EncodeItem(utf8, k), EncodeItem(utf8, v), EncodePairs(utf8, more), end);
      }
      AddPair(acc, name, value, PairValues(more));
    }
  }

  lemma Regroup(a: bytes, b: bytes, c: bytes, d: bytes)
    ensures a + (b + (c + d)) == a + b + c + d
  {
  }

  lemma OnePairMore(utf8: bytes -> bool, pair: Pair, more: seq<Pair>)
    requires PairWellFormed(utf8, pair) && PairsWellFormed(utf8, more)
    ensures PairsWellFormed(utf8, [pair] + more)
    ensures EncodePairs(utf8, [pair] + more) == EncodePair(utf8, pair) + EncodePairs(utf8, more)
    ensures PairValues([pair] + more) == map[ItemValue(pair.key).bytes := ItemValue(pair.value)] + PairValues(more)
  {
    hide EncodePair, ItemValue, WellFormed;
    assert ([pair] + more)[1..] == more;
  }

  // A whole input is one item and no more.
  lemma WholeInput(utf8: bytes -> bool, item: Item, extra: bytes)
    requires WellFormed(utf8, item) && Honest(item)
    ensures ParseCbor(utf8, EncodeItem(utf8, item) + extra) == if extra == [] then Some(ItemValue(item)) else None
  {
    hide Parser, EncodeItem, WellFormed, Honest, ItemValue;
    ItemRoundTrip(utf8, item, extra);
  }

  lemma WholeInputIsItem(utf8: bytes -> bool, i: bytes) returns (item: Item)
    requires ParseCbor(utf8, i).Some?
    ensures WellFormed(utf8, item) && i == EncodeItem(utf8, item) && ParseCbor(utf8, i) == Some(ItemValue(item))
  {
    hide Parser, EncodeItem, WellFormed, ItemValue;
    item := ParsedIsItem(utf8, i);
    assert EncodeItem(utf8, item) + [] == EncodeItem(utf8, item);
  }

  // ---------- Trees ----------

  function ShortString(b: bytes): Item
    requires |b| < MAX_LENGTH
  {
    IString(false, b, Shortest(|b|))
  }

  // A tree as an item.
  function TreeItem(t: WireTree): Item
    requires Encodable(t)
  {
    match t
    case Empty => IArray([IUnsigned(0, 0)], 0)
    case Fork(l, r) => IArray([IUnsigned(1, 0), TreeItem(l), TreeItem(r)], 0)
    case Labeled(name, sub) => IArray([IUnsigned(2, 0), ShortString(name), TreeItem(sub)], 0)
    case Leaf(data) => IArray([IUnsigned(3, 0), ShortString(data)], 0)
    case Pruned(digest) => IArray([IUnsigned(4, 0), ShortString(digest)], 0)
  }

  lemma OneMoreItem(utf8: bytes -> bool, a: Item, more: seq<Item>)
    requires WellFormed(utf8, a) && AllWellFormed(utf8, more)
    ensures AllWellFormed(utf8, [a] + more) && ItemValues([a] + more) == [ItemValue(a)] + ItemValues(more)
    ensures AllHonest([a] + more) <==> Honest(a) && AllHonest(more)
    ensures EncodeItems(utf8, [a] + more) == EncodeItem(utf8, a) + EncodeItems(utf8, more)
  {
    assert ([a] + more)[1..] == more;
  }

  // An array of a tag and one or two more items.
  lemma TagAndOne(utf8: bytes -> bool, tag: nat, b: Item)
    requires tag < 5 && WellFormed(utf8, b)
    ensures var a := IArray([IUnsigned(tag, 0), b], 0);
      && WellFormed(utf8, a) && EncodeItem(utf8, a) == Head(4, 2) + Head(0, tag) + EncodeItem(utf8, b)
      && ItemValue(a) == Array([ItemValue(IUnsigned(tag, 0)), ItemValue(b)]) && (Honest(a) <==> Honest(b))
  {
    hide HeadOf;
    var t := IUnsigned(tag, 0);
    OneMoreItem(utf8, b, []);
    OneMoreItem(utf8, t, [b] + []);
    assert [t] + ([b] + []) == [t, b];
  }

  lemma TagAndTwo(utf8: bytes -> bool, tag: nat, b: Item, c: Item)
    requires tag < 5 && WellFormed(utf8, b) && WellFormed(utf8, c)
    ensures var a := IArray([IUnsigned(tag, 0), b, c], 0);
      && WellFormed(utf8, a)
      && EncodeItem(utf8, a) == Head(4, 3) + Head(0, tag) + EncodeItem(utf8, b) + EncodeItem(utf8, c)
      && ItemValue(a) == Array([ItemValue(IUnsigned(tag, 0)), ItemValue(b), ItemValue(c)])
      && (Honest(a) <==> Honest(b) && Honest(c))
  {
    hide HeadOf;
    var t := IUnsigned(tag, 0);
    OneMoreItem(utf8, c, []);
    OneMoreItem(utf8, b, [c] + []);
    OneMoreItem(utf8, t, [b] + ([c] + []));
    assert [t] + ([b] + ([c] + [])) == [t, b, c];
  }

  lemma ShortStringIs(utf8: bytes -> bool, b: bytes)
    requires |b| < MAX_LENGTH
    ensures WellFormed(utf8, ShortString(b)) && EncodeItem(utf8, ShortString(b)) == EncodeBytes(b)
    ensures ItemValue(ShortString(b)) == ByteString(b) && Honest(ShortString(b))
  {
    hide HeadOf;
  }

  // Each tree's encoding is that of its item.
  lemma {:induction false} TreeIsItem(utf8: bytes -> bool, t: WireTree)
    requires Encodable(t)
    ensures WellFormed(utf8, TreeItem(t)) && ItemValue(TreeItem(t)) == TreeValue(t)
    ensures EncodeItem(utf8, TreeItem(t)) == Encode(t) && Honest(TreeItem(t))
  {
    hide Head, EncodeItem, EncodeBytes, WellFormed, ShortString, Honest;
    match t
    case Empty => LoneTag(utf8);
    case Fork(l, r) =>
      TreeIsItem(utf8, l);
      TreeIsItem(utf8, r);
      TagAndTwo(utf8, 1, TreeItem(l), TreeItem(r));
    case Labeled(name, sub) =>
      TreeIsItem(utf8, sub);
      ShortStringIs(utf8, name);
      TagAndTwo(utf8, 2, ShortString(name), TreeItem(sub));
    case Leaf(data) =>
      ShortStringIs(utf8, data);
      TagAndOne(utf8, 3, ShortString(data));
    case Pruned(digest) =>
      ShortStringIs(utf8, digest);
      TagAndOne(utf8, 4, ShortString(digest));
  }

  lemma LoneTag(utf8: bytes -> bool)
    ensures var a := IArray([IUnsigned(0, 0)], 0);
      && WellFormed(utf8, a) && EncodeItem(utf8, a) == Head(4, 1) + Head(0, 0)
      && ItemValue(a) == Array([HashTreeTag(TagEmpty)]) && Honest(a)
  {
    hide HeadOf;
    assert [IUnsigned(0, 0)][1..] == [];
  }

  // The parser reads an encoded tree back and stops exactly at its end.
  lemma ParserRoundTrip(utf8: bytes -> bool, t: WireTree, rest: bytes)
    requires Encodable(t)
    ensures Parser(utf8, Encode(t) + rest) == Ok(TreeValue(t), rest)
  {
    hide *;
    TreeIsItem(utf8, t);
    ItemRoundTrip(utf8, TreeItem(t), rest);
  }

  // The values that stand for a tree: what follows the parts of a node is ignored.
  predicate Represents(v: CborValue, t: WireTree)
    decreases t
  {
    && v.Array? && |v.items| > 0
    && match t
       case Empty => v.items[0] == HashTreeTag(TagEmpty)
       case Fork(l, r) =>
         |v.items| > 2 && v.items[0] == HashTreeTag(TagFork) && Represents(v.items[1], l) && Represents(v.items[2], r)
       case Labeled(name, sub) =>
         |v.items| > 2 && v.items[..2] == [HashTreeTag(TagLabelled), ByteString(name)] && Represents(v.items[2], sub)
       case Leaf(data) => |v.items| > 1 && v.items[..2] == [HashTreeTag(TagLeaf), ByteString(data)]
       case Pruned(digest) =>
         |v.items| > 1 && v.items[..2] == [HashTreeTag(TagPruned), ByteString(digest)] && |digest| == 32
  }

  lemma {:induction false} DecodesExactly(v: CborValue, t: WireTree)
    ensures ParsedCborToTree(v) == Tree(t) <==> Represents(v, t)
    decreases t
  {
    match t
    case Fork(l, r) =>
      if v.Array? && |v.items| > 2 {
        DecodesExactly(v.items[1], l);
        DecodesExactly(v.items[2], r);
      }
    case Labeled(_, sub) => if v.Array? && |v.items| > 2 { DecodesExactly(v.items[2], sub); }
    case _ =>
  }

  // A digest of another length is its own kind of error.
  lemma DigestLength(items: seq<CborValue>)
    requires |items| > 1 && items[0] == HashTreeTag(TagPruned) && items[1].ByteString?
    ensures ParsedCborToTree(Array(items)) ==
      if |items[1].bytes| == 32 then Tree(Pruned(items[1].bytes)) else Failed(IncorrectPrunedDataLength)
  {
  }

  lemma {:induction false} TreeValueDecodes(t: WireTree)
    requires Encodable(t)
    ensures ParsedCborToTree(TreeValue(t)) == Tree(t)
  {
    match t
    case Fork(l, r) => TreeValueDecodes(l); TreeValueDecodes(r);
    case Labeled(_, sub) => TreeValueDecodes(sub);
    case _ =>
  }

  // A tag is read as a head and dropped, and so is a float.
  lemma TagSkipped(utf8: bytes -> bool, kind: nat, tag: nat, width: nat, i: bytes)
    requires 6 <= kind < 8 && Fits(tag, width)
    ensures Parser(utf8, HeadOf(kind, tag, width) + i) == Parser(utf8, i)
  {
    hide HeadOf, ExtractCborValue, CborType, Sized, Fits;
    HeadRoundTrip(kind, tag, width, i);
  }

  lemma SelfDescribeIsTag()
    ensures SELF_DESCRIBE == HeadOf(6, 55799, 2)
  {
    assert NumberBytes(217, 1) == NumberBytes(0, 0) + [217];
    assert NumberBytes(55799, 2) == NumberBytes(217, 1) + [247];
  }

  // Decoding an encoded tree gives the tree back, with or without the self-describe tag.
  lemma CborRoundTrip(utf8: bytes -> bool, t: WireTree)
    requires Encodable(t)
    ensures FromCbor(utf8, Encode(t)) == Tree(t)
    ensures FromCbor(utf8, SELF_DESCRIBE + Encode(t)) == Tree(t)
  {
    hide Encode, TreeValue, ParsedCborToTree, Parser, Encodable;
    ParserRoundTrip(utf8, t, []);
    assert Encode(t) + [] == Encode(t);
    TreeValueDecodes(t);
    SelfDescribeIsTag();
    TagSkipped(utf8, 6, 55799, 2, Encode(t));
  }

  // No encoding is another one's beginning, so trees can follow each other in a stream.
  lemma EncodingsPrefixFree(t: WireTree, u: WireTree, x: bytes, y: bytes)
    requires Encodable(t) && Encodable(u) && Encode(t) + x == Encode(u) + y
    ensures t == u && x == y
  {
    var utf8 := (_: bytes) => true;
    ParserRoundTrip(utf8, t, x);
    ParserRoundTrip(utf8, u, y);
    TreeValueDecodes(t);
    TreeValueDecodes(u);
  }
}
