// Certificates, read from CBOR: a tree, a signature over its root hash, and the delegation of the signing key.
module Certificates {
  import opened Bytes
  import opened Cbor

  datatype Delegation = Delegation(subnetId: bytes, certificate: bytes)

  datatype Certificate = Certificate(tree: WireTree, signature: bytes, delegation: Option<Delegation>)

  datatype CertificateResult = Read(certificate: Certificate) | Rejected(error: CborError)

  const TREE: bytes := [116, 114, 101, 101]
  const SIGNATURE: bytes := [115, 105, 103, 110, 97, 116, 117, 114, 101]
  const DELEGATION: bytes := [100, 101, 108, 101, 103, 97, 116, 105, 111, 110]
  const SUBNET_ID: bytes := [115, 117, 98, 110, 101, 116, 95, 105, 100]
  const CERTIFICATE: bytes := [99, 101, 114, 116, 105, 102, 105, 99, 97, 116, 101]

  // ---------- Reading ----------

  function StringAt(entries: map<bytes, CborValue>, key: bytes): Option<bytes> {
    if key in entries && entries[key].ByteString? then Some(entries[key].bytes) else None
  }

  function ParsedCborToCertificate(v: CborValue): CertificateResult {
    if !v.Map? then Rejected(MalformedCertificate("Expected Map when parsing Certificate Cbor"))
    else if TREE !in v.entries then Rejected(MalformedCertificate("Expected Tree when parsing Certificate Cbor"))
    else
      match ParsedCborToTree(v.entries[TREE])
      case Failed(e) => Rejected(e)
      case Tree(tree) =>
        match StringAt(v.entries, SIGNATURE)
        case None => Rejected(MalformedCertificate("Expected Signature when parsing Certificate Cbor"))
        case Some(signature) =>
          if DELEGATION in v.entries && v.entries[DELEGATION].Map? then
            var delegation := v.entries[DELEGATION].entries;
            match StringAt(delegation, SUBNET_ID)
            case None =>
              Rejected(MalformedCertificate(
                "Expected Delegation Map to contain a Subnet ID when parsing Certificate Cbor"))
            case Some(subnetId) =>
              match StringAt(delegation, CERTIFICATE)
              case None =>
                Rejected(MalformedCertificate(
                  "Expected Delegation Map to contain a Certificate when parsing Certificate Cbor"))
              case Some(certificate) =>
                Read(Certificate(tree, signature, Some(Delegation(subnetId, certificate))))
          else Read(Certificate(tree, signature, None))
  }

  function CertificateFromCbor(utf8: bytes -> bool, cbor: bytes): CertificateResult {
    match ParseCbor(utf8, cbor)
    case None => Rejected(MalformedCbor)
    case Some(v) => ParsedCborToCertificate(v)
  }

  // ---------- What is read ----------

  // The value under a key, whatever else the map holds.
  predicate Holds(entries: map<bytes, CborValue>, key: bytes, b: bytes) {
    key in entries && entries[key] == ByteString(b)
  }

  // The map says this certificate. A delegation that is not a map counts as none.
  predicate Says(v: CborValue, c: Certificate) {
    && v.Map? && TREE in v.entries && Represents(v.entries[TREE], c.tree) && Holds(v.entries, SIGNATURE, c.signature)
    && match c.delegation
       case None => DELEGATION in v.entries ==> !v.entries[DELEGATION].Map?
       case Some(d) =>
         && DELEGATION in v.entries && v.entries[DELEGATION].Map?
         && Holds(v.entries[DELEGATION].entries, SUBNET_ID, d.subnetId)
         && Holds(v.entries[DELEGATION].entries, CERTIFICATE, d.certificate)
  }

  // A certificate is read exactly from the maps that say it.
  lemma ReadsExactly(v: CborValue, c: Certificate)
    ensures ParsedCborToCertificate(v) == Read(c) <==> Says(v, c)
  {
    hide ParsedCborToTree, Represents, StringAt, Holds;
    if v.Map? && TREE in v.entries {
      DecodesExactly(v.entries[TREE], c.tree);
      HoldsExactly(v.entries, SIGNATURE, c.signature);
      if DELEGATION in v.entries && v.entries[DELEGATION].Map? && c.delegation.Some? {
        HoldsExactly(v.entries[DELEGATION].entries, SUBNET_ID, c.delegation.value.subnetId);
        HoldsExactly(v.entries[DELEGATION].entries, CERTIFICATE, c.delegation.value.certificate);
      }
    }
  }

  lemma HoldsExactly(entries: map<bytes, CborValue>, key: bytes, b: bytes)
    ensures StringAt(entries, key) == Some(b) <==> Holds(entries, key, b)
  {
  }

  // ---------- Round trip ----------

  function Named(name: bytes, value: Item): Pair
    requires |name| < 24
  {
    Pair(IString(true, name, 0), value)
  }

  predicate EncodableCertificate(c: Certificate) {
    && Encodable(c.tree) && |c.signature| < MAX_LENGTH
    && (c.delegation.Some? ==>
         |c.delegation.value.subnetId| < MAX_LENGTH && |c.delegation.value.certificate| < MAX_LENGTH)
  }

  function DelegationItem(d: Delegation): Item
    requires |d.subnetId| < MAX_LENGTH && |d.certificate| < MAX_LENGTH
  {
    IMap([Named(SUBNET_ID, ShortString(d.subnetId)), Named(CERTIFICATE, ShortString(d.certificate))], 2, 0)
  }

  // The fields in their order; a missing delegation is left out.
  function CertificateItem(c: Certificate): Item
    requires EncodableCertificate(c)
  {
    var fields := [Named(TREE, TreeItem(c.tree)), Named(SIGNATURE, ShortString(c.signature))];
    match c.delegation
    case None => IMap(fields, 2, 0)
    case Some(d) => IMap(fields + [Named(DELEGATION, DelegationItem(d))], 3, 0)
  }

  // The keys are ASCII.
  predicate KeysAreUtf8(utf8: bytes -> bool) {
    utf8(TREE) && utf8(SIGNATURE) && utf8(DELEGATION) && utf8(SUBNET_ID) && utf8(CERTIFICATE)
  }

  lemma OneMorePair(utf8: bytes -> bool, name: bytes, value: Item, more: seq<Pair>)
    requires |name| < 24 && utf8(name) && WellFormed(utf8, value) && PairsWellFormed(utf8, more)
    ensures PairsWellFormed(utf8, [Named(name, value)] + more)
    ensures PairsHonest([Named(name, value)] + more) <==> Honest(value) && PairsHonest(more)
    ensures PairValues([Named(name, value)] + more) == map[name := ItemValue(value)] + PairValues(more)
  {
    hide ItemValue, WellFormed, Honest;
    NameIsString(utf8, name);
    assert ([Named(name, value)] + more)[1..] == more;
  }

  lemma NameIsString(utf8: bytes -> bool, name: bytes)
    requires |name| < 24
    ensures ItemValue(IString(true, name, 0)) == ByteString(name) && WellFormed(utf8, IString(true, name, 0))
    ensures Honest(IString(true, name, 0))
  {
  }

  lemma KeysDiffer()
    ensures TREE != SIGNATURE && TREE != DELEGATION && SIGNATURE != DELEGATION && SUBNET_ID != CERTIFICATE
  {
    assert |TREE| == 4 && |SIGNATURE| == 9 && |DELEGATION| == 10 && |CERTIFICATE| == 11;
  }

  lemma DelegationSaid(utf8: bytes -> bool, d: Delegation)
    requires KeysAreUtf8(utf8) && |d.subnetId| < MAX_LENGTH && |d.certificate| < MAX_LENGTH
    ensures WellFormed(utf8, DelegationItem(d)) && Honest(DelegationItem(d))
    ensures ItemValue(DelegationItem(d)) ==
      Map(map[SUBNET_ID := ByteString(d.subnetId)] + map[CERTIFICATE := ByteString(d.certificate)])
  {
    hide ShortString, Named;
    ShortStringIs(utf8, d.subnetId);
    ShortStringIs(utf8, d.certificate);
    var a, b := Named(SUBNET_ID, ShortString(d.subnetId)), Named(CERTIFICATE, ShortString(d.certificate));
    OneMorePair(utf8, CERTIFICATE, ShortString(d.certificate), []);
    OneMorePair(utf8, SUBNET_ID, ShortString(d.subnetId), [b] + []);
    assert [a] + ([b] + []) == [a, b];
  }

  // The entries of an encoded certificate, the delegation's if there is one.
  function Entries(tree: CborValue, signature: bytes, delegation: map<bytes, CborValue>): map<bytes, CborValue> {
    map[TREE := tree] + (map[SIGNATURE := ByteString(signature)] + delegation)
  }

  lemma EntriesHold(tree: CborValue, signature: bytes, delegation: map<bytes, CborValue>)
    requires delegation.Keys <= {DELEGATION}
    ensures var entries := Entries(tree, signature, delegation);
      && TREE in entries && entries[TREE] == tree && Holds(entries, SIGNATURE, signature)
      && (DELEGATION in entries <==> DELEGATION in delegation)
      && (DELEGATION in delegation ==> entries[DELEGATION] == delegation[DELEGATION])
  {
    KeysDiffer();
    assert TREE !in delegation && SIGNATURE !in delegation;
  }

  lemma FieldsSaid(utf8: bytes -> bool, c: Certificate, last: seq<Pair>)
    requires KeysAreUtf8(utf8) && EncodableCertificate(c) && PairsWellFormed(utf8, last)
    ensures var fields := [Named(TREE, TreeItem(c.tree)), Named(SIGNATURE, ShortString(c.signature))] + last;
      PairsWellFormed(utf8, fields) && PairValues(fields) == Entries(TreeValue(c.tree), c.signature, PairValues(last))
        && (PairsHonest(fields) <==> PairsHonest(last))
  {
    hide ShortString, TreeItem, Named, PairValues, PairsHonest;
    TreeIsItem(utf8, c.tree);
    ShortStringIs(utf8, c.signature);
    var a, b := Named(TREE, TreeItem(c.tree)), Named(SIGNATURE, ShortString(c.signature));
    OneMorePair(utf8, SIGNATURE, ShortString(c.signature), last);
    OneMorePair(utf8, TREE, TreeItem(c.tree), [b] + last);
    assert [a] + ([b] + last) == [a, b] + last;
  }

  lemma LastSaid(utf8: bytes -> bool, d: Delegation)
    requires KeysAreUtf8(utf8) && |d.subnetId| < MAX_LENGTH && |d.certificate| < MAX_LENGTH
    ensures var last := [Named(DELEGATION, DelegationItem(d))];
      PairsWellFormed(utf8, last) && PairValues(last) == map[DELEGATION := ItemValue(DelegationItem(d))]
        && PairsHonest(last)
  {
    hide DelegationItem, Named;
    DelegationSaid(utf8, d);
    OneMorePair(utf8, DELEGATION, DelegationItem(d), []);
    assert [Named(DELEGATION, DelegationItem(d))] + [] == [Named(DELEGATION, DelegationItem(d))];
    assert PairValues([]) == map[];
  }

  lemma CertificateEntries(utf8: bytes -> bool, c: Certificate)
    requires KeysAreUtf8(utf8) && EncodableCertificate(c)
    ensures WellFormed(utf8, CertificateItem(c)) && Honest(CertificateItem(c))
    ensures ItemValue(CertificateItem(c)) == Map(Entries(TreeValue(c.tree), c.signature,
      if c.delegation.None? then map[] else map[DELEGATION := ItemValue(DelegationItem(c.delegation.value))]))
  {
    hide TreeItem, ShortString, DelegationItem, Named, Entries, PairValues, PairsWellFormed, PairsHonest;
    NoPairs(utf8);
    FieldsSaid(utf8, c, []);
    var fields := [Named(TREE, TreeItem(c.tree)), Named(SIGNATURE, ShortString(c.signature))];
    assert fields + [] == fields;
    if c.delegation.Some? {
      LastSaid(utf8, c.delegation.value);
      FieldsSaid(utf8, c, [Named(DELEGATION, DelegationItem(c.delegation.value))]);
    }
  }

  lemma NoPairs(utf8: bytes -> bool)
    ensures PairsWellFormed(utf8, []) && PairValues([]) == map[] && PairsHonest([])
  {
  }

  lemma CertificateSaid(utf8: bytes -> bool, c: Certificate)
    requires KeysAreUtf8(utf8) && EncodableCertificate(c)
    ensures WellFormed(utf8, CertificateItem(c)) && Honest(CertificateItem(c)) && Says(ItemValue(CertificateItem(c)), c)
  {
    hide CertificateItem, ItemValue, Represents, WellFormed, Honest, Entries, DelegationItem;
    CertificateEntries(utf8, c);
    TreeValueDecodes(c.tree);
    DecodesExactly(TreeValue(c.tree), c.tree);
    KeysDiffer();
    if c.delegation.Some? {
      DelegationSaid(utf8, c.delegation.value);
      EntriesHold(TreeValue(c.tree), c.signature, map[DELEGATION := ItemValue(DelegationItem(c.delegation.value))]);
    } else {
      EntriesHold(TreeValue(c.tree), c.signature, map[]);
    }
  }

  // A certificate comes back from its encoding, with or without the self-describe tag.
  lemma CertificateRoundTrip(utf8: bytes -> bool, c: Certificate)
    requires KeysAreUtf8(utf8) && EncodableCertificate(c)
    ensures WellFormed(utf8, CertificateItem(c))
    ensures CertificateFromCbor(utf8, EncodeItem(utf8, CertificateItem(c))) == Read(c)
    ensures CertificateFromCbor(utf8, SELF_DESCRIBE + EncodeItem(utf8, CertificateItem(c))) == Read(c)
  {
    hide CertificateItem, EncodeItem, ItemValue, WellFormed, Honest, Says, ParsedCborToCertificate, Parser;
    CertificateSaid(utf8, c);
    var item := CertificateItem(c);
    var i := EncodeItem(utf8, item);
    ItemRoundTrip(utf8, item, []);
    assert i + [] == i;
    ReadsExactly(ItemValue(item), c);
    SelfDescribeIsTag();
    TagSkipped(utf8, 6, 55799, 2, i);
  }
}
