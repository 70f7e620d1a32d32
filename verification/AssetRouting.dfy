// The asset router: how assets are cut into certified responses, and which response a request gets.
module AssetRouting {
  import opened Bytes
  import opened HashTree
  import opened RbTree
  import opened NestedTrees
  import opened WildcardPaths
  import opened HttpTree
  import opened AssetScopes
  import opened Stores

  const ASSET_CHUNK_SIZE: nat := 2_000_000
  const OK: nat := 200
  const PARTIAL_CONTENT: nat := 206

  // ---------- Responses ----------

  datatype Asset = Asset(url: bytes, content: bytes)

  // The headers an asset configuration adds.
  datatype AssetHeaders = AssetHeaders(contentType: Option<bytes>, additional: seq<(bytes, bytes)>)

  // "bytes begin-end/total", the end included.
  datatype ContentRange = ContentRange(begin: nat, end: nat, total: nat)

  datatype Response = Response(
    statusCode: nat, body: bytes, headers: AssetHeaders, contentEncoding: Option<bytes>,
    contentRange: Option<ContentRange>)

  datatype RequestKey = RequestKey(path: bytes, encoding: Option<bytes>, rangeBegin: Option<nat>)

  datatype CertifiedAssetResponse = CertifiedAssetResponse(response: Response, treeEntry: HttpCertificationTreeEntry)

  type ResponseMap = map<RequestKey, CertifiedAssetResponse>

  // The three hashes of a full certification: of the CEL expression, the request and the response.
  datatype Hashes = Hashes(celExpr: bytes, request: bytes, response: bytes)

  // HttpCertification::full over a url, the begin of the certified Range header and a response: None is its error.
  type Certifier = (bytes, Option<nat>, Response) -> Option<Hashes>

  function Min(a: nat, b: nat): nat {
    if a < b then a else b
  }

  function PrepareAssetResponse(
    asset: Asset, headers: AssetHeaders, encoding: Option<bytes>, rangeBegin: Option<nat>, statusCode: nat): Response
    requires rangeBegin.Some? ==> rangeBegin.value < |asset.content|
  {
    match rangeBegin
    case None => Response(statusCode, asset.content, headers, encoding, None)
    case Some(begin) =>
      var total := |asset.content|;
      var end := Min(begin + ASSET_CHUNK_SIZE, total) - 1;
      Response(PARTIAL_CONTENT, asset.content[begin..end + 1], headers, encoding, Some(ContentRange(begin, end, total)))
  }

  // The Range header is certified for every chunk but the first.
  function CertifiedRange(rangeBegin: Option<nat>): Option<nat> {
    if rangeBegin == Some(0) then None else rangeBegin
  }

  function Prepare(
    certify: Certifier, path: HttpCertificationPath, asset: Asset, headers: AssetHeaders, encoding: Option<bytes>,
    rangeBegin: Option<nat>, statusCode: nat): Option<CertifiedAssetResponse>
    requires rangeBegin.Some? ==> rangeBegin.value < |asset.content|
  {
    var response := PrepareAssetResponse(asset, headers, encoding, rangeBegin, statusCode);
    match certify(asset.url, CertifiedRange(rangeBegin), response)
    case None => None
    case Some(h) =>
      var certification := FullCertification(h.celExpr, h.request, h.response);
      Some(CertifiedAssetResponse(response, Entry(path, certification)))
  }

  function PrepareStaticAsset(
    certify: Certifier, asset: Asset, headers: AssetHeaders, encoding: Option<bytes>, rangeBegin: Option<nat>)
    : Option<CertifiedAssetResponse>
    requires rangeBegin.Some? ==> rangeBegin.value < |asset.content|
  {
    Prepare(certify, ExactPath(asset.url), asset, headers, encoding, rangeBegin, OK)
  }

  function PrepareFallbackAsset(
    certify: Certifier, asset: Asset, headers: AssetHeaders, scope: bytes, statusCode: Option<nat>,
    encoding: Option<bytes>)
    : Option<CertifiedAssetResponse>
  {
    var status := if statusCode.Some? then statusCode.value else OK;
    Prepare(certify, WildcardPath(scope), asset, headers, encoding, None, status)
  }

  // ---------- What an asset is stored as ----------

  // How many chunks a content of this length makes: none when it is served whole.
  function ChunkCount(length: nat): (n: nat)
    ensures length > ASSET_CHUNK_SIZE ==> (n - 1) * ASSET_CHUNK_SIZE < length <= n * ASSET_CHUNK_SIZE
  {
    if length > ASSET_CHUNK_SIZE then (length + ASSET_CHUNK_SIZE - 1) / ASSET_CHUNK_SIZE else 0
  }

  // The begins of the responses made for a content: one per chunk, then the whole.
  function Begins(length: nat): (begins: seq<Option<nat>>)
    ensures |begins| == ChunkCount(length) + 1
    ensures forall i ::
      0 <= i < |begins| ==> (begins[i] == if i < ChunkCount(length) then Some(i * ASSET_CHUNK_SIZE) else None)
    ensures forall i :: 0 <= i < |begins| ==> begins[i].Some? ==> begins[i].value < length
  {
    var count := ChunkCount(length);
    seq(count + 1, i requires 0 <= i => if i < count then Some(i * ASSET_CHUNK_SIZE) else None)
  }

  // The responses for the first n begins, each None where certification fails.
  function Piece(
      certify: Certifier, asset: Asset, headers: AssetHeaders, encoding: Option<bytes>,
      i: nat): Option<CertifiedAssetResponse>
    requires i <= ChunkCount(|asset.content|)
  {
    PrepareStaticAsset(certify, asset, headers, encoding, Begins(|asset.content|)[i])
  }

  ghost predicate Certifiable(certify: Certifier, asset: Asset, headers: AssetHeaders, encoding: Option<bytes>, n: nat)
    requires n <= ChunkCount(|asset.content|) + 1
  {
    forall i :: 0 <= i < n ==> Piece(certify, asset, headers, encoding, i).Some?
  }

  function PieceKey(asset: Asset, encoding: Option<bytes>, i: nat): RequestKey
    requires i <= ChunkCount(|asset.content|)
  {
    RequestKey(asset.url, encoding, Begins(|asset.content|)[i])
  }

  ghost function FirstKeys(asset: Asset, encoding: Option<bytes>, n: nat): set<RequestKey>
    requires n <= ChunkCount(|asset.content|)
  {
    set i | 0 <= i < n :: PieceKey(asset, encoding, i)
  }

  // Every key the asset is stored under.
  ghost function PieceKeys(asset: Asset, encoding: Option<bytes>): set<RequestKey> {
    set i | 0 <= i <= ChunkCount(|asset.content|) :: PieceKey(asset, encoding, i)
  }

  lemma NoKeys(asset: Asset, encoding: Option<bytes>)
    ensures FirstKeys(asset, encoding, 0) == {}
  {
  }

  lemma NextKey(asset: Asset, encoding: Option<bytes>, n: nat)
    requires n < ChunkCount(|asset.content|)
    ensures FirstKeys(asset, encoding, n + 1) ==
      FirstKeys(asset, encoding, n) + {RequestKey(asset.url, encoding, Some(n * ASSET_CHUNK_SIZE))}
  {
    var key := RequestKey(asset.url, encoding, Some(n * ASSET_CHUNK_SIZE));
    assert PieceKey(asset, encoding, n) == key;
  }

  lemma AllKeys(asset: Asset, encoding: Option<bytes>)
    ensures PieceKeys(asset, encoding) ==
      FirstKeys(asset, encoding, ChunkCount(|asset.content|)) + {RequestKey(asset.url, encoding, None)}
  {
    assert PieceKey(asset, encoding, ChunkCount(|asset.content|)) == RequestKey(asset.url, encoding, None);
  }

  // The map with the first n responses of the asset stored.
  ghost function Stored(
    m: ResponseMap, certify: Certifier, asset: Asset, headers: AssetHeaders, encoding: Option<bytes>,
    n: nat): ResponseMap
    requires n <= ChunkCount(|asset.content|) + 1 && Certifiable(certify, asset, headers, encoding, n)
  {
    if n == 0 then m
    else Stored(m, certify, asset, headers, encoding, n - 1)[
      PieceKey(asset, encoding, n - 1) := Piece(certify, asset, headers, encoding, n - 1).value]
  }

  lemma {:induction false} StoredMeaning(
    m: ResponseMap, certify: Certifier, asset: Asset, headers: AssetHeaders, encoding: Option<bytes>, n: nat)
    requires n <= ChunkCount(|asset.content|) + 1 && Certifiable(certify, asset, headers, encoding, n)
    ensures var s := Stored(m, certify, asset, headers, encoding, n);
      && (forall i :: 0 <= i < n ==>
           PieceKey(asset, encoding, i) in s
             && s[PieceKey(asset, encoding, i)] == Piece(certify, asset, headers, encoding, i).value)
      && (forall k :: (forall i :: 0 <= i < n ==> k != PieceKey(asset, encoding, i)) ==>
           (k in s <==> k in m) && (k in m ==> s[k] == m[k]))
  {
    hide Piece, PieceKey;
    if n > 0 {
      var s, t := Stored(m, certify, asset, headers, encoding, n), Stored(m, certify, asset, headers, encoding, n - 1);
      StoredMeaning(m, certify, asset, headers, encoding, n - 1);
      var key := PieceKey(asset, encoding, n - 1);
      assert s == t[key := Piece(certify, asset, headers, encoding, n - 1).value];
      forall i | 0 <= i < n - 1 ensures PieceKey(asset, encoding, i) != key { KeysDiffer(asset, encoding, i, n - 1); }
    }
  }

  lemma KeysDiffer(asset: Asset, encoding: Option<bytes>, i: nat, j: nat)
    requires i < j <= ChunkCount(|asset.content|)
    ensures PieceKey(asset, encoding, i) != PieceKey(asset, encoding, j)
  {
  }

  // ---------- What the tree holds ----------

  ghost function EntryPaths(
    certify: Certifier, asset: Asset, headers: AssetHeaders, encoding: Option<bytes>, n: nat): (paths: seq<Path>)
    requires n <= ChunkCount(|asset.content|) + 1 && Certifiable(certify, asset, headers, encoding, n)
    ensures |paths| == n
  {
    if n == 0 then []
    else
      EntryPaths(certify, asset, headers, encoding, n - 1)
        + [Piece(certify, asset, headers, encoding, n - 1).value.treeEntry.ToTreePath()]
  }

  // What a store holds once the paths are inserted in it.
  ghost function Placed(v: NestedTree, paths: seq<Path>, q: Path): Option<bytes> {
    if q in paths then Some([])
    else if exists i :: 0 <= i < |paths| && Comparable(paths[i], q) then None
    else GetPath(v, q)
  }

  lemma PlacedStep(v: NestedTree, paths: seq<Path>, p: Path, q: Path)
    requires forall i :: 0 <= i < |paths| ==> |paths[i]| == |p|
    ensures Placed(v, paths + [p], q) ==
      if q == p then Some([]) else if Comparable(p, q) then None else Placed(v, paths, q)
  {
    var more := paths + [p];
    assert q in more <==> q in paths || q == p;
    assert more[|paths|] == p;
    assert forall i :: 0 <= i < |paths| ==> more[i] == paths[i];
    if q in paths && Comparable(p, q) {
      assert |p| == |q| && p == q;
    }
  }

  lemma PieceLength(certify: Certifier, asset: Asset, headers: AssetHeaders, encoding: Option<bytes>, i: nat)
    requires i <= ChunkCount(|asset.content|)
    ensures Piece(certify, asset, headers, encoding, i).Some? ==>
      |Piece(certify, asset, headers, encoding, i).value.treeEntry.ToTreePath()| ==
        |ExactPath(asset.url).ToTreePath()| + 3
  {
  }

  lemma {:induction false} EntryPathLengths(
      certify: Certifier, asset: Asset, headers: AssetHeaders, encoding: Option<bytes>, n: nat)
    requires n <= ChunkCount(|asset.content|) + 1 && Certifiable(certify, asset, headers, encoding, n)
    ensures forall p ::
      p in EntryPaths(certify, asset, headers, encoding, n) ==> |p| == |ExactPath(asset.url).ToTreePath()| + 3
  {
    hide Piece, HttpCertificationTreeEntry.ToTreePath, HttpCertificationPath.ToTreePath;
    if n > 0 {
      EntryPathLengths(certify, asset, headers, encoding, n - 1);
      PieceLength(certify, asset, headers, encoding, n - 1);
    }
  }

  // The keys that deletion by path removes for the first n paths.
  ghost function WholeKeys(paths: seq<bytes>, n: nat): set<RequestKey>
    requires n <= |paths|
  {
    set i | 0 <= i < n :: RequestKey(paths[i], None, None)
  }

  ghost predicate UnderAny(paths: seq<bytes>, n: nat, q: Path)
    requires n <= |paths|
  {
    exists i :: 0 <= i < n && ExactPath(paths[i]).ToTreePath() <= q
  }

  lemma NoPathYet(paths: seq<bytes>)
    ensures WholeKeys(paths, 0) == {} && forall q :: !UnderAny(paths, 0, q)
  {
  }

  lemma NextPath(paths: seq<bytes>, n: nat)
    requires n < |paths|
    ensures WholeKeys(paths, n + 1) == WholeKeys(paths, n) + {RequestKey(paths[n], None, None)}
    ensures forall q ::
      UnderAny(paths, n + 1, q) <==> UnderAny(paths, n, q) || ExactPath(paths[n]).ToTreePath() <= q
  {
    hide HttpCertificationPath.ToTreePath;
  }

  // The witness finds the entry's own certification if the tree has it, and proves its absence otherwise.
  ghost predicate ShowsEntry(w: HashTree, v: NestedTree, entry: HttpCertificationTreeEntry) {
    if ContainsPath(v, entry.ToTreePath()) then LookupSubtree(w, [PATH_PREFIX] + entry.ToTreePath()).SubtreeFound?
    else LookupSubtree(w, [PATH_PREFIX] + entry.ToTreePath()).SubtreeAbsent?
  }

  lemma OwnEntryShown(w: HashTree, v: NestedTree, entry: HttpCertificationTreeEntry, path: bytes)
    requires forall p :: MustDecide(entry, path, p) ==> Settles(w, v, p)
    ensures ShowsEntry(w, v, entry)
  {
    assert entry.path.ToTreePath() <= entry.ToTreePath();
    assert MustDecide(entry, path, entry.ToTreePath());
  }

  lemma Nothing(
      m: ResponseMap, v: NestedTree, certify: Certifier, asset: Asset, headers: AssetHeaders, encoding: Option<bytes>)
    ensures Certifiable(certify, asset, headers, encoding, 0)
    ensures Stored(m, certify, asset, headers, encoding, 0) == m
    ensures forall q :: Placed(v, EntryPaths(certify, asset, headers, encoding, 0), q) == GetPath(v, q)
  {
  }

  lemma PieceIs(certify: Certifier, asset: Asset, headers: AssetHeaders, encoding: Option<bytes>, i: nat)
    requires i <= ChunkCount(|asset.content|)
    ensures var begin := if i < ChunkCount(|asset.content|) then Some(i * ASSET_CHUNK_SIZE) else None;
      && PieceKey(asset, encoding, i) == RequestKey(asset.url, encoding, begin)
      && (begin.Some? ==> begin.value < |asset.content|)
      && Piece(certify, asset, headers, encoding, i) == PrepareStaticAsset(certify, asset, headers, encoding, begin)
      && (Piece(certify, asset, headers, encoding, i).Some? ==>
           Piece(certify, asset, headers, encoding, i).value.treeEntry.path == ExactPath(asset.url))
  {
  }

  // One more response certified, stored and inserted.
  lemma PieceStored(
    m: ResponseMap, v: NestedTree, before: NestedTree, after: NestedTree,
    certify: Certifier, asset: Asset, headers: AssetHeaders, encoding: Option<bytes>, i: nat)
    requires i <= ChunkCount(|asset.content|) && Certifiable(certify, asset, headers, encoding, i)
    requires Piece(certify, asset, headers, encoding, i).Some?
    requires forall q :: GetPath(before, q) == Placed(v, EntryPaths(certify, asset, headers, encoding, i), q)
    requires var p := Piece(certify, asset, headers, encoding, i).value.treeEntry.ToTreePath();
      forall q ::
        (GetPath(after, q) == if q == p then Some([]) else if Comparable(p, q) then None else GetPath(before, q))
    ensures Certifiable(certify, asset, headers, encoding, i + 1)
    ensures Stored(m, certify, asset, headers, encoding, i + 1) ==
      Stored(m, certify, asset, headers, encoding, i)[
        PieceKey(asset, encoding, i) := Piece(certify, asset, headers, encoding, i).value]
    ensures forall q :: GetPath(after, q) == Placed(v, EntryPaths(certify, asset, headers, encoding, i + 1), q)
  {
    hide GetPath, Placed, Piece, PieceKey, Comparable, HttpCertificationTreeEntry.ToTreePath,
      HttpCertificationPath.ToTreePath;
    var p := Piece(certify, asset, headers, encoding, i).value.treeEntry.ToTreePath();
    EntryPathLengths(certify, asset, headers, encoding, i);
    PieceLength(certify, asset, headers, encoding, i);
    forall q ensures GetPath(after, q) == Placed(v, EntryPaths(certify, asset, headers, encoding, i + 1), q) {
      PlacedStep(v, EntryPaths(certify, asset, headers, encoding, i), p, q);
    }
  }

  // ---------- Finding a response ----------

  // The first preferred encoding with an asset for the key decides.
  function EncodedAsset(
      m: ResponseMap, encodings: seq<bytes>, url: bytes, rangeBegin: Option<nat>): Option<CertifiedAssetResponse> {
    if encodings == [] then None
    else
      var key := RequestKey(url, Some(encodings[0]), rangeBegin);
      if key !in m then EncodedAsset(m, encodings[1..], url, rangeBegin)
      else if |m[key].response.body| <= ASSET_CHUNK_SIZE then Some(m[key])
      else
        var first := RequestKey(url, Some(encodings[0]), Some(0));
        if first in m then Some(m[first]) else None
  }

  function EncodedFallback(m: ResponseMap, encodings: seq<bytes>, scope: bytes): Option<CertifiedAssetResponse> {
    if encodings == [] then None
    else
      var key := RequestKey(scope, Some(encodings[0]), None);
      if key in m then Some(m[key]) else EncodedFallback(m, encodings[1..], scope)
  }

  function FallbackAt(m: ResponseMap, encodings: seq<bytes>, scope: bytes): Option<CertifiedAssetResponse> {
    match EncodedFallback(m, encodings, scope)
    case Some(response) => Some(response)
    case None =>
      var key := RequestKey(scope, None, None);
      if key in m then Some(m[key]) else None
  }

  function FirstFallback(m: ResponseMap, encodings: seq<bytes>, scopes: seq<bytes>): Option<CertifiedAssetResponse> {
    if scopes == [] then None
    else
      match FallbackAt(m, encodings, scopes[0])
      case Some(response) => Some(response)
      case None => FirstFallback(m, encodings, scopes[1..])
  }

  // The response for a request: an exact one if there is one, else the first fallback among the scopes.
  function AssetFor(
    m: ResponseMap, fallbacks: ResponseMap, path: bytes, encodings: seq<bytes>,
    rangeBegin: Option<nat>): Option<CertifiedAssetResponse>
  {
    match EncodedAsset(m, encodings, path, rangeBegin)
    case Some(response) => Some(response)
    case None =>
      var key, first := RequestKey(path, None, rangeBegin), RequestKey(path, None, Some(0));
      if key in m && |m[key].response.body| <= ASSET_CHUNK_SIZE then Some(m[key])
      else if key in m && first in m then Some(m[first])
      else FirstFallback(fallbacks, encodings, Scopes(path))
  }

  lemma FirstFallbackStep(m: ResponseMap, encodings: seq<bytes>, a: bytes, b: bytes, rest: seq<bytes>)
    ensures FirstFallback(m, encodings, [a, b] + rest) ==
      if FallbackAt(m, encodings, a).Some? then FallbackAt(m, encodings, a)
      else if FallbackAt(m, encodings, b).Some? then FallbackAt(m, encodings, b)
      else FirstFallback(m, encodings, rest)
  {
    hide FallbackAt;
    assert ([a, b] + rest)[1..] == [b] + rest;
    assert ([b] + rest)[1..] == rest;
  }

  lemma NextScopes(pieces: seq<bytes>)
    requires pieces != []
    ensures ScopesOf(pieces) == [Join(pieces, [SLASH]) + [SLASH], Join(pieces, [SLASH])] + ScopesOf(DropLast(pieces))
  {
  }

  lemma NoScopes(m: ResponseMap, encodings: seq<bytes>)
    ensures FirstFallback(m, encodings, ScopesOf([])) == None
  {
  }

  lemma {:induction false} EncodedAssetStored(
      m: ResponseMap, encodings: seq<bytes>, url: bytes, rangeBegin: Option<nat>)
    ensures var r := EncodedAsset(m, encodings, url, rangeBegin);
      r.Some? ==> exists k :: k in m && k.path == url && m[k] == r.value
  {
    if encodings != [] { EncodedAssetStored(m, encodings[1..], url, rangeBegin); }
  }

  lemma {:induction false} EncodedFallbackStored(m: ResponseMap, encodings: seq<bytes>, scope: bytes)
    ensures var r := EncodedFallback(m, encodings, scope);
      r.Some? ==> exists k :: k in m && k.path == scope && m[k] == r.value
  {
    if encodings != [] { EncodedFallbackStored(m, encodings[1..], scope); }
  }

  // The fallback found is stored under the first scope that has one.
  lemma {:induction false} FirstFallbackIsFirst(m: ResponseMap, encodings: seq<bytes>, scopes: seq<bytes>)
    ensures var r := FirstFallback(m, encodings, scopes);
      && (r.None? <==> forall j :: 0 <= j < |scopes| ==> FallbackAt(m, encodings, scopes[j]).None?)
      && (r.Some? ==> exists i :: (
           0 <= i < |scopes| && FallbackAt(m, encodings, scopes[i]) == r
           && forall j :: 0 <= j < i ==> FallbackAt(m, encodings, scopes[j]).None?))
  {
    hide FallbackAt;
    if scopes != [] && FallbackAt(m, encodings, scopes[0]).None? {
      var rest := scopes[1..];
      var r := FirstFallback(m, encodings, rest);
      FirstFallbackIsFirst(m, encodings, rest);
      assert forall j :: 0 < j < |scopes| ==> scopes[j] == rest[j - 1];
      assert forall j :: 0 <= j < |rest| ==> rest[j] == scopes[j + 1];
      if r.Some? {
        var i :| 0 <= i < |rest| && FallbackAt(m, encodings, rest[i]) == r
          && forall j :: 0 <= j < i ==> FallbackAt(m, encodings, rest[j]).None?;
        assert FallbackAt(m, encodings, scopes[i + 1]) == r;
      }
    }
  }

  // What is picked is certified for the request: at its exact path, or at a wildcard no longer than it.
  lemma AssetIsForRequest(
      m: ResponseMap, fallbacks: ResponseMap, path: bytes, encodings: seq<bytes>, rangeBegin: Option<nat>)
    requires forall k :: k in m ==> m[k].treeEntry.path == ExactPath(k.path)
    requires forall k :: k in fallbacks ==> fallbacks[k].treeEntry.path == WildcardPath(k.path)
    ensures var r := AssetFor(m, fallbacks, path, encodings, rangeBegin);
      r.Some? ==>
        || r.value.treeEntry.path == ExactPath(path)
        || (r.value.treeEntry.path.WildcardPath? && r.value.treeEntry.path.path in Scopes(path)
            && |r.value.treeEntry.path.ToTreePath()| <= |ExactPath(path).ToTreePath()|)
  {
    hide Scopes, Segments;
    EncodedAssetStored(m, encodings, path, rangeBegin);
    FirstFallbackIsFirst(fallbacks, encodings, Scopes(path));
    var r := FirstFallback(fallbacks, encodings, Scopes(path));
    if r.Some? {
      var i :| 0 <= i < |Scopes(path)| && FallbackAt(fallbacks, encodings, Scopes(path)[i]) == r;
      EncodedFallbackStored(fallbacks, encodings, Scopes(path)[i]);
      ScopeFitsRequest(path, Scopes(path)[i]);
    }
  }

  // What is read off a request, unless it cannot be read.
  datatype Reading<+T> = Read(value: T) | Malformed

  datatype ServeResult =
    | MalformedUrl
    | RequestError
    | NoAssetMatchingRequestUrl
    | WitnessFails(reason: WitnessResult)
    | Served(response: CertifiedAssetResponse, tree: HashTree)

  // ---------- The router ----------

  class AssetRouter {
    const tree: HttpCertificationTree
    const certify: Certifier
    var responses: ResponseMap
    var fallbackResponses: ResponseMap

    // Every response is certified at the path it is stored under.
    ghost predicate Valid()
      reads this, tree, tree.tree
    {
      && tree.Valid()
      && (forall k :: k in responses ==> responses[k].treeEntry.path == ExactPath(k.path))
      && (forall k :: k in fallbackResponses ==> fallbackResponses[k].treeEntry.path == WildcardPath(k.path))
    }

    constructor WithTree(tree: HttpCertificationTree, certify: Certifier)
      requires tree.Valid()
      ensures Valid() && this.tree == tree && this.certify == certify
      ensures responses == map[] && fallbackResponses == map[]
    {
      this.tree := tree;
      this.certify := certify;
      responses := map[];
      fallbackResponses := map[];
    }

    // Stops at the first response that cannot be certified, keeping the ones before it.
    method InsertStaticAsset(
        asset: Asset, headers: AssetHeaders, encoding: Option<bytes>) returns (ok: bool, ghost stored: nat)
      requires Valid()
      modifies this, tree.tree
      ensures Valid() && fallbackResponses == old(fallbackResponses)
      ensures stored <= ChunkCount(|asset.content|) + 1 && (ok <==> stored == ChunkCount(|asset.content|) + 1)
      ensures Certifiable(certify, asset, headers, encoding, stored)
      ensures !ok ==> Piece(certify, asset, headers, encoding, stored).None?
      ensures responses == Stored(old(responses), certify, asset, headers, encoding, stored)
      ensures forall q :: (GetPath(tree.tree.node, q) ==
        Placed(old(tree.tree.node), EntryPaths(certify, asset, headers, encoding, stored), q))
    {
      hide Stored, EntryPaths, Placed, PrepareAssetResponse, GetPath, Piece;
      ghost var v, m := tree.tree.node, responses;
      ghost var count := ChunkCount(|asset.content|);
      stored := 0;
      Nothing(m, v, certify, asset, headers, encoding);
      if |asset.content| > ASSET_CHUNK_SIZE {
        var rangeBegin := 0;
        while rangeBegin < |asset.content|
          invariant stored <= count && rangeBegin == stored * ASSET_CHUNK_SIZE
          invariant Valid() && fallbackResponses == old(fallbackResponses)
          invariant Certifiable(certify, asset, headers, encoding, stored)
          invariant responses == Stored(m, certify, asset, headers, encoding, stored)
          invariant forall q ::
            GetPath(tree.tree.node, q) == Placed(v, EntryPaths(certify, asset, headers, encoding, stored), q)
        {
          PieceIs(certify, asset, headers, encoding, stored);
          var response := PrepareStaticAsset(certify, asset, headers, encoding, Some(rangeBegin));
          if response.None? { return false, stored; }
          ghost var before := tree.tree.node;
          tree.Insert(response.value.treeEntry);
          responses := responses[RequestKey(asset.url, encoding, Some(rangeBegin)) := response.value];
          PieceStored(m, v, before, tree.tree.node, certify, asset, headers, encoding, stored);
          rangeBegin := rangeBegin + ASSET_CHUNK_SIZE;
          stored := stored + 1;
        }
      }
      PieceIs(certify, asset, headers, encoding, stored);
      var response := PrepareStaticAsset(certify, asset, headers, encoding, None);
      if response.None? { return false, stored; }
      ghost var before := tree.tree.node;
      tree.Insert(response.value.treeEntry);
      responses := responses[RequestKey(asset.url, encoding, None) := response.value];
      PieceStored(m, v, before, tree.tree.node, certify, asset, headers, encoding, stored);
      stored := stored + 1;
      ok := true;
    }

    // Takes back the whole response and every chunk from the map, but only the whole response from the tree.
    method DeleteStaticAsset(asset: Asset, headers: AssetHeaders, encoding: Option<bytes>) returns (ok: bool)
      requires Valid()
      modifies this, tree.tree
      ensures Valid() && fallbackResponses == old(fallbackResponses)
      ensures ok <==> PrepareStaticAsset(certify, asset, headers, encoding, None).Some?
      ensures !ok ==> responses == old(responses) && tree.tree.node == old(tree.tree.node)
      ensures ok ==> responses == old(responses) - PieceKeys(asset, encoding)
      ensures ok ==> forall q :: (GetPath(tree.tree.node, q) ==
        if PrepareStaticAsset(certify, asset, headers, encoding, None).value.treeEntry.ToTreePath() <= q then None
        else GetPath(old(tree.tree.node), q))
    {
      hide GetPath, FirstKeys, PieceKeys;
      NoKeys(asset, encoding);
      var response := PrepareStaticAsset(certify, asset, headers, encoding, None);
      if response.None? { return false; }
      tree.Delete(response.value.treeEntry);
      var whole := RequestKey(asset.url, encoding, None);
      responses := responses - {whole};
      ghost var n: nat := 0;
      ghost var v := tree.tree.node;
      if |response.value.response.body| > ASSET_CHUNK_SIZE {
        var rangeBegin: nat := 0;
        while rangeBegin < |response.value.response.body|
          invariant n <= ChunkCount(|asset.content|) && rangeBegin == n * ASSET_CHUNK_SIZE
          invariant tree.Valid() && tree.tree.node == v && unchanged(`fallbackResponses)
          invariant responses == old(responses) - ({whole} + FirstKeys(asset, encoding, n))
        {
          var key := RequestKey(asset.url, encoding, Some(rangeBegin));
          responses := responses - {key};
          NextKey(asset, encoding, n);
          rangeBegin := rangeBegin + ASSET_CHUNK_SIZE;
          n := n + 1;
        }
      }
      AllKeys(asset, encoding);
      ok := true;
    }

    // Takes the unencoded whole response of each path from the map, and everything under the path from the tree.
    method DeleteAssetsByPath(paths: seq<bytes>)
      requires Valid()
      modifies this, tree.tree
      ensures Valid() && fallbackResponses == old(fallbackResponses)
      ensures responses == old(responses) - WholeKeys(paths, |paths|)
      ensures forall q :: (GetPath(tree.tree.node, q) ==
        if UnderAny(paths, |paths|, q) then None else GetPath(old(tree.tree.node), q))
    {
      hide GetPath, HttpCertificationPath.ToTreePath, WholeKeys, UnderAny;
      NoPathYet(paths);
      for i := 0 to |paths|
        invariant Valid() && fallbackResponses == old(fallbackResponses)
        invariant responses == old(responses) - WholeKeys(paths, i)
        invariant forall q :: (GetPath(tree.tree.node, q) ==
          if UnderAny(paths, i, q) then None else GetPath(old(tree.tree.node), q))
      {
        NextPath(paths, i);
        responses := responses - {RequestKey(paths[i], None, None)};
        tree.DeleteByPath(ExactPath(paths[i]));
      }
    }

    method InsertFallbackAsset(
      asset: Asset, headers: AssetHeaders, scope: bytes, statusCode: Option<nat>,
      encoding: Option<bytes>) returns (ok: bool)
      requires Valid()
      modifies this, tree.tree
      ensures Valid() && responses == old(responses)
      ensures ok ==>
        && RequestKey(scope, encoding, None) in fallbackResponses
        && fallbackResponses[RequestKey(scope, encoding, None)].response ==
          Response(if statusCode.Some? then statusCode.value else 200, asset.content, headers, encoding, None)
      ensures var prepared := PrepareFallbackAsset(certify, asset, headers, scope, statusCode, encoding);
        && (ok <==> prepared.Some?)
        && fallbackResponses ==
          (if ok then old(fallbackResponses)[RequestKey(scope, encoding, None) := prepared.value]
           else old(fallbackResponses))
        && forall q :: (GetPath(tree.tree.node, q) ==
             if !ok then GetPath(old(tree.tree.node), q)
             else if q == prepared.value.treeEntry.ToTreePath() then Some([])
             else if Comparable(prepared.value.treeEntry.ToTreePath(), q) then None
             else GetPath(old(tree.tree.node), q))
    {
      hide GetPath;
      var response := PrepareFallbackAsset(certify, asset, headers, scope, statusCode, encoding);
      if response.None? { return false; }
      tree.Insert(response.value.treeEntry);
      fallbackResponses := fallbackResponses[RequestKey(scope, encoding, None) := response.value];
      ok := true;
    }

    method GetEncodedAsset(preferredEncodings: seq<bytes>, url: bytes, rangeBegin: Option<nat>)
      returns (r: Option<CertifiedAssetResponse>)
      ensures r == EncodedAsset(responses, preferredEncodings, url, rangeBegin)
    {
      for i := 0 to |preferredEncodings|
        invariant EncodedAsset(responses, preferredEncodings, url, rangeBegin) ==
          EncodedAsset(responses, preferredEncodings[i..], url, rangeBegin)
      {
        var encoding := preferredEncodings[i];
        var key := RequestKey(url, Some(encoding), rangeBegin);
        if key in responses {
          if |responses[key].response.body| > ASSET_CHUNK_SIZE {
            var first := RequestKey(url, Some(encoding), Some(0));
            return if first in responses then Some(responses[first]) else None;
          } else {
            return Some(responses[key]);
          }
        }
      }
      return None;
    }

    method GetEncodedFallbackAsset(
        preferredEncodings: seq<bytes>, scope: bytes) returns (r: Option<CertifiedAssetResponse>)
      ensures r == EncodedFallback(fallbackResponses, preferredEncodings, scope)
    {
      for i := 0 to |preferredEncodings|
        invariant EncodedFallback(fallbackResponses, preferredEncodings, scope) ==
          EncodedFallback(fallbackResponses, preferredEncodings[i..], scope)
      {
        var key := RequestKey(scope, Some(preferredEncodings[i]), None);
        if key in fallbackResponses { return Some(fallbackResponses[key]); }
      }
      return None;
    }

    method GetAssetForRequest(path: bytes, preferredEncodings: seq<bytes>, rangeBegin: Option<nat>)
      returns (r: Option<CertifiedAssetResponse>)
      ensures r == AssetFor(responses, fallbackResponses, path, preferredEncodings, rangeBegin)
    {
      hide Split, Join, EncodedAsset, EncodedFallback, FirstFallback, ScopesOf;
      r := GetEncodedAsset(preferredEncodings, path, rangeBegin);
      if r.Some? { return; }
      var key := RequestKey(path, None, rangeBegin);
      if key in responses {
        if |responses[key].response.body| > ASSET_CHUNK_SIZE {
          var first := RequestKey(path, None, Some(0));
          if first in responses { return Some(responses[first]); }
        } else {
          return Some(responses[key]);
        }
      }
      var urlScopes := Split(path);
      urlScopes := DropLast(urlScopes);
      while urlScopes != []
        invariant AssetFor(responses, fallbackResponses, path, preferredEncodings, rangeBegin) ==
          FirstFallback(fallbackResponses, preferredEncodings, ScopesOf(urlScopes))
        decreases |urlScopes|
      {
        NextScopes(urlScopes);
        FirstFallbackStep(fallbackResponses, preferredEncodings, Join(urlScopes, [SLASH]) + [SLASH],
          Join(urlScopes, [SLASH]), ScopesOf(DropLast(urlScopes)));
        var scope := Join(urlScopes, [SLASH]);
        scope := scope + [SLASH];
        r := GetEncodedFallbackAsset(preferredEncodings, scope);
        if r.Some? { return; }
        key := RequestKey(scope, None, None);
        if key in fallbackResponses { return Some(fallbackResponses[key]); }
        scope := scope[..|scope| - 1];
        r := GetEncodedFallbackAsset(preferredEncodings, scope);
        if r.Some? { return; }
        key := RequestKey(scope, None, None);
        if key in fallbackResponses { return Some(fallbackResponses[key]); }
        urlScopes := DropLast(urlScopes);
      }
      NoScopes(fallbackResponses, preferredEncodings);
      r := None;
    }

    // A url that cannot be read is reported before a Range header that cannot. For what the router then picks the
    // tree always produces a witness: it carries the root hash and settles everything the response's path asks for.
    method ServeAsset(url: Reading<bytes>, preferredEncodings: seq<bytes>, range: Reading<Option<nat>>)
      returns (r: ServeResult)
      requires Valid()
      ensures r.MalformedUrl? <==> url.Malformed?
      ensures r.RequestError? <==> url.Read? && range.Malformed?
      ensures r.NoAssetMatchingRequestUrl? <==>
        && url.Read? && range.Read?
        && AssetFor(responses, fallbackResponses, url.value, preferredEncodings, range.value).None?
      ensures !r.WitnessFails?
      ensures r.Served? ==>
        && url.Read? && range.Read?
        && AssetFor(responses, fallbackResponses, url.value, preferredEncodings, range.value) == Some(r.response)
        && Digest(r.tree) == tree.RootHash()
        && (forall p :: MustDecide(r.response.treeEntry, url.value, p) ==> Settles(r.tree, tree.tree.node, p))
        && (forall q :: Discreet(r.tree, tree.tree.node, Asked(r.response.treeEntry, url.value), q))
        && ShowsEntry(r.tree, tree.tree.node, r.response.treeEntry)
    {
      hide AssetFor, HttpCertificationPath.ToTreePath, Settles, MustDecide, Discreet;
      if url.Malformed? { return MalformedUrl; }
      if range.Malformed? { return RequestError; }
      var path := url.value;
      var found := GetAssetForRequest(path, preferredEncodings, range.value);
      if found.None? { return NoAssetMatchingRequestUrl; }
      AssetIsForRequest(responses, fallbackResponses, path, preferredEncodings, range.value);
      var w := tree.Witness(found.value.treeEntry, path);
      if !w.Witnessed? { return WitnessFails(w); }
      OwnEntryShown(w.tree, tree.tree.node, found.value.treeEntry, path);
      r := Served(found.value, w.tree);
    }
  }
}
