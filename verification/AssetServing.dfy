// What the asset router serves: whole assets out of chunks, the fallback it picks, and whether the tree certifies it.
module AssetServing {
  import opened Bytes
  import opened HashTree
  import opened RbTree
  import opened Witnesses
  import opened NestedTrees
  import opened WildcardPaths
  import opened HttpTree
  import opened AssetScopes
  import opened AssetRouting

  // ---------- Putting an asset back together ----------

  // This encoding is the one that answers: no other preferred one before it has anything at the url.
  ghost predicate Selects(m: ResponseMap, url: bytes, encodings: seq<bytes>, encoding: Option<bytes>) {
    if encodings == [] then encoding.None?
    else
      encoding == Some(encodings[0]) ||
      ((forall r :: RequestKey(url, Some(encodings[0]), r) !in m) && Selects(m, url, encodings[1..], encoding))
  }

  lemma {:induction false} SelectedAnswers(
    m: ResponseMap, s: ResponseMap, url: bytes, encodings: seq<bytes>, encoding: Option<bytes>, rangeBegin: Option<nat>)
    requires Selects(m, url, encodings, encoding)
    requires forall k: RequestKey :: k.encoding != encoding ==> (k in s <==> k in m)
    requires RequestKey(url, encoding, rangeBegin) in s && RequestKey(url, encoding, Some(0)) in s
    ensures EncodedAsset(s, encodings, url, rangeBegin) ==
      if encoding.None? then None
      else if |s[RequestKey(url, encoding, rangeBegin)].response.body| <= ASSET_CHUNK_SIZE then
        Some(s[RequestKey(url, encoding, rangeBegin)])
      else Some(s[RequestKey(url, encoding, Some(0))])
  {
    if encodings != [] && encoding != Some(encodings[0]) {
      assert RequestKey(url, Some(encodings[0]), rangeBegin) !in m;
      SelectedAnswers(m, s, url, encodings[1..], encoding, rangeBegin);
    }
  }

  // One request of a client that has received so many bytes.
  function Fetch(
      m: ResponseMap, fallbacks: ResponseMap, url: bytes, encodings: seq<bytes>,
      received: nat): Option<CertifiedAssetResponse> {
    AssetFor(m, fallbacks, url, encodings, if received == 0 then None else Some(received))
  }

  // The bytes received after this many requests, each for what follows the bytes received before it.
  function Download(
      m: ResponseMap, fallbacks: ResponseMap, url: bytes, encodings: seq<bytes>, requests: nat): Option<bytes> {
    if requests == 0 then Some([])
    else
      match Download(m, fallbacks, url, encodings, requests - 1)
      case None => None
      case Some(got) =>
        match Fetch(m, fallbacks, url, encodings, |got|)
        case None => None
        case Some(r) => Some(got + r.response.body)
  }

  // The router after the whole of an asset was inserted.
  ghost predicate Inserted(
    m: ResponseMap, s: ResponseMap, certify: Certifier, asset: Asset, headers: AssetHeaders, encoding: Option<bytes>)
  {
    && Certifiable(certify, asset, headers, encoding, ChunkCount(|asset.content|) + 1)
    && s == Stored(m, certify, asset, headers, encoding, ChunkCount(|asset.content|) + 1)
  }

  lemma InsertedPiece(
    m: ResponseMap, s: ResponseMap, certify: Certifier, asset: Asset, headers: AssetHeaders, encoding: Option<bytes>,
    i: nat)
    requires Inserted(m, s, certify, asset, headers, encoding) && i <= ChunkCount(|asset.content|)
    ensures forall k: RequestKey :: k.encoding != encoding ==> (k in s <==> k in m)
    ensures var begin := if i < ChunkCount(|asset.content|) then Some(i * ASSET_CHUNK_SIZE) else None;
      var key := RequestKey(asset.url, encoding, begin);
      && (begin.Some? ==> begin.value < |asset.content|)
      && key in s && s[key].response == PrepareAssetResponse(asset, headers, encoding, begin, OK)
  {
    hide Stored, PrepareAssetResponse;
    PieceIs(certify, asset, headers, encoding, i);
    PieceIsKeyed(m, s, certify, asset, headers, encoding, i);
  }

  lemma PieceIsKeyed(
    m: ResponseMap, s: ResponseMap, certify: Certifier, asset: Asset, headers: AssetHeaders, encoding: Option<bytes>,
    i: nat)
    requires Inserted(m, s, certify, asset, headers, encoding) && i <= ChunkCount(|asset.content|)
    ensures forall k: RequestKey :: k.encoding != encoding ==> (k in s <==> k in m)
    ensures Piece(certify, asset, headers, encoding, i).Some?
    ensures PieceKey(asset, encoding, i) in s
      && s[PieceKey(asset, encoding, i)] == Piece(certify, asset, headers, encoding, i).value
  {
    hide Piece;
    StoredMeaning(m, certify, asset, headers, encoding, ChunkCount(|asset.content|) + 1);
  }

  // At a begin the router stores, the client gets the chunk that starts there.
  lemma ChunkServed(
    m: ResponseMap, s: ResponseMap, certify: Certifier, asset: Asset, headers: AssetHeaders, encoding: Option<bytes>,
    fallbacks: ResponseMap, encodings: seq<bytes>, i: nat)
    requires i < ChunkCount(|asset.content|)
    requires Inserted(m, s, certify, asset, headers, encoding) && Selects(m, asset.url, encodings, encoding)
    ensures var r := Fetch(s, fallbacks, asset.url, encodings, i * ASSET_CHUNK_SIZE);
      r.Some? && r.value.response == PrepareAssetResponse(asset, headers, encoding, Some(i * ASSET_CHUNK_SIZE), OK)
  {
    hide Inserted, EncodedAsset, FirstFallback, Scopes, Selects;
    InsertedPiece(m, s, certify, asset, headers, encoding, i);
    InsertedPiece(m, s, certify, asset, headers, encoding, 0);
    InsertedPiece(m, s, certify, asset, headers, encoding, ChunkCount(|asset.content|));
    SelectedAnswers(m, s, asset.url, encodings, encoding, if i == 0 then None else Some(i * ASSET_CHUNK_SIZE));
  }

  // One request without a range and then requests at the bytes received so far bring the content chunk by chunk.
  // After the j-th response the first j chunks are there, so it takes exactly ChunkCount responses.
  lemma {:induction false} Reassembly(
    m: ResponseMap, s: ResponseMap, certify: Certifier, asset: Asset, headers: AssetHeaders, encoding: Option<bytes>,
    fallbacks: ResponseMap, encodings: seq<bytes>, j: nat)
    requires |asset.content| > ASSET_CHUNK_SIZE && j <= ChunkCount(|asset.content|)
    requires Inserted(m, s, certify, asset, headers, encoding) && Selects(m, asset.url, encodings, encoding)
    ensures Download(s, fallbacks, asset.url, encodings, j) ==
      Some(asset.content[..Min(j * ASSET_CHUNK_SIZE, |asset.content|)])
    ensures Download(s, fallbacks, asset.url, encodings, j) == Some(asset.content) <==> j == ChunkCount(|asset.content|)
  {
    hide Inserted, Selects, Fetch;
    if j > 0 {
      var begin := (j - 1) * ASSET_CHUNK_SIZE;
      Reassembly(m, s, certify, asset, headers, encoding, fallbacks, encodings, j - 1);
      ChunkServed(m, s, certify, asset, headers, encoding, fallbacks, encodings, j - 1);
      var end := Min(j * ASSET_CHUNK_SIZE, |asset.content|);
      assert asset.content[..begin] + asset.content[begin..end] == asset.content[..end];
    }
    assert |asset.content[..Min(j * ASSET_CHUNK_SIZE, |asset.content|)]| == |asset.content| <==>
      j == ChunkCount(|asset.content|);
    assert asset.content[..|asset.content|] == asset.content;
  }

  // The content ranges of the chunks tile the content: each begins where the one before ended, from 0 to the end.
  lemma RangesTile(
    m: ResponseMap, s: ResponseMap, certify: Certifier, asset: Asset, headers: AssetHeaders, encoding: Option<bytes>,
    fallbacks: ResponseMap, encodings: seq<bytes>, i: nat)
    requires i < ChunkCount(|asset.content|)
    requires Inserted(m, s, certify, asset, headers, encoding) && Selects(m, asset.url, encodings, encoding)
    ensures var n := |asset.content|;
      var r := Fetch(s, fallbacks, asset.url, encodings, i * ASSET_CHUNK_SIZE);
      && r.Some? && r.value.response.statusCode == PARTIAL_CONTENT && r.value.response.contentRange.Some?
      && var range := r.value.response.contentRange.value;
         && range.total == n && range.begin <= range.end < n
         && r.value.response.headers == headers && r.value.response.contentEncoding == encoding
         && r.value.response.body == asset.content[range.begin..range.end + 1]
         && (i == 0 ==> range.begin == 0)
         && (i + 1 == ChunkCount(n) <==> range.end + 1 == n)
         && (i + 1 < ChunkCount(n) ==>
              var next := Fetch(s, fallbacks, asset.url, encodings, (i + 1) * ASSET_CHUNK_SIZE);
              next.Some? && next.value.response.contentRange.Some?
                && next.value.response.contentRange.value.begin == range.end + 1)
  {
    hide Inserted, Selects, Fetch;
    ChunkServed(m, s, certify, asset, headers, encoding, fallbacks, encodings, i);
    if i + 1 < ChunkCount(|asset.content|) {
      ChunkServed(m, s, certify, asset, headers, encoding, fallbacks, encodings, i + 1);
    }
  }

  // A content that fits in one chunk comes whole, in one response without a range.
  lemma SmallServedWhole(
    m: ResponseMap, s: ResponseMap, certify: Certifier, asset: Asset, headers: AssetHeaders, encoding: Option<bytes>,
    fallbacks: ResponseMap, encodings: seq<bytes>)
    requires |asset.content| <= ASSET_CHUNK_SIZE
    requires Inserted(m, s, certify, asset, headers, encoding) && Selects(m, asset.url, encodings, encoding)
    ensures var r := Fetch(s, fallbacks, asset.url, encodings, 0);
      r.Some? && r.value.response == Response(OK, asset.content, headers, encoding, None)
  {
    hide Inserted, EncodedAsset, FirstFallback, Scopes, Selects;
    InsertedPiece(m, s, certify, asset, headers, encoding, 0);
    SmallSelected(m, s, asset.url, encodings, encoding);
  }

  lemma {:induction false} SmallSelected(
      m: ResponseMap, s: ResponseMap, url: bytes, encodings: seq<bytes>, encoding: Option<bytes>)
    requires Selects(m, url, encodings, encoding)
    requires forall k: RequestKey :: k.encoding != encoding ==> (k in s <==> k in m)
    requires var key := RequestKey(url, encoding, None); key in s && |s[key].response.body| <= ASSET_CHUNK_SIZE
    ensures EncodedAsset(s, encodings, url, None) ==
      if encoding.None? then None else Some(s[RequestKey(url, encoding, None)])
  {
    if encodings != [] && encoding != Some(encodings[0]) {
      assert RequestKey(url, Some(encodings[0]), None) !in m;
      SmallSelected(m, s, url, encodings[1..], encoding);
    }
  }

  lemma {:induction false} FreshUnencoded(
      m: ResponseMap, s: ResponseMap, url: bytes, encodings: seq<bytes>, rangeBegin: Option<nat>)
    requires forall k :: k in m ==> k.path != url
    requires forall k: RequestKey :: k.encoding != None ==> (k in s <==> k in m)
    ensures EncodedAsset(s, encodings, url, rangeBegin) == None
  {
    if encodings != [] { FreshUnencoded(m, s, url, encodings[1..], rangeBegin); }
  }

  // At a fresh url a range request gets an exact response exactly at the begins of the chunks;
  // anywhere else the router goes on to the fallbacks.
  lemma OnlyChunkBegins(
    m: ResponseMap, s: ResponseMap, certify: Certifier, asset: Asset, headers: AssetHeaders,
    fallbacks: ResponseMap, encodings: seq<bytes>, begin: nat)
    requires Inserted(m, s, certify, asset, headers, None) && forall k :: k in m ==> k.path != asset.url
    ensures var r := AssetFor(s, fallbacks, asset.url, encodings, Some(begin));
      if |asset.content| > ASSET_CHUNK_SIZE && begin % ASSET_CHUNK_SIZE == 0 && begin < |asset.content| then
        r.Some? && r.value.response == PrepareAssetResponse(asset, headers, None, Some(begin), OK)
      else r == FirstFallback(fallbacks, encodings, Scopes(asset.url))
  {
    hide Inserted, EncodedAsset, FirstFallback, Scopes;
    InsertedPiece(m, s, certify, asset, headers, None, ChunkCount(|asset.content|));
    FreshUnencoded(m, s, asset.url, encodings, Some(begin));
    var key := RequestKey(asset.url, None, Some(begin));
    if |asset.content| > ASSET_CHUNK_SIZE && begin % ASSET_CHUNK_SIZE == 0 && begin < |asset.content| {
      InsertedPiece(m, s, certify, asset, headers, None, begin / ASSET_CHUNK_SIZE);
    } else {
      NotAPiece(m, s, certify, asset, headers, begin);
    }
  }

  lemma NotAPiece(m: ResponseMap, s: ResponseMap, certify: Certifier, asset: Asset, headers: AssetHeaders, begin: nat)
    requires Inserted(m, s, certify, asset, headers, None) && RequestKey(asset.url, None, Some(begin)) !in m
    requires !(|asset.content| > ASSET_CHUNK_SIZE && begin % ASSET_CHUNK_SIZE == 0 && begin < |asset.content|)
    ensures RequestKey(asset.url, None, Some(begin)) !in s
  {
    hide Piece, PieceKey, Certifiable, Stored;
    var count := ChunkCount(|asset.content|);
    StoredMeaning(m, certify, asset, headers, None, count + 1);
    forall i | 0 <= i < count + 1 ensures RequestKey(asset.url, None, Some(begin)) != PieceKey(asset, None, i) {
      PieceIs(certify, asset, headers, None, i);
    }
  }

  // Deleting an asset right after it was inserted at fresh keys leaves the map as it was.
  lemma DeleteUndoesInsert(
    m: ResponseMap, s: ResponseMap, certify: Certifier, asset: Asset, headers: AssetHeaders, encoding: Option<bytes>)
    requires Inserted(m, s, certify, asset, headers, encoding)
    requires forall k :: k in PieceKeys(asset, encoding) ==> k !in m
    ensures s - PieceKeys(asset, encoding) == m
  {
    hide Piece, PieceKey;
    var count := ChunkCount(|asset.content|);
    StoredMeaning(m, certify, asset, headers, encoding, count + 1);
    var t := s - PieceKeys(asset, encoding);
    forall k ensures (k in t <==> k in m) && (k in m ==> t[k] == m[k]) {
      assert k in PieceKeys(asset, encoding) <==> exists i :: 0 <= i < count + 1 && k == PieceKey(asset, encoding, i);
    }
  }

  // ---------- The encoding that is picked ----------

  // The n-th preferred encoding is the first that is stored under this path and range.
  ghost predicate FirstStored(m: ResponseMap, encodings: seq<bytes>, path: bytes, rangeBegin: Option<nat>, n: nat) {
    && n < |encodings| && RequestKey(path, Some(encodings[n]), rangeBegin) in m
    && forall k :: 0 <= k < n ==> RequestKey(path, Some(encodings[k]), rangeBegin) !in m
  }

  lemma FirstStoredStep(m: ResponseMap, encodings: seq<bytes>, path: bytes, rangeBegin: Option<nat>, n: nat)
    requires encodings != []
    ensures FirstStored(m, encodings, path, rangeBegin, 0) <==> RequestKey(path, Some(encodings[0]), rangeBegin) in m
    ensures FirstStored(m, encodings, path, rangeBegin, n + 1) <==>
      RequestKey(path, Some(encodings[0]), rangeBegin) !in m && FirstStored(m, encodings[1..], path, rangeBegin, n)
  {
    var rest := encodings[1..];
    assert forall k :: 0 < k < |encodings| ==> encodings[k] == rest[k - 1];
    assert forall k :: 0 <= k < |rest| ==> rest[k] == encodings[k + 1];
  }

  // The first preferred encoding stored for the request decides, a long response through its first chunk.
  lemma {:induction false} EncodedExactly(
      m: ResponseMap, encodings: seq<bytes>, path: bytes, rangeBegin: Option<nat>, n: nat)
    ensures FirstStored(m, encodings, path, rangeBegin, n) ==>
      var key := RequestKey(path, Some(encodings[n]), rangeBegin);
      var first := RequestKey(path, Some(encodings[n]), Some(0));
      EncodedAsset(m, encodings, path, rangeBegin) ==
        if |m[key].response.body| <= ASSET_CHUNK_SIZE then Some(m[key])
        else if first in m then Some(m[first])
        else None
    ensures (forall k :: 0 <= k < |encodings| ==> RequestKey(path, Some(encodings[k]), rangeBegin) !in m) ==>
      EncodedAsset(m, encodings, path, rangeBegin) == None
  {
    if encodings != [] {
      if n > 0 {
        FirstStoredStep(m, encodings, path, rangeBegin, n - 1);
        EncodedExactly(m, encodings[1..], path, rangeBegin, n - 1);
      } else {
        EncodedExactly(m, encodings[1..], path, rangeBegin, 0);
      }
    }
  }

  // The encoding a client gets at a scope: the first preferred one stored there, else none at all.
  ghost predicate Taken(m: ResponseMap, encodings: seq<bytes>, scope: bytes, encoding: Option<bytes>) {
    && RequestKey(scope, encoding, None) in m
    && match encoding
       case Some(e) => exists n: nat :: FirstStored(m, encodings, scope, None, n) && encodings[n] == e
       case None => forall n: nat :: !FirstStored(m, encodings, scope, None, n)
  }

  lemma {:induction false} EncodedFallbackExactly(m: ResponseMap, encodings: seq<bytes>, scope: bytes)
    ensures forall n: nat :: FirstStored(m, encodings, scope, None, n) ==>
      EncodedFallback(m, encodings, scope) == Some(m[RequestKey(scope, Some(encodings[n]), None)])
    ensures EncodedFallback(m, encodings, scope) == None <==>
      forall n: nat :: !FirstStored(m, encodings, scope, None, n)
  {
    if encodings != [] {
      EncodedFallbackExactly(m, encodings[1..], scope);
      forall n: nat ensures FirstStored(m, encodings, scope, None, n) <==>
        if n == 0 then RequestKey(scope, Some(encodings[0]), None) in m
        else RequestKey(scope, Some(encodings[0]), None) !in m && FirstStored(m, encodings[1..], scope, None, n - 1)
      {
        FirstStoredStep(m, encodings, scope, None, if n == 0 then 0 else n - 1);
      }
      if EncodedFallback(m, encodings, scope) == None {
        assert forall n: nat :: !FirstStored(m, encodings[1..], scope, None, n);
      } else if RequestKey(scope, Some(encodings[0]), None) !in m {
        var n: nat :| FirstStored(m, encodings[1..], scope, None, n);
        assert FirstStored(m, encodings, scope, None, n + 1);
      } else {
        assert FirstStored(m, encodings, scope, None, 0);
      }
    }
  }

  // The fallback picked at a scope is the one in that encoding.
  lemma FallbackExactly(m: ResponseMap, encodings: seq<bytes>, scope: bytes)
    ensures forall e :: Taken(m, encodings, scope, e) ==>
      FallbackAt(m, encodings, scope) == Some(m[RequestKey(scope, e, None)])
    ensures FallbackAt(m, encodings, scope) == None <==> forall e :: !Taken(m, encodings, scope, e)
  {
    hide FirstStored, EncodedFallback;
    EncodedFallbackExactly(m, encodings, scope);
    if n: nat :| FirstStored(m, encodings, scope, None, n) {
      FirstIsStored(m, encodings, scope, n);
      assert Taken(m, encodings, scope, Some(encodings[n]));
    } else {
      assert Taken(m, encodings, scope, None) <==> RequestKey(scope, None, None) in m;
    }
  }

  lemma FirstIsStored(m: ResponseMap, encodings: seq<bytes>, scope: bytes, n: nat)
    requires FirstStored(m, encodings, scope, None, n)
    ensures n < |encodings| && RequestKey(scope, Some(encodings[n]), None) in m
  {
  }

  // No response is stored that answers the request exactly.
  ghost predicate NoExact(m: ResponseMap, encodings: seq<bytes>, path: bytes, rangeBegin: Option<nat>) {
    && RequestKey(path, None, rangeBegin) !in m
    && forall k :: 0 <= k < |encodings| ==> RequestKey(path, Some(encodings[k]), rangeBegin) !in m
  }

  // A fallback is served as it was configured: with its status, 200 if it has none, and the whole content.
  lemma FallbackServed(
    m: ResponseMap, before: ResponseMap, fallbacks: ResponseMap, certify: Certifier, asset: Asset,
    headers: AssetHeaders, scope: bytes, statusCode: Option<nat>, encoding: Option<bytes>, path: bytes,
    encodings: seq<bytes>, rangeBegin: Option<nat>, i: nat)
    requires var prepared := PrepareFallbackAsset(certify, asset, headers, scope, statusCode, encoding);
      prepared.Some? && fallbacks == before[RequestKey(scope, encoding, None) := prepared.value]
    requires NoExact(m, encodings, path, rangeBegin)
    requires i < |Scopes(path)| && Scopes(path)[i] == scope && Taken(fallbacks, encodings, scope, encoding)
    requires forall j, e :: 0 <= j < i ==> !Taken(fallbacks, encodings, Scopes(path)[j], e)
    ensures var r := AssetFor(m, fallbacks, path, encodings, rangeBegin);
      && r.Some? && r.value.treeEntry.path == WildcardPath(scope)
      && r.value.response ==
           Response(if statusCode.Some? then statusCode.value else 200, asset.content, headers, encoding, None)
  {
    hide Taken, FallbackAt, FirstFallback, Scopes, EncodedAsset;
    EncodedExactly(m, encodings, path, rangeBegin, 0);
    FallbackExactly(fallbacks, encodings, scope);
    forall j | 0 <= j < i ensures FallbackAt(fallbacks, encodings, Scopes(path)[j]) == None {
      FallbackExactly(fallbacks, encodings, Scopes(path)[j]);
    }
    FirstFallbackIsFirst(fallbacks, encodings, Scopes(path));
    var r := FirstFallback(fallbacks, encodings, Scopes(path));
    assert r.Some?;
    var n :| 0 <= n < |Scopes(path)| && FallbackAt(fallbacks, encodings, Scopes(path)[n]) == r
      && forall j :: 0 <= j < n ==> FallbackAt(fallbacks, encodings, Scopes(path)[j]).None?;
    assert n == i;
  }

  // Its certification lies at its scope, over the asset's own url and no range, and its witness finds it there.
  lemma FallbackIsShown(
    before: NestedTree, after: NestedTree, certify: Certifier, asset: Asset, headers: AssetHeaders, scope: bytes,
    statusCode: Option<nat>, encoding: Option<bytes>, path: bytes)
    requires Good(after)
    requires var prepared := PrepareFallbackAsset(certify, asset, headers, scope, statusCode, encoding);
      && prepared.Some?
      && var p := prepared.value.treeEntry.ToTreePath();
         forall q ::
           (GetPath(after, q) == if q == p then Some([]) else if Comparable(p, q) then None else GetPath(before, q))
    ensures var prepared := PrepareFallbackAsset(certify, asset, headers, scope, statusCode, encoding).value;
      var hashes := certify(asset.url, None, prepared.response);
      var r := HttpWitness(after, prepared.treeEntry, path);
      && hashes.Some?
      && prepared.treeEntry.ToTreePath() ==
           WildcardPath(scope).ToTreePath() + [hashes.value.celExpr, hashes.value.request, hashes.value.response]
      && (r.Witnessed? ==> LookupSubtree(r.tree, [PATH_PREFIX] + prepared.treeEntry.ToTreePath()).SubtreeFound?)
  {
    hide HttpWitness, GetPath, ContainsPath, MustDecide, HttpCertificationPath.ToTreePath, Settles, Comparable;
    var prepared := PrepareFallbackAsset(certify, asset, headers, scope, statusCode, encoding).value;
    HttpWitnessComplete(after, prepared.treeEntry, path);
    HasLeafHasPath(after, prepared.treeEntry.ToTreePath());
    var r := HttpWitness(after, prepared.treeEntry, path);
    if r.Witnessed? { OwnEntryShown(r.tree, after, prepared.treeEntry, path); }
  }

  // ---------- The fallback that is picked ----------

  // For a canonical request without an exact response, the fallback picked is at some scope of the request, and at
  // no wildcard more specific than it is a fallback the client takes, save the one that is the request path itself.
  lemma FallbackIsMostSpecific(fallbacks: ResponseMap, path: bytes, encodings: seq<bytes>, scopes: seq<bytes>)
    requires CanonicalRequest(path) && scopes == Scopes(path)
    requires FirstFallback(fallbacks, encodings, scopes).Some?
    ensures exists i :: (
      && 0 <= i < |scopes| && FirstFallback(fallbacks, encodings, scopes) == FallbackAt(fallbacks, encodings, scopes[i])
      && var more := MoreSpecificWildcards(ExactPath(path).ToTreePath(), WildcardPath(scopes[i]).ToTreePath());
         forall w ::
           w in more && w != Segments(path) + [WILDCARD_PATH_TERMINATOR] ==>
             Unanswered(fallbacks, encodings, scopes, w))
  {
    hide FallbackAt, Scopes, CanonicalRequest, MoreSpecificWildcards, HttpCertificationPath.ToTreePath;
    FirstFallbackIsFirst(fallbacks, encodings, scopes);
    var i :| 0 <= i < |scopes|
      && FallbackAt(fallbacks, encodings, scopes[i]) == FirstFallback(fallbacks, encodings, scopes)
      && forall j :: 0 <= j < i ==> FallbackAt(fallbacks, encodings, scopes[j]).None?;
    ScopesBefore(path, i);
    WildcardTreePathsAt(scopes[..i]);
    var more := MoreSpecificWildcards(ExactPath(path).ToTreePath(), WildcardPath(scopes[i]).ToTreePath());
    RequestIsFirst(path, more, i);
    forall w | w in more && w != Segments(path) + [WILDCARD_PATH_TERMINATOR]
      ensures Unanswered(fallbacks, encodings, scopes, w)
    {
      assert w in WildcardTreePaths(scopes[..i]);
      var j :| 0 <= j < i && WildcardTreePaths(scopes[..i])[j] == w;
      assert scopes[..i][j] == scopes[j];
    }
  }

  // The wildcard is one of the scopes, and no fallback the client takes is stored at it.
  ghost predicate Unanswered(fallbacks: ResponseMap, encodings: seq<bytes>, scopes: seq<bytes>, w: Path) {
    exists j ::
      0 <= j < |scopes| && WildcardPath(scopes[j]).ToTreePath() == w
        && FallbackAt(fallbacks, encodings, scopes[j]).None?
  }

  lemma RequestIsFirst(path: bytes, more: seq<Path>, i: nat)
    requires CanonicalRequest(path) && i < |Scopes(path)|
    requires more == MoreSpecificWildcards(ExactPath(path).ToTreePath(), WildcardPath(Scopes(path)[i]).ToTreePath())
    ensures more != [] ==> more[0] == Segments(path) + [WILDCARD_PATH_TERMINATOR]
  {
    hide Scopes, CanonicalRequest, MoreSpecificWildcards, Segments;
    ScopeRank(path, i);
    var p := Segments(path);
    RankedAgainst(path, Rank(p) - i - Lag(path));
    assert AtRank(p, Rank(p)) == p by { ValidIsAtRank(p, p); }
  }

  // ---------- Whether what is served is certified ----------

  lemma {:induction false} EntryPathAt(
    certify: Certifier, asset: Asset, headers: AssetHeaders, encoding: Option<bytes>, n: nat, i: nat)
    requires i < n <= ChunkCount(|asset.content|) + 1 && Certifiable(certify, asset, headers, encoding, n)
    ensures EntryPaths(certify, asset, headers, encoding, n)[i] ==
      Piece(certify, asset, headers, encoding, i).value.treeEntry.ToTreePath()
  {
    hide Piece, ChunkCount, HttpCertificationTreeEntry.ToTreePath, HttpCertificationPath.ToTreePath;
    if i < n - 1 { EntryPathAt(certify, asset, headers, encoding, n - 1, i); }
  }

  lemma InsertedIsPlaced(
    before: NestedTree, after: NestedTree, certify: Certifier, asset: Asset, headers: AssetHeaders,
    encoding: Option<bytes>, i: nat)
    requires i <= ChunkCount(|asset.content|)
    requires Certifiable(certify, asset, headers, encoding, ChunkCount(|asset.content|) + 1)
    requires var paths := EntryPaths(certify, asset, headers, encoding, ChunkCount(|asset.content|) + 1);
      forall q :: GetPath(after, q) == Placed(before, paths, q)
    ensures GetPath(after, Piece(certify, asset, headers, encoding, i).value.treeEntry.ToTreePath()) == Some([])
  {
    hide Piece, GetPath, EntryPaths, HttpCertificationTreeEntry.ToTreePath;
    EntryPathAt(certify, asset, headers, encoding, ChunkCount(|asset.content|) + 1, i);
  }

  lemma PieceHashes(certify: Certifier, asset: Asset, headers: AssetHeaders, encoding: Option<bytes>, i: nat)
    requires i <= ChunkCount(|asset.content|) && Piece(certify, asset, headers, encoding, i).Some?
    ensures var begin := Begins(|asset.content|)[i];
      var response := PrepareAssetResponse(asset, headers, encoding, begin, OK);
      var hashes := certify(asset.url, if i == 0 then None else begin, response);
      && hashes.Some?
      && Piece(certify, asset, headers, encoding, i).value.treeEntry.ToTreePath() ==
           ExactPath(asset.url).ToTreePath() + [hashes.value.celExpr, hashes.value.request, hashes.value.response]
  {
    hide PrepareAssetResponse, HttpCertificationPath.ToTreePath;
    PieceIs(certify, asset, headers, encoding, i);
  }

  // After an insertion, the witness of every response of the asset finds that response's own certification: at the
  // asset's path, the hashes of the rule, the request and the response. The first chunk is certified without a range.
  lemma InsertedIsShown(
    before: NestedTree, after: NestedTree, certify: Certifier, asset: Asset, headers: AssetHeaders,
    encoding: Option<bytes>, i: nat, path: bytes)
    requires Good(after) && i <= ChunkCount(|asset.content|)
    requires Certifiable(certify, asset, headers, encoding, ChunkCount(|asset.content|) + 1)
    requires var paths := EntryPaths(certify, asset, headers, encoding, ChunkCount(|asset.content|) + 1);
      forall q :: GetPath(after, q) == Placed(before, paths, q)
    ensures var entry := Piece(certify, asset, headers, encoding, i).value.treeEntry;
      var r := HttpWitness(after, entry, path);
      && GetPath(after, entry.ToTreePath()) == Some([])
      && r.Witnessed? && LookupSubtree(r.tree, [PATH_PREFIX] + entry.ToTreePath()).SubtreeFound?
    ensures var begin := Begins(|asset.content|)[i];
      var response := PrepareAssetResponse(asset, headers, encoding, begin, OK);
      var hashes := certify(asset.url, if i == 0 then None else begin, response);
      && hashes.Some?
      && Piece(certify, asset, headers, encoding, i).value.treeEntry.ToTreePath() ==
           ExactPath(asset.url).ToTreePath() + [hashes.value.celExpr, hashes.value.request, hashes.value.response]
  {
    PieceHashes(certify, asset, headers, encoding, i);
    hide Piece, GetPath, Placed, EntryPaths, HttpWitness, ContainsPath, Settles, MustDecide,
      HttpCertificationTreeEntry.ToTreePath, PrepareAssetResponse;
    var entry := Piece(certify, asset, headers, encoding, i).value.treeEntry;
    InsertedIsPlaced(before, after, certify, asset, headers, encoding, i);
    PieceIs(certify, asset, headers, encoding, i);
    HttpWitnessComplete(after, entry, path);
    OwnEntryShown(HttpWitness(after, entry, path).tree, after, entry, path);
    HasLeafHasPath(after, entry.ToTreePath());
  }

  lemma HasLeafHasPath(v: NestedTree, path: Path)
    ensures GetPath(v, path).Some? ==> ContainsPath(v, path)
  {
    SubtreeAtMeaning(v, path);
  }

  predicate Alike(a: HttpCertificationTreeEntry, b: HttpCertificationTreeEntry) {
    && a.path.ExactPath? && b.path.ExactPath? && |Segments(a.path.path)| == |Segments(b.path.path)|
    && a.certification.FullCertification? && b.certification.FullCertification?
  }

  // Deleting one entry takes another one's certification away exactly when its path begins the other's; for exact
  // paths of equally many segments, exactly when segments and certification agree, though the urls may not.
  lemma EntryLost(v: NestedTree, kept: HttpCertificationTreeEntry, deleted: HttpCertificationTreeEntry)
    requires Good(v) && GetPath(v, kept.ToTreePath()).Some?
    ensures GetPath(DeletePath(v, deleted.ToTreePath()), kept.ToTreePath()).None? <==>
      deleted.ToTreePath() <= kept.ToTreePath()
    ensures Alike(kept, deleted) ==>
      (deleted.ToTreePath() <= kept.ToTreePath() <==>
       Segments(kept.path.path) == Segments(deleted.path.path) && kept.certification == deleted.certification)
  {
    hide GetPath, DeletePath, Segments;
    DeletePathCorrect(v, deleted.ToTreePath());
    if Alike(kept, deleted) {
      SameEntryPath(Segments(kept.path.path), kept.certification, Segments(deleted.path.path), deleted.certification);
    }
  }

  lemma SameEntryPath(p: Path, c: HttpCertification, q: Path, d: HttpCertification)
    requires |p| == |q| && c.FullCertification? && d.FullCertification?
    ensures q + [EXACT_PATH_TERMINATOR] + d.ToTreePath() <= p + [EXACT_PATH_TERMINATOR] + c.ToTreePath() <==>
      p == q && c == d
  {
    var s, t := p + [EXACT_PATH_TERMINATOR] + c.ToTreePath(), q + [EXACT_PATH_TERMINATOR] + d.ToTreePath();
    assert s[..|p|] == p && t[..|q|] == q;
    assert s[|p| + 1] == c.celExprHash && s[|p| + 2] == c.requestHash && s[|p| + 3] == c.responseHash;
    assert t[|q| + 1] == d.celExprHash && t[|q| + 2] == d.requestHash && t[|q| + 3] == d.responseHash;
  }

  // Two urls with one tree path: with and without the leading slash.
  lemma TwinUrls(url: bytes)
    requires url != []
    ensures [SLASH] + url != url && Segments([SLASH] + url) == Segments(url)
  {
    var slashed := [SLASH] + url;
    assert slashed[1..] == url && slashed[|slashed| - 1] == url[|url| - 1];
    assert Split(slashed) == [[]] + Split(url);
    assert ([[]] + Split(url))[1..] == Split(url);
    assert |slashed| != |url|;
  }

  // ---------- After deletion by path ----------

  // Whether a request for the url has an exact answer that is not the unencoded whole response.
  predicate StillAnswers(m: ResponseMap, url: bytes, encodings: seq<bytes>, rangeBegin: Option<nat>) {
    var key := RequestKey(url, None, rangeBegin);
    || EncodedAsset(m, encodings, url, rangeBegin).Some?
    || (rangeBegin.Some? && key in m
        && (|m[key].response.body| <= ASSET_CHUNK_SIZE || RequestKey(url, None, Some(0)) in m))
  }

  lemma {:induction false} EncodedIgnoresUnencoded(
    m: ResponseMap, keys: set<RequestKey>, encodings: seq<bytes>, url: bytes, rangeBegin: Option<nat>)
    requires forall k :: k in keys ==> k.encoding == None
    ensures EncodedAsset(m - keys, encodings, url, rangeBegin) == EncodedAsset(m, encodings, url, rangeBegin)
  {
    if encodings != [] { EncodedIgnoresUnencoded(m, keys, encodings[1..], url, rangeBegin); }
  }

  lemma FallbackIsWildcard(fallbacks: ResponseMap, encodings: seq<bytes>, scopes: seq<bytes>)
    requires forall k :: k in fallbacks ==> fallbacks[k].treeEntry.path == WildcardPath(k.path)
    ensures var r := FirstFallback(fallbacks, encodings, scopes);
      r.Some? ==> r.value.treeEntry.path.WildcardPath?
  {
    FirstFallbackIsFirst(fallbacks, encodings, scopes);
    var r := FirstFallback(fallbacks, encodings, scopes);
    if r.Some? {
      var i :| 0 <= i < |scopes| && FallbackAt(fallbacks, encodings, scopes[i]) == r;
      EncodedFallbackStored(fallbacks, encodings, scopes[i]);
    }
  }

  // When a deleted url is still served from the map: exactly when an encoded response or a chunk answers the
  // request. What is served then has no certification in the tree; otherwise the request goes to the fallbacks.
  lemma ServedAfterDeletion(
    m: ResponseMap, fallbacks: ResponseMap, paths: seq<bytes>, url: bytes, encodings: seq<bytes>,
    rangeBegin: Option<nat>, v: NestedTree)
    requires url in paths
    requires forall k :: k in m ==> m[k].treeEntry.path == ExactPath(k.path)
    requires forall k :: k in fallbacks ==> fallbacks[k].treeEntry.path == WildcardPath(k.path)
    requires forall q :: UnderAny(paths, |paths|, q) ==> GetPath(v, q) == None
    ensures var r := AssetFor(m - WholeKeys(paths, |paths|), fallbacks, url, encodings, rangeBegin);
      && (StillAnswers(m, url, encodings, rangeBegin) <==> r.Some? && r.value.treeEntry.path.ExactPath?)
      && (StillAnswers(m, url, encodings, rangeBegin) ==> GetPath(v, r.value.treeEntry.ToTreePath()) == None)
      && (!StillAnswers(m, url, encodings, rangeBegin) ==> r == FirstFallback(fallbacks, encodings, Scopes(url)))
  {
    hide GetPath, EncodedAsset, FirstFallback, Scopes, HttpCertificationPath.ToTreePath;
    var keys := WholeKeys(paths, |paths|);
    var left := m - keys;
    assert RequestKey(url, None, None) in keys;
    EncodedIgnoresUnencoded(m, keys, encodings, url, rangeBegin);
    EncodedAssetStored(left, encodings, url, rangeBegin);
    FallbackIsWildcard(fallbacks, encodings, Scopes(url));
    var r := AssetFor(left, fallbacks, url, encodings, rangeBegin);
    if StillAnswers(m, url, encodings, rangeBegin) {
      assert r.Some? && r.value.treeEntry.path == ExactPath(url);
      assert ExactPath(url).ToTreePath() <= r.value.treeEntry.ToTreePath();
    }
  }

  // Of an inserted asset, everything still answers but the unencoded whole: the chunks, and an encoded asset of
  // any size with or without a range.
  lemma ServedWithoutCertification(
    m: ResponseMap, s: ResponseMap, certify: Certifier, asset: Asset, headers: AssetHeaders, encoding: Option<bytes>,
    encodings: seq<bytes>, i: nat)
    requires i <= ChunkCount(|asset.content|)
    requires Inserted(m, s, certify, asset, headers, encoding) && Selects(m, asset.url, encodings, encoding)
    ensures var begin := Begins(|asset.content|)[i];
      StillAnswers(s, asset.url, encodings, begin) <==> encoding.Some? || begin.Some?
  {
    hide Inserted, EncodedAsset, Selects, PrepareAssetResponse;
    var begin := Begins(|asset.content|)[i];
    InsertedPiece(m, s, certify, asset, headers, encoding, i);
    InsertedPiece(m, s, certify, asset, headers, encoding, 0);
    if |asset.content| <= ASSET_CHUNK_SIZE {
      WholeFits(asset, headers, encoding);
      SmallSelected(m, s, asset.url, encodings, encoding);
    } else {
      SelectedAnswers(m, s, asset.url, encodings, encoding, begin);
      if begin.Some? { ChunkFits(asset, headers, encoding, i); }
    }
  }

  // The input the source promises about: an encoded asset, small or long, is still served after its url is deleted,
  // and the tree certifies none of it.
  lemma EncodedOutlivesDeletion(
    m: ResponseMap, s: ResponseMap, certify: Certifier, asset: Asset, headers: AssetHeaders, encoding: bytes,
    fallbacks: ResponseMap, encodings: seq<bytes>, v: NestedTree)
    requires forall k :: k in s ==> s[k].treeEntry.path == ExactPath(k.path)
    requires forall k :: k in fallbacks ==> fallbacks[k].treeEntry.path == WildcardPath(k.path)
    requires Inserted(m, s, certify, asset, headers, Some(encoding)) && Selects(m, asset.url, encodings, Some(encoding))
    requires forall q :: UnderAny([asset.url], 1, q) ==> GetPath(v, q) == None
    ensures var r := AssetFor(s - WholeKeys([asset.url], 1), fallbacks, asset.url, encodings, None);
      && r.Some? && r.value.treeEntry.path.ExactPath? && GetPath(v, r.value.treeEntry.ToTreePath()) == None
  {
    hide Inserted, Selects, GetPath, AssetFor, StillAnswers;
    ServedWithoutCertification(m, s, certify, asset, headers, Some(encoding), encodings, ChunkCount(|asset.content|));
    ServedAfterDeletion(s, fallbacks, [asset.url], asset.url, encodings, None, v);
  }

  lemma ChunkFits(asset: Asset, headers: AssetHeaders, encoding: Option<bytes>, i: nat)
    requires i < ChunkCount(|asset.content|)
    ensures i * ASSET_CHUNK_SIZE < |asset.content|
    ensures |PrepareAssetResponse(asset, headers, encoding, Some(i * ASSET_CHUNK_SIZE), OK).body| <= ASSET_CHUNK_SIZE
  {
  }

  lemma WholeFits(asset: Asset, headers: AssetHeaders, encoding: Option<bytes>)
    ensures PrepareAssetResponse(asset, headers, encoding, None, OK).body == asset.content
  {
  }

  // ---------- Whether a fallback may be accepted ----------

  // What a client wants ruled out before it takes a wildcard's response: the exact path and every wildcard that is
  // more specific.
  ghost predicate Rival(p: Path, path: bytes, scope: bytes) {
    || p == ExactPath(path).ToTreePath()
    || (p != [] && Last(p) == Some(WILDCARD_PATH_TERMINATOR) && MoreSpecific(Pop(p), Segments(path), Segments(scope)))
  }

  lemma ScopeKeepsPrefix(path: bytes, scope: bytes)
    requires CanonicalRequest(path) && scope in Scopes(path)
    ensures !PrefixEaten(Segments(path), Segments(scope)) && |Segments(scope)| <= |Segments(path)|
  {
    hide Scopes, CanonicalRequest, Segments;
    var i :| 0 <= i < |Scopes(path)| && Scopes(path)[i] == scope;
    ScopeRank(path, i);
    var p := Segments(path);
    var w := AtRank(p, Rank(p) - i - Lag(path));
    AtRankCanonical(p, Rank(p) - i - Lag(path));
    SamePop(Segments(scope), w);
    assert w != [] ==> w[0] == PATH_DIR_SEPARATOR || w[0] == p[0];
  }

  lemma SamePop(p: Path, q: Path)
    requires p + [WILDCARD_PATH_TERMINATOR] == q + [WILDCARD_PATH_TERMINATOR]
    ensures p == q
  {
    EndsWith(p, WILDCARD_PATH_TERMINATOR);
    EndsWith(q, WILDCARD_PATH_TERMINATOR);
  }

  // For a canonical request the witness of a fallback settles every rival.
  lemma RivalsSettled(w: HashTree, v: NestedTree, path: bytes, entry: HttpCertificationTreeEntry, p: Path)
    requires CanonicalRequest(path) && entry.path.WildcardPath? && entry.path.path in Scopes(path)
    requires forall q :: MustDecide(entry, path, q) ==> Settles(w, v, q)
    requires Rival(p, path, entry.path.path)
    ensures Settles(w, v, p)
  {
    hide Settles, Scopes, CanonicalRequest, Segments, MoreSpecificWildcards, PrefixEaten, MoreSpecific;
    if p != ExactPath(path).ToTreePath() {
      var request, responding := Segments(path), Segments(entry.path.path);
      ScopeKeepsPrefix(path, entry.path.path);
      CoverageExact(request, responding);
      assert p == Pop(p) + [WILDCARD_PATH_TERMINATOR];
    }
    assert MustDecide(entry, path, p);
  }

  // So the witness shows every rival absent exactly when the tree holds nothing at any of them.
  lemma FallbackAcceptable(w: HashTree, v: NestedTree, path: bytes, entry: HttpCertificationTreeEntry)
    requires CanonicalRequest(path) && entry.path.WildcardPath? && entry.path.path in Scopes(path)
    requires forall q :: MustDecide(entry, path, q) ==> Settles(w, v, q)
    ensures (forall p :: Rival(p, path, entry.path.path) ==> LookupSubtree(w, [PATH_PREFIX] + p).SubtreeAbsent?) <==>
      forall p :: Rival(p, path, entry.path.path) ==> !ContainsPath(v, p)
  {
    hide Rival, MustDecide, LookupSubtree, ContainsPath, Scopes, CanonicalRequest;
    forall p | Rival(p, path, entry.path.path)
      ensures LookupSubtree(w, [PATH_PREFIX] + p).SubtreeAbsent? <==> !ContainsPath(v, p)
    {
      RivalsSettled(w, v, path, entry, p);
    }
  }

  // The tree certifies what the router stores, and nothing else.
  ghost predicate InStep(v: NestedTree, m: ResponseMap, fallbacks: ResponseMap) {
    forall q :: GetPath(v, q).Some? <==> HoldsAt(m, q) || HoldsAt(fallbacks, q)
  }

  ghost predicate HoldsAt(m: ResponseMap, q: Path) {
    exists k :: k in m && m[k].treeEntry.ToTreePath() == q
  }

  ghost predicate HoldsUnder(m: ResponseMap, p: Path) {
    exists k :: k in m && p <= m[k].treeEntry.ToTreePath()
  }

  // In a router and a tree in step, that is when neither map holds a response at a rival's path.
  lemma AcceptableByMaps(v: NestedTree, m: ResponseMap, fallbacks: ResponseMap, p: Path)
    requires Good(v) && Dense(v) && InStep(v, m, fallbacks) && p != []
    ensures ContainsPath(v, p) <==> HoldsUnder(m, p) || HoldsUnder(fallbacks, p)
  {
    hide GetPath, HttpCertificationTreeEntry.ToTreePath, ContainsPath;
    DenseContains(v, p);
    if r: Path :| GetPath(v, p + r).Some? {
      assert HoldsAt(m, p + r) || HoldsAt(fallbacks, p + r);
    }
    if HoldsUnder(m, p) {
      var k :| k in m && p <= m[k].treeEntry.ToTreePath();
      StoredBelow(v, p, m[k].treeEntry.ToTreePath());
      assert HoldsAt(m, m[k].treeEntry.ToTreePath());
    }
    if HoldsUnder(fallbacks, p) {
      var k :| k in fallbacks && p <= fallbacks[k].treeEntry.ToTreePath();
      StoredBelow(v, p, fallbacks[k].treeEntry.ToTreePath());
      assert HoldsAt(fallbacks, fallbacks[k].treeEntry.ToTreePath());
    }
  }

  lemma StoredBelow(v: NestedTree, p: Path, q: Path)
    requires p <= q
    ensures GetPath(v, q).Some? ==> exists r: Path :: GetPath(v, p + r).Some?
  {
    assert q == p + q[|p|..];
  }

  // So what a client must see absent is absent exactly when the router stores nothing that rivals the fallback.
  lemma FallbackAcceptableByMaps(
    w: HashTree, v: NestedTree, m: ResponseMap, fallbacks: ResponseMap, path: bytes, entry: HttpCertificationTreeEntry)
    requires Good(v) && Dense(v) && InStep(v, m, fallbacks)
    requires CanonicalRequest(path) && entry.path.WildcardPath? && entry.path.path in Scopes(path)
    requires forall q :: MustDecide(entry, path, q) ==> Settles(w, v, q)
    ensures (forall p :: Rival(p, path, entry.path.path) ==> LookupSubtree(w, [PATH_PREFIX] + p).SubtreeAbsent?) <==>
      forall p :: Rival(p, path, entry.path.path) ==> !HoldsUnder(m, p) && !HoldsUnder(fallbacks, p)
  {
    hide MustDecide, LookupSubtree, ContainsPath, Scopes, CanonicalRequest, InStep, HoldsUnder, MoreSpecific;
    FallbackAcceptable(w, v, path, entry);
    forall p | Rival(p, path, entry.path.path)
      ensures ContainsPath(v, p) <==> HoldsUnder(m, p) || HoldsUnder(fallbacks, p)
    {
      AcceptableByMaps(v, m, fallbacks, p);
    }
  }

  lemma EmptyInStep()
    ensures InStep(DEFAULT, map[], map[])
  {
  }

  // A router and a tree stay in step while a response is stored at a fresh key and its tree path neither begins
  // nor continues that of another one.
  lemma StepKept(v: NestedTree, after: NestedTree, m: ResponseMap, fallbacks: ResponseMap, key: RequestKey,
                 response: CertifiedAssetResponse)
    requires InStep(v, m, fallbacks)
    requires var p := response.treeEntry.ToTreePath();
      forall q :: (GetPath(after, q) == if q == p then Some([]) else if Comparable(p, q) then None else GetPath(v, q))
    requires var p := response.treeEntry.ToTreePath();
      forall q :: (HoldsAt(m, q) || HoldsAt(fallbacks, q)) && Comparable(p, q) ==> p == q
    ensures key !in m ==> InStep(after, m[key := response], fallbacks)
    ensures key !in fallbacks ==> InStep(after, m, fallbacks[key := response])
  {
    hide Comparable, HttpCertificationTreeEntry.ToTreePath, HoldsAt, GetPath;
    forall q
      ensures key !in m ==> (GetPath(after, q).Some? <==> HoldsAt(m[key := response], q) || HoldsAt(fallbacks, q))
      ensures key !in fallbacks ==>
        (GetPath(after, q).Some? <==> HoldsAt(m, q) || HoldsAt(fallbacks[key := response], q))
    {
      AddsOne(m, key, response, q);
      AddsOne(fallbacks, key, response, q);
      assert GetPath(v, q).Some? <==> HoldsAt(m, q) || HoldsAt(fallbacks, q);
    }
  }

  ghost predicate Adds(m: ResponseMap, key: RequestKey, response: CertifiedAssetResponse, q: Path) {
    key !in m ==> (HoldsAt(m[key := response], q) <==> HoldsAt(m, q) || q == response.treeEntry.ToTreePath())
  }

  lemma AddsOne(m: ResponseMap, key: RequestKey, response: CertifiedAssetResponse, q: Path)
    ensures Adds(m, key, response, q)
  {
    hide HttpCertificationTreeEntry.ToTreePath;
    if key !in m {
      var s := m[key := response];
      assert s[key] == response && forall k :: k in m ==> k in s && s[k] == m[k];
      if HoldsAt(m, q) {
        var k :| k in m && m[k].treeEntry.ToTreePath() == q;
        assert k in s && s[k].treeEntry.ToTreePath() == q;
      }
      if q == response.treeEntry.ToTreePath() { assert key in s && s[key].treeEntry.ToTreePath() == q; }
      if HoldsAt(s, q) {
        var k :| k in s && s[k].treeEntry.ToTreePath() == q;
        assert k != key ==> k in m && m[k].treeEntry.ToTreePath() == q;
      }
    }
  }
}
