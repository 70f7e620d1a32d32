// The fallback scopes of a request path, and the wildcard paths they stand for in the certification tree.
module AssetScopes {
  import opened Bytes
  import opened HashTree
  import opened WildcardPaths
  import opened HttpTree

  function DropLast(pieces: seq<bytes>): seq<bytes> {
    if pieces == [] then [] else pieces[..|pieces| - 1]
  }

  // For each ancestor directory, first with and then without its trailing slash.
  function ScopesOf(pieces: seq<bytes>): seq<bytes> {
    if pieces == [] then [] else [Join(pieces, [SLASH]) + [SLASH], Join(pieces, [SLASH])] + ScopesOf(DropLast(pieces))
  }

  // The scopes the router tries for a request path, in the order it tries them.
  function Scopes(path: bytes): seq<bytes> {
    ScopesOf(DropLast(Split(path)))
  }

  predicate SlashFree(pieces: seq<bytes>) {
    forall i :: 0 <= i < |pieces| ==> SLASH !in pieces[i]
  }

  // ---------- Splitting and joining ----------

  lemma {:induction false} SplitFirst(a: bytes, b: bytes)
    requires SLASH !in a
    ensures Split(a + [SLASH] + b) == [a] + Split(b) && Split(a) == [a]
  {
    var s := a + [SLASH] + b;
    if a == [] {
      assert s[1..] == b;
    } else {
      SplitFirst(a[1..], b);
      assert s[1..] == a[1..] + [SLASH] + b;
      assert [a[0]] + a[1..] == a;
    }
  }

  lemma {:induction false} SplitJoin(pieces: seq<bytes>)
    requires pieces != [] && SlashFree(pieces)
    ensures Split(Join(pieces, [SLASH])) == pieces
  {
    SplitFirst(pieces[0], []);
    if |pieces| > 1 {
      SplitJoin(pieces[1..]);
      SplitFirst(pieces[0], Join(pieces[1..], [SLASH]));
    }
  }

  lemma {:induction false} JoinSplit(s: bytes)
    ensures Join(Split(s), [SLASH]) == s && SlashFree(Split(s))
  {
    if s != [] {
      var rest := Split(s[1..]);
      JoinSplit(s[1..]);
      if s[0] == SLASH {
        assert ([[]] + rest)[1..] == rest;
      } else {
        var pieces := [[s[0]] + rest[0]] + rest[1..];
        assert pieces[1..] == rest[1..];
        assert Join(pieces, [SLASH]) == [s[0]] + Join(rest, [SLASH]);
      }
    }
  }

  lemma {:induction false} JoinEndsWithSlash(pieces: seq<bytes>)
    requires pieces != [] && SlashFree(pieces)
    ensures Join(pieces, [SLASH]) + [SLASH] == Join(pieces + [[]], [SLASH])
    ensures var s := Join(pieces, [SLASH]);
      (s != [] && s[|s| - 1] == SLASH) <==> (|pieces| >= 2 && pieces[|pieces| - 1] == [])
  {
    assert (pieces + [[]])[1..] == pieces[1..] + [[]];
    if |pieces| > 1 {
      JoinEndsWithSlash(pieces[1..]);
      if Join(pieces[1..], [SLASH]) == [] { assert Split([]) == pieces[1..] by { SplitJoin(pieces[1..]); } }
    }
  }

  lemma {:induction false} NonEmptyConcat(a: seq<bytes>, b: seq<bytes>)
    ensures NonEmpty(a + b) == NonEmpty(a) + NonEmpty(b)
  {
    if a == [] {
      assert a + b == b;
    } else {
      assert (a + b)[1..] == a[1..] + b;
      NonEmptyConcat(a[1..], b);
    }
  }

  lemma {:induction false} NonEmptyAll(a: seq<bytes>)
    requires forall i :: 0 <= i < |a| ==> a[i] != []
    ensures NonEmpty(a) == a
  {
    if a != [] { NonEmptyAll(a[1..]); }
  }

  lemma NonEmptyOne(piece: bytes)
    ensures NonEmpty([piece]) == if piece == [] then [] else [piece]
  {
  }

  lemma NonEmptyLast(pieces: seq<bytes>)
    ensures NonEmpty(pieces + [[]]) == NonEmpty(pieces)
  {
    NonEmptyConcat(pieces, [[]]);
  }

  lemma SegmentsByPieces(s: bytes, pieces: seq<bytes>)
    requires pieces != [] && Split(s) == pieces
    requires (s != [] && s[|s| - 1] == SLASH) <==> (|pieces| >= 2 && pieces[|pieces| - 1] == [])
    ensures Segments(s) ==
      NonEmpty(pieces) + if |pieces| >= 2 && pieces[|pieces| - 1] == [] then [PATH_DIR_SEPARATOR] else []
  {
    hide Split, NonEmpty, Canonical;
  }

  // The segments of a joined path, read off its pieces.
  lemma SegmentsOfJoin(pieces: seq<bytes>)
    requires pieces != [] && SlashFree(pieces)
    ensures Segments(Join(pieces, [SLASH])) ==
      NonEmpty(pieces) + if |pieces| >= 2 && pieces[|pieces| - 1] == [] then [PATH_DIR_SEPARATOR] else []
    ensures Segments(Join(pieces, [SLASH]) + [SLASH]) == NonEmpty(pieces) + [PATH_DIR_SEPARATOR]
  {
    hide Join, Split, NonEmpty, Segments, Canonical;
    JoinSegments(pieces);
    JoinEndsWithSlash(pieces);
    JoinSegments(pieces + [[]]);
    NonEmptyLast(pieces);
  }

  lemma JoinSegments(pieces: seq<bytes>)
    requires pieces != [] && SlashFree(pieces)
    ensures Segments(Join(pieces, [SLASH])) ==
      NonEmpty(pieces) + if |pieces| >= 2 && pieces[|pieces| - 1] == [] then [PATH_DIR_SEPARATOR] else []
  {
    hide Join, Split, NonEmpty, Segments, SlashFree, Canonical;
    SplitJoin(pieces);
    JoinEndsWithSlash(pieces);
    SegmentsByPieces(Join(pieces, [SLASH]), pieces);
  }

  // ---------- Scopes and wildcards ----------

  function WildcardTreePaths(scopes: seq<bytes>): seq<Path> {
    if scopes == [] then [] else [WildcardPath(scopes[0]).ToTreePath()] + WildcardTreePaths(scopes[1..])
  }

  lemma {:induction false} WildcardTreePathsAt(scopes: seq<bytes>)
    ensures |WildcardTreePaths(scopes)| == |scopes|
    ensures forall i :: 0 <= i < |scopes| ==> WildcardTreePaths(scopes)[i] == WildcardPath(scopes[i]).ToTreePath()
  {
    hide HttpCertificationPath.ToTreePath;
    if scopes != [] { WildcardTreePathsAt(scopes[1..]); }
  }

  // A leading slash and no empty segment inside.
  ghost predicate CanonicalRequest(path: bytes) {
    var pieces := Split(path);
    && |pieces| >= 2 && pieces[0] == []
    && (forall i :: 0 < i < |pieces| - 1 ==> pieces[i] != [])
    && pieces[1] != PATH_PREFIX
  }

  lemma DownFromSlash(segments: Path)
    requires forall i :: 0 <= i < |segments| ==> segments[i] != []
    ensures var p := segments + [PATH_DIR_SEPARATOR];
      Descends(p, []) && Descends(segments, []) &&
      WildcardsDown(p, []) == [p + [WILDCARD_PATH_TERMINATOR]] + WildcardsDown(segments, [])
  {
    var p := segments + [PATH_DIR_SEPARATOR];
    assert Widen(p) == segments;
    WildcardsDownStep(p, segments, []);
  }

  lemma DownFromSegment(segments: Path)
    requires segments != [] && forall i :: 0 <= i < |segments| ==> segments[i] != []
    ensures var next := Pop(segments) + [PATH_DIR_SEPARATOR];
      Descends(segments, []) && Descends(next, []) &&
      WildcardsDown(segments, []) == [segments + [WILDCARD_PATH_TERMINATOR]] + WildcardsDown(next, [])
  {
    WildcardsDownStep(segments, Widen(segments), []);
  }

  lemma ScopesStep(segments: Path)
    requires SlashFree(segments) && forall i :: 0 <= i < |segments| ==> segments[i] != []
    ensures WildcardTreePaths(ScopesOf([[]] + segments)) ==
      [segments + [PATH_DIR_SEPARATOR] + [WILDCARD_PATH_TERMINATOR], segments + [WILDCARD_PATH_TERMINATOR]]
      + WildcardTreePaths(ScopesOf(DropLast([[]] + segments)))
  {
    hide Join, NonEmpty, Segments, WildcardTreePaths;
    var pieces := [[]] + segments;
    var s := Join(pieces, [SLASH]);
    DirectorySegments(segments);
    FirstTwoPaths(s + [SLASH], s, ScopesOf(DropLast(pieces)));
  }

  lemma FirstTwoPaths(a: bytes, b: bytes, rest: seq<bytes>)
    ensures WildcardTreePaths([a, b] + rest) ==
      [WildcardPath(a).ToTreePath(), WildcardPath(b).ToTreePath()] + WildcardTreePaths(rest)
  {
    hide Segments;
    assert ([a, b] + rest)[1..] == [b] + rest;
    assert ([b] + rest)[1..] == rest;
  }

  lemma DirectorySegments(segments: Path)
    requires SlashFree(segments) && forall i :: 0 <= i < |segments| ==> segments[i] != []
    ensures Segments(Join([[]] + segments, [SLASH])) == segments
    ensures Segments(Join([[]] + segments, [SLASH]) + [SLASH]) == segments + [PATH_DIR_SEPARATOR]
  {
    hide Join, Segments;
    SegmentsOfJoin([[]] + segments);
    NonEmptyConcat([[]], segments);
    NonEmptyAll(segments);
  }

  lemma Weave(first: Path, second: Path, rest: seq<Path>, root: Path)
    ensures [first, second] + (rest + [root]) == [first] + ([second] + rest) + [root]
  {
  }

  lemma DropLastIsPop(segments: Path)
    requires segments != []
    ensures DropLast([[]] + segments) == [[]] + Pop(segments)
    ensures SlashFree(segments) ==> SlashFree(Pop(segments))
  {
    assert ([[]] + segments)[..|segments|] == [[]] + segments[..|segments| - 1];
  }

  // From a directory upwards the scopes are the wildcards of the descent, then the empty one.
  lemma {:induction false} ScopesDown(segments: Path)
    requires SlashFree(segments) && forall i :: 0 <= i < |segments| ==> segments[i] != []
    ensures Descends(segments + [PATH_DIR_SEPARATOR], [])
    ensures WildcardTreePaths(ScopesOf([[]] + segments)) ==
      WildcardsDown(segments + [PATH_DIR_SEPARATOR], []) + [[WILDCARD_PATH_TERMINATOR]]
  {
    hide ScopesOf, WildcardTreePaths, Descends, WildcardsDown, Segments, DropLast, SlashFree;
    ScopesStep(segments);
    DownFromSlash(segments);
    var slashed := segments + [PATH_DIR_SEPARATOR] + [WILDCARD_PATH_TERMINATOR];
    var plain := segments + [WILDCARD_PATH_TERMINATOR];
    if segments == [] {
      NothingAbove();
      assert plain == [WILDCARD_PATH_TERMINATOR];
    } else {
      DropLastIsPop(segments);
      ScopesDown(Pop(segments));
      DownFromSegment(segments);
      Weave(slashed, plain, WildcardsDown(Pop(segments) + [PATH_DIR_SEPARATOR], []), [WILDCARD_PATH_TERMINATOR]);
    }
  }

  lemma NothingAbove()
    ensures WildcardTreePaths(ScopesOf(DropLast([[]] + []))) == []
    ensures Descends([], []) && WildcardsDown([], []) == []
  {
  }

  // The scopes tried for a request are, in the same order, the wildcards more specific than the root
  // wildcard, without the request path itself unless it ends in a slash, and then the root wildcard.
  lemma ScopesAreWildcards(path: bytes)
    requires CanonicalRequest(path)
    ensures var more := MoreSpecificWildcards(ExactPath(path).ToTreePath(), WildcardPath([]).ToTreePath());
      path != [] && more != [] &&
      WildcardTreePaths(Scopes(path)) ==
        (if path[|path| - 1] == SLASH then more else more[1..]) + [[WILDCARD_PATH_TERMINATOR]]
  {
    hide ScopesOf, WildcardTreePaths, Descends, WildcardsDown, MoreSpecificWildcards, Split;
    var pieces := Split(path);
    var last := pieces[|pieces| - 1];
    var above := pieces[1..|pieces| - 1];
    assert DropLast(pieces) == [[]] + above;
    JoinSplit(path);
    assert forall i :: 0 <= i < |above| ==> above[i] == pieces[i + 1];
    assert pieces == [[]] + above + [last];
    RequestSegments(path, above, last);
    ScopesDown(above);
    RequestedStripped(path);
    if last == [] {
      DownFromSlash(above);
    } else {
      assert Pop(above + [last]) == above;
      DownFromSegment(above + [last]);
    }
  }

  // The segments between the leading slash and the last piece.
  lemma NonEmptyFramed(above: Path, last: bytes)
    requires forall i :: 0 <= i < |above| ==> above[i] != []
    ensures NonEmpty([[]] + above + [last]) == above + if last == [] then [] else [last]
  {
    hide NonEmpty;
    NonEmptyConcat([[]] + above, [last]);
    NonEmptyConcat([[]], above);
    NonEmptyAll(above);
    NonEmptyOne(last);
    NonEmptyOne([]);
  }

  lemma RequestSegments(path: bytes, above: Path, last: bytes)
    requires Split(path) == [[]] + above + [last] && forall i :: 0 <= i < |above| ==> above[i] != []
    ensures Segments(path) == above + [last]
    ensures path != [] && (path[|path| - 1] == SLASH <==> last == [])
  {
    hide Join, Split, Segments, SlashFree, Canonical, NonEmpty;
    var pieces := Split(path);
    JoinSplit(path);
    JoinEndsWithSlash(pieces);
    JoinSegments(pieces);
    NonEmptyFramed(above, last);
    LastOfFramed(above, last);
    EmptySplit();
  }

  lemma LastOfFramed(above: Path, last: bytes)
    ensures var pieces := [[]] + above + [last];
      |pieces| >= 2 && pieces[|pieces| - 1] == last
  {
  }

  lemma EmptySplit()
    ensures |Split([])| == 1
  {
  }

  lemma RequestedStripped(path: bytes)
    requires Segments(path) != [] && Segments(path)[0] != PATH_PREFIX
    ensures var more := MoreSpecificWildcards(ExactPath(path).ToTreePath(), WildcardPath([]).ToTreePath());
      Descends(Segments(path), []) && more == WildcardsDown(Segments(path), [])
  {
    var segments := Segments(path);
    var requested := ExactPath(path).ToTreePath();
    assert requested[..|requested| - 1] == segments;
    assert WildcardPath([]).ToTreePath() == [WILDCARD_PATH_TERMINATOR];
    assert Stripped([WILDCARD_PATH_TERMINATOR]) == [];
    assert Stripped(requested) == segments;
  }

  lemma LastPiece(pieces: seq<bytes>)
    requires pieces != []
    ensures var last := pieces[|pieces| - 1];
      |NonEmpty(pieces)| == |NonEmpty(DropLast(pieces))| + if last == [] then 0 else 1
  {
    assert pieces == DropLast(pieces) + [pieces[|pieces| - 1]];
    NonEmptyConcat(DropLast(pieces), [pieces[|pieces| - 1]]);
  }

  lemma NoPieces()
    ensures ScopesOf([]) == []
  {
  }

  // Whatever the request path is, the wildcard of a scope tried for it is never longer than the path itself.
  lemma {:induction false} ScopesAreShort(pieces: seq<bytes>, scope: bytes)
    requires SlashFree(pieces) && scope in ScopesOf(pieces)
    ensures |Segments(scope)| <= |NonEmpty(pieces)| + 1
  {
    hide Join, Segments, NonEmpty, Canonical;
    SegmentsOfJoin(pieces);
    var above := DropLast(pieces);
    LastPiece(pieces);
    if scope in ScopesOf(above) {
      ScopesAreShort(above, scope);
    }
  }

  lemma ScopeFitsRequest(path: bytes, scope: bytes)
    requires scope in Scopes(path)
    ensures |WildcardPath(scope).ToTreePath()| <= |ExactPath(path).ToTreePath()|
  {
    hide Join, Split, Segments, NonEmpty, ScopesOf, Canonical;
    var pieces := Split(path);
    JoinSplit(path);
    LastPiece(pieces);
    if |pieces| == 1 {
      NoPieces();
    } else {
      ScopesAreShort(DropLast(pieces), scope);
      JoinSegments(pieces);
    }
  }

  // ---------- The scopes before one of them ----------

  lemma RootRanked(path: bytes)
    requires CanonicalRequest(path)
    ensures var p := Segments(path);
      var more := MoreSpecificWildcards(ExactPath(path).ToTreePath(), WildcardPath([]).ToTreePath());
      && p != [] && p[0] != PATH_PREFIX
      && |more| == Rank(p) && Ranked(more, p, Rank(p))
  {
    hide Split, WildcardsDown, Ranked, Segments, SlashFree, Canonical;
    var p := Segments(path);
    var pieces := Split(path);
    JoinSplit(path);
    var above := pieces[1..|pieces| - 1];
    assert pieces == [[]] + above + [pieces[|pieces| - 1]];
    assert forall i :: 0 <= i < |above| ==> above[i] == pieces[i + 1];
    RequestSegments(path, above, pieces[|pieces| - 1]);
    assert p[0] == pieces[1];
    StrippedTreePath(p, EXACT_PATH_TERMINATOR);
    StrippedTreePath([], WILDCARD_PATH_TERMINATOR);
    RootWildcard();
    WildcardsRanked(ExactPath(path).ToTreePath(), WildcardPath([]).ToTreePath());
  }

  lemma RootWildcard()
    ensures WildcardPath([]).ToTreePath() == [] + [WILDCARD_PATH_TERMINATOR]
  {
  }

  lemma RankZero(p: Path)
    ensures AtRank(p, 0) + [WILDCARD_PATH_TERMINATOR] == [WILDCARD_PATH_TERMINATOR]
  {
  }

  // How far the scopes lag behind the wildcards: by one, unless the request ends in a slash.
  function Lag(path: bytes): nat {
    if path != [] && path[|path| - 1] == SLASH then 0 else 1
  }

  // The wildcard of the i-th scope, by rank.
  lemma ScopeRank(path: bytes, i: nat)
    requires CanonicalRequest(path) && i < |Scopes(path)|
    ensures var p := Segments(path);
      var r := Rank(p) - i - Lag(path);
      && p != [] && p[0] != PATH_PREFIX
      && 0 <= r <= Rank(p) && WildcardPath(Scopes(path)[i]).ToTreePath() == AtRank(p, r) + [WILDCARD_PATH_TERMINATOR]
  {
    hide Scopes, CanonicalRequest, MoreSpecificWildcards, Segments, AtRank, Rank, Canonical,
      HttpCertificationPath.ToTreePath, WildcardTreePaths;
    var p := Segments(path);
    ScopesAreWildcards(path);
    WildcardTreePathsAt(Scopes(path));
    RootRanked(path);
    RankZero(p);
    var more := MoreSpecificWildcards(ExactPath(path).ToTreePath(), WildcardPath([]).ToTreePath());
    if i < |Scopes(path)| - 1 {
      assert WildcardTreePaths(Scopes(path))[i] == more[i + Lag(path)];
    }
  }

  // Up to any scope, the scopes tried are the wildcards more specific than that scope's, the request path
  // itself left out unless it ends in a slash: the same wildcards that its witness has to rule out.
  lemma ScopesBefore(path: bytes, i: nat)
    requires CanonicalRequest(path) && i < |Scopes(path)|
    ensures var more := MoreSpecificWildcards(ExactPath(path).ToTreePath(), WildcardPath(Scopes(path)[i]).ToTreePath());
      Lag(path) <= |more| && WildcardTreePaths(Scopes(path)[..i]) == more[Lag(path)..]
  {
    hide Scopes, CanonicalRequest, MoreSpecificWildcards, Segments, AtRank, Rank, Canonical, Lag,
      HttpCertificationPath.ToTreePath, WildcardTreePaths;
    var p := Segments(path);
    var before := Scopes(path)[..i];
    ScopeRank(path, i);
    RankedAgainst(path, Rank(p) - i - Lag(path));
    WildcardTreePathsAt(before);
    forall j | 0 <= j < i
      ensures WildcardTreePaths(before)[j] == AtRank(p, Rank(p) - j - Lag(path)) + [WILDCARD_PATH_TERMINATOR]
    {
      ScopeRank(path, j);
    }
  }

  lemma RankedAgainst(path: bytes, r: nat)
    requires var p := Segments(path); p != [] && p[0] != PATH_PREFIX && r <= Rank(p)
    ensures var p := Segments(path);
      var more := MoreSpecificWildcards(ExactPath(path).ToTreePath(), AtRank(p, r) + [WILDCARD_PATH_TERMINATOR]);
      |more| == Rank(p) - r && Ranked(more, p, Rank(p))
  {
    hide Segments, Ranked, WildcardsDown;
    var p := Segments(path);
    var w := AtRank(p, r);
    AtRankCanonical(p, r);
    assert w != [] ==> w[0] == PATH_DIR_SEPARATOR || w[0] == p[0];
    assert ExactPath(path).ToTreePath() == p + [EXACT_PATH_TERMINATOR];
    StrippedTreePath(p, EXACT_PATH_TERMINATOR);
    StrippedTreePath(w, WILDCARD_PATH_TERMINATOR);
    WildcardsRanked(ExactPath(path).ToTreePath(), w + [WILDCARD_PATH_TERMINATOR]);
  }
}
