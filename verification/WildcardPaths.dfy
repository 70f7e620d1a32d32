// Which wildcard paths match a request path, and which of them are more specific than another.
module WildcardPaths {
  import opened Bytes
  import opened HashTree

  // "http_expr", "<$>", "<*>" and the empty segment that stands for a trailing slash.
  const PATH_PREFIX: bytes := [104, 116, 116, 112, 95, 101, 120, 112, 114]
  const EXACT_PATH_TERMINATOR: bytes := [60, 36, 62]
  const WILDCARD_PATH_TERMINATOR: bytes := [60, 42, 62]
  const PATH_DIR_SEPARATOR: bytes := []

  predicate StartsWith(path: Path, start: Path) {
    start <= path
  }

  predicate EndsWithSeparator(path: Path) {
    path != [] && path[|path| - 1] == PATH_DIR_SEPARATOR
  }

  function Last(path: Path): Option<bytes> {
    if path == [] then None else Some(path[|path| - 1])
  }

  function Pop(path: Path): Path {
    if path == [] then [] else path[..|path| - 1]
  }

  predicate IsWildcardPathValidForRequestPath(wildcard: Path, request: Path) {
    StartsWith(request, wildcard) ||
    (EndsWithSeparator(wildcard) && StartsWith(request, wildcard[..|wildcard| - 1]))
  }

  // The path without its affixes: what strip_path_affixes leaves in the vector.
  function Stripped(path: Path): Path {
    var p := if path != [] && path[0] == PATH_PREFIX then path[1..] else path;
    var q := if p != [] && p[|p| - 1] in {EXACT_PATH_TERMINATOR, WILDCARD_PATH_TERMINATOR} then p[..|p| - 1] else p;
    if |q| > 1 && q[0] == PATH_DIR_SEPARATOR then q[1..] else q
  }

  // Empty segments only at the end.
  ghost predicate Canonical(path: Path) {
    forall i :: 0 <= i < |path| - 1 ==> path[i] != PATH_DIR_SEPARATOR
  }

  predicate StartsWithPrefixSegment(path: Path) {
    path != [] && path[0] == PATH_PREFIX
  }

  // The path is p in the form a header carries, or in the form a tree holds.
  ghost predicate Affixed(path: Path, p: Path) {
    exists terminator :: IsTerminator(terminator) &&
      (path == [PATH_PREFIX] + p + [terminator] || (!StartsWithPrefixSegment(p) && path == p + [terminator]))
  }

  predicate IsTerminator(segment: bytes) {
    segment == EXACT_PATH_TERMINATOR || segment == WILDCARD_PATH_TERMINATOR
  }

  lemma TerminatorIsNotPrefix(terminator: bytes)
    requires IsTerminator(terminator)
    ensures terminator != PATH_PREFIX
  {
    assert |terminator| != |PATH_PREFIX|;
  }

  lemma EndsWith(p: Path, terminator: bytes)
    ensures (p + [terminator])[..|p|] == p && (p + [terminator])[|p|] == terminator
    ensures p != [] ==> (p + [terminator])[0] == p[0] && (p + [terminator])[1..] == p[1..] + [terminator]
  {
  }

  // Stripping undoes the terminator, but also eats a real first segment "http_expr".
  lemma StrippedTreePath(path: Path, terminator: bytes)
    requires Canonical(path) && IsTerminator(terminator)
    ensures Stripped(path + [terminator]) == if StartsWithPrefixSegment(path) then path[1..] else path
  {
    TerminatorIsNotPrefix(terminator);
    EndsWith(path, terminator);
    if StartsWithPrefixSegment(path) { EndsWith(path[1..], terminator); }
  }

  lemma StripUndoes(path: Path, p: Path)
    requires Canonical(p) && Affixed(path, p)
    ensures Stripped(path) == p
  {
    var terminator :| IsTerminator(terminator) &&
      (path == [PATH_PREFIX] + p + [terminator] || (!StartsWithPrefixSegment(p) && path == p + [terminator]));
    if path == [PATH_PREFIX] + p + [terminator] {
      assert path[1..] == p + [terminator];
      assert (p + [terminator])[..|p|] == p;
    } else {
      StrippedTreePath(p, terminator);
    }
  }

  // A leading separator goes as well, unless it is all there is.
  lemma LeadingSeparatorStripped(p: Path, terminator: bytes)
    requires IsTerminator(terminator)
    ensures Stripped([PATH_DIR_SEPARATOR] + p + [terminator]) == if p == [] then [PATH_DIR_SEPARATOR] else p
    ensures Stripped([PATH_PREFIX] + ([PATH_DIR_SEPARATOR] + p + [terminator])) ==
      if p == [] then [PATH_DIR_SEPARATOR] else p
  {
    var q := [PATH_DIR_SEPARATOR] + p;
    EndsWith(q, terminator);
    assert q[1..] == p;
    assert ([PATH_PREFIX] + (q + [terminator]))[1..] == q + [terminator];
  }

  // The edits leave what stood between the affixes, if that is a canonical path.
  method StripPathAffixes(path: Path) returns (p: Path)
    ensures p == Stripped(path)
    ensures forall q :: Canonical(q) && Affixed(path, q) ==> p == q
  {
    forall q | Canonical(q) && Affixed(path, q) ensures Stripped(path) == q { StripUndoes(path, q); }
    p := path;
    if p != [] && p[0] == PATH_PREFIX {
      p := p[1..];
    }
    if p != [] && (p[|p| - 1] == EXACT_PATH_TERMINATOR || p[|p| - 1] == WILDCARD_PATH_TERMINATOR) {
      p := p[..|p| - 1];
    }
    if |p| > 1 && p[0] == PATH_DIR_SEPARATOR {
      p := p[1..];
    }
  }

  // ---------- The descent from the request path ----------

  predicate Reached(potential: Path, responding: Path) {
    |potential| <= |responding| && Last(potential) == Last(responding)
  }

  // Drop a trailing slash, or replace the last segment by one.
  function Widen(potential: Path): Path {
    if EndsWithSeparator(potential) then Pop(potential) else Pop(potential) + [PATH_DIR_SEPARATOR]
  }

  ghost predicate Descends(potential: Path, responding: Path) {
    IsWildcardPathValidForRequestPath(responding, potential) || Reached(potential, responding)
  }

  ghost function Remaining(potential: Path, responding: Path): nat {
    if Reached(potential, responding) then 0
    else if potential == [] then 1
    else 2 * |potential| + if EndsWithSeparator(potential) then 1 else 2
  }

  // The descent cannot miss the responding path, whatever the two paths are.
  lemma WidenDescends(potential: Path, responding: Path)
    requires Descends(potential, responding) && !Reached(potential, responding)
    ensures Descends(Widen(potential), responding)
    ensures Remaining(Widen(potential), responding) < Remaining(potential, responding)
  {
    var next := Widen(potential);
    if StartsWith(potential, responding) {
      assert responding <= Pop(potential);
      assert StartsWith(next, responding);
    } else {
      var q := responding[..|responding| - 1];
      if |potential| > |q| {
        assert q <= Pop(potential);
        assert StartsWith(next, q);
      } else {
        assert potential == q;
      }
    }
  }

  // The wildcards met on the way down, the responding path itself left out.
  function WildcardsDown(potential: Path, responding: Path): seq<Path>
    requires Descends(potential, responding)
    decreases Remaining(potential, responding)
  {
    if Reached(potential, responding) then []
    else
      WidenDescends(potential, responding);
      [potential + [WILDCARD_PATH_TERMINATOR]] + WildcardsDown(Widen(potential), responding)
  }

  // The path the descent stops at: the responding path when it matches the request, else the empty one.
  function Target(request: Path, responding: Path): (r: Path)
    ensures Descends(request, r)
  {
    if IsWildcardPathValidForRequestPath(responding, request) then responding else []
  }

  function MoreSpecificWildcards(requested: Path, responding: Path): seq<Path> {
    WildcardsDown(Stripped(requested), Target(Stripped(requested), Stripped(responding)))
  }

  lemma DownStep(listed: seq<Path>, potential: Path, responding: Path)
    requires Descends(potential, responding) && !Reached(potential, responding)
    ensures Descends(Widen(potential), responding)
    ensures Pop(potential + [WILDCARD_PATH_TERMINATOR]) == potential
    ensures listed + WildcardsDown(potential, responding) ==
      listed + [potential + [WILDCARD_PATH_TERMINATOR]] + WildcardsDown(Widen(potential), responding)
  {
    WidenDescends(potential, responding);
  }

  method MoreSpecificWildcardsFor(requestedPath: Path, respondingWildcardPath: Path) returns (validWildcards: seq<Path>)
    ensures validWildcards == MoreSpecificWildcards(requestedPath, respondingWildcardPath)
  {
    validWildcards := [];
    var potentialPath := StripPathAffixes(requestedPath);
    var responding := StripPathAffixes(respondingWildcardPath);
    if !IsWildcardPathValidForRequestPath(responding, potentialPath) {
      responding := [];
    }
    while |potentialPath| > |responding| || Last(potentialPath) != Last(responding)
      invariant Descends(potentialPath, responding)
      invariant validWildcards + WildcardsDown(potentialPath, responding) ==
        MoreSpecificWildcards(requestedPath, respondingWildcardPath)
      decreases Remaining(potentialPath, responding)
    {
      WidenDescends(potentialPath, responding);
      ghost var here, listed := potentialPath, validWildcards;
      potentialPath := potentialPath + [WILDCARD_PATH_TERMINATOR];
      validWildcards := validWildcards + [potentialPath];
      potentialPath := Pop(potentialPath);
      DownStep(listed, here, responding);
      if EndsWithSeparator(potentialPath) {
        potentialPath := Pop(potentialPath);
      } else {
        potentialPath := Pop(potentialPath);
        potentialPath := potentialPath + [PATH_DIR_SEPARATOR];
      }
    }
  }

  // ---------- What the list means ----------

  // A longer path is more specific; of two equally long ones, the one without a trailing slash.
  function Rank(path: Path): nat {
    2 * |path| - if EndsWithSeparator(path) then 1 else 0
  }

  // The canonical wildcard of this rank that matches the request path.
  function AtRank(request: Path, rank: nat): Path
    requires rank <= Rank(request)
  {
    if rank % 2 == 0 then request[..rank / 2] else request[..rank / 2] + [PATH_DIR_SEPARATOR]
  }

  lemma AtRankCanonical(request: Path, rank: nat)
    requires Canonical(request) && rank <= Rank(request)
    ensures Canonical(AtRank(request, rank)) && Rank(AtRank(request, rank)) == rank
    ensures IsWildcardPathValidForRequestPath(AtRank(request, rank), request) && |AtRank(request, rank)| <= |request|
  {
    var p := AtRank(request, rank);
    if rank % 2 == 1 {
      assert p[..|p| - 1] == request[..rank / 2];
    }
  }

  // A canonical wildcard that matches the request and is no longer than it is fixed by its rank.
  lemma ValidIsAtRank(request: Path, w: Path)
    requires Canonical(request) && Canonical(w)
    ensures (IsWildcardPathValidForRequestPath(w, request) && |w| <= |request|) <==>
            (Rank(w) <= Rank(request) && w == AtRank(request, Rank(w)))
  {
    if IsWildcardPathValidForRequestPath(w, request) && |w| <= |request| {
      if EndsWithSeparator(w) {
        assert Rank(w) / 2 == |w| - 1;
        assert w == w[..|w| - 1] + [PATH_DIR_SEPARATOR];
        assert w[..|w| - 1] == request[..|w| - 1];
        assert |w| == |request| && !EndsWithSeparator(request) ==> Rank(w) < Rank(request);
      } else {
        assert w == request[..|w|];
        assert |w| == |request| ==> w == request;
      }
    }
    if Rank(w) <= Rank(request) && w == AtRank(request, Rank(w)) {
      AtRankCanonical(request, Rank(w));
    }
  }

  lemma WidenRank(request: Path, rank: nat)
    requires Canonical(request) && 0 < rank <= Rank(request)
    ensures Widen(AtRank(request, rank)) == AtRank(request, rank - 1)
  {
    AtRankCanonical(request, rank);
    var p := AtRank(request, rank);
    if rank % 2 == 1 {
      assert Pop(p) == request[..rank / 2];
    } else {
      assert Pop(p) == request[..rank / 2 - 1];
      assert (rank - 1) / 2 == rank / 2 - 1;
    }
  }

  lemma ReachedAtRank(request: Path, rank: nat, target: nat)
    requires Canonical(request) && target <= rank <= Rank(request)
    ensures Reached(AtRank(request, rank), AtRank(request, target)) <==> rank == target
  {
    AtRankCanonical(request, rank);
    AtRankCanonical(request, target);
  }

  // The list holds the wildcards of the ranks from this one downwards.
  ghost predicate Ranked(list: seq<Path>, request: Path, rank: int) {
    && rank <= Rank(request) && |list| <= rank + 1
    && forall i :: 0 <= i < |list| ==> list[i] == AtRank(request, rank - i) + [WILDCARD_PATH_TERMINATOR]
  }

  lemma WildcardsDownStep(potential: Path, next: Path, responding: Path)
    requires Descends(potential, responding) && next == Widen(potential)
    ensures Reached(potential, responding) ==> WildcardsDown(potential, responding) == []
    ensures !Reached(potential, responding) ==>
      Descends(next, responding) &&
      WildcardsDown(potential, responding) == [potential + [WILDCARD_PATH_TERMINATOR]] + WildcardsDown(next, responding)
  {
    if !Reached(potential, responding) { WidenDescends(potential, responding); }
  }

  // The wildcards of a descending ladder of paths, its foot left out.
  ghost function Ladder(rung: nat -> Path, top: nat, foot: nat): seq<Path>
    requires foot <= top
  {
    if top == foot then [] else [rung(top) + [WILDCARD_PATH_TERMINATOR]] + Ladder(rung, top - 1, foot)
  }

  ghost predicate Descending(rung: nat -> Path, r: nat, foot: nat)
    requires r > 0
  {
    Widen(rung(r)) == rung(r - 1) && !Reached(rung(r), rung(foot))
  }

  lemma {:induction false} DownLadder(rung: nat -> Path, top: nat, foot: nat)
    requires foot <= top && Descends(rung(top), rung(foot))
    requires forall r: nat :: foot < r <= top ==> Descending(rung, r, foot)
    ensures WildcardsDown(rung(top), rung(foot)) == Ladder(rung, top, foot)
  {
    hide Remaining, Descends, WildcardsDown;
    assert top > foot ==> Descending(rung, top, foot);
    WildcardsDownStep(rung(top), Widen(rung(top)), rung(foot));
    if top > foot { DownLadder(rung, top - 1, foot); }
  }

  lemma {:induction false} LadderRungs(rung: nat -> Path, top: nat, foot: nat)
    requires foot <= top
    ensures |Ladder(rung, top, foot)| == top - foot
    ensures forall i: nat :: i < top - foot ==> Ladder(rung, top, foot)[i] == rung(top - i) + [WILDCARD_PATH_TERMINATOR]
  {
    if top > foot {
      LadderRungs(rung, top - 1, foot);
      var rest := Ladder(rung, top - 1, foot);
      forall i: nat | i < top - foot ensures Ladder(rung, top, foot)[i] == rung(top - i) + [WILDCARD_PATH_TERMINATOR] {
        if i > 0 {
          var j: nat := i - 1;
          assert Ladder(rung, top, foot)[i] == rest[j] && rest[j] == rung(top - 1 - j) + [WILDCARD_PATH_TERMINATOR];
        }
      }
    }
  }

  ghost function Rungs(request: Path): nat -> Path {
    (r: nat) => if r <= Rank(request) then AtRank(request, r) else []
  }

  lemma RungsDescend(request: Path, target: nat, r: nat)
    requires Canonical(request) && target < r <= Rank(request)
    ensures Descending(Rungs(request), r, target)
  {
    WidenRank(request, r);
    ReachedAtRank(request, r, target);
  }

  lemma RungsDescending(request: Path, target: nat)
    requires Canonical(request) && target <= Rank(request)
    ensures forall r: nat :: target < r <= Rank(request) ==> Descending(Rungs(request), r, target)
  {
    forall r: nat | target < r <= Rank(request)
      ensures Descending(Rungs(request), r, target)
    {
      RungsDescend(request, target, r);
    }
  }

  // The descent visits every rung from the top down to the foot, once each.
  lemma DownByRung(rung: nat -> Path, top: nat, foot: nat)
    requires foot <= top && Descends(rung(top), rung(foot))
    requires forall r: nat :: foot < r <= top ==> Descending(rung, r, foot)
    ensures var list := WildcardsDown(rung(top), rung(foot));
      |list| == top - foot && forall i: nat :: i < |list| ==> list[i] == rung(top - i) + [WILDCARD_PATH_TERMINATOR]
  {
    DownLadder(rung, top, foot);
    LadderRungs(rung, top, foot);
  }

  // Membership in a list ordered by rank.
  lemma ListedByRank(request: Path, target: nat, list: seq<Path>, w: Path)
    requires Canonical(request) && Canonical(w) && target <= Rank(request)
    requires |list| == Rank(request) - target && Ranked(list, request, Rank(request))
    ensures w + [WILDCARD_PATH_TERMINATOR] in list <==>
      IsWildcardPathValidForRequestPath(w, request) && |w| <= |request| && Rank(w) > target
  {
    hide AtRank, Canonical, Rank, IsWildcardPathValidForRequestPath;
    ValidIsAtRank(request, w);
    var item := w + [WILDCARD_PATH_TERMINATOR];
    assert item[..|w|] == w;
    if item in list {
      var i :| 0 <= i < |list| && list[i] == item;
      var v := AtRank(request, Rank(request) - i);
      assert (v + [WILDCARD_PATH_TERMINATOR])[..|v|] == v;
      assert w == v;
      AtRankCanonical(request, Rank(request) - i);
    }
    if Rank(w) <= Rank(request) && w == AtRank(request, Rank(w)) && Rank(w) > target {
      assert list[Rank(request) - Rank(w)] == item;
    }
  }

  lemma WildcardsRanked(requested: Path, responding: Path)
    requires Canonical(Stripped(requested)) && Canonical(Stripped(responding))
    requires |Stripped(responding)| <= |Stripped(requested)|
    ensures var p := Stripped(requested);
      var r := Target(p, Stripped(responding));
      var list := MoreSpecificWildcards(requested, responding);
      Rank(r) <= Rank(p) && |list| == Rank(p) - Rank(r) && Ranked(list, p, Rank(p))
  {
    hide Stripped, WildcardsDown, Descends, Ranked, Rank, Canonical, Rungs;
    var p := Stripped(requested);
    var r := Target(p, Stripped(responding));
    TargetRung(p, Stripped(responding));
    RungsDescending(p, Rank(r));
    DownByRung(Rungs(p), Rank(p), Rank(r));
    RungsRanked(p, WildcardsDown(p, r));
  }

  // Both ends of the descent are rungs.
  lemma TargetRung(p: Path, w: Path)
    requires Canonical(p) && Canonical(w) && |w| <= |p|
    ensures var r := Target(p, w);
      Rank(r) <= Rank(p) && Rungs(p)(Rank(p)) == p && Rungs(p)(Rank(r)) == r
  {
    ValidIsAtRank(p, Target(p, w));
    ValidIsAtRank(p, p);
  }

  lemma RungsRanked(request: Path, list: seq<Path>)
    requires |list| <= Rank(request)
    requires forall i: nat :: i < |list| ==> list[i] == Rungs(request)(Rank(request) - i) + [WILDCARD_PATH_TERMINATOR]
    ensures Ranked(list, request, Rank(request))
  {
    hide AtRank, EndsWithSeparator;
    forall i | 0 <= i < |list| ensures list[i] == AtRank(request, Rank(request) - i) + [WILDCARD_PATH_TERMINATOR] {
      var j: nat := i;
      assert list[j] == Rungs(request)(Rank(request) - j) + [WILDCARD_PATH_TERMINATOR];
    }
  }

  // more_specific_wildcards_for lists, most specific first and each once, exactly the canonical
  // wildcards that match the request, are no longer than it and outrank the responding path.
  lemma WildcardsMeaning(requested: Path, responding: Path)
    requires Canonical(Stripped(requested)) && Canonical(Stripped(responding))
    requires |Stripped(responding)| <= |Stripped(requested)|
    ensures var p := Stripped(requested);
      var r := Target(p, Stripped(responding));
      var list := MoreSpecificWildcards(requested, responding);
      && |list| == Rank(p) - Rank(r)
      && (forall i ::
        0 <= i < |list| ==> Rank(Pop(list[i])) == Rank(p) - i && Last(list[i]) == Some(WILDCARD_PATH_TERMINATOR))
      && (forall w :: Canonical(w) ==>
           (w + [WILDCARD_PATH_TERMINATOR] in list <==>
            IsWildcardPathValidForRequestPath(w, p) && |w| <= |p| && Rank(w) > Rank(r)))
  {
    var p := Stripped(requested);
    var r := Target(p, Stripped(responding));
    var list := MoreSpecificWildcards(requested, responding);
    WildcardsRanked(requested, responding);
    RankedDescends(p, list);
    forall w | Canonical(w)
      ensures w + [WILDCARD_PATH_TERMINATOR] in list <==>
        IsWildcardPathValidForRequestPath(w, p) && |w| <= |p| && Rank(w) > Rank(r)
    {
      ListedByRank(p, Rank(r), list, w);
    }
  }

  lemma RankedDescends(request: Path, list: seq<Path>)
    requires Canonical(request) && Ranked(list, request, Rank(request))
    ensures forall i ::
      0 <= i < |list| ==> Rank(Pop(list[i])) == Rank(request) - i && Last(list[i]) == Some(WILDCARD_PATH_TERMINATOR)
  {
    forall i | 0 <= i < |list|
      ensures Rank(Pop(list[i])) == Rank(request) - i && Last(list[i]) == Some(WILDCARD_PATH_TERMINATOR)
    {
      AtRankCanonical(request, Rank(request) - i);
      assert Pop(list[i]) == AtRank(request, Rank(request) - i);
    }
  }
}
