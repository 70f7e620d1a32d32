// The certification tree for HTTP responses: its paths, its witnesses and what they decide.
module HttpTree {
  import opened Bytes
  import opened HashTree
  import opened Merge
  import opened RbTree
  import opened Witnesses
  import opened NestedTrees
  import opened WildcardPaths

  // ---------- Paths ----------

  const SLASH: byte := 47

  // str::split('/'): always at least one piece.
  function Split(s: bytes): (pieces: seq<bytes>)
    ensures |pieces| > 0
  {
    if s == [] then [[]]
    else
      var rest := Split(s[1..]);
      if s[0] == SLASH then [[]] + rest else [[s[0]] + rest[0]] + rest[1..]
  }

  function NonEmpty(pieces: seq<bytes>): (r: seq<bytes>)
    ensures forall i :: 0 <= i < |r| ==> r[i] != []
  {
    if pieces == [] then []
    else if pieces[0] == [] then NonEmpty(pieces[1..])
    else [pieces[0]] + NonEmpty(pieces[1..])
  }

  // The path's segments, a trailing slash standing as an empty last segment.
  function Segments(path: bytes): (r: Path)
    ensures Canonical(r)
  {
    NonEmpty(Split(path)) + if path != [] && path[|path| - 1] == SLASH then [PATH_DIR_SEPARATOR] else []
  }

  function PathToSegments(path: bytes, terminator: bytes): Path {
    Segments(path) + [terminator]
  }

  datatype HttpCertificationPath = ExactPath(path: bytes) | WildcardPath(path: bytes) {
    function ToTreePath(): Path {
      match this
      case ExactPath(path) => PathToSegments(path, EXACT_PATH_TERMINATOR)
      case WildcardPath(path) => PathToSegments(path, WILDCARD_PATH_TERMINATOR)
    }

    // The form of the path that the IC-Certificate header carries.
    function ToExprPath(): Path {
      [PATH_PREFIX] + ToTreePath()
    }
  }

  datatype HttpCertification =
    | SkipCertification(celExprHash: bytes)
    | ResponseOnly(celExprHash: bytes, responseHash: bytes)
    | FullCertification(celExprHash: bytes, requestHash: bytes, responseHash: bytes)
  {
    function ToTreePath(): Path {
      match this
      case SkipCertification(cel) => [cel]
      case ResponseOnly(cel, response) => [cel, [], response]
      case FullCertification(cel, request, response) => [cel, request, response]
    }
  }

  // The rule comes first, then the request and the response; no request leaves an empty segment.
  lemma CertificationSegments(c: HttpCertification)
    ensures c.ToTreePath()[0] == c.celExprHash && |c.ToTreePath()| == if c.SkipCertification? then 1 else 3
    ensures c.FullCertification? ==> c.ToTreePath()[1] == c.requestHash
    ensures c.ResponseOnly? ==> c.ToTreePath()[1] == []
    ensures !c.SkipCertification? ==> c.ToTreePath()[2] == c.responseHash
  {
  }

  datatype HttpCertificationTreeEntry = Entry(path: HttpCertificationPath, certification: HttpCertification) {
    function ToTreePath(): Path {
      path.ToTreePath() + certification.ToTreePath()
    }
  }

  method BuildSegments(path: bytes, terminator: bytes) returns (pathSegments: Path)
    ensures pathSegments == PathToSegments(path, terminator)
  {
    pathSegments := [];
    var pieces := Split(path);
    for i := 0 to |pieces|
      invariant pathSegments + NonEmpty(pieces[i..]) == NonEmpty(pieces)
    {
      if pieces[i] != [] {
        pathSegments := pathSegments + [pieces[i]];
      }
      assert pieces[i..][1..] == pieces[i + 1..];
    }
    if path != [] && path[|path| - 1] == SLASH {
      pathSegments := pathSegments + [PATH_DIR_SEPARATOR];
    }
    pathSegments := pathSegments + [terminator];
  }

  // The path of an entry: the segments of its path, then the hashes of its certification.
  method BuildTreePath(entry: HttpCertificationTreeEntry) returns (treePath: Path)
    ensures treePath == entry.ToTreePath()
  {
    var terminator := if entry.path.ExactPath? then EXACT_PATH_TERMINATOR else WILDCARD_PATH_TERMINATOR;
    treePath := BuildSegments(entry.path.path, terminator);
    treePath := treePath + entry.certification.ToTreePath();
  }

  // ---------- Witnesses ----------

  function HttpRootHash(v: NestedTree): Hash {
    HLabeled(PATH_PREFIX, RootHash(v))
  }

  datatype WitnessResult =
    | Witnessed(tree: HashTree)
    | WildcardPathNotValidForRequestPath(wildcardPath: bytes, requestPath: bytes)
    | WitnessPanics(reason: Panic)

  function MergeWitnesses(v: NestedTree, acc: HashTree, paths: seq<Path>): Merged
    decreases |paths|
  {
    if paths == [] then Ok(acc)
    else
      match MergeHashTrees(acc, Witness(v, paths[0]))
      case Ok(merged) => MergeWitnesses(v, merged, paths[1..])
      case Panics(e) => Panics(e)
  }

  function HttpWitness(v: NestedTree, entry: HttpCertificationTreeEntry, requestUrl: bytes): WitnessResult {
    match entry.path
    case ExactPath(_) => Witnessed(Labeled(PATH_PREFIX, Witness(v, entry.ToTreePath())))
    case WildcardPath(wildcardPath) =>
      var requested := ExactPath(requestUrl).ToTreePath();
      var responding := entry.path.ToTreePath();
      if |responding| > |requested| then WildcardPathNotValidForRequestPath(wildcardPath, requestUrl)
      else
        match MergeHashTrees(Witness(v, requested), Witness(v, responding))
        case Panics(e) => WitnessPanics(e)
        case Ok(w) =>
          match MergeWitnesses(v, w, MoreSpecificWildcards(requested, responding))
          case Panics(e) => WitnessPanics(e)
          case Ok(merged) => Witnessed(Labeled(PATH_PREFIX, merged))
  }

  // ---------- What a witness decides ----------

  // w answers the path as the store would: found exactly when it is there, otherwise absent.
  ghost predicate Decides(w: HashTree, v: NestedTree, path: Path) {
    if ContainsPath(v, path) then LookupSubtree(w, path).SubtreeFound? else LookupSubtree(w, path).SubtreeAbsent?
  }

  lemma WitnessDecides(v: NestedTree, path: Path, m: HashTree)
    requires Good(v) && Prunes(Witness(v, path), m) && Prunes(m, AsHashTree(v))
    ensures Decides(m, v, path)
  {
    WitnessProof(v, path);
    GoodLevel(v);
    SubtreeAtMeaning(v, path);
    DecidedStays(Witness(v, path), m, AsHashTree(v), path);
    UnpruneSubtree(m, AsHashTree(v), path);
    FullLookups(v, path);
  }

  // What lies at the path is shown in full, so everything below it is decided too.
  lemma {:induction false} DecidesBelow(v: NestedTree, path: Path, rest: Path, t: HashTree, m: HashTree)
    requires Good(v) && Prunes(t, m) && Prunes(m, AsHashTree(v))
    requires match SubtreeAt(v, path)
      case Some(s) => LookupSubtree(t, path) == SubtreeFound(AsHashTree(s))
      case None => LookupSubtree(t, path) == SubtreeAbsent
    ensures Decides(m, v, path + rest)
    decreases |path|
  {
    GoodLevel(v);
    SubtreeAtMeaning(v, path);
    if path == [] {
      assert [] + rest == rest;
      PrunesAntisym(m, AsHashTree(v));
      FullLookups(v, rest);
      SubtreeAtMeaning(v, rest);
    } else {
      var F := AsHashTree(v);
      assert (path + rest)[0] == path[0] && (path + rest)[1..] == path[1..] + rest;
      UnpruneStep(m, F, path[0]);
      if Spine(F) {
        PrunesLabels(m, F);
        UnpruneLabel(t, m, path[0]);
      }
      if v.Nested? {
        WholeLookup(v.tree, Open, Open, path[0]);
        GoodChild(v.tree, path[0]);
        if Has(v.tree, path[0]) && LookupLabel(t, path[0]).Found? {
          DecidesBelow(Get(v.tree, path[0]).value, path[1..], rest, LookupLabel(t, path[0]).node,
            LookupLabel(m, path[0]).node);
        }
      }
    }
  }

  // Folding witnesses of one tree never panics and keeps every answer.
  lemma {:induction false} MergeWitnessesProof(v: NestedTree, acc: HashTree, paths: seq<Path>)
    requires Good(v) && Prunes(acc, AsHashTree(v))
    ensures var m := MergeWitnesses(v, acc, paths);
      && m.Ok? && Prunes(m.tree, AsHashTree(v)) && Prunes(acc, m.tree)
      && forall i :: 0 <= i < |paths| ==> Prunes(Witness(v, paths[i]), m.tree)
    decreases |paths|
  {
    if paths == [] {
      PrunesRefl(acc);
    } else {
      var w := Witness(v, paths[0]);
      WitnessProof(v, paths[0]);
      MergeJoins(acc, w, AsHashTree(v));
      var merged := MergeHashTrees(acc, w).tree;
      MergeWitnessesProof(v, merged, paths[1..]);
      var m := MergeWitnesses(v, merged, paths[1..]).tree;
      PrunesTrans(acc, merged, m);
      PrunesTrans(w, merged, m);
      forall i | 0 <= i < |paths| ensures Prunes(Witness(v, paths[i]), m) {
        if i > 0 { assert paths[i] == paths[1..][i - 1]; }
      }
    }
  }

  // The merged witness behind a wildcard response.
  lemma WildcardMerge(v: NestedTree, requested: Path, responding: Path)
    requires Good(v)
    ensures MergeHashTrees(Witness(v, requested), Witness(v, responding)).Ok?
    ensures var list := MoreSpecificWildcards(requested, responding);
      var m := MergeWitnesses(v, MergeHashTrees(Witness(v, requested), Witness(v, responding)).tree, list);
      && m.Ok? && Prunes(m.tree, AsHashTree(v))
      && Prunes(Witness(v, requested), m.tree) && Prunes(Witness(v, responding), m.tree)
      && forall i :: 0 <= i < |list| ==> Prunes(Witness(v, list[i]), m.tree)
  {
    WitnessProof(v, requested);
    WitnessProof(v, responding);
    MergeJoins(Witness(v, requested), Witness(v, responding), AsHashTree(v));
    var w := MergeHashTrees(Witness(v, requested), Witness(v, responding)).tree;
    MergeWitnessesProof(v, w, MoreSpecificWildcards(requested, responding));
    var m := MergeWitnesses(v, w, MoreSpecificWildcards(requested, responding)).tree;
    PrunesTrans(Witness(v, requested), w, m);
    PrunesTrans(Witness(v, responding), w, m);
  }

  // The paths a response for this entry has to settle.
  ghost predicate MustDecide(entry: HttpCertificationTreeEntry, requestUrl: bytes, path: Path) {
    match entry.path
    case ExactPath(_) => path == entry.ToTreePath()
    case WildcardPath(_) =>
      || path == ExactPath(requestUrl).ToTreePath()
      || entry.path.ToTreePath() <= path
      || path in MoreSpecificWildcards(ExactPath(requestUrl).ToTreePath(), entry.path.ToTreePath())
  }

  lemma ExactDecides(v: NestedTree, entry: HttpCertificationTreeEntry, requestUrl: bytes)
    requires Good(v) && entry.path.ExactPath?
    ensures var m := Witness(v, entry.ToTreePath());
      Prunes(m, AsHashTree(v)) && forall path :: MustDecide(entry, requestUrl, path) ==> Decides(m, v, path)
  {
    WitnessProof(v, entry.ToTreePath());
    PrunesRefl(Witness(v, entry.ToTreePath()));
    WitnessDecides(v, entry.ToTreePath(), Witness(v, entry.ToTreePath()));
  }

  lemma ListDecides(v: NestedTree, requested: Path, responding: Path, list: seq<Path>, m: HashTree, path: Path)
    requires Good(v) && Prunes(m, AsHashTree(v))
    requires Prunes(Witness(v, requested), m) && Prunes(Witness(v, responding), m)
    requires forall i :: 0 <= i < |list| ==> Prunes(Witness(v, list[i]), m)
    requires path == requested || responding <= path || path in list
    ensures Decides(m, v, path)
  {
    if path == requested || path in list {
      WitnessDecides(v, path, m);
    } else {
      WitnessProof(v, responding);
      var rest := path[|responding|..];
      assert path == responding + rest;
      DecidesBelow(v, responding, rest, Witness(v, responding), m);
    }
  }

  lemma WildcardDecides(v: NestedTree, requested: Path, responding: Path)
    requires Good(v)
    ensures var list := MoreSpecificWildcards(requested, responding);
      var w := MergeHashTrees(Witness(v, requested), Witness(v, responding));
      && w.Ok?
      && var m := MergeWitnesses(v, w.tree, list);
      && m.Ok? && Prunes(m.tree, AsHashTree(v))
      && forall path :: path == requested || responding <= path || path in list ==> Decides(m.tree, v, path)
  {
    WildcardMerge(v, requested, responding);
    var list := MoreSpecificWildcards(requested, responding);
    var m := MergeWitnesses(v, MergeHashTrees(Witness(v, requested), Witness(v, responding)).tree, list).tree;
    forall path | path == requested || responding <= path || path in list ensures Decides(m, v, path) {
      ListDecides(v, requested, responding, list, m, path);
    }
  }

  lemma PrefixedLookup(m: HashTree, path: Path)
    ensures LookupSubtree(Labeled(PATH_PREFIX, m), [PATH_PREFIX] + path) == LookupSubtree(m, path)
  {
    CmpEqual(PATH_PREFIX, PATH_PREFIX);
    assert ([PATH_PREFIX] + path)[1..] == path;
    assert LookupLabel(Labeled(PATH_PREFIX, m), PATH_PREFIX) == Found(m);
  }

  // The answer of the whole HTTP witness, looked up under its prefix.
  ghost predicate Settles(w: HashTree, v: NestedTree, path: Path) {
    match LookupSubtree(w, [PATH_PREFIX] + path)
    case SubtreeFound(_) => ContainsPath(v, path)
    case SubtreeAbsent => !ContainsPath(v, path)
    case SubtreeUnknown => false
  }

  // Witnessing never panics, fails only on a wildcard longer than the request, and otherwise has the
  // certified root hash and decides every path it has to, the entry's own included.
  lemma HttpWitnessComplete(v: NestedTree, entry: HttpCertificationTreeEntry, requestUrl: bytes)
    requires Good(v)
    ensures var r := HttpWitness(v, entry, requestUrl);
      && !r.WitnessPanics?
      && (r.WildcardPathNotValidForRequestPath? <==>
            entry.path.WildcardPath? && |entry.path.ToTreePath()| > |ExactPath(requestUrl).ToTreePath()|)
      && (r.WildcardPathNotValidForRequestPath? ==>
            r.wildcardPath == entry.path.path && r.requestPath == requestUrl)
      && (r.Witnessed? ==>
            && Digest(r.tree) == HttpRootHash(v)
            && forall path :: MustDecide(entry, requestUrl, path) ==> Settles(r.tree, v, path))
  {
    var r := HttpWitness(v, entry, requestUrl);
    if entry.path.WildcardPath? {
      WildcardDecides(v, ExactPath(requestUrl).ToTreePath(), entry.path.ToTreePath());
    } else {
      ExactDecides(v, entry, requestUrl);
    }
    if r.Witnessed? {
      GoodHash(v);
      PrunesDigest(r.tree.sub, AsHashTree(v));
      forall path | MustDecide(entry, requestUrl, path) ensures Settles(r.tree, v, path) {
        assert Decides(r.tree.sub, v, path);
        PrefixedLookup(r.tree.sub, path);
      }
    }
  }

  lemma {:induction false} MergeWitnessesTight(v: NestedTree, acc: HashTree, paths: seq<Path>)
    requires Good(v) && Prunes(acc, AsHashTree(v)) && Tight(acc)
    ensures MergeWitnesses(v, acc, paths).Ok? && Tight(MergeWitnesses(v, acc, paths).tree)
    decreases |paths|
  {
    if paths != [] {
      WitnessProof(v, paths[0]);
      MergeJoins(acc, Witness(v, paths[0]), AsHashTree(v));
      MergeTight(acc, Witness(v, paths[0]));
      MergeWitnessesTight(v, MergeHashTrees(acc, Witness(v, paths[0])).tree, paths[1..]);
    }
  }

  // What an HTTP witness hides, it hides in as few parts as it can.
  lemma HttpWitnessTight(v: NestedTree, entry: HttpCertificationTreeEntry, requestUrl: bytes)
    requires Good(v)
    ensures HttpWitness(v, entry, requestUrl).Witnessed? ==> Tight(HttpWitness(v, entry, requestUrl).tree)
  {
    hide HttpCertificationPath.ToTreePath, HttpCertificationTreeEntry.ToTreePath, MoreSpecificWildcards, Prunes;
    var requested, responding := ExactPath(requestUrl).ToTreePath(), entry.path.ToTreePath();
    WitnessProof(v, entry.ToTreePath());
    WitnessProof(v, requested);
    WitnessProof(v, responding);
    MergeJoins(Witness(v, requested), Witness(v, responding), AsHashTree(v));
    MergeTight(Witness(v, requested), Witness(v, responding));
    MergeWitnessesTight(v, MergeHashTrees(Witness(v, requested), Witness(v, responding)).tree,
      MoreSpecificWildcards(requested, responding));
  }

  // ---------- What a witness hides ----------

  // The paths a witness is made of.
  function Asked(entry: HttpCertificationTreeEntry, requestUrl: bytes): seq<Path> {
    match entry.path
    case ExactPath(_) => [entry.ToTreePath()]
    case WildcardPath(_) =>
      var requested, responding := ExactPath(requestUrl).ToTreePath(), entry.path.ToTreePath();
      [requested, responding] + MoreSpecificWildcards(requested, responding)
  }

  // w shows the path of the store because one of these asks for it.
  ghost predicate ShownFor(v: NestedTree, asked: seq<Path>, q: Path) {
    exists i :: 0 <= i < |asked| && Discloses(v, asked[i], q)
  }

  ghost predicate AsideFrom(asked: seq<Path>, q: Path) {
    forall i :: 0 <= i < |asked| ==> !Comparable(asked[i], q)
  }

  // The tree shows a path of the store exactly when one of these asks for it, and no value that lies aside from all.
  ghost predicate Reserved(w: HashTree, v: NestedTree, asked: seq<Path>, q: Path) {
    && (LookupSubtree(w, q).SubtreeFound? <==> ContainsPath(v, q) && ShownFor(v, asked, q))
    && (GetPath(v, q).Some? && AsideFrom(asked, q) ==> LookupPath(w, q) == PathUnknown)
  }

  lemma OneReserved(v: NestedTree, path: Path, q: Path)
    requires Good(v)
    ensures Reserved(Witness(v, path), v, [path], q)
  {
    WitnessShows(v, path, q);
    if GetPath(v, q).Some? && !Comparable(path, q) { WitnessHides(v, path, q); }
    assert [path][0] == path;
  }

  // The merge of two such trees shows what they show.
  lemma MergeReserved(v: NestedTree, a: HashTree, x: seq<Path>, b: HashTree, y: seq<Path>, q: Path)
    requires Good(v) && Prunes(a, AsHashTree(v)) && Prunes(b, AsHashTree(v))
    requires Reserved(a, v, x, q) && Reserved(b, v, y, q)
    ensures MergeHashTrees(a, b).Ok? && Reserved(MergeHashTrees(a, b).tree, v, x + y, q)
  {
    hide Discloses, Comparable;
    var T := AsHashTree(v);
    MergeJoins(a, b, T);
    var m := MergeHashTrees(a, b).tree;
    GoodLevel(v);
    FullLookups(v, q);
    SubtreeAtMeaning(v, q);
    UnpruneSubtree(m, T, q);
    EitherShows(v, x, y, q);
    AsideFromBoth(x, y, q);
    if LookupSubtree(T, q).SubtreeFound? {
      MergeSubtree(a, b, T, q);
      UnpruneSubtree(a, T, q);
      UnpruneSubtree(b, T, q);
      PathOfSubtree(a, q);
      PathOfSubtree(b, q);
      PathOfSubtree(m, q);
    }
  }

  lemma EitherShows(v: NestedTree, x: seq<Path>, y: seq<Path>, q: Path)
    ensures ShownFor(v, x + y, q) <==> ShownFor(v, x, q) || ShownFor(v, y, q)
  {
    hide Discloses;
    forall i | 0 <= i < |x| ensures (x + y)[i] == x[i] {}
    forall i | 0 <= i < |y| ensures (x + y)[|x| + i] == y[i] {}
    if i :| 0 <= i < |x + y| && Discloses(v, (x + y)[i], q) {
      assert i < |x| || (x + y)[i] == y[i - |x|];
    }
  }

  lemma AsideFromBoth(x: seq<Path>, y: seq<Path>, q: Path)
    ensures AsideFrom(x + y, q) ==> AsideFrom(x, q) && AsideFrom(y, q)
  {
    forall i | 0 <= i < |x| ensures (x + y)[i] == x[i] {}
    forall i | 0 <= i < |y| ensures (x + y)[|x| + i] == y[i] {}
  }

  lemma {:induction false} MergeWitnessesReserved(
      v: NestedTree, acc: HashTree, x: seq<Path>, paths: seq<Path>, q: Path)
    requires Good(v) && Prunes(acc, AsHashTree(v)) && Reserved(acc, v, x, q)
    ensures MergeWitnesses(v, acc, paths).Ok? && Reserved(MergeWitnesses(v, acc, paths).tree, v, x + paths, q)
    decreases |paths|
  {
    hide Reserved;
    if paths == [] {
      assert x + paths == x;
    } else {
      var w := Witness(v, paths[0]);
      WitnessProof(v, paths[0]);
      OneReserved(v, paths[0], q);
      MergeReserved(v, acc, x, w, [paths[0]], q);
      MergeJoins(acc, w, AsHashTree(v));
      MergeWitnessesReserved(v, MergeHashTrees(acc, w).tree, x + [paths[0]], paths[1..], q);
      assert x + [paths[0]] + paths[1..] == x + paths;
    }
  }

  // The same of the whole HTTP witness, under its prefix.
  ghost predicate Discreet(w: HashTree, v: NestedTree, asked: seq<Path>, q: Path) {
    && (LookupSubtree(w, [PATH_PREFIX] + q).SubtreeFound? <==> ContainsPath(v, q) && ShownFor(v, asked, q))
    && (GetPath(v, q).Some? && AsideFrom(asked, q) ==> LookupPath(w, [PATH_PREFIX] + q) == PathUnknown)
  }

  lemma ReservedIsDiscreet(m: HashTree, v: NestedTree, asked: seq<Path>, q: Path)
    requires Reserved(m, v, asked, q)
    ensures Discreet(Labeled(PATH_PREFIX, m), v, asked, q)
  {
    PrefixedLookup(m, q);
    PathOfSubtree(m, q);
    PathOfSubtree(Labeled(PATH_PREFIX, m), [PATH_PREFIX] + q);
  }

  // Of what the store holds, the witness shows what one of its paths asks for and nothing else.
  lemma HttpWitnessHides(v: NestedTree, entry: HttpCertificationTreeEntry, requestUrl: bytes, q: Path)
    requires Good(v)
    ensures var r := HttpWitness(v, entry, requestUrl);
      r.Witnessed? ==> Discreet(r.tree, v, Asked(entry, requestUrl), q)
  {
    hide Reserved, Discreet, MoreSpecificWildcards, HttpCertificationPath.ToTreePath,
      HttpCertificationTreeEntry.ToTreePath;
    var r := HttpWitness(v, entry, requestUrl);
    if entry.path.ExactPath? {
      OneReserved(v, entry.ToTreePath(), q);
    } else {
      var requested, responding := ExactPath(requestUrl).ToTreePath(), entry.path.ToTreePath();
      WitnessProof(v, requested);
      WitnessProof(v, responding);
      OneReserved(v, requested, q);
      OneReserved(v, responding, q);
      MergeReserved(v, Witness(v, requested), [requested], Witness(v, responding), [responding], q);
      MergeJoins(Witness(v, requested), Witness(v, responding), AsHashTree(v));
      assert [requested] + [responding] == [requested, responding];
      MergeWitnessesReserved(v, MergeHashTrees(Witness(v, requested), Witness(v, responding)).tree,
        [requested, responding], MoreSpecificWildcards(requested, responding), q);
    }
    if r.Witnessed? { ReservedIsDiscreet(r.tree.sub, v, Asked(entry, requestUrl), q); }
  }

  // ---------- Whether every more specific wildcard is ruled out ----------

  // w matches the request, is no longer than it, and is more specific than where the descent for the
  // responding path ends: at that path, or at the empty one if it does not match the request.
  ghost predicate MoreSpecific(w: Path, request: Path, responding: Path) {
    && Canonical(w) && IsWildcardPathValidForRequestPath(w, request) && |w| <= |request|
    && Rank(w) > Rank(Target(request, responding))
  }

  ghost predicate CoversAll(request: Path, responding: Path) {
    forall w :: MoreSpecific(w, request, responding) ==>
      w + [WILDCARD_PATH_TERMINATOR] in
        MoreSpecificWildcards(request + [EXACT_PATH_TERMINATOR], responding + [WILDCARD_PATH_TERMINATOR])
  }

  // The path a response carries in its header gives back the segments of the certified path, whatever they are.
  lemma ExprPathStripped(path: HttpCertificationPath)
    ensures Stripped(path.ToExprPath()) == Segments(path.path)
  {
    var p := Segments(path.path);
    var terminator := if path.ExactPath? then EXACT_PATH_TERMINATOR else WILDCARD_PATH_TERMINATOR;
    assert path.ToExprPath() == [PATH_PREFIX] + p + [terminator];
    StripUndoes(path.ToExprPath(), p);
  }

  lemma {:induction false} DownIsShort(potential: Path, responding: Path)
    requires Descends(potential, responding)
    ensures forall i :: 0 <= i < |WildcardsDown(potential, responding)| ==>
      Short(WildcardsDown(potential, responding)[i], potential)
    decreases Remaining(potential, responding)
  {
    hide Short, WildcardsDown, Descends, Widen;
    WildcardsDownStep(potential, Widen(potential), responding);
    if !Reached(potential, responding) {
      WidenDescends(potential, responding);
      DownIsShort(Widen(potential), responding);
      var list, rest := WildcardsDown(potential, responding), WildcardsDown(Widen(potential), responding);
      if potential == [] { EmptyWidens(responding); }
      forall i | 0 <= i < |list| ensures Short(list[i], potential) {
        if i > 0 { assert list[i] == rest[i - 1]; }
        WidenShort(list[i], potential);
      }
    }
  }

  lemma EmptyWidens(responding: Path)
    requires Descends([], responding) && !Reached([], responding)
    ensures Descends(Widen([]), responding) && WildcardsDown(Widen([]), responding) == []
  {
    assert responding == [PATH_DIR_SEPARATOR];
    assert Reached(Widen([]), responding);
  }

  // No longer than the path, but for the root wildcard.
  predicate Short(wildcard: Path, path: Path) {
    |Pop(wildcard)| <= |path| || Pop(wildcard) == [PATH_DIR_SEPARATOR]
  }

  lemma WidenShort(wildcard: Path, path: Path)
    ensures path != [] && Short(wildcard, Widen(path)) ==> Short(wildcard, path)
    ensures Short(path + [WILDCARD_PATH_TERMINATOR], path)
  {
    assert Pop(path + [WILDCARD_PATH_TERMINATOR]) == path;
  }

  // A real first segment "http_expr" is eaten: the request's own, or one of the responding path whose rest
  // then matches the request.
  predicate PrefixEaten(request: Path, responding: Path) {
    || StartsWithPrefixSegment(request)
    || (StartsWithPrefixSegment(responding) && |responding| > 1
      && IsWildcardPathValidForRequestPath(responding[1..], request))
  }

  // The list rules out every more specific wildcard exactly when no real segment "http_expr" is eaten
  // (or the request is answered by its own wildcard, which leaves nothing to rule out).
  lemma CoverageExact(request: Path, responding: Path)
    requires Canonical(request) && Canonical(responding) && |responding| <= |request|
    ensures CoversAll(request, responding) <==> !PrefixEaten(request, responding) || responding == request
  {
    if responding == request {
      forall w | MoreSpecific(w, request, responding) ensures false { ValidIsAtRank(request, w); }
    } else if StartsWithPrefixSegment(request) {
      RequestPrefixEaten(request, responding);
    } else {
      PlainCoverage(request, responding);
    }
  }

  lemma RequestPrefixEaten(request: Path, responding: Path)
    requires Canonical(request) && Canonical(responding) && |responding| <= |request|
    requires StartsWithPrefixSegment(request) && responding != request
    ensures !CoversAll(request, responding)
  {
    StrippedTreePath(request, EXACT_PATH_TERMINATOR);
    ValidIsAtRank(request, Target(request, responding));
    ValidIsAtRank(request, request);
    assert MoreSpecific(request, request, responding);
    var p := request[1..];
    DownIsShort(p, Target(p, Stripped(responding + [WILDCARD_PATH_TERMINATOR])));
    assert Pop(request + [WILDCARD_PATH_TERMINATOR]) == request;
    assert request != [PATH_DIR_SEPARATOR];
  }

  lemma PlainCoverage(request: Path, responding: Path)
    requires Canonical(request) && Canonical(responding) && |responding| <= |request|
    requires !StartsWithPrefixSegment(request)
    ensures CoversAll(request, responding) <==> !PrefixEaten(request, responding)
  {
    hide WildcardsDown, Stripped, MoreSpecificWildcards, Rank;
    StrippedTreePath(request, EXACT_PATH_TERMINATOR);
    StrippedTreePath(responding, WILDCARD_PATH_TERMINATOR);
    WildcardsMeaning(request + [EXACT_PATH_TERMINATOR], responding + [WILDCARD_PATH_TERMINATOR]);
    var rest := if StartsWithPrefixSegment(responding) then responding[1..] else responding;
    var reached, asked := Target(request, rest), Target(request, responding);
    RankZeroIsEmpty(reached);
    if PrefixEaten(request, responding) {
      assert asked == [] && reached == rest;
      ValidIsAtRank(request, reached);
      assert MoreSpecific(reached, request, responding);
    }
  }

  lemma RankZeroIsEmpty(path: Path)
    ensures Rank(path) == 0 <==> path == []
    ensures Rank([]) == 0
  {
  }

  // GET /http_expr answered by the wildcard "/": the wildcard at /http_expr itself is never looked for.
  lemma PrefixSegmentGap()
    ensures var request, responding := Segments([SLASH] + PATH_PREFIX), Segments([SLASH]);
      && request == [PATH_PREFIX] && responding == [PATH_DIR_SEPARATOR]
      && !CoversAll(request, responding)
  {
    var request, responding := [PATH_PREFIX], [PATH_DIR_SEPARATOR];
    SegmentsOfPiece(PATH_PREFIX);
    assert Split([SLASH]) == [[], []];
    assert NonEmpty([[], []]) == [];
    assert responding[..0] == [];
    CoverageExact(request, responding);
  }

  lemma {:induction false} SplitPiece(piece: bytes)
    requires SLASH !in piece
    ensures Split(piece) == [piece]
  {
    if piece != [] {
      SplitPiece(piece[1..]);
      assert piece == [piece[0]] + piece[1..];
    }
  }

  lemma SegmentsOfPiece(piece: bytes)
    requires SLASH !in piece && piece != []
    ensures Segments([SLASH] + piece) == [piece]
  {
    SplitPiece(piece);
    var path := [SLASH] + piece;
    assert path[1..] == piece && path[|path| - 1] == piece[|piece| - 1];
    assert Split(path) == [[], piece];
    assert NonEmpty([[], piece]) == NonEmpty([piece]);
    assert NonEmpty([piece]) == [piece] + NonEmpty([]);
  }

  // So a witnessed wildcard response proves that no more specific wildcard could have answered, whether the
  // responding wildcard itself matches the request or not.
  lemma WildcardWitnessRulesOut(v: NestedTree, entry: HttpCertificationTreeEntry, requestUrl: bytes)
    requires Good(v) && entry.path.WildcardPath?
    requires var request, responding := Segments(requestUrl), Segments(entry.path.path);
      !PrefixEaten(request, responding) || responding == request
    ensures var r := HttpWitness(v, entry, requestUrl);
      r.Witnessed? ==> forall w :: MoreSpecific(w, Segments(requestUrl), Segments(entry.path.path)) ==>
                         Settles(r.tree, v, w + [WILDCARD_PATH_TERMINATOR])
  {
    hide Segments, PrefixEaten, MoreSpecificWildcards, HttpWitness, MoreSpecific;
    var r := HttpWitness(v, entry, requestUrl);
    var request, responding := Segments(requestUrl), Segments(entry.path.path);
    HttpWitnessComplete(v, entry, requestUrl);
    if r.Witnessed? {
      CoverageExact(request, responding);
      forall w | MoreSpecific(w, request, responding) ensures Settles(r.tree, v, w + [WILDCARD_PATH_TERMINATOR]) {
        assert MustDecide(entry, requestUrl, w + [WILDCARD_PATH_TERMINATOR]);
      }
    }
  }
}
