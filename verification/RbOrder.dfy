// The in-order view of a red-black tree, and how deep the tree can be.
module RbOrder {
  import opened Bytes
  import opened RbTree
  import opened RbDelete

  type Entry = (bytes, NestedTree)

  // What for_each visits: keys and values, left to right.
  function Entries(t: Tree): seq<Entry> {
    if t.Nil? then [] else Entries(t.left) + [(t.key, t.value)] + Entries(t.right)
  }

  ghost predicate Increasing(s: seq<Entry>) {
    forall i, j :: 0 <= i < j < |s| ==> Lt(s[i].0, s[j].0)
  }

  lemma {:induction false} EntriesInOrder(t: Tree, lo: Bound, hi: Bound)
    requires Ordered(t, lo, hi)
    ensures Increasing(Entries(t))
    ensures forall e :: e in Entries(t) ==> Above(lo, e.0) && Below(e.0, hi)
    ensures forall e: Entry :: e in Entries(t) <==> Get(t, e.0) == Some(e.1)
  {
    if t.Node? {
      EntriesInOrder(t.left, lo, At(t.key));
      EntriesInOrder(t.right, At(t.key), hi);
      var l: seq<Entry>, m: seq<Entry>, r: seq<Entry> := Entries(t.left), [(t.key, t.value)], Entries(t.right);
      forall e: Entry ensures e in l + m + r <==> Get(t, e.0) == Some(e.1) {
        GetStep(t, e.0);
        LtLinear(e.0, t.key);
      }
      forall i, j | 0 <= i < j < |l + m + r| ensures Lt((l + m + r)[i].0, (l + m + r)[j].0) {
        var a, b := (l + m + r)[i], (l + m + r)[j];
        if i < |l| { assert a in l; }
        if j > |l| { assert b in r; }
        if i < |l| && j > |l| { LtTrans(a.0, t.key, b.0); }
      }
      TotalOrder();
    }
  }

  lemma HasMember(s: seq<Entry>)
    ensures s != [] ==> exists e :: e in s
  {
    if s != [] { assert s[0] in s; }
  }

  // Two strictly increasing lists with the same members are the same list.
  lemma {:induction false} SortedUnique(s: seq<Entry>, u: seq<Entry>)
    requires Increasing(s) && Increasing(u)
    requires forall e :: e in s <==> e in u
    ensures s == u
  {
    if s == [] {
      HasMember(u);
    } else {
      assert s[0] in u;
      assert u[0] in s;
      var i :| 0 <= i < |u| && u[i] == s[0];
      var j :| 0 <= j < |s| && s[j] == u[0];
      LtLinear(s[0].0, u[0].0);
      assert s[0] == u[0];
      forall e ensures e in s[1..] <==> e in u[1..] { TailMembers(s, e); TailMembers(u, e); }
      SortedUnique(s[1..], u[1..]);
    }
  }

  lemma TailMembers(s: seq<Entry>, e: Entry)
    requires s != [] && Increasing(s)
    ensures e in s[1..] <==> e in s && e != s[0]
  {
    if e in s[1..] {
      var i :| 0 <= i < |s[1..]| && s[1..][i] == e;
      assert s[i + 1] == e;
      LtLinear(s[0].0, e.0);
    }
    if e in s && e != s[0] {
      var i :| 0 <= i < |s| && s[i] == e;
      assert s[1..][i - 1] == e;
    }
  }

  lemma EntryDecides(t: Tree, u: Tree, q: bytes)
    requires Ordered(t, Open, Open) && Ordered(u, Open, Open) && Entries(t) == Entries(u)
    ensures Has(t, q) ==> Get(u, q) == Get(t, q)
  {
    EntriesInOrder(t, Open, Open);
    EntriesInOrder(u, Open, Open);
    if Has(t, q) {
      var e: Entry := (q, Get(t, q).value);
      assert e in Entries(t);
      assert e in Entries(u);
    }
  }

  ghost predicate SameMap(t: Tree, u: Tree) {
    forall q :: Get(t, q) == Get(u, q)
  }

  // Iteration, and so equality and comparison of trees, sees the map and not the tree's shape.
  lemma SameMapSameEntries(t: Tree, u: Tree)
    requires Ordered(t, Open, Open) && Ordered(u, Open, Open)
    ensures Entries(t) == Entries(u) <==> SameMap(t, u)
  {
    EntriesInOrder(t, Open, Open);
    EntriesInOrder(u, Open, Open);
    if SameMap(t, u) {
      SortedUnique(Entries(t), Entries(u));
    }
    if Entries(t) == Entries(u) {
      forall q ensures Get(t, q) == Get(u, q) {
        EntryDecides(t, u, q);
        EntryDecides(u, t, q);
      }
    }
  }

  // ---------- Comparison ----------

  type ValueOrder = (NestedTree, NestedTree) -> Ordering

  // What the source asks of a value type that it orders maps of.
  ghost predicate TotalOn(cmp: ValueOrder) {
    && (forall a, b :: cmp(a, b) == Equal <==> a == b)
    && (forall a, b :: cmp(a, b) == Less <==> cmp(b, a) == Greater)
    && (forall a, b, c {:trigger cmp(a, b), cmp(b, c)} :: cmp(a, b) == Less && cmp(b, c) == Less ==> cmp(a, c) == Less)
  }

  function CompareEntry(a: Entry, b: Entry, cmp: ValueOrder): Ordering {
    if Cmp(a.0, b.0).Equal? then cmp(a.1, b.1) else Cmp(a.0, b.0)
  }

  // Iterator::cmp: the first difference decides, and an end comes before everything.
  function CompareEntries(s: seq<Entry>, u: seq<Entry>, cmp: ValueOrder): Ordering {
    if s == [] then
      if u == [] then Equal else Less
    else if u == [] then Greater
    else if CompareEntry(s[0], u[0], cmp).Equal? then CompareEntries(s[1..], u[1..], cmp)
    else CompareEntry(s[0], u[0], cmp)
  }

  function Compare(t: Tree, u: Tree, cmp: ValueOrder): Ordering {
    CompareEntries(Entries(t), Entries(u), cmp)
  }

  lemma CompareEntryOrder(a: Entry, b: Entry, c: Entry, cmp: ValueOrder)
    requires TotalOn(cmp)
    ensures CompareEntry(a, b, cmp) == Equal <==> a == b
    ensures CompareEntry(a, b, cmp) == Less <==> CompareEntry(b, a, cmp) == Greater
    ensures CompareEntry(a, b, cmp) == Less && CompareEntry(b, c, cmp) == Less ==> CompareEntry(a, c, cmp) == Less
  {
    TotalOrder();
    if Lt(a.0, b.0) && Lt(b.0, c.0) { LtTrans(a.0, b.0, c.0); }
  }

  lemma {:induction false} CompareEqual(s: seq<Entry>, u: seq<Entry>, cmp: ValueOrder)
    requires TotalOn(cmp)
    ensures CompareEntries(s, u, cmp) == Equal <==> s == u
    ensures CompareEntries(s, u, cmp) == Less <==> CompareEntries(u, s, cmp) == Greater
  {
    if s != [] && u != [] {
      CompareEntryOrder(s[0], u[0], s[0], cmp);
      CompareEntryOrder(u[0], s[0], u[0], cmp);
      CompareEqual(s[1..], u[1..], cmp);
      assert s == [s[0]] + s[1..] && u == [u[0]] + u[1..];
    }
  }

  lemma {:induction false} CompareTrans(s: seq<Entry>, u: seq<Entry>, w: seq<Entry>, cmp: ValueOrder)
    requires TotalOn(cmp)
    requires CompareEntries(s, u, cmp) == Less && CompareEntries(u, w, cmp) == Less
    ensures CompareEntries(s, w, cmp) == Less
  {
    if s != [] && u != [] && w != [] {
      CompareEntryOrder(s[0], u[0], w[0], cmp);
      CompareEntryOrder(u[0], w[0], s[0], cmp);
      CompareEntryOrder(s[0], w[0], u[0], cmp);
      if s[0] == u[0] == w[0] { CompareTrans(s[1..], u[1..], w[1..], cmp); }
    }
  }

  // s comes first: it ends where the two part, or has the smaller key there, or the smaller value under one key.
  ghost predicate Precedes(s: seq<Entry>, u: seq<Entry>, n: nat, cmp: ValueOrder) {
    && n <= |s| && n < |u| && s[..n] == u[..n]
    && (n == |s| || Lt(s[n].0, u[n].0) || (s[n].0 == u[n].0 && cmp(s[n].1, u[n].1) == Less))
  }

  lemma {:induction false} LessPrecedes(s: seq<Entry>, u: seq<Entry>, cmp: ValueOrder)
    requires TotalOn(cmp)
    ensures CompareEntries(s, u, cmp) == Less <==> exists n :: Precedes(s, u, n, cmp)
  {
    if s == [] || u == [] {
      assert u != [] ==> Precedes(s, u, 0, cmp);
    } else {
      CmpEqual(s[0].0, u[0].0);
      CompareEntryOrder(s[0], u[0], s[0], cmp);
      if s[0] == u[0] {
        LessPrecedes(s[1..], u[1..], cmp);
        forall n: nat ensures Precedes(s, u, n + 1, cmp) <==> Precedes(s[1..], u[1..], n, cmp) {
          if n < |s| && n < |u| {
            assert s[..n + 1] == [s[0]] + s[1..][..n] && u[..n + 1] == [u[0]] + u[1..][..n];
            assert s[..n + 1][1..] == s[1..][..n] && u[..n + 1][1..] == u[1..][..n];
          }
        }
        if n: nat :| Precedes(s, u, n, cmp) {
          LtLinear(s[0].0, s[0].0);
          assert n > 0 && Precedes(s[1..], u[1..], n - 1, cmp);
        }
      } else {
        assert Precedes(s, u, 0, cmp) <==> CompareEntry(s[0], u[0], cmp) == Less;
        forall n: nat | n > 0 ensures !Precedes(s, u, n, cmp) {
          if n <= |s| && n < |u| { assert s[..n][0] == s[0] && u[..n][0] == u[0]; }
        }
      }
    }
  }

  // Trees are totally ordered as maps: equal exactly when they hold the same map, and neither the order nor
  // its answers depend on the trees' shapes.
  lemma OrderOfMaps(t: Tree, u: Tree, w: Tree, cmp: ValueOrder)
    requires Ordered(t, Open, Open) && Ordered(u, Open, Open) && Ordered(w, Open, Open) && TotalOn(cmp)
    ensures Compare(t, u, cmp) == Equal <==> SameMap(t, u)
    ensures Compare(t, u, cmp) == Less <==> Compare(u, t, cmp) == Greater
    ensures Compare(t, u, cmp) == Less <==> exists n :: Precedes(Entries(t), Entries(u), n, cmp)
    ensures Compare(t, u, cmp) == Less && Compare(u, w, cmp) == Less ==> Compare(t, w, cmp) == Less
    ensures SameMap(t, u) ==> Compare(t, w, cmp) == Compare(u, w, cmp) && Compare(w, t, cmp) == Compare(w, u, cmp)
  {
    SameMapSameEntries(t, u);
    CompareEqual(Entries(t), Entries(u), cmp);
    LessPrecedes(Entries(t), Entries(u), cmp);
    if Compare(t, u, cmp) == Less && Compare(u, w, cmp) == Less {
      CompareTrans(Entries(t), Entries(u), Entries(w), cmp);
    }
  }

  // ---------- Depth ----------

  ghost function Height(t: Tree): nat {
    if t.Nil? then 0 else 1 + if Height(t.left) > Height(t.right) then Height(t.left) else Height(t.right)
  }

  ghost function Pow2(n: nat): nat {
    if n == 0 then 1 else 2 * Pow2(n - 1)
  }

  lemma {:induction false} Balanced(t: Tree)
    requires Shaped(t)
    ensures Height(t) <= 2 * BlackHeight(t) + if IsRed(t) then 1 else 0
    ensures Pow2(BlackHeight(t)) <= Size(t) + 1
  {
    if t.Node? {
      Balanced(t.left);
      Balanced(t.right);
    }
  }

  // The nodes a search for the key passes through.
  ghost function Visits(t: Tree, key: bytes): nat {
    if t.Nil? then 0
    else
      match Cmp(key, t.key)
      case Equal => 1
      case Less => 1 + Visits(t.left, key)
      case Greater => 1 + Visits(t.right, key)
  }

  lemma {:induction false} VisitsAtMostHeight(t: Tree, key: bytes)
    ensures Visits(t, key) <= Height(t)
  {
    if t.Node? {
      VisitsAtMostHeight(t.left, key);
      VisitsAtMostHeight(t.right, key);
    }
  }

  lemma {:induction false} Pow2Monotone(a: nat, b: nat)
    requires a <= b
    ensures Pow2(a) <= Pow2(b)
  {
    if a < b { Pow2Monotone(a, b - 1); }
  }

  // A search visits at most 2 * log2(n + 1) of n nodes.
  lemma LogarithmicSearch(t: Tree, key: bytes)
    requires Valid(t)
    ensures Pow2((Visits(t, key) + 1) / 2) <= Size(t) + 1
  {
    Balanced(t);
    VisitsAtMostHeight(t, key);
    Pow2Monotone((Visits(t, key) + 1) / 2, BlackHeight(t));
  }
}
