// Byte strings and the lexicographic order that Rust's slice comparison gives them.
module Bytes {
  newtype byte = x: int | 0 <= x < 0x100
  type bytes = seq<byte>

  datatype Option<+T> = None | Some(value: T)

  // slice::join
  function Join<T>(pieces: seq<seq<T>>, between: seq<T>): seq<T> {
    if pieces == [] then [] else if |pieces| == 1 then pieces[0] else pieces[0] + between + Join(pieces[1..], between)
  }

  datatype Ordering = Less | Equal | Greater

  // `<[u8] as Ord>::cmp`
  function Cmp(a: bytes, b: bytes): Ordering {
    if a == [] then
      if b == [] then Equal else Less
    else if b == [] then Greater
    else if a[0] < b[0] then Less
    else if b[0] < a[0] then Greater
    else Cmp(a[1..], b[1..])
  }

  predicate Lt(a: bytes, b: bytes) {
    Cmp(a, b) == Less
  }

  lemma {:induction false} CmpEqual(a: bytes, b: bytes)
    ensures Cmp(a, b) == Equal <==> a == b
  {
    if a != [] && b != [] && a[0] == b[0] {
      CmpEqual(a[1..], b[1..]);
      assert a == [a[0]] + a[1..] && b == [b[0]] + b[1..];
    }
  }

  lemma {:induction false} CmpFlip(a: bytes, b: bytes)
    ensures Cmp(a, b) == Less <==> Cmp(b, a) == Greater
  {
    if a != [] && b != [] && a[0] == b[0] {
      CmpFlip(a[1..], b[1..]);
    }
  }

  lemma {:induction false} LtTrans(a: bytes, b: bytes, c: bytes)
    requires Lt(a, b) && Lt(b, c)
    ensures Lt(a, c)
  {
    if a != [] && b != [] && c != [] && a[0] == b[0] == c[0] {
      LtTrans(a[1..], b[1..], c[1..]);
    }
  }

  lemma LtLinear(a: bytes, b: bytes)
    ensures a == b || Lt(a, b) || Lt(b, a)
    ensures !(Lt(a, b) && Lt(b, a))
    ensures !Lt(a, a)
  {
    CmpEqual(a, b);
    CmpEqual(a, a);
    CmpFlip(a, b);
    CmpFlip(b, a);
  }

  // a comes first: it ends where the two part, or has the smaller byte there.
  ghost predicate PartsBelow(a: bytes, b: bytes, n: nat) {
    n <= |a| && n < |b| && a[..n] == b[..n] && (n == |a| || a[n] < b[n])
  }

  lemma {:induction false} LtIsLexicographic(a: bytes, b: bytes)
    ensures Lt(a, b) <==> exists n :: PartsBelow(a, b, n)
  {
    if a == [] || b == [] {
      assert b != [] ==> PartsBelow(a, b, 0);
    } else if a[0] != b[0] {
      assert PartsBelow(a, b, 0) <==> a[0] < b[0];
      forall n | n > 0 ensures !PartsBelow(a, b, n) {
        if n <= |a| && n < |b| { assert a[..n][0] == a[0] && b[..n][0] == b[0]; }
      }
    } else {
      LtIsLexicographic(a[1..], b[1..]);
      forall n: nat ensures PartsBelow(a, b, n + 1) <==> PartsBelow(a[1..], b[1..], n) {
        if n < |a| && n < |b| {
          assert a[..n + 1] == [a[0]] + a[1..][..n] && b[..n + 1] == [b[0]] + b[1..][..n];
          assert a[..n + 1][1..] == a[1..][..n] && b[..n + 1][1..] == b[1..][..n];
        }
      }
      if n: nat :| PartsBelow(a, b, n) { assert n > 0 && PartsBelow(a[1..], b[1..], n - 1); }
    }
  }

  // The order laws in the quantified form that the tree proofs use.
  lemma TotalOrder()
    ensures forall a, b {:trigger Cmp(a, b)} :: Cmp(a, b) == Equal <==> a == b
    ensures forall a, b {:trigger Cmp(a, b)} :: Cmp(a, b) == Less <==> Cmp(b, a) == Greater
    ensures forall a, b, c {:trigger Lt(a, b), Lt(b, c)} :: Lt(a, b) && Lt(b, c) ==> Lt(a, c)
  {
    forall a, b ensures Cmp(a, b) == Equal <==> a == b { CmpEqual(a, b); }
    forall a, b ensures Cmp(a, b) == Less <==> Cmp(b, a) == Greater { CmpFlip(a, b); }
    forall a, b, c | Lt(a, b) && Lt(b, c) ensures Lt(a, c) { LtTrans(a, b, c); }
  }
}
