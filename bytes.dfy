/** Byte strings, the keys and values of both stores, and the lexicographic order
    in which the snapshot store iterates its keys. */
module Bytes {

  type Byte = b: int | 0 <= b < 256
  type Bytes = seq<Byte>
  type Key = Bytes
  type Value = Bytes

  /** `p` is a byte-wise prefix of `k`. */
  predicate IsPrefix(p: Bytes, k: Bytes) {
    |p| <= |k| && k[..|p|] == p
  }

  /** Strict lexicographic order on byte strings: a proper prefix comes first,
      otherwise the first differing byte decides. */
  predicate Below(a: Bytes, b: Bytes)
    decreases |a|
  {
    if a == [] then b != []
    else b != [] && (a[0] < b[0] || (a[0] == b[0] && Below(a[1..], b[1..])))
  }

  lemma {:induction false} BelowIrreflexive(a: Bytes)
    ensures !Below(a, a)
    decreases |a|
  {
    if a != [] {
      BelowIrreflexive(a[1..]);
    }
  }

  lemma {:induction false} BelowTransitive(a: Bytes, b: Bytes, c: Bytes)
    requires Below(a, b) && Below(b, c)
    ensures Below(a, c)
    decreases |a|
  {
    if a != [] && a[0] == b[0] && b[0] == c[0] {
      BelowTransitive(a[1..], b[1..], c[1..]);
    }
  }

  lemma {:induction false} BelowTotal(a: Bytes, b: Bytes)
    ensures a == b || Below(a, b) || Below(b, a)
    decreases |a|
  {
    if a != [] && b != [] && a[0] == b[0] {
      BelowTotal(a[1..], b[1..]);
      if a[1..] == b[1..] {
        assert a == [a[0]] + a[1..] && b == [b[0]] + b[1..];
      }
    }
  }

  lemma BelowAsymmetric(a: Bytes, b: Bytes)
    requires Below(a, b)
    ensures !Below(b, a)
  {
    if Below(b, a) {
      BelowTransitive(a, b, a);
      BelowIrreflexive(a);
    }
  }

  /** `k` is the least element of `s`. */
  predicate IsLeast(k: Bytes, s: set<Bytes>) {
    k in s && forall x :: x in s ==> x == k || Below(k, x)
  }

  lemma {:induction false} LeastExists(s: set<Bytes>)
    requires s != {}
    ensures exists k :: IsLeast(k, s)
    decreases |s|
  {
    var x :| x in s;
    if s == {x} {
      assert IsLeast(x, s);
    } else {
      var rest := s - {x};
      LeastExists(rest);
      var m :| IsLeast(m, rest);
      BelowTotal(x, m);
      if Below(x, m) {
        forall y | y in s
          ensures y == x || Below(x, y)
        {
          if y != x && y != m {
            BelowTransitive(x, m, y);
          }
        }
        assert IsLeast(x, s);
      } else {
        assert IsLeast(m, s);
      }
    }
  }

  /** The elements of `r` are in strictly ascending order (hence distinct). */
  predicate Ascending(r: seq<Bytes>) {
    forall i, j :: 0 <= i < j < |r| ==> Below(r[i], r[j])
  }

  /** Two ascending sequences with the same elements are equal: the order
      fixes the sequence. */
  lemma {:induction false} AscendingUnique(r1: seq<Bytes>, r2: seq<Bytes>)
    requires Ascending(r1) && Ascending(r2)
    requires forall k :: k in r1 <==> k in r2
    ensures r1 == r2
    decreases |r1|
  {
    assert r1 == [] ==> r2 == [] by {
      if r2 != [] {
        assert r2[0] in r2;
      }
    }
    if r1 != [] {
      assert r1[0] in r1;
      assert r2 != [];
      assert r2[0] in r2;
      if r1[0] != r2[0] {
        var i :| 0 <= i < |r1| && r1[i] == r2[0];
        var j :| 0 <= j < |r2| && r2[j] == r1[0];
        assert Below(r1[0], r2[0]);
        assert Below(r2[0], r1[0]);
        BelowAsymmetric(r1[0], r2[0]);
      }
      forall k
        ensures k in r1[1..] <==> k in r2[1..]
      {
        if k in r1[1..] {
          var i :| 1 <= i < |r1| && r1[i] == k;
          BelowIrreflexive(r1[0]);
          assert k in r2 && k != r2[0];
          var j :| 0 <= j < |r2| && r2[j] == k;
          assert r2[1..][j - 1] == k;
        }
        if k in r2[1..] {
          var j :| 1 <= j < |r2| && r2[j] == k;
          BelowIrreflexive(r2[0]);
          assert k in r1 && k != r1[0];
          var i :| 0 <= i < |r1| && r1[i] == k;
          assert r1[1..][i - 1] == k;
        }
      }
      AscendingUnique(r1[1..], r2[1..]);
      assert r1 == [r1[0]] + r1[1..] && r2 == [r2[0]] + r2[1..];
    }
  }

  /** The elements of `s` in ascending order: the order in which the snapshot
      store yields its keys. */
  ghost function SortedKeys(s: set<Bytes>): (r: seq<Bytes>)
    ensures forall k :: k in r <==> k in s
    ensures Ascending(r)
    decreases |s|
  {
    if s == {} then []
    else
      LeastExists(s);
      var k :| IsLeast(k, s);
      var rest := SortedKeys(s - {k});
      assert forall j :: 0 <= j < |rest| ==> rest[j] in s - {k};
      [k] + rest
  }
}
