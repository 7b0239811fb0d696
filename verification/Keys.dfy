/**
 The order in which the program's dictionaries are iterated: `std::map<String, Value>`
 compares keys lexicographically, byte by byte. A character stands for one byte.
 */
module Keys {

  /** `a` comes before or equals `b` in the order of the keys. */
  predicate Le(a: string, b: string) {
    if a == [] then true
    else if b == [] then false
    else a[0] < b[0] || (a[0] == b[0] && Le(a[1..], b[1..]))
  }

  predicate Lt(a: string, b: string) {
    a != b && Le(a, b)
  }

  lemma {:induction false} LeTotal(a: string, b: string)
    ensures Le(a, b) || Le(b, a)
  {
    if a != [] && b != [] {
      LeTotal(a[1..], b[1..]);
    }
  }

  lemma {:induction false} LeAntisymmetric(a: string, b: string)
    requires Le(a, b) && Le(b, a)
    ensures a == b
  {
    if a != [] {
      LeAntisymmetric(a[1..], b[1..]);
      assert a == [a[0]] + a[1..] && b == [b[0]] + b[1..];
    }
  }

  lemma {:induction false} LeTransitive(a: string, b: string, c: string)
    requires Le(a, b) && Le(b, c)
    ensures Le(a, c)
  {
    if a != [] && a[0] == c[0] {
      LeTransitive(a[1..], b[1..], c[1..]);
    }
  }

  /** The order is decided at the first position at which the keys differ; a key that ends
      there comes first. */
  lemma {:induction false} LeAt(a: string, b: string, n: nat)
    requires n <= |a| && n <= |b| && a[..n] == b[..n]
    requires n < |a| && n < |b| ==> a[n] != b[n]
    ensures Le(a, b) <==> n == |a| || (n < |b| && a[n] < b[n])
  {
    if n > 0 {
      assert a[0] == a[..n][0] == b[..n][0] == b[0];
      assert a[1..][..n - 1] == a[..n][1..] && b[1..][..n - 1] == b[..n][1..];
      LeAt(a[1..], b[1..], n - 1);
    }
  }

  /** Every key is strictly before every later one; in particular no key repeats. */
  predicate Sorted(ks: seq<string>) {
    forall i, j :: 0 <= i < j < |ks| ==> Lt(ks[i], ks[j])
  }

  predicate IsLeast(k: string, s: set<string>) {
    k in s && forall k' :: k' in s ==> Le(k, k')
  }

  lemma {:induction false} LeastExists(s: set<string>)
    requires s != {}
    ensures exists k :: IsLeast(k, s)
    decreases |s|
  {
    var k :| k in s;
    if s == {k} {
      LeTotal(k, k);
      assert IsLeast(k, s);
    } else {
      var rest := s - {k};
      LeastExists(rest);
      var m :| IsLeast(m, rest);
      LeTotal(k, m);
      var least := if Le(k, m) then k else m;
      forall k' | k' in s ensures Le(least, k') {
        LeTotal(k, k);
        if k' != k && least == k {
          LeTransitive(k, m, k');
        }
      }
      assert IsLeast(least, s);
    }
  }

  lemma LeastUnique(s: set<string>)
    ensures forall a, b :: IsLeast(a, s) && IsLeast(b, s) ==> a == b
  {
    forall a, b | IsLeast(a, s) && IsLeast(b, s) ensures a == b {
      LeAntisymmetric(a, b);
    }
  }

  /** The iteration order of a dictionary whose key set is `s`. */
  function SortedKeys(s: set<string>): (ks: seq<string>)
    ensures Sorted(ks)
    ensures forall k :: k in ks <==> k in s
    ensures |ks| == |s|
    decreases |s|
  {
    if s == {} then []
    else
      LeastExists(s);
      LeastUnique(s);
      var k :| IsLeast(k, s);
      var rest := SortedKeys(s - {k});
      assert forall j :: 0 <= j < |rest| ==> rest[j] in rest;
      [k] + rest
  }

  /** A strictly sorted enumeration is determined by the set it enumerates. */
  lemma {:induction false} SortedUnique(a: seq<string>, b: seq<string>)
    requires Sorted(a) && Sorted(b)
    requires forall k :: k in a <==> k in b
    ensures a == b
  {
    assert b != [] ==> b[0] in b;
    if a == [] {
      assert b == [];
    } else {
      assert a[0] in b;
      assert b[0] in a;
      if a[0] != b[0] {
        LeAntisymmetric(a[0], b[0]);
        assert false;
      }
      forall k ensures k in a[1..] <==> k in b[1..] {
        if k in a[1..] { assert k in b; }
        if k in b[1..] { assert k in a; }
      }
      SortedUnique(a[1..], b[1..]);
      assert a == [a[0]] + a[1..] && b == [b[0]] + b[1..];
    }
  }

  lemma SortedTail(ks: seq<string>)
    requires Sorted(ks) && ks != []
    ensures Sorted(ks[1..]) && ks[0] !in ks[1..]
    ensures forall k :: k in ks <==> k == ks[0] || k in ks[1..]
  {
    hide Le;
    assert forall j :: 0 <= j < |ks[1..]| ==> ks[1..][j] == ks[j + 1] && Lt(ks[0], ks[j + 1]);
  }
}
