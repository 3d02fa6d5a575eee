/** Sequences without repetition. */
module Sequences {

  ghost predicate Differ<T>(s: seq<T>, i: int, j: int) {
    0 <= i < j < |s| ==> s[i] != s[j]
  }

  ghost predicate Distinct<T>(s: seq<T>) {
    forall i, j {:trigger Differ(s, i, j)} :: Differ(s, i, j)
  }

  function Without<T>(s: seq<T>, k: nat): seq<T>
    requires k < |s|
  {
    s[..k] + s[k + 1..]
  }

  lemma DistinctCons<T>(x: T, s: seq<T>)
    requires Distinct(s) && x !in s
    ensures Distinct([x] + s)
  {
    forall i, j ensures Differ([x] + s, i, j) {
      assert Differ(s, i - 1, j - 1);
    }
  }

  lemma DistinctSnoc<T>(s: seq<T>, x: T)
    requires Distinct(s) && x !in s
    ensures Distinct(s + [x])
  {
    forall i, j ensures Differ(s + [x], i, j) {
      assert Differ(s, i, j);
    }
  }

  lemma DistinctTail<T>(s: seq<T>)
    requires Distinct(s) && s != []
    ensures Distinct(s[1..]) && s[0] !in s[1..]
  {
    forall i, j ensures Differ(s[1..], i, j) {
      assert Differ(s, i + 1, j + 1);
    }
    forall i | 0 <= i < |s| - 1 ensures s[1..][i] != s[0] {
      assert Differ(s, 0, i + 1);
    }
  }

  lemma DistinctAt<T>(s: seq<T>, k: nat)
    requires Distinct(s) && k < |s|
    ensures s[k] !in s[..k] && s[k] !in s[k + 1..] && Distinct(s[..k])
  {
    forall i | 0 <= i < |s| && i != k ensures s[i] != s[k] {
      assert Differ(s, i, k) && Differ(s, k, i);
    }
    forall i, j ensures Differ(s[..k], i, j) {
      assert Differ(s, i, j);
    }
  }

  lemma DistinctWithout<T>(s: seq<T>, k: nat)
    requires Distinct(s) && k < |s|
    ensures Distinct(Without(s, k)) && s[k] !in Without(s, k)
  {
    forall i, j ensures Differ(Without(s, k), i, j) {
      assert Differ(s, if i < k then i else i + 1, if j < k then j else j + 1);
    }
    forall i | 0 <= i < |s| - 1 ensures Without(s, k)[i] != s[k] {
      assert Differ(s, i, k) && Differ(s, k, i + 1);
    }
  }

  lemma DistinctJoin<T>(a: seq<T>, b: seq<T>)
    requires Distinct(a) && Distinct(b) && forall x :: x in a ==> x !in b
    ensures Distinct(a + b)
  {
    forall i, j ensures Differ(a + b, i, j) {
      assert Differ(a, i, j) && Differ(b, i - |a|, j - |a|);
      assert 0 <= i < |a| ==> a[i] in a;
      assert |a| <= j < |a + b| ==> b[j - |a|] in b;
    }
  }

  lemma DistinctParts<T>(a: seq<T>, b: seq<T>)
    requires Distinct(a + b)
    ensures Distinct(a) && Distinct(b) && forall x :: x in a ==> x !in b
  {
    forall i, j ensures Differ(a, i, j) {
      assert Differ(a + b, i, j);
    }
    forall i, j ensures Differ(b, i, j) {
      assert Differ(a + b, |a| + i, |a| + j);
    }
    forall i, j | 0 <= i < |a| && 0 <= j < |b| ensures a[i] != b[j] {
      assert Differ(a + b, i, |a| + j);
    }
  }

  function Except<T(==)>(s: seq<T>, x: T): (r: seq<T>)
    ensures (forall y {:trigger y in r} {:trigger y in s} :: y in r ==> y in s && y != x)
    ensures (forall y {:trigger y in r} {:trigger y in s} :: y in s && y != x ==> y in r)
  {
    if s == [] then []
    else if s[0] == x then Except(s[1..], x)
    else [s[0]] + Except(s[1..], x)
  }

  lemma {:induction false} ExceptNothing<T>(s: seq<T>, x: T)
    requires x !in s
    ensures Except(s, x) == s
  {
    if s != [] {
      ExceptNothing(s[1..], x);
    }
  }

  lemma {:induction false} DistinctExcept<T>(s: seq<T>, x: T)
    requires Distinct(s)
    ensures Distinct(Except(s, x))
  {
    if s != [] {
      DistinctTail(s);
      DistinctExcept(s[1..], x);
      if s[0] != x {
        DistinctCons(s[0], Except(s[1..], x));
      }
    }
  }

  lemma ConcatAssoc<T>(a: seq<T>, b: seq<T>, c: seq<T>)
    ensures a + (b + c) == (a + b) + c
  {
  }
}
