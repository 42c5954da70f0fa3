/** Counting the entries of a map, or the places of a list, that have a property. */
module Counting {

  ghost function Matching<K, V>(m: map<K, V>, p: V -> bool): set<K> {
    set k | k in m && p(m[k])
  }

  ghost function Count<K, V>(m: map<K, V>, p: V -> bool): nat {
    |Matching(m, p)|
  }

  lemma Without<K>(s: set<K>, k: K)
    ensures |s| == |s - {k}| + if k in s then 1 else 0
  {
    assert s == if k in s then s - {k} + {k} else s - {k};
  }

  lemma Others<K, V>(m: map<K, V>, k: K, x: V, p: V -> bool)
    ensures Matching(m[k := x], p) - {k} == Matching(m, p) - {k}
  {
    forall j ensures j in Matching(m[k := x], p) - {k} <==> j in Matching(m, p) - {k} {
    }
  }

  /** Replacing or adding one entry changes a count by that entry only. */
  lemma CountUpdate<K, V>(m: map<K, V>, k: K, x: V, p: V -> bool)
    ensures Count(m[k := x], p) == Count(m, p) - (if k in m && p(m[k]) then 1 else 0) + (if p(x) then 1 else 0)
  {
    var n := m[k := x];
    Others(m, k, x, p);
    Without(Matching(m, p), k);
    Without(Matching(n, p), k);
    assert k in Matching(m, p) <==> k in m && p(m[k]);
    assert k in Matching(n, p) <==> p(x);
    hide Matching;
  }

  lemma CountMonotone<K, V>(m: map<K, V>, p: V -> bool, q: V -> bool)
    requires forall k <- m :: p(m[k]) ==> q(m[k])
    ensures Count(m, p) <= Count(m, q)
  {
    var a, b := Matching(m, p), Matching(m, q);
    assert b == a + (b - a);
  }

  ghost function Places<T>(s: seq<T>, p: T -> bool): set<nat> {
    set i: nat | i < |s| && p(s[i])
  }

  /** The last place adds itself, or nothing. */
  lemma PlacesStep<T>(s: seq<T>, p: T -> bool)
    requires s != []
    ensures |Places(s, p)| == |Places(s[..|s| - 1], p)| + if p(s[|s| - 1]) then 1 else 0
  {
    var n := |s| - 1;
    var before := Places(s[..n], p);
    forall i: nat ensures i in Places(s, p) <==> i in before || (i == n && p(s[n])) {
    }
    assert Places(s, p) == if p(s[n]) then before + {n} else before;
  }

  lemma NoPlaces<T>(p: T -> bool)
    ensures Places([], p) == {}
  {}

  /** The numbers from 1 to `n` that have a property. */
  ghost function UpTo(n: nat, p: nat -> bool): set<nat> {
    set q: nat | 1 <= q <= n && p(q)
  }

  lemma UpToStep(n: nat, p: nat -> bool)
    requires n > 0
    ensures |UpTo(n, p)| == |UpTo(n - 1, p)| + if p(n) then 1 else 0
  {
    var before := UpTo(n - 1, p);
    forall q: nat ensures q in UpTo(n, p) <==> q in before || (q == n && p(n)) {
    }
    assert UpTo(n, p) == if p(n) then before + {n} else before;
  }
}
