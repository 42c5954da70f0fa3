/** The order of strings by code points, and sorted duplicate-free lists of them. */
module Ordering {

  predicate Before(a: string, b: string) {
    b != "" && (a == "" || a[0] < b[0] || (a[0] == b[0] && Before(a[1..], b[1..])))
  }

  lemma {:induction false} BeforeTotal(a: string, b: string)
    ensures Before(a, b) || a == b || Before(b, a)
  {
    if a != "" && b != "" && a[0] == b[0] {
      BeforeTotal(a[1..], b[1..]);
      assert a == [a[0]] + a[1..] && b == [b[0]] + b[1..];
    }
  }

  lemma {:induction false} BeforeTransitive(a: string, b: string, c: string)
    requires Before(a, b) && Before(b, c)
    ensures Before(a, c)
  {
    if a != "" && a[0] == b[0] && b[0] == c[0] {
      BeforeTransitive(a[1..], b[1..], c[1..]);
    }
  }

  lemma {:induction false} BeforeIrreflexive(a: string)
    ensures !Before(a, a)
  {
    if a != "" {
      BeforeIrreflexive(a[1..]);
    }
  }

  /** The order is lexicographic: a proper beginning comes first, and otherwise the first difference decides. */
  lemma {:induction false} BeforeIff(a: string, b: string)
    ensures Before(a, b) <==> a < b || exists i :: FirstDifference(a, b, i) && a[i] < b[i]
  {
    if a != "" && b != "" && a[0] == b[0] {
      BeforeIff(a[1..], b[1..]);
      assert a == [a[0]] + a[1..] && b == [b[0]] + b[1..];
      forall i: nat ensures FirstDifference(a[1..], b[1..], i) <==> FirstDifference(a, b, i + 1) {
        ShiftDifference(a, b, i);
      }
      if i :| FirstDifference(a, b, i) && a[i] < b[i] {
        assert i > 0 && FirstDifference(a[1..], b[1..], i - 1);
      }
      if i :| FirstDifference(a[1..], b[1..], i) && a[1..][i] < b[1..][i] {
        assert FirstDifference(a, b, i + 1);
      }
    } else if a != "" && b != "" {
      assert FirstDifference(a, b, 0);
    }
  }

  /** The two texts agree before place `i` and differ there. */
  predicate FirstDifference(a: string, b: string, i: int) {
    0 <= i < |a| && i < |b| && a[..i] == b[..i] && a[i] != b[i]
  }

  lemma ShiftDifference(a: string, b: string, i: nat)
    requires a != "" && b != "" && a[0] == b[0]
    ensures FirstDifference(a[1..], b[1..], i) <==> FirstDifference(a, b, i + 1)
  {
    if i + 1 < |a| && i + 1 < |b| {
      assert a[..i + 1] == [a[0]] + a[1..][..i] && b[..i + 1] == [b[0]] + b[1..][..i];
      assert a[1..][..i] == a[..i + 1][1..] && b[1..][..i] == b[..i + 1][1..];
    }
  }

  function Elements<T>(s: seq<T>): set<T> {
    set x | x in s
  }

  lemma ElementsConcat<T>(a: seq<T>, b: seq<T>)
    ensures Elements(a + b) == Elements(a) + Elements(b)
  {
    forall x ensures x in a + b <==> x in a || x in b {
    }
  }

  predicate Sorted(s: seq<string>) {
    forall i, j | 0 <= i < j < |s| :: Before(s[i], s[j])
  }

  lemma LastIsNew(s: seq<string>)
    requires Sorted(s) && s != []
    ensures Sorted(s[..|s| - 1]) && s[|s| - 1] !in s[..|s| - 1]
  {
    if i :| 0 <= i < |s| - 1 && s[i] == s[|s| - 1] {
      BeforeIrreflexive(s[i]);
    }
  }

  /** A sorted list has as many entries as its set has elements. */
  lemma {:induction false} SortedSize(s: seq<string>)
    requires Sorted(s)
    ensures |Elements(s)| == |s|
  {
    if s == [] {
      assert Elements(s) == {};
    } else {
      var last, rest := s[|s| - 1], s[..|s| - 1];
      LastIsNew(s);
      hide Sorted;
      SortedSize(rest);
      assert s == rest + [last];
      ElementsConcat(rest, [last]);
      assert Elements([last]) == {last};
    }
  }

  /** `sorted` of a set has only one possible result. */
  lemma {:induction false} SortedUnique(a: seq<string>, b: seq<string>)
    requires Sorted(a) && Sorted(b) && Elements(a) == Elements(b)
    ensures a == b
  {
    SortedSize(a);
    SortedSize(b);
    if a != [] {
      FirstIsLeast(a);
      FirstIsLeast(b);
      assert a[0] in Elements(a) && b[0] in Elements(b);
      if a[0] != b[0] {
        BeforeTransitive(a[0], b[0], a[0]);
        BeforeIrreflexive(a[0]);
      }
      assert Elements(a[1..]) == Elements(a) - {a[0]} by { SortedTail(a); }
      assert Elements(b[1..]) == Elements(b) - {b[0]} by { SortedTail(b); }
      SortedUnique(a[1..], b[1..]);
      assert a == [a[0]] + a[1..] && b == [b[0]] + b[1..];
    }
  }

  lemma FirstIsLeast(s: seq<string>)
    requires Sorted(s) && s != []
    ensures forall x <- s :: x == s[0] || Before(s[0], x)
  {}

  lemma SortedTail(s: seq<string>)
    requires Sorted(s) && s != []
    ensures Sorted(s[1..]) && Elements(s[1..]) == Elements(s) - {s[0]}
  {
    if s[0] in s[1..] {
      var i :| 0 <= i < |s[1..]| && s[1..][i] == s[0];
      assert Before(s[0], s[i + 1]);
      BeforeIrreflexive(s[0]);
    }
    assert s == [s[0]] + s[1..];
  }

  /** Puts `x` into its place. */
  function Insert(s: seq<string>, x: string): seq<string> {
    if s == [] then [x]
    else if x == s[0] then s
    else if Before(x, s[0]) then [x] + s
    else [s[0]] + Insert(s[1..], x)
  }

  lemma InsertFirst(s: seq<string>, x: string)
    requires Sorted(s) && s != [] && Before(x, s[0])
    ensures Sorted([x] + s) && Elements([x] + s) == Elements(s) + {x}
  {
    forall y <- s ensures Before(x, y) {
      FirstIsLeast(s);
      if y != s[0] { BeforeTransitive(x, s[0], y); }
    }
    hide Before, Sorted;
    Prepend(x, s);
  }

  lemma InsertLater(s: seq<string>, x: string, t: seq<string>)
    requires Sorted(s) && s != [] && Before(s[0], x)
    requires Sorted(t) && Elements(t) == Elements(s[1..]) + {x}
    ensures Sorted([s[0]] + t) && Elements([s[0]] + t) == Elements(s) + {x}
  {
    SortedTail(s);
    FirstIsLeast(s);
    hide Sorted;
    forall y <- t ensures Before(s[0], y) {
      assert y in Elements(t);
      assert y != x ==> y in Elements(s) && y != s[0];
    }
    hide Before;
    Prepend(s[0], t);
    assert s[0] in Elements(s);
  }

  lemma {:induction false} InsertSorted(s: seq<string>, x: string)
    requires Sorted(s)
    ensures Sorted(Insert(s, x)) && Elements(Insert(s, x)) == Elements(s) + {x}
  {
    if s == [] {
    } else if x == s[0] {
    } else if Before(x, s[0]) {
      InsertFirst(s, x);
    } else {
      SortedTail(s);
      BeforeTotal(x, s[0]);
      hide Before, Sorted, Elements;
      InsertSorted(s[1..], x);
      InsertLater(s, x, Insert(s[1..], x));
    }
  }

  lemma Prepend(x: string, s: seq<string>)
    requires Sorted(s) && forall y <- s :: Before(x, y)
    ensures Sorted([x] + s) && Elements([x] + s) == {x} + Elements(s)
  {
    ElementsConcat([x], s);
    hide Before;
  }

  lemma SubsetSize<T>(a: set<T>, b: set<T>)
    requires a <= b
    ensures |a| <= |b|
  {
    assert b == a + (b - a);
  }
}
