/**
 Strings as the JavaScript and Python string methods see them: searching, splitting on a
 separator, joining and trimming.
 */
module Text {

  predicate At(s: string, sep: string, i: int) {
    0 <= i && i + |sep| <= |s| && s[i..i + |sep|] == sep
  }

  /** `indexOf`: the first place of `sep` from `i` on, or -1. */
  function IndexFrom(s: string, sep: string, i: nat): (k: int)
    ensures k == -1 || (i <= k && At(s, sep, k))
    ensures forall j :: i <= j && (k == -1 || j < k) ==> !At(s, sep, j)
    decreases |s| - i
  {
    if i + |sep| > |s| then -1 else if At(s, sep, i) then i else IndexFrom(s, sep, i + 1)
  }

  /** `split(sep)`: the pieces between the non-overlapping places of `sep`, taken from the left. */
  function Split(s: string, sep: string): (parts: seq<string>)
    requires sep != ""
    ensures |parts| > 0
  {
    var i := IndexFrom(s, sep, 0);
    if i == -1 then [s] else [s[..i]] + Split(s[i + |sep|..], sep)
  }

  function Join(parts: seq<string>, sep: string): string {
    if parts == [] then ""
    else if |parts| == 1 then parts[0]
    else parts[0] + sep + Join(parts[1..], sep)
  }

  function Concat(parts: seq<string>): string {
    if parts == [] then "" else parts[0] + Concat(parts[1..])
  }

  lemma {:induction false} ConcatEnd(parts: seq<string>, s: string)
    ensures Concat(parts + [s]) == Concat(parts) + s
  {
    if parts == [] {
      assert parts + [s] == [s];
      assert Concat([s][1..]) == "";
    } else {
      ConcatEnd(parts[1..], s);
      assert (parts + [s])[1..] == parts[1..] + [s];
    }
  }

  /** Splitting finds the first separator where it is. */
  lemma SplitAt(s: string, sep: string, i: nat)
    requires sep != "" && At(s, sep, i) && forall j | 0 <= j < i :: !At(s, sep, j)
    ensures Split(s, sep) == [s[..i]] + Split(s[i + |sep|..], sep)
  {
    var k := IndexFrom(s, sep, 0);
    assert k == i;
  }

  lemma AtPrefix(s: string, t: string, sep: string, j: int)
    ensures At(s, sep, j) <==> At(s + t, sep, j) && j + |sep| <= |s|
  {
    if 0 <= j && j + |sep| <= |s| {
      assert (s + t)[j..j + |sep|] == s[j..j + |sep|];
    }
  }

  /** Splitting loses nothing, and no piece contains the separator. */
  lemma {:induction false} SplitJoin(s: string, sep: string)
    requires sep != ""
    ensures Join(Split(s, sep), sep) == s
    ensures forall p <- Split(s, sep) :: forall j :: !At(p, sep, j)
    decreases |s|
  {
    var i := IndexFrom(s, sep, 0);
    if i != -1 {
      SplitJoin(s[i + |sep|..], sep);
      assert s == s[..i] + sep + s[i + |sep|..];
      forall j ensures !At(s[..i], sep, j) {
        assert s == s[..i] + s[i..];
        AtPrefix(s[..i], s[i..], sep, j);
      }
    }
  }

  /** The first separator stays the first one when text is added. */
  lemma SplitPrefix(s: string, t: string, sep: string, i: nat)
    requires sep != "" && At(s, sep, i) && forall j | 0 <= j < i :: !At(s, sep, j)
    ensures Split(s + t, sep) == [s[..i]] + Split(s[i + |sep|..] + t, sep)
  {
    AtPrefix(s, t, sep, i);
    forall j | 0 <= j < i ensures !At(s + t, sep, j) {
      AtPrefix(s, t, sep, j);
    }
    SplitAt(s + t, sep, i);
    assert (s + t)[..i] == s[..i];
    assert (s + t)[i + |sep|..] == s[i + |sep|..] + t;
  }

  /** More text never changes the pieces already closed by a separator: only the last piece is still open. */
  lemma {:induction false} SplitMore(s: string, t: string, sep: string)
    requires sep != ""
    ensures var parts := Split(s, sep);
            Split(s + t, sep) == parts[..|parts| - 1] + Split(parts[|parts| - 1] + t, sep)
    decreases |s|
  {
    var i := IndexFrom(s, sep, 0);
    if i == -1 {
      assert Split(s, sep) == [s] && [s][..0] == [];
    } else {
      var rest := s[i + |sep|..];
      SplitAt(s, sep, i);
      SplitPrefix(s, t, sep, i);
      hide Split, IndexFrom, At;
      SplitMore(rest, t, sep);
      Regroup(s[..i], Split(rest, sep), Split(rest + t, sep), t, sep);
    }
  }

  /** One more closed piece in front. */
  lemma Regroup(first: string, tail: seq<string>, more: seq<string>, t: string, sep: string)
    requires sep != "" && tail != [] && more == tail[..|tail| - 1] + Split(tail[|tail| - 1] + t, sep)
    ensures var parts := [first] + tail;
            [first] + more == parts[..|parts| - 1] + Split(parts[|parts| - 1] + t, sep)
  {
    hide Split;
    var parts := [first] + tail;
    assert parts[..|parts| - 1] == [first] + tail[..|tail| - 1];
  }

  // ---------------------------------------------------------------------------
  // Trimming.

  function TrimStart(s: string, blank: char -> bool): string {
    if s != "" && blank(s[0]) then TrimStart(s[1..], blank) else s
  }

  function TrimEnd(s: string, blank: char -> bool): string {
    if s != "" && blank(s[|s| - 1]) then TrimEnd(s[..|s| - 1], blank) else s
  }

  function Trim(s: string, blank: char -> bool): string {
    TrimEnd(TrimStart(s, blank), blank)
  }

  predicate Trimmed(s: string, blank: char -> bool) {
    s == "" || (!blank(s[0]) && !blank(s[|s| - 1]))
  }

  lemma {:induction false} TrimStartSpec(s: string, blank: char -> bool)
    ensures TrimStart(s, blank) == "" || !blank(TrimStart(s, blank)[0])
    ensures |TrimStart(s, blank)| <= |s| && TrimStart(s, blank) == s[|s| - |TrimStart(s, blank)|..]
    ensures forall c <- s[..|s| - |TrimStart(s, blank)|] :: blank(c)
  {
    if s != "" && blank(s[0]) {
      TrimStartSpec(s[1..], blank);
      var n := |s| - |TrimStart(s, blank)|;
      assert s[..n] == [s[0]] + s[1..][..n - 1];
    }
  }

  lemma {:induction false} TrimEndSpec(s: string, blank: char -> bool)
    ensures TrimEnd(s, blank) == "" || !blank(TrimEnd(s, blank)[|TrimEnd(s, blank)| - 1])
    ensures |TrimEnd(s, blank)| <= |s| && TrimEnd(s, blank) == s[..|TrimEnd(s, blank)|]
    ensures forall c <- s[|TrimEnd(s, blank)|..] :: blank(c)
  {
    if s != "" && blank(s[|s| - 1]) {
      TrimEndSpec(s[..|s| - 1], blank);
      var n := |TrimEnd(s, blank)|;
      assert s[n..] == s[..|s| - 1][n..] + [s[|s| - 1]];
    }
  }

  /** Trimming leaves a trimmed text, and only blank characters are lost. */
  lemma TrimSpec(s: string, blank: char -> bool)
    ensures Trimmed(Trim(s, blank), blank)
    ensures exists a: string, b: string :: s == a + Trim(s, blank) + b && AllBlank(a, blank) && AllBlank(b, blank)
  {
    TrimStartSpec(s, blank);
    var m := TrimStart(s, blank);
    TrimEndSpec(m, blank);
    var r := Trim(s, blank);
    var a, b := s[..|s| - |m|], m[|r|..];
    assert s == a + r + b;
    assert AllBlank(a, blank) && AllBlank(b, blank);
  }

  /** So trimming a padded text gives the text. */
  lemma TrimPadded(a: string, m: string, b: string, blank: char -> bool)
    requires AllBlank(a, blank) && AllBlank(b, blank) && Trimmed(m, blank)
    ensures Trim(a + m + b, blank) == m
  {
    TrimStartPadded(a, m + b, blank);
    assert a + m + b == a + (m + b);
    if m == "" {
      TrimStartPadded(b, "", blank);
      assert m + b == b + "";
      TrimStartBlank(b, blank);
    } else {
      assert TrimStart(m + b, blank) == m + b;
      TrimEndPadded(m, b, blank);
    }
  }

  lemma {:induction false} TrimStartPadded(a: string, s: string, blank: char -> bool)
    requires AllBlank(a, blank)
    ensures TrimStart(a + s, blank) == TrimStart(s, blank)
    decreases |a|
  {
    if a == "" {
      assert a + s == s;
    } else {
      assert a[0] in a && forall c <- a[1..] :: c in a;
      assert (a + s)[1..] == a[1..] + s;
      TrimStartPadded(a[1..], s, blank);
    }
  }

  lemma TrimStartBlank(b: string, blank: char -> bool)
    requires AllBlank(b, blank)
    ensures TrimStart(b, blank) == ""
  {
    TrimStartPadded(b, "", blank);
    assert b + "" == b;
  }

  lemma {:induction false} TrimEndPadded(m: string, b: string, blank: char -> bool)
    requires AllBlank(b, blank) && m != "" && !blank(m[|m| - 1])
    ensures TrimEnd(m + b, blank) == m
    decreases |b|
  {
    if b == "" {
      assert m + b == m;
    } else {
      assert b[|b| - 1] in b && forall c <- b[..|b| - 1] :: c in b;
      assert (m + b)[..|m + b| - 1] == m + b[..|b| - 1];
      TrimEndPadded(m, b[..|b| - 1], blank);
    }
  }

  predicate AllBlank(s: string, blank: char -> bool) {
    forall c <- s :: blank(c)
  }

  lemma TrimTrimmed(s: string, blank: char -> bool)
    requires Trimmed(s, blank)
    ensures Trim(s, blank) == s
  {}

  // ---------------------------------------------------------------------------
  // Numbers.

  /** The decimal digits of a number. */
  function Digits(n: nat): (s: string)
    ensures s != "" && forall c <- s :: '0' <= c <= '9'
  {
    if n < 10 then [('0' as int + n) as char] else Digits(n / 10) + [('0' as int + n % 10) as char]
  }
}
