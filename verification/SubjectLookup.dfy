/**
 Ranking and coverage of runtime_skills/subject_advisor/scripts/subject_requirements_lookup.py.
 */
module SubjectLookup {
  import opened Counting
  import opened Text
  import opened Ordering
  import opened Subjects

  datatype Record = Record(category: string, name: string, minimum: string, requirement: Requirement)

  // ---------------------------------------------------------------------------
  // Python's sort, on the positions of a list.

  /** A strict total order on positions. */
  ghost predicate StrictTotal(less: (nat, nat) -> bool) {
    && (forall i :: !less(i, i))
    && (forall i, j :: i != j ==> less(i, j) || less(j, i))
    && (forall i, j, k :: less(i, j) && less(j, k) ==> less(i, k))
  }

  ghost predicate SortedBy(s: seq<nat>, less: (nat, nat) -> bool) {
    forall a, b | 0 <= a < b < |s| :: less(s[a], s[b])
  }

  /** Puts one more position into a sorted list. */
  method Place(s: seq<nat>, x: nat, less: (nat, nat) -> bool) returns (r: seq<nat>)
    requires StrictTotal(less) && SortedBy(s, less) && x !in s
    ensures SortedBy(r, less) && forall y :: y in r <==> y in s || y == x
  {
    var p := 0;
    while p < |s| && less(s[p], x)
      invariant p <= |s|
      invariant forall a | 0 <= a < p :: less(s[a], x)
    {
      p := p + 1;
    }
    assert forall b | p <= b < |s| :: less(x, s[b]) by {
      if p < |s| {
        assert s[p] in s && less(x, s[p]);
      }
    }
    r := s[..p] + [x] + s[p..];
    assert s == s[..p] + s[p..];
  }

  /** A stable sort of the positions below `n` that are kept: stability is that `less` breaks ties by position. */
  method SortPositions(n: nat, keep: nat -> bool, less: (nat, nat) -> bool) returns (order: seq<nat>)
    requires StrictTotal(less)
    ensures SortedBy(order, less) && forall i: nat :: i in order <==> i < n && keep(i)
  {
    order := [];
    for i := 0 to n
      invariant SortedBy(order, less) && forall k: nat :: k in order <==> k < i && keep(k)
    {
      if keep(i) {
        order := Place(order, i, less);
      }
    }
  }

  // ---------------------------------------------------------------------------
  // Ranking.

  predicate Contains(s: string, piece: string) {
    IndexFrom(s, piece, 0) != -1
  }

  function KeywordScore(r: Record, keywords: seq<string>): nat {
    if keywords == [] then 0
    else
      var k := keywords[|keywords| - 1];
      KeywordScore(r, keywords[..|keywords| - 1]) +
      if k == "" then 0
      else if k == r.name then 120
      else if Contains(r.name, k) || Contains(r.category, k) then 45
      else 0
  }

  function Score(r: Record, categories: seq<string>, keywords: seq<string>): nat {
    (if r.category in categories then (if r.category == categories[0] then 125 else 100) else 0)
    + (if r.category != "" && exists c <- categories :: Contains(c, r.category) || Contains(r.category, c) then 30 else 0)
    + KeywordScore(r, keywords)
  }

  /** The target names the record: its category or an overlapping one, or a keyword that its name or category contains. */
  predicate Hits(r: Record, categories: seq<string>, keywords: seq<string>) {
    || r.category in categories
    || (r.category != "" && exists c <- categories :: Contains(c, r.category) || Contains(r.category, c))
    || exists k <- keywords :: HitsKeyword(r, k)
  }

  predicate HitsKeyword(r: Record, k: string) {
    k != "" && (k == r.name || Contains(r.name, k) || Contains(r.category, k))
  }

  lemma {:induction false} KeywordScorePositiveIff(r: Record, keywords: seq<string>)
    ensures KeywordScore(r, keywords) > 0 <==> exists k <- keywords :: HitsKeyword(r, k)
  {
    hide Contains;
    if keywords != [] {
      var rest, last := keywords[..|keywords| - 1], keywords[|keywords| - 1];
      KeywordScorePositiveIff(r, rest);
      assert keywords == rest + [last] && last in keywords && forall k <- rest :: k in keywords;
      assert (exists k <- keywords :: HitsKeyword(r, k)) <==> HitsKeyword(r, last) || exists k <- rest :: HitsKeyword(r, k);
    }
  }

  /** A record has a positive score exactly when the target names it. */
  lemma ScorePositiveIff(r: Record, categories: seq<string>, keywords: seq<string>)
    ensures Score(r, categories, keywords) > 0 <==> Hits(r, categories, keywords)
  {
    KeywordScorePositiveIff(r, keywords);
    hide Contains, HitsKeyword, KeywordScore;
  }

  /** A keyword that is the record's very name, and one that only lies in its name or category. */
  ghost function Exact(r: Record): string -> bool {
    (k: string) => k != "" && k == r.name
  }

  ghost function Partial(r: Record): string -> bool {
    (k: string) => k != "" && k != r.name && (Contains(r.name, k) || Contains(r.category, k))
  }

  predicate Overlaps(r: Record, categories: seq<string>) {
    r.category != "" && exists c <- categories :: Contains(c, r.category) || Contains(r.category, c)
  }

  /** The points of a record: 120 and 45 for each keyword, 100 for a listed category, 25 more for the first, 30 for an overlap. */
  ghost function Points(r: Record, categories: seq<string>, keywords: seq<string>): nat {
    120 * |Places(keywords, Exact(r))| + 45 * |Places(keywords, Partial(r))|
    + (if r.category in categories then 100 else 0)
    + (if categories != [] && r.category == categories[0] then 25 else 0)
    + (if Overlaps(r, categories) then 30 else 0)
  }

  lemma {:induction false} KeywordPoints(r: Record, keywords: seq<string>)
    ensures KeywordScore(r, keywords) == 120 * |Places(keywords, Exact(r))| + 45 * |Places(keywords, Partial(r))|
  {
    if keywords == [] {
      NoPlaces(Exact(r));
      NoPlaces(Partial(r));
    } else {
      PlacesStep(keywords, Exact(r));
      PlacesStep(keywords, Partial(r));
      hide Contains, Places;
      KeywordPoints(r, keywords[..|keywords| - 1]);
    }
  }

  lemma ScoreIsPoints(r: Record, categories: seq<string>, keywords: seq<string>)
    ensures Score(r, categories, keywords) == Points(r, categories, keywords)
  {
    KeywordPoints(r, keywords);
    hide KeywordScore, Exact, Partial, Places, Contains;
    assert r.category in categories ==> categories != [];
    assert categories != [] ==> categories[0] in categories;
  }

  lemma NothingHits(r: Record, categories: seq<string>, keywords: seq<string>)
    requires categories == [] && keywords == []
    ensures !Hits(r, categories, keywords)
  {}

  /** For one keyword, a record of that very name scores above every record with another name, whatever it contains. */
  lemma ExactNameAhead(a: Record, b: Record, keyword: string)
    requires keyword != "" && a.name == keyword && b.name != keyword
    ensures KeywordScore(a, [keyword]) > KeywordScore(b, [keyword])
  {
    assert [keyword][..0] == [];
    assert KeywordScore(a, [keyword]) == 120;
    hide Contains;
  }

  function SortKey(r: Record): string {
    r.category + "/" + r.name
  }

  /** Higher score first, then by category/name, then in the order of the asset. */
  predicate Ahead(a: Record, scoreA: nat, i: nat, b: Record, scoreB: nat, j: nat) {
    || scoreA > scoreB
    || (scoreA == scoreB && Before(SortKey(a), SortKey(b)))
    || (scoreA == scoreB && SortKey(a) == SortKey(b) && i < j)
  }

  function RankOrder(records: seq<Record>, categories: seq<string>, keywords: seq<string>): (nat, nat) -> bool {
    (i: nat, j: nat) =>
      if i < |records| && j < |records| then
        Ahead(records[i], Score(records[i], categories, keywords), i, records[j], Score(records[j], categories, keywords), j)
      else i < j
  }

  lemma AheadTotal(a: Record, sa: nat, i: nat, b: Record, sb: nat, j: nat)
    requires i != j
    ensures Ahead(a, sa, i, b, sb, j) || Ahead(b, sb, j, a, sa, i)
  {
    BeforeTotal(SortKey(a), SortKey(b));
  }

  lemma AheadTransitive(a: Record, sa: nat, i: nat, b: Record, sb: nat, j: nat, c: Record, sc: nat, k: nat)
    requires Ahead(a, sa, i, b, sb, j) && Ahead(b, sb, j, c, sc, k)
    ensures Ahead(a, sa, i, c, sc, k)
  {
    hide SortKey;
    if Before(SortKey(a), SortKey(b)) && Before(SortKey(b), SortKey(c)) {
      BeforeTransitive(SortKey(a), SortKey(b), SortKey(c));
    }
  }

  lemma RankOrderTotal(records: seq<Record>, categories: seq<string>, keywords: seq<string>)
    ensures StrictTotal(RankOrder(records, categories, keywords))
  {
    hide Score, Ahead;
    var less := RankOrder(records, categories, keywords);
    forall i: nat ensures !less(i, i) {
      if i < |records| { NotAheadOfItself(records[i], Score(records[i], categories, keywords), i); }
    }
    forall i: nat, j: nat | i != j ensures less(i, j) || less(j, i) {
      if i < |records| && j < |records| {
        AheadTotal(records[i], Score(records[i], categories, keywords), i, records[j], Score(records[j], categories, keywords), j);
      }
    }
    forall i: nat, j: nat, k: nat | less(i, j) && less(j, k) ensures less(i, k) {
      if i < |records| && j < |records| && k < |records| {
        AheadTransitive(records[i], Score(records[i], categories, keywords), i,
                        records[j], Score(records[j], categories, keywords), j,
                        records[k], Score(records[k], categories, keywords), k);
      }
    }
  }

  lemma NotAheadOfItself(a: Record, sa: nat, i: nat)
    ensures !Ahead(a, sa, i, a, sa, i)
  {
    BeforeIrreflexive(SortKey(a));
  }

  /** Position `i` comes before position `j` in the ranking: more points, or the same and then category/name, or asset order. */
  ghost predicate Ranked(records: seq<Record>, categories: seq<string>, keywords: seq<string>, i: nat, j: nat) {
    && i < |records| && j < |records|
    && var p, q := Points(records[i], categories, keywords), Points(records[j], categories, keywords);
       var x, y := records[i].category + "/" + records[i].name, records[j].category + "/" + records[j].name;
       p > q || (p == q && (Before(x, y) || (x == y && i < j)))
  }

  lemma LessIsRanked(records: seq<Record>, categories: seq<string>, keywords: seq<string>, i: nat, j: nat)
    requires i < |records| && j < |records| && RankOrder(records, categories, keywords)(i, j)
    ensures Ranked(records, categories, keywords, i, j)
  {
    ScoreIsPoints(records[i], categories, keywords);
    ScoreIsPoints(records[j], categories, keywords);
    hide Score, Points, Before;
  }

  /**
   `_match_records`: the positions of exactly the records with a positive score, which are
   those the target names; highest score first, then by category/name, then in asset order.
   */
  method MatchRecords(records: seq<Record>, categories: seq<string>, keywords: seq<string>) returns (matched: seq<nat>)
    ensures categories == [] && keywords == [] ==> matched == []
    ensures forall i: nat :: i in matched <==> i < |records| && Score(records[i], categories, keywords) > 0
    ensures forall i: nat :: i in matched <==> i < |records| && Hits(records[i], categories, keywords)
    ensures forall a, b | 0 <= a < b < |matched| :: Ranked(records, categories, keywords, matched[a], matched[b])
  {
    forall i | 0 <= i < |records| ensures Score(records[i], categories, keywords) > 0 <==> Hits(records[i], categories, keywords) {
      ScorePositiveIff(records[i], categories, keywords);
    }
    if categories == [] && keywords == [] {
      forall i | 0 <= i < |records| ensures !Hits(records[i], categories, keywords) {
        NothingHits(records[i], categories, keywords);
      }
      hide Score, Hits;
      return [];
    }
    RankOrderTotal(records, categories, keywords);
    var keep := (i: nat) => i < |records| && Score(records[i], categories, keywords) > 0;
    var less := RankOrder(records, categories, keywords);
    hide Score, Ahead, Hits, StrictTotal, Ranked, RankOrder;
    matched := SortPositions(|records|, keep, less);
    forall a, b | 0 <= a < b < |matched| ensures Ranked(records, categories, keywords, matched[a], matched[b]) {
      assert matched[a] in matched && matched[b] in matched;
      assert less(matched[a], matched[b]);
      LessIsRanked(records, categories, keywords, matched[a], matched[b]);
    }
  }

  /** Searching for one keyword alone lists the records of that very name before all others. */
  lemma ExactNamesFirst(records: seq<Record>, keyword: string, i: nat, j: nat)
    requires keyword != "" && Ranked(records, [], [keyword], i, j)
    ensures records[j].name == keyword ==> records[i].name == keyword
  {
    ScoreIsPoints(records[i], [], [keyword]);
    ScoreIsPoints(records[j], [], [keyword]);
    if records[j].name == keyword && records[i].name != keyword {
      ExactNameAhead(records[j], records[i], keyword);
    }
    hide KeywordScore, Contains, Points;
  }

  /**
   Searching by categories alone lists the records of the first one before all others, if it
   is not empty, and the records of any listed one before those that only overlap one.
   */
  lemma CategoriesInOrder(records: seq<Record>, categories: seq<string>, i: nat, j: nat)
    requires categories != [] && categories[0] != "" && Ranked(records, categories, [], i, j)
    ensures records[j].category == categories[0] ==> records[i].category == categories[0]
    ensures records[j].category in categories ==> records[i].category in categories
  {
    assert Places([], Exact(records[i])) == {} && Places([], Partial(records[i])) == {};
    assert Places([], Exact(records[j])) == {} && Places([], Partial(records[j])) == {};
    ContainsItself(categories[0]);
    hide Exact, Partial, Places, Contains, Before;
    assert categories[0] in categories;
  }

  lemma ContainsItself(s: string)
    ensures Contains(s, s)
  {
    assert At(s, s, 0);
  }

  /** Of two records of one category, the one whose keyword hits weigh more comes first, and of equals the lesser name. */
  lemma SameCategoryByHits(records: seq<Record>, categories: seq<string>, keywords: seq<string>, i: nat, j: nat)
    requires Ranked(records, categories, keywords, i, j) && records[i].category == records[j].category
    ensures var p := 120 * |Places(keywords, Exact(records[i]))| + 45 * |Places(keywords, Partial(records[i]))|;
            var q := 120 * |Places(keywords, Exact(records[j]))| + 45 * |Places(keywords, Partial(records[j]))|;
            p > q || (p == q && (Before(records[i].name, records[j].name) || (records[i].name == records[j].name && i < j)))
  {
    hide Exact, Partial, Places, Contains;
    var prefix := records[i].category + "/";
    BeforeAfterPrefix(prefix, records[i].name, records[j].name);
    assert records[i].name == (prefix + records[i].name)[|prefix|..] && records[j].name == (prefix + records[j].name)[|prefix|..];
  }

  lemma {:induction false} BeforeAfterPrefix(prefix: string, a: string, b: string)
    ensures Before(prefix + a, prefix + b) <==> Before(a, b)
    decreases |prefix|
  {
    if prefix == "" {
      assert prefix + a == a && prefix + b == b;
    } else {
      assert (prefix + a)[1..] == prefix[1..] + a && (prefix + b)[1..] == prefix[1..] + b;
      BeforeAfterPrefix(prefix[1..], a, b);
    }
  }

  // ---------------------------------------------------------------------------
  // Coverage.

  /** A `Counter`: keys in the order of their first occurrence. */
  type Counter = seq<(string, nat)>

  function Sum(c: Counter): nat {
    if c == [] then 0 else Sum(c[..|c| - 1]) + c[|c| - 1].1
  }

  function Occurrences(keys: seq<string>, k: string): nat {
    if keys == [] then 0 else Occurrences(keys[..|keys| - 1], k) + if keys[|keys| - 1] == k then 1 else 0
  }

  /** The counter counts these keys: one entry for each key that occurs, with its number of occurrences. */
  predicate Counts(c: Counter, keys: seq<string>) {
    && (forall a, b | 0 <= a < b < |c| :: c[a].0 != c[b].0)
    && (forall a | 0 <= a < |c| :: c[a].0 in keys && c[a].1 == Occurrences(keys, c[a].0))
    && (forall k <- keys :: exists a | 0 <= a < |c| :: c[a].0 == k)
  }

  /** `x` occurs before `y` does, if `y` occurs at all. */
  predicate Precedes(keys: seq<string>, x: string, y: string) {
    exists i | 0 <= i < |keys| :: keys[i] == x && y !in keys[..i]
  }

  /** The entries stand in the order in which their keys first occur. */
  predicate InFirstOrder(c: Counter, keys: seq<string>) {
    forall a, b | 0 <= a < b < |c| :: Precedes(keys, c[a].0, c[b].0)
  }

  lemma PrecedesMore(keys: seq<string>, x: string, y: string, k: string)
    requires Precedes(keys, x, y)
    ensures Precedes(keys + [k], x, y)
  {
    var i :| 0 <= i < |keys| && keys[i] == x && y !in keys[..i];
    assert (keys + [k])[i] == x && (keys + [k])[..i] == keys[..i];
  }

  lemma PrecedesNew(keys: seq<string>, x: string, y: string)
    requires x in keys && y !in keys
    ensures Precedes(keys + [y], x, y)
  {
    var i :| 0 <= i < |keys| && keys[i] == x;
    assert (keys + [y])[i] == x && (keys + [y])[..i] == keys[..i];
  }

  /** `Occurrences` counts the places of a key. */
  lemma {:induction false} OccurrencesCount(keys: seq<string>, k: string)
    ensures Occurrences(keys, k) == |Places(keys, (x: string) => x == k)|
  {
    var same := (x: string) => x == k;
    if keys == [] {
      NoPlaces(same);
    } else {
      PlacesStep(keys, same);
      hide Places;
      OccurrencesCount(keys[..|keys| - 1], k);
    }
  }

  lemma {:induction false} SumUpdate(c: Counter, a: nat)
    requires a < |c|
    ensures Sum(c[a := (c[a].0, c[a].1 + 1)]) == Sum(c) + 1
  {
    var d := c[a := (c[a].0, c[a].1 + 1)];
    if a == |c| - 1 {
      assert d[..|d| - 1] == c[..|c| - 1];
    } else {
      SumUpdate(c[..|c| - 1], a);
      assert d[..|d| - 1] == c[..|c| - 1][a := (c[a].0, c[a].1 + 1)];
    }
  }

  lemma {:induction false} NoOccurrences(keys: seq<string>, k: string)
    ensures Occurrences(keys, k) == 0 <==> k !in keys
  {
    if keys != [] {
      NoOccurrences(keys[..|keys| - 1], k);
      assert keys == keys[..|keys| - 1] + [keys[|keys| - 1]];
    }
  }

  /** Counts one more key. */
  method CountKey(c: Counter, ghost keys: seq<string>, k: string) returns (d: Counter)
    requires Counts(c, keys) && InFirstOrder(c, keys)
    ensures Counts(d, keys + [k]) && InFirstOrder(d, keys + [k]) && Sum(d) == Sum(c) + 1
  {
    var a := 0;
    while a < |c| && c[a].0 != k
      invariant a <= |c| && forall b | 0 <= b < a :: c[b].0 != k
    {
      a := a + 1;
    }
    if a < |c| {
      d := c[a := (k, c[a].1 + 1)];
      SumUpdate(c, a);
      CountOld(c, keys, a);
    } else {
      d := c + [(k, 1)];
      assert d[..|d| - 1] == c;
      CountNew(c, keys, k);
    }
    KeepFirstOrder(c, keys, d, k);
  }

  lemma KeepFirstOrder(c: Counter, keys: seq<string>, d: Counter, k: string)
    requires Counts(c, keys) && InFirstOrder(c, keys)
    requires |c| <= |d| <= |c| + 1 && forall a | 0 <= a < |c| :: d[a].0 == c[a].0
    requires |d| > |c| ==> d[|c|].0 == k && k !in keys
    ensures InFirstOrder(d, keys + [k])
  {
    forall a, b | 0 <= a < b < |d| ensures Precedes(keys + [k], d[a].0, d[b].0) {
      if b < |c| {
        PrecedesMore(keys, c[a].0, c[b].0, k);
      } else {
        PrecedesNew(keys, c[a].0, k);
      }
    }
  }

  lemma CountOld(c: Counter, keys: seq<string>, a: nat)
    requires Counts(c, keys) && a < |c|
    ensures Counts(c[a := (c[a].0, c[a].1 + 1)], keys + [c[a].0])
  {
    var d, more := c[a := (c[a].0, c[a].1 + 1)], keys + [c[a].0];
    assert more[..|more| - 1] == keys;
    forall key <- more ensures exists b | 0 <= b < |d| :: d[b].0 == key {
      var b :| 0 <= b < |c| && c[b].0 == key;
      assert d[b].0 == key;
    }
  }

  lemma CountNew(c: Counter, keys: seq<string>, k: string)
    requires Counts(c, keys) && forall b | 0 <= b < |c| :: c[b].0 != k
    ensures Counts(c + [(k, 1)], keys + [k])
  {
    var d, more := c + [(k, 1)], keys + [k];
    assert more[..|more| - 1] == keys;
    NoOccurrences(keys, k);
    forall key <- more ensures exists b | 0 <= b < |d| :: d[b].0 == key {
      if key == k {
        assert d[|c|].0 == key;
      } else {
        var b :| 0 <= b < |c| && c[b].0 == key;
        assert d[b].0 == key;
      }
    }
  }

  /** `Counter(keys)`. */
  method CountAll(keys: seq<string>) returns (c: Counter)
    ensures Counts(c, keys) && InFirstOrder(c, keys) && Sum(c) == |keys|
  {
    c := [];
    for i := 0 to |keys|
      invariant Counts(c, keys[..i]) && InFirstOrder(c, keys[..i]) && Sum(c) == i
    {
      assert keys[..i + 1] == keys[..i] + [keys[i]];
      c := CountKey(c, keys[..i], keys[i]);
    }
    assert keys[..|keys|] == keys;
  }

  /** The order of `most_common`: larger counts first, ties in order of first occurrence. */
  predicate MoreCommon(c: Counter, i: nat, j: nat) {
    if i < |c| && j < |c| then c[i].1 > c[j].1 || (c[i].1 == c[j].1 && i < j)
    else if i < |c| || j < |c| then i < |c| else i < j
  }

  function CommonOrder(c: Counter): (nat, nat) -> bool {
    (i: nat, j: nat) => MoreCommon(c, i, j)
  }

  lemma CommonOrderTotal(c: Counter)
    ensures StrictTotal(CommonOrder(c))
  {}

  lemma FrequentFirst(c: Counter, k: nat, i: nat)
    requires k < |c| && i < |c| && MoreCommon(c, k, i)
    ensures c[k].1 >= c[i].1
  {}

  /** In a sorted list of all positions, those after the first `n` are no more common than those before. */
  lemma CutKeepsCommon(c: Counter, all: seq<nat>, n: nat, q: nat, i: nat)
    requires SortedBy(all, CommonOrder(c)) && q < n < |all| && i in all && i !in all[..n]
    requires all[q] < |c| && i < |c|
    ensures c[all[q]].1 >= c[i].1
  {
    hide MoreCommon;
    var p :| 0 <= p < |all| && all[p] == i;
    assert forall x | 0 <= x < n :: all[x] in all[..n];
    assert CommonOrder(c)(all[q], all[p]);
    FrequentFirst(c, all[q], i);
  }

  /** `top` lists positions of a counter: the `n` most frequent entries, larger counts first, ties in order of first occurrence. */
  ghost predicate IsTop(c: Counter, n: nat, top: seq<nat>) {
    && |top| <= n && (forall i <- top :: i < |c|)
    && (forall a, b | 0 <= a < b < |top| ::
          && top[a] < |c| && top[b] < |c|
          && (c[top[a]].1 > c[top[b]].1 || (c[top[a]].1 == c[top[b]].1 && top[a] < top[b])))
    && (forall i: nat | i < |c| && i !in top :: |top| == n && forall k <- top :: k < |c| && c[k].1 >= c[i].1)
  }

  /** Different numbers below `n` are at most `n`. */
  lemma {:induction false} Pigeonhole(s: seq<nat>, n: nat)
    requires forall a, b | 0 <= a < b < |s| :: s[a] != s[b]
    requires forall x <- s :: x < n
    ensures |s| <= n
  {
    if s != [] {
      if n - 1 in s {
        var k :| 0 <= k < |s| && s[k] == n - 1;
        var rest := s[..k] + s[k + 1..];
        forall x <- rest ensures x < n - 1 {
          var j :| 0 <= j < |rest| && rest[j] == x;
          if j < k {
            assert s[j] != s[k] && s[j] in s;
          } else {
            assert s[k] != s[j + 1] && s[j + 1] in s;
          }
        }
        Pigeonhole(rest, n - 1);
      } else {
        assert s[0] in s;
        Pigeonhole(s, n - 1);
      }
    }
  }

  /** Nothing is left out if there is room for all. */
  lemma AllListed(c: Counter, top: seq<nat>)
    requires IsTop(c, |c|, top)
    ensures forall i: nat | i < |c| :: i in top
  {
    forall i: nat | i < |c| ensures i in top {
      var more := if i in top then top else top + [i];
      Pigeonhole(more, |c|);
    }
  }

  /** `most_common(n)`: the `n` most frequent entries; nothing left out is more frequent than anything listed. */
  method MostCommon(c: Counter, n: nat) returns (top: seq<nat>)
    ensures IsTop(c, n, top)
  {
    CommonOrderTotal(c);
    var keep := (i: nat) => true;
    var all := SortPositions(|c|, keep, CommonOrder(c));
    top := if |all| <= n then all else all[..n];
    assert forall k <- top :: k in all;
    forall a, b | 0 <= a < b < |top|
      ensures top[a] < |c| && top[b] < |c| && (c[top[a]].1 > c[top[b]].1 || (c[top[a]].1 == c[top[b]].1 && top[a] < top[b]))
    {
      assert top[a] in top && top[b] in top && CommonOrder(c)(all[a], all[b]);
    }
    hide StrictTotal, MoreCommon, CommonOrder;
    forall i: nat | i < |c| && i !in top ensures |top| == n && forall k <- top :: k < |c| && c[k].1 >= c[i].1 {
      assert keep(i) && i in all;
      forall k <- top ensures k < |c| && c[k].1 >= c[i].1 {
        var q :| 0 <= q < |top| && top[q] == k;
        CutKeepsCommon(c, all, n, q, i);
      }
    }
  }

  predicate IsEligible(r: Record, selected: seq<Subject>) {
    !r.requirement.MissingInSource? && selected != [] &&
    (r.requirement.NoLimit? || Covered(r.requirement.groups, Elements(selected)))
  }

  /** The eligible records, in asset order. */
  function EligibleOf(records: seq<Record>, selected: seq<Subject>): seq<Record> {
    if records == [] then []
    else
      EligibleOf(records[..|records| - 1], selected)
      + if IsEligible(records[|records| - 1], selected) then [records[|records| - 1]] else []
  }

  function UnknownsOf(records: seq<Record>): nat {
    if records == [] then 0
    else UnknownsOf(records[..|records| - 1]) + if records[|records| - 1].requirement.MissingInSource? then 1 else 0
  }

  function CategoriesOf(records: seq<Record>): seq<string> {
    seq(|records|, i requires 0 <= i < |records| => records[i].category)
  }

  function MinimumsOf(records: seq<Record>): seq<string> {
    seq(|records|, i requires 0 <= i < |records| => records[i].minimum)
  }

  /** The names of the records of one category. */
  function NamesIn(records: seq<Record>, category: string): seq<string> {
    if records == [] then []
    else
      NamesIn(records[..|records| - 1], category)
      + if records[|records| - 1].category == category then [records[|records| - 1].name] else []
  }

  datatype Coverage = Coverage(
    eligibleCount: nat, unknownCount: nat, categories: Counter, requirements: Counter,
    samples: map<string, seq<string>>, top: seq<nat>, summary: seq<nat>)

  /**
   The counting of `_build_combo_coverage_result`: both counters count the eligible records, so
   each adds up to `eligible_count`, the samples of a category are its first at most five
   eligible names, and the categories listed are the most frequent ones.
   */
  method BuildComboCoverage(records: seq<Record>, selected: seq<Subject>, limit: int) returns (r: Coverage)
    ensures var eligible := EligibleOf(records, selected);
            && r.eligibleCount == |eligible| && r.unknownCount == UnknownsOf(records)
            && Counts(r.categories, CategoriesOf(eligible)) && InFirstOrder(r.categories, CategoriesOf(eligible))
            && Sum(r.categories) == r.eligibleCount
            && Counts(r.requirements, MinimumsOf(eligible)) && InFirstOrder(r.requirements, MinimumsOf(eligible))
            && Sum(r.requirements) == r.eligibleCount
            && (forall c :: c in r.samples <==> c in CategoriesOf(eligible))
            && (forall c <- r.samples :: IsFirstFive(r.samples[c], NamesIn(eligible, c)))
            && IsTop(r.categories, if limit > 1 then limit else 1, r.top)
            && IsTop(r.requirements, |r.requirements|, r.summary) && forall i: nat | i < |r.requirements| :: i in r.summary
  {
    hide IsTop, Counts, CommonOrder, InFirstOrder;
    var eligible, unknown := Partition(records, selected);
    var categories := CountAll(CategoriesOf(eligible));
    var requirements := CountAll(MinimumsOf(eligible));
    var samples := SampleNames(eligible);
    var top := MostCommon(categories, if limit > 1 then limit else 1);
    var summary := MostCommon(requirements, |requirements|);
    AllListed(requirements, summary);
    r := Coverage(|eligible|, unknown, categories, requirements, samples, top, summary);
  }

  /** The loop that collects the sample names of each category. */
  method SampleNames(eligible: seq<Record>) returns (samples: map<string, seq<string>>)
    ensures forall c :: c in samples <==> c in CategoriesOf(eligible)
    ensures forall c <- samples :: IsFirstFive(samples[c], NamesIn(eligible, c))
  {
    samples := map[];
    for i := 0 to |eligible|
      invariant forall c :: c in samples <==> c in CategoriesOf(eligible[..i])
      invariant forall c <- samples :: samples[c] == FirstFive(NamesIn(eligible[..i], c))
    {
      var e := eligible[i];
      assert eligible[..i + 1][..i] == eligible[..i];
      assert CategoriesOf(eligible[..i + 1]) == CategoriesOf(eligible[..i]) + [e.category];
      if e.category !in samples {
        NoNames(eligible[..i], e.category);
        samples := samples[e.category := []];
      }
      if |samples[e.category]| < 5 {
        samples := samples[e.category := samples[e.category] + [e.name]];
      }
    }
    assert eligible[..|eligible|] == eligible;
  }

  /** The first names: all of them if they are at most five, and otherwise five. */
  ghost predicate IsFirstFive(sample: seq<string>, names: seq<string>) {
    sample <= names && |sample| == if |names| <= 5 then |names| else 5
  }

  function FirstFive(names: seq<string>): seq<string> {
    if |names| <= 5 then names else names[..5]
  }

  /** What the lists of keys and names are: entry by entry, and for names record by record. */
  lemma KeysOf(records: seq<Record>, i: nat)
    requires i < |records|
    ensures |CategoriesOf(records)| == |MinimumsOf(records)| == |records|
    ensures CategoriesOf(records)[i] == records[i].category && MinimumsOf(records)[i] == records[i].minimum
  {}

  lemma {:induction false} NamesConcat(a: seq<Record>, b: seq<Record>, r: Record, category: string)
    ensures NamesIn(a + b, category) == NamesIn(a, category) + NamesIn(b, category)
    ensures NamesIn([r], category) == if r.category == category then [r.name] else []
    decreases |b|
  {
    assert [r][..0] == [];
    if b == [] {
      assert a + b == a;
    } else {
      NamesConcat(a, b[..|b| - 1], r, category);
      assert (a + b)[..|a + b| - 1] == a + b[..|b| - 1];
    }
  }

  /** The eligible records are filtered one by one, and the unknown ones counted. */
  lemma {:induction false} EligibleConcat(a: seq<Record>, b: seq<Record>, r: Record, selected: seq<Subject>)
    ensures EligibleOf(a + b, selected) == EligibleOf(a, selected) + EligibleOf(b, selected)
    ensures EligibleOf([r], selected) == if IsEligible(r, selected) then [r] else []
    ensures UnknownsOf(a + b) == UnknownsOf(a) + UnknownsOf(b)
    ensures UnknownsOf([r]) == if r.requirement.MissingInSource? then 1 else 0
    decreases |b|
  {
    hide IsEligible;
    assert [r][..0] == [];
    if b == [] {
      assert a + b == a;
    } else {
      EligibleConcat(a, b[..|b| - 1], r, selected);
      assert (a + b)[..|a + b| - 1] == a + b[..|b| - 1];
    }
  }

  lemma {:induction false} NoNames(records: seq<Record>, category: string)
    requires category !in CategoriesOf(records)
    ensures NamesIn(records, category) == []
  {
    if records != [] {
      var rest := records[..|records| - 1];
      assert forall c :: c in CategoriesOf(rest) ==> c in CategoriesOf(records) by {
        assert CategoriesOf(records) == CategoriesOf(rest) + [records[|records| - 1].category];
      }
      assert CategoriesOf(records)[|records| - 1] in CategoriesOf(records);
      NoNames(rest, category);
    }
  }

  /** The first loop: who is eligible, and how many requirements are unknown. */
  method Partition(records: seq<Record>, selected: seq<Subject>) returns (eligible: seq<Record>, unknown: nat)
    ensures eligible == EligibleOf(records, selected) && unknown == UnknownsOf(records)
  {
    eligible, unknown := [], 0;
    for i := 0 to |records|
      invariant eligible == EligibleOf(records[..i], selected) && unknown == UnknownsOf(records[..i])
    {
      assert records[..i + 1][..i] == records[..i];
      var c := CheckCompatibility(records[i].requirement, selected);
      if c.status == Eligible {
        eligible := eligible + [records[i]];
      } else if c.status == UnknownNoSource {
        unknown := unknown + 1;
      }
    }
    assert records[..|records|] == records;
  }
}
