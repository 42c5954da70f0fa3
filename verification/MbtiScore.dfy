/**
 The scoring of runtime_skills/mbti_self_exploration/scripts/mbti_score.py, with its
 quotients as exact rationals: Python's `round`, to the nearest and to even on a tie, of a
 fraction given by numerator and denominator.
 */
module MbtiScore {
  import opened Arithmetic
  import opened Counting
  import opened Text

  const QUESTIONS := 93

  /** Rounds `f + m / q`. */
  function RoundParts(f: int, m: nat, q: nat): int {
    if 2 * m < q then f else if 2 * m > q then f + 1 else if f % 2 == 0 then f else f + 1
  }

  /** `round(p / q)`. */
  function RoundRatio(p: int, q: nat): int
    requires q > 0
  {
    RoundParts(p / q, p % q, q)
  }

  // ---------------------------------------------------------------------------
  // Rounding.

  lemma QuotientUnique(p: int, q: nat, f: int, m: int)
    requires q > 0 && p == f * q + m && 0 <= m < q
    ensures p / q == f && p % q == m
  {
    assert p == (p / q) * q + p % q;
    DistributeLeft(p / q, f, q);
    SmallMultiple(p / q - f, q);
  }

  /** A rounded fraction lies within a half of the fraction, and is even on a tie. */
  lemma RoundNear(p: int, q: nat)
    requires q > 0
    ensures 2 * p - q <= 2 * (RoundRatio(p, q) * q) <= 2 * p + q
    ensures 2 * (p % q) == q ==> RoundRatio(p, q) % 2 == 0
  {
    var f := p / q;
    assert p == f * q + p % q;
    DistributeLeft(f, -1, q);
  }

  lemma ComplementParts(k: int, f: int, m: nat, q: nat)
    requires k % 2 == 0 && 0 < m < q
    ensures RoundParts(k - f - 1, q - m, q) == k - RoundParts(f, m, q)
  {}

  /** Rounding commutes with subtracting from an even number, ties included. */
  lemma RoundComplement(p: int, q: nat, k: int)
    requires q > 0 && k % 2 == 0
    ensures RoundRatio(k * q - p, q) == k - RoundRatio(p, q)
  {
    var f, m := p / q, p % q;
    assert p == f * q + m;
    DistributeLeft(k, f, q);
    hide RoundParts;
    if m == 0 {
      QuotientUnique(k * q - p, q, k - f, 0);
      RoundWhole(f, q);
      RoundWhole(k - f, q);
    } else {
      DistributeLeft(k - f, 1, q);
      QuotientUnique(k * q - p, q, k - f - 1, q - m);
      ComplementParts(k, f, m, q);
    }
  }

  lemma RoundWhole(f: int, q: nat)
    requires q > 0
    ensures RoundParts(f, 0, q) == f
  {}

  // ---------------------------------------------------------------------------
  // One pair of letters.

  /** Percentages of both letters, and the tendency in tenths. */
  datatype Pair = Pair(left: int, right: int, tendency: int)

  function ScorePair(l: nat, r: nat): Pair {
    var total := l + r;
    if total == 0 then Pair(50, 50, 0)
    else Pair(RoundRatio(100 * l, total), RoundRatio(100 * r, total), RoundRatio(100 * (l - r), total))
  }

  /** The two percentages of a pair always add up to 100. */
  lemma PercentagesSum(l: nat, r: nat)
    ensures ScorePair(l, r).left + ScorePair(l, r).right == 100
  {
    if l + r > 0 {
      assert 100 * r == 100 * (l + r) - 100 * l;
      RoundComplement(100 * l, l + r, 100);
    }
  }

  /** With at most 93 answers the leading letter has the larger percentage and the tendency points to it; a tie shows as one. */
  lemma LeaderLeads(l: nat, r: nat)
    requires l > r && l + r <= QUESTIONS
    ensures ScorePair(l, r).left > ScorePair(l, r).right && ScorePair(l, r).tendency > 0
    ensures ScorePair(r, l).left < ScorePair(r, l).right && ScorePair(r, l).tendency < 0
  {
    var t := l + r;
    PercentagesSum(l, r);
    PercentagesSum(r, l);
    RoundNear(100 * l, t);
    RoundNear(100 * (l - r), t);
    RoundNear(100 * (r - l), t);
    hide RoundRatio;
    var a, b, c := ScorePair(l, r).left, ScorePair(l, r).tendency, ScorePair(r, l).tendency;
    if a <= 50 { MultiplyOrder(a, 50, t); }
    if b <= 0 { MultiplyOrder(b, 0, t); }
    if c >= 0 { MultiplyOrder(0, c, t); }
  }

  /** What the reader of a result relies on. */
  predicate Agrees(l: nat, r: nat, p: Pair) {
    && p.left + p.right == 100
    && (l > r <==> p.left > p.right) && (l < r <==> p.left < p.right)
    && (l > r <==> p.tendency > 0) && (l < r <==> p.tendency < 0)
    && (l + r > 0 ==> Near(p.left, 100 * l, l + r) && Near(p.right, 100 * r, l + r) && Near(p.tendency, 100 * (l - r), l + r))
  }

  /** `n` is within a half of `p / q`. */
  predicate Near(n: int, p: int, q: nat) {
    2 * p - q <= 2 * (n * q) <= 2 * p + q
  }

  lemma PairAgrees(l: nat, r: nat)
    requires l + r <= QUESTIONS
    ensures Agrees(l, r, ScorePair(l, r))
  {
    PercentagesSum(l, r);
    if l + r > 0 {
      RoundNear(100 * l, l + r);
      RoundNear(100 * r, l + r);
      RoundNear(100 * (l - r), l + r);
    }
    if l > r {
      LeaderLeads(l, r);
    } else if r > l {
      LeaderLeads(r, l);
    } else if l + r > 0 {
      RoundComplement(100 * l, l + r, 100);
      assert 100 * (l + r) - 100 * l == 100 * l;
      QuotientUnique(0, l + r, 0, 0);
    }
  }

  /** A fraction rounds above an even number exactly when it lies more than a half above it. */
  lemma RoundAbove(p: int, q: nat, k: int)
    requires q > 0 && k % 2 == 0
    ensures RoundRatio(p, q) > k <==> 2 * p > 2 * (k * q) + q
  {
    var f, m := p / q, p % q;
    assert p == f * q + m;
    if f < k {
      MultiplyOrder(f, k - 1, q);
      DistributeLeft(k, 1, q);
    } else if f > k {
      MultiplyOrder(k + 1, f, q);
      DistributeLeft(k, -1, q);
    }
  }

  /**
   Exactly when the leader shows: the left letter has the larger percentage if and only if it
   leads by more than a hundredth of the answers, and the tendency points to it if and only
   if it leads by more than a two-hundredth.  Any lead is enough for that below 100 answers.
   */
  lemma LeaderShowsIff(l: nat, r: nat)
    requires l + r > 0
    ensures ScorePair(l, r).left > ScorePair(l, r).right <==> 100 * (l - r) > l + r
    ensures ScorePair(l, r).tendency > 0 <==> 200 * (l - r) > l + r
    ensures l > r && l + r < 100 ==> 100 * (l - r) > l + r
  {
    PercentagesSum(l, r);
    RoundAbove(100 * l, l + r, 50);
    RoundAbove(100 * (l - r), l + r, 0);
    hide RoundRatio;
  }

  // ---------------------------------------------------------------------------
  // The questionnaire.

  type Letter = c: char | c in {'E', 'I', 'S', 'N', 'T', 'F', 'J', 'P'} witness 'E'

  const DIMENSIONS: seq<(Letter, Letter)> := [('E', 'I'), ('S', 'N'), ('T', 'F'), ('J', 'P')]

  datatype Rule = Rule(optionA: Letter, optionB: Letter)

  function PadTo3(s: string): string
    decreases 3 - |s|
  {
    if |s| >= 3 then s else PadTo3("0" + s)
  }

  function Get(answers: map<string, string>, key: string): string {
    if key in answers then answers[key] else ""
  }

  /** `answers.get("mbti_001") or answers.get("1")`. */
  function AnswerTo(answers: map<string, string>, n: nat): string {
    var first := Get(answers, "mbti_" + PadTo3(Digits(n)));
    if first != "" then first else Get(answers, Digits(n))
  }

  predicate Usable(rules: map<nat, Rule>, answers: map<string, string>, n: nat) {
    n in rules && AnswerTo(answers, n) in {"A", "B"}
  }

  /** The letter an answer scores for. */
  function Scored(rules: map<nat, Rule>, answers: map<string, string>, n: nat): Letter
    requires Usable(rules, answers, n)
  {
    if AnswerTo(answers, n) == "A" then rules[n].optionA else rules[n].optionB
  }

  /** How many of the questions 1..n score for a letter. */
  function Tally(rules: map<nat, Rule>, answers: map<string, string>, n: nat, x: Letter): nat {
    if n == 0 then 0
    else Tally(rules, answers, n - 1, x) + if Usable(rules, answers, n) && Scored(rules, answers, n) == x then 1 else 0
  }

  /** Under which keys an answer is looked up: "mbti_001" and so on first, and the plain number if nothing is there. */
  lemma AnswerKeys(answers: map<string, string>, n: nat)
    requires 1 <= n <= QUESTIONS
    ensures var tens, ones := ('0' as int + n / 10) as char, ('0' as int + n % 10) as char;
            var long, short := "mbti_0" + [tens, ones], if n < 10 then [ones] else [tens, ones];
            AnswerTo(answers, n)
            == if long in answers && answers[long] != "" then answers[long]
               else if short in answers then answers[short] else ""
  {
    var tens, ones := ('0' as int + n / 10) as char, ('0' as int + n % 10) as char;
    if n < 10 {
      var two := "0" + [ones];
      var three := "0" + two;
      assert PadTo3(three) == three && PadTo3(two) == PadTo3(three) && PadTo3([ones]) == PadTo3(two);
      assert Digits(n) == [ones] && PadTo3(Digits(n)) == "0" + ("0" + [ones]);
      assert "mbti_" + ("0" + ("0" + [ones])) == "mbti_0" + ['0', ones];
    } else {
      assert Digits(n / 10) == [tens] && Digits(n) == [tens] + [ones] == [tens, ones];
      assert PadTo3(Digits(n)) == "0" + [tens, ones];
      assert "mbti_" + ("0" + [tens, ones]) == "mbti_0" + [tens, ones];
    }
  }

  /** Question `n` is answered for the letter: "A" for the rule's first option, "B" for its second. */
  ghost predicate AnsweredFor(rules: map<nat, Rule>, answers: map<string, string>, n: nat, x: Letter) {
    n in rules &&
    ((AnswerTo(answers, n) == "A" && rules[n].optionA == x) || (AnswerTo(answers, n) == "B" && rules[n].optionB == x))
  }

  /** A letter's score is the number of questions answered for it. */
  lemma {:induction false} TallyCounts(rules: map<nat, Rule>, answers: map<string, string>, n: nat, x: Letter)
    ensures Tally(rules, answers, n, x) == |UpTo(n, (q: nat) => AnsweredFor(rules, answers, q, x))|
  {
    hide AnswerTo;
    var p := (q: nat) => AnsweredFor(rules, answers, q, x);
    if n == 0 {
      assert UpTo(0, p) == {};
    } else {
      TallyCounts(rules, answers, n - 1, x);
      UpToStep(n, p);
      assert p(n) <==> Usable(rules, answers, n) && Scored(rules, answers, n) == x;
      hide UpTo;
    }
  }

  datatype Result =
    | Incomplete(answered: nat, missing: seq<nat>)
    | Complete(scores: map<Letter, nat>, pairs: seq<Pair>, typeCode: string)

  function Total(scores: map<Letter, nat>): nat
    requires forall x: Letter :: x in scores
  {
    scores['E'] + scores['I'] + scores['S'] + scores['N'] + scores['T'] + scores['F'] + scores['J'] + scores['P']
  }

  /** `score_answers`, up to the profile lookup. */
  method ScoreAnswers(rules: map<nat, Rule>, answers: map<string, string>) returns (result: Result)
    ensures result.Incomplete? <==> exists n :: 1 <= n <= QUESTIONS && !Usable(rules, answers, n)
    ensures result.Incomplete? ==>
              && result.answered + |result.missing| == QUESTIONS
              && (forall n :: n in result.missing <==> 1 <= n <= QUESTIONS && !Usable(rules, answers, n))
              && (forall i, j | 0 <= i < j < |result.missing| :: result.missing[i] < result.missing[j])
    ensures result.Complete? ==>
              && (forall x: Letter :: x in result.scores && result.scores[x] == Tally(rules, answers, QUESTIONS, x))
              && Total(result.scores) == QUESTIONS
              && |result.pairs| == 4 && |result.typeCode| == 4
              && result.typeCode[0] == (if result.scores['E'] >= result.scores['I'] then 'E' else 'I')
              && result.typeCode[1] == (if result.scores['S'] >= result.scores['N'] then 'S' else 'N')
              && result.typeCode[2] == (if result.scores['T'] >= result.scores['F'] then 'T' else 'F')
              && result.typeCode[3] == (if result.scores['J'] >= result.scores['P'] then 'J' else 'P')
              && forall d | 0 <= d < 4 ::
                   var (left, right) := DIMENSIONS[d];
                   && result.pairs[d] == ScorePair(result.scores[left], result.scores[right])
                   && Agrees(result.scores[left], result.scores[right], result.pairs[d])
                   && result.typeCode[d] == (if result.scores[left] >= result.scores[right] then left else right)
                   && (result.pairs[d].left > 50 ==> result.typeCode[d] == left)
                   && (result.pairs[d].left < 50 ==> result.typeCode[d] == right)
  {
    var scores, missing := CountAnswers(rules, answers);
    if missing != [] {
      assert missing[0] in missing;
      return Incomplete(QUESTIONS - |missing|, missing);
    }
    var pairs, typeCode := ScoreDimensions(scores);
    result := Complete(scores, pairs, typeCode);
  }

  /** The loop over the questions. */
  method CountAnswers(rules: map<nat, Rule>, answers: map<string, string>) returns (scores: map<Letter, nat>, missing: seq<nat>)
    ensures forall x: Letter :: x in scores && scores[x] == Tally(rules, answers, QUESTIONS, x)
    ensures Total(scores) + |missing| == QUESTIONS
    ensures forall n :: n in missing <==> 1 <= n <= QUESTIONS && !Usable(rules, answers, n)
    ensures forall i, j | 0 <= i < j < |missing| :: missing[i] < missing[j]
  {
    hide Usable, Scored;
    scores := NoScores();
    hide Total;
    missing := [];
    for number := 1 to QUESTIONS + 1
      invariant forall x: Letter :: x in scores && scores[x] == Tally(rules, answers, number - 1, x)
      invariant Total(scores) + |missing| == number - 1
      invariant forall n :: n in missing <==> 1 <= n < number && !Usable(rules, answers, n)
      invariant forall i | 0 <= i < |missing| :: missing[i] < number
      invariant forall i, j | 0 <= i < j < |missing| :: missing[i] < missing[j]
    {
      if !Usable(rules, answers, number) {
        missing := missing + [number];
      } else {
        scores := Bump(scores, Scored(rules, answers, number));
      }
    }
  }

  /** The loop over the pairs of letters. */
  method ScoreDimensions(scores: map<Letter, nat>) returns (pairs: seq<Pair>, typeCode: string)
    requires forall x: Letter :: x in scores
    requires Total(scores) <= QUESTIONS
    ensures |pairs| == |typeCode| == 4
    ensures forall d | 0 <= d < 4 ::
              var (left, right) := DIMENSIONS[d];
              && pairs[d] == ScorePair(scores[left], scores[right])
              && Agrees(scores[left], scores[right], pairs[d])
              && typeCode[d] == if scores[left] >= scores[right] then left else right
  {
    hide Agrees, ScorePair;
    pairs, typeCode := [], "";
    for d := 0 to 4
      invariant |pairs| == |typeCode| == d
      invariant forall e | 0 <= e < d ::
                  var (left, right) := DIMENSIONS[e];
                  && pairs[e] == ScorePair(scores[left], scores[right])
                  && Agrees(scores[left], scores[right], pairs[e])
                  && typeCode[e] == if scores[left] >= scores[right] then left else right
    {
      var (left, right) := DIMENSIONS[d];
      PairAgrees(scores[left], scores[right]);
      pairs := pairs + [ScorePair(scores[left], scores[right])];
      typeCode := typeCode + [if scores[left] >= scores[right] then left else right];
    }
  }

  function NoScores(): (r: map<Letter, nat>)
    ensures forall y: Letter :: y in r && r[y] == 0
    ensures Total(r) == 0
  {
    map['E' := 0, 'I' := 0, 'S' := 0, 'N' := 0, 'T' := 0, 'F' := 0, 'J' := 0, 'P' := 0]
  }

  /** `scores[dimension] += 1`. */
  function Bump(scores: map<Letter, nat>, x: Letter): (r: map<Letter, nat>)
    requires forall y: Letter :: y in scores
    ensures forall y: Letter :: y in r && r[y] == scores[y] + if y == x then 1 else 0
    ensures Total(r) == Total(scores) + 1
  {
    scores[x := scores[x] + 1]
  }
}
