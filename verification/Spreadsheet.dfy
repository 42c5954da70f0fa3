/**
 The spreadsheet reader of scripts/xlsx_utils.py: cell references (ST_CellRef, section
 18.18.7 of ECMA-376 Part 1), merged ranges and the dense grid.  The second column
 numbering, of build_subject_requirement_asset.py, is modelled beside the first.
 */
module Spreadsheet {
  import opened Text
  import opened PythonText

  // ---------------------------------------------------------------------------
  // Column letters.

  predicate IsLetter(c: char) { 'A' <= c <= 'Z' }

  predicate IsDigit(c: char) { '0' <= c <= '9' }

  predicate AllLetters(s: string) {
    forall c <- s :: IsLetter(c)
  }

  function LetterValue(c: char): nat
    requires IsLetter(c)
  {
    c as int - 'A' as int + 1
  }

  /** Bijective base 26 over the letters of a text; every other character is skipped. */
  function ColumnNumber(col: string): nat {
    if col == "" then 0
    else
      var last, before := col[|col| - 1], ColumnNumber(col[..|col| - 1]);
      if IsLetter(last) then before * 26 + LetterValue(last) else before
  }

  /** `col_to_num`. */
  method ColToNum(col: string) returns (value: nat)
    ensures value == ColumnNumber(col)
  {
    value := 0;
    for i := 0 to |col|
      invariant value == ColumnNumber(col[..i])
    {
      assert col[..i + 1][..i] == col[..i];
      if 'A' <= col[i] <= 'Z' {
        value := value * 26 + (col[i] as int - 64);
      }
    }
    assert col[..|col|] == col;
  }

  /** One more letter shifts the number by one place of base 26, where A counts 1 and Z counts 26. */
  lemma ColumnAppend(col: string, c: char)
    requires 'A' <= c <= 'Z'
    ensures ColumnNumber(col + [c]) == 26 * ColumnNumber(col) + 1 + (c as int - 'A' as int)
    ensures ColumnNumber("A") == 1 && ColumnNumber("Z") == 26
  {
    assert (col + [c])[..|col|] == col;
    assert ""+ "A" == "A" && "A"[..0] == "" && "Z"[..0] == "";
  }

  /** The printer: the column letters of a number. */
  function ColumnLetters(n: nat): (col: string)
    ensures AllLetters(col) && (n > 0 ==> col != "")
  {
    if n == 0 then ""
    else ColumnLetters((n - 1) / 26) + [(('A' as int + (n - 1) % 26) as char)]
  }

  /** Printing a number and reading it gives the number back. */
  lemma {:induction false} ReadPrinted(n: nat)
    ensures ColumnNumber(ColumnLetters(n)) == n
  {
    if n > 0 {
      ReadPrinted((n - 1) / 26);
      var col := ColumnLetters(n);
      assert col[..|col| - 1] == ColumnLetters((n - 1) / 26);
    }
  }

  lemma PlaceOf(b: nat, v: nat)
    requires 1 <= v <= 26
    ensures (b * 26 + v - 1) / 26 == b && (b * 26 + v - 1) % 26 == v - 1
  {}

  lemma PrintAppend(b: nat, c: char)
    requires IsLetter(c)
    ensures ColumnLetters(b * 26 + LetterValue(c)) == ColumnLetters(b) + [c]
  {
    PlaceOf(b, LetterValue(c));
  }

  lemma NumberAppend(before: string, c: char)
    requires IsLetter(c)
    ensures ColumnNumber(before + [c]) == ColumnNumber(before) * 26 + LetterValue(c) > 0
  {
    assert (before + [c])[..|before|] == before;
  }

  /** Reading letters and printing the number gives the letters back; only no letters at all read as 0. */
  lemma {:induction false} PrintRead(col: string)
    requires AllLetters(col)
    ensures ColumnLetters(ColumnNumber(col)) == col
    ensures ColumnNumber(col) == 0 <==> col == ""
  {
    if col != "" {
      var before, last := col[..|col| - 1], col[|col| - 1];
      assert last in col && forall c <- before :: c in col;
      assert col == before + [last];
      hide ColumnNumber, ColumnLetters, LetterValue;
      PrintRead(before);
      NumberAppend(before, last);
      PrintAppend(ColumnNumber(before), last);
    }
  }

  /** So column numbering is a bijection between non-empty letter texts and positive numbers. */
  lemma ColumnsAreABijection(a: string, b: string, n: nat)
    requires AllLetters(a) && AllLetters(b)
    ensures ColumnNumber(a) == ColumnNumber(b) ==> a == b
    ensures n > 0 ==> ColumnLetters(n) != "" && AllLetters(ColumnLetters(n)) && ColumnNumber(ColumnLetters(n)) == n
  {
    PrintRead(a);
    PrintRead(b);
    ReadPrinted(n);
  }

  // ---------------------------------------------------------------------------
  // Cell references.

  /** The longest beginning of letters, or of digits. */
  function LeadingLetters(s: string): nat {
    if s != "" && IsLetter(s[0]) then 1 + LeadingLetters(s[1..]) else 0
  }

  function LeadingDigits(s: string): nat {
    if s != "" && IsDigit(s[0]) then 1 + LeadingDigits(s[1..]) else 0
  }

  lemma {:induction false} LeadingLettersSpec(s: string)
    ensures LeadingLetters(s) <= |s| && AllLetters(s[..LeadingLetters(s)])
    ensures LeadingLetters(s) < |s| ==> !IsLetter(s[LeadingLetters(s)])
  {
    if s != "" && IsLetter(s[0]) {
      LeadingLettersSpec(s[1..]);
      var n := LeadingLetters(s);
      assert s[..n] == [s[0]] + s[1..][..n - 1];
    }
  }

  lemma {:induction false} LeadingDigitsSpec(s: string)
    ensures LeadingDigits(s) <= |s| && forall c <- s[..LeadingDigits(s)] :: IsDigit(c)
    ensures LeadingDigits(s) < |s| ==> !IsDigit(s[LeadingDigits(s)])
  {
    if s != "" && IsDigit(s[0]) {
      LeadingDigitsSpec(s[1..]);
      var n := LeadingDigits(s);
      assert s[..n] == [s[0]] + s[1..][..n - 1];
    }
  }

  function Decimal(digits: string): nat {
    if digits == "" then 0
    else
      var last := digits[|digits| - 1];
      Decimal(digits[..|digits| - 1]) * 10 + (if IsDigit(last) then last as int - '0' as int else 0)
  }

  /** `re.match(r"([A-Z]+)(\\d+)", ref)`: letters and then digits at the beginning, whatever follows. */
  predicate Matches(ref: string) {
    var l := LeadingLetters(ref);
    0 < l <= |ref| && LeadingDigits(ref[l..]) > 0
  }

  datatype Cell = Cell(row: nat, col: nat)

  /** `parse_ref`; a text that is no reference gives row and column 0. */
  function ParseRef(ref: string): Cell {
    if !Matches(ref) then Cell(0, 0)
    else
      var l := LeadingLetters(ref);
      LeadingDigitsSpec(ref[l..]);
      Cell(Decimal(ref[l..][..LeadingDigits(ref[l..])]), ColumnNumber(ref[..l]))
  }

  /** The reference of a cell, as spreadsheets write it. */
  function PrintRef(c: Cell): string {
    ColumnLetters(c.col) + Digits(c.row)
  }

  lemma {:induction false} DecimalDigits(n: nat)
    ensures Decimal(Digits(n)) == n
  {
    var s := Digits(n);
    assert s[|s| - 1] == ('0' as int + n % 10) as char;
    if n < 10 {
      assert s[..|s| - 1] == "";
    } else {
      DecimalDigits(n / 10);
      assert s[..|s| - 1] == Digits(n / 10);
    }
  }

  /** Where the letters of a text end. */
  lemma {:induction false} LettersThen(a: string, b: string)
    requires AllLetters(a) && (b == "" || !IsLetter(b[0]))
    ensures LeadingLetters(a + b) == |a|
  {
    if a == "" {
      assert a + b == b;
    } else {
      assert (a + b)[1..] == a[1..] + b;
      assert a[0] in a && forall c <- a[1..] :: c in a;
      LettersThen(a[1..], b);
    }
  }

  lemma {:induction false} DigitsOnly(s: string)
    requires forall c <- s :: IsDigit(c)
    ensures LeadingDigits(s) == |s|
  {
    if s != "" {
      assert s[0] in s && forall c <- s[1..] :: c in s;
      DigitsOnly(s[1..]);
    }
  }

  /** Round trip: every cell of a sheet is found again from its printed reference, by both column numberings. */
  lemma PrintedRefComesBack(c: Cell)
    requires c.col > 0
    ensures ParseRef(PrintRef(c)) == c
    ensures ColumnNumber(LettersOf(UpperAll(PrintRef(c)))) == c.col
  {
    var letters, digits := ColumnLetters(c.col), Digits(c.row);
    var ref := PrintRef(c);
    assert digits[0] in digits;
    LettersThen(letters, digits);
    DigitsOnly(digits);
    assert ref[..|letters|] == letters && ref[|letters|..] == digits;
    assert digits[..|digits|] == digits;
    DecimalDigits(c.row);
    ReadPrinted(c.col);
    assert Matches(ref) && ParseRef(ref) == c;
    forall d <- digits ensures !IsLetter(Upper(d)) {
    }
    NumberingsAgreeIff(ref);
  }

  lemma {:induction false} DigitsThen(a: string, b: string)
    requires (forall c <- a :: IsDigit(c)) && (b == "" || !IsDigit(b[0]))
    ensures LeadingDigits(a + b) == |a|
  {
    if a == "" {
      assert a + b == b;
    } else {
      assert (a + b)[1..] == a[1..] + b;
      assert a[0] in a && forall c <- a[1..] :: c in a;
      DigitsThen(a[1..], b);
    }
  }

  /** A reference is letters, digits and then anything; without both, the text gives row and column 0. */
  lemma ParseRefMeans(letters: string, digits: string, rest: string)
    requires (forall c <- letters :: 'A' <= c <= 'Z') && (forall c <- digits :: '0' <= c <= '9')
    requires rest == "" || !('0' <= rest[0] <= '9')
    requires digits == "" ==> rest == "" || !('A' <= rest[0] <= 'Z')
    ensures ParseRef(letters + digits + rest)
         == if letters != "" && digits != "" then Cell(Decimal(digits), ColumnNumber(letters)) else Cell(0, 0)
  {
    var ref := letters + digits + rest;
    assert ref == letters + (digits + rest);
    assert digits != "" ==> digits[0] in digits;
    LettersThen(letters, digits + rest);
    DigitsThen(digits, rest);
    assert ref[..|letters|] == letters && ref[|letters|..] == digits + rest;
    assert (digits + rest)[..|digits|] == digits;
  }

  lemma DecimalAppend(digits: string, d: char)
    requires '0' <= d <= '9'
    ensures Decimal(digits + [d]) == 10 * Decimal(digits) + (d as int - '0' as int)
  {
    assert (digits + [d])[..|digits|] == digits;
  }

  function Upper(c: char): char {
    if 'a' <= c <= 'z' then (c as int - 32) as char else c
  }

  function UpperAll(s: string): string {
    if s == "" then "" else [Upper(s[0])] + UpperAll(s[1..])
  }

  function LettersOf(s: string): string {
    if s == "" then "" else (if IsLetter(s[0]) then [s[0]] else "") + LettersOf(s[1..])
  }

  /** `_column_index`: all letters of the upper-cased text, wherever they stand. */
  method ColumnIndex(cellRef: string) returns (result: nat)
    ensures result == ColumnNumber(LettersOf(UpperAll(cellRef)))
  {
    var letters := LettersOf(UpperAll(cellRef));
    LettersOnly(UpperAll(cellRef));
    result := 0;
    for i := 0 to |letters|
      invariant result == ColumnNumber(letters[..i])
    {
      assert letters[..i + 1][..i] == letters[..i];
      assert letters[i] in letters;
      result := result * 26 + (letters[i] as int) - ('A' as int) + 1;
    }
    assert letters[..|letters|] == letters;
  }

  lemma {:induction false} LettersOnly(s: string)
    ensures AllLetters(LettersOf(s))
  {
    if s != "" { LettersOnly(s[1..]); }
  }

  lemma {:induction false} LettersOfConcat(a: string, b: string)
    ensures LettersOf(UpperAll(a + b)) == LettersOf(UpperAll(a)) + LettersOf(UpperAll(b))
  {
    if a == "" {
      assert a + b == b;
    } else {
      LettersOfConcat(a[1..], b);
      assert (a + b)[1..] == a[1..] + b;
    }
  }

  lemma {:induction false} LettersOfLetters(a: string)
    requires AllLetters(a)
    ensures LettersOf(UpperAll(a)) == a
  {
    if a != "" {
      LettersOfLetters(a[1..]);
      assert a == [a[0]] + a[1..];
      assert a[0] in a && UpperAll(a) == [a[0]] + UpperAll(a[1..]);
    }
  }

  lemma {:induction false} LettersOfNone(a: string)
    ensures LettersOf(UpperAll(a)) == "" <==> forall c <- a :: !IsLetter(Upper(c))
  {
    if a != "" {
      LettersOfNone(a[1..]);
      assert a == [a[0]] + a[1..];
    }
  }

  /** Every letter counts where it stands, a small one as its capital, and every other character is passed over. */
  lemma LettersCount(s: string, c: char, t: string)
    ensures LettersOf(UpperAll(s + [c] + t))
         == LettersOf(UpperAll(s))
            + (if 'a' <= c <= 'z' then [(c as int - 'a' as int + 'A' as int) as char] else if 'A' <= c <= 'Z' then [c] else "")
            + LettersOf(UpperAll(t))
  {
    LettersOfConcat(s + [c], t);
    LettersOfConcat(s, [c]);
    assert [c][1..] == "" && UpperAll([c]) == [Upper(c)];
    assert LettersOf([Upper(c)]) == if IsLetter(Upper(c)) then [Upper(c)] else "";
  }

  /**
   The two independent numberings agree on a text that starts with a cell reference exactly
   when no further letter follows; so they agree on every cell reference.
   */
  lemma NumberingsAgreeIff(ref: string)
    requires Matches(ref)
    ensures ParseRef(ref).col == ColumnNumber(LettersOf(UpperAll(ref))) <==>
              forall c <- ref[LeadingLetters(ref)..] :: !IsLetter(Upper(c))
  {
    var l := LeadingLetters(ref);
    var head, tail := ref[..l], ref[l..];
    LeadingLettersSpec(ref);
    assert ref == head + tail;
    LettersOfConcat(head, tail);
    LettersOfLetters(head);
    LettersOfNone(tail);
    LettersOnly(UpperAll(tail));
    var more := LettersOf(UpperAll(tail));
    assert head + more == LettersOf(UpperAll(ref));
    if more == "" {
      assert head + more == head;
    } else {
      assert |head| != |head + more|;
      ColumnsAreABijection(head, head + more, 0);
    }
  }

  // ---------------------------------------------------------------------------
  // Merged ranges.

  datatype Range = Range(first: Cell, last: Cell)
  {
    predicate Has(c: Cell) {
      first.row <= c.row <= last.row && first.col <= c.col <= last.col
    }
  }

  /** `parse_range`. */
  function ParseRange(ref: string): Range {
    var colon := IndexFrom(ref, ":", 0);
    if colon == -1 then Range(ParseRef(ref), ParseRef(ref))
    else Range(ParseRef(ref[..colon]), ParseRef(ref[colon + 1..]))
  }

  type Values = map<Cell, string>

  lemma {:induction false} FoundAfter(s: string, t: string, i: nat)
    requires i <= |s| && ':' !in s
    ensures IndexFrom(s + ":" + t, ":", i) == |s|
    decreases |s| - i
  {
    var all := s + ":" + t;
    if i < |s| {
      assert all[i..i + 1] == [s[i]] && s[i] in s;
      FoundAfter(s, t, i + 1);
    } else {
      assert all[i..i + 1] == ":";
    }
  }

  lemma NoColon(c: Cell)
    ensures ':' !in PrintRef(c)
  {}

  /** Round trip for ranges: two printed corners with a colon between them, or one printed cell. */
  lemma PrintedRangeComesBack(a: Cell, b: Cell)
    requires a.col > 0 && b.col > 0
    ensures ParseRange(PrintRef(a) + ":" + PrintRef(b)) == Range(a, b)
    ensures ParseRange(PrintRef(a)) == Range(a, a)
  {
    var first, last := PrintRef(a), PrintRef(b);
    PrintedRefComesBack(a);
    PrintedRefComesBack(b);
    NoColon(a);
    hide PrintRef, ParseRef;
    FoundAfter(first, last, 0);
    var whole := first + ":" + last;
    assert whole[..|first|] == first && whole[|first| + 1..] == last;
    forall k | 0 <= k < |first| ensures !At(first, ":", k) {
      assert first[k..k + 1] == [first[k]] && first[k] in first;
    }
  }

  /** The stripped text of the range's corner; "" if the corner is absent. */
  function TopLeft(values: Values, r: Range): string {
    if r.first in values then Strip(values[r.first]) else ""
  }

  /** One merged range: every absent cell of it gets the corner's text, if there is one. */
  ghost predicate IsFilled(values: Values, r: Range, filled: Values) {
    var text := TopLeft(values, r);
    && (forall c :: c in filled <==> c in values || (text != "" && r.Has(c)))
    && (forall c <- filled :: filled[c] == if c in values then values[c] else text)
  }

  /** The body of the merge loop. */
  method FillRange(values: Values, r: Range) returns (filled: Values)
    ensures IsFilled(values, r, filled)
    ensures var text := if r.first in values then Strip(values[r.first]) else "";
            forall row: nat, col: nat ::
              (if Cell(row, col) in values then Cell(row, col) in filled && filled[Cell(row, col)] == values[Cell(row, col)]
               else if text != "" && r.first.row <= row <= r.last.row && r.first.col <= col <= r.last.col
               then Cell(row, col) in filled && filled[Cell(row, col)] == text
               else Cell(row, col) !in filled)
  {
    filled := values;
    var topLeft := TopLeft(values, r);
    if topLeft == "" { return; }
    var row := r.first.row;
    while row <= r.last.row
      invariant r.first.row <= row
      invariant forall c :: c in filled <==> c in values || (r.Has(c) && c.row < row)
      invariant forall c <- filled :: filled[c] == if c in values then values[c] else topLeft
      decreases r.last.row + 1 - row
    {
      var col := r.first.col;
      while col <= r.last.col
        invariant r.first.col <= col
        invariant forall c :: c in filled <==>
                    c in values || (r.Has(c) && c.row < row) || (r.Has(c) && c.row == row && c.col < col)
        invariant forall c <- filled :: filled[c] == if c in values then values[c] else topLeft
        decreases r.last.col + 1 - col
      {
        if Cell(row, col) !in filled {
          filled := filled[Cell(row, col) := topLeft];
        }
        col := col + 1;
      }
      row := row + 1;
    }
  }

  function AllButLast(ranges: seq<Range>): seq<Range>
    requires ranges != []
  {
    ranges[..|ranges| - 1]
  }

  function Last(ranges: seq<Range>): Range
    requires ranges != []
  {
    ranges[|ranges| - 1]
  }

  /** The merge loop, range by range in order. */
  ghost predicate IsFilledAll(values: Values, ranges: seq<Range>, filled: Values)
    decreases |ranges|
  {
    if ranges == [] then filled == values
    else exists before: Values ::
           IsFilledAll(values, AllButLast(ranges), before) && IsFilled(before, Last(ranges), filled)
  }

  /** The merge loop of `_read_sheet_values`. */
  method FillMerges(values: Values, ranges: seq<Range>) returns (filled: Values)
    ensures IsFilledAll(values, ranges, filled)
  {
    filled := values;
    for i := 0 to |ranges|
      invariant IsFilledAll(values, ranges[..i], filled)
    {
      assert AllButLast(ranges[..i + 1]) == ranges[..i] && Last(ranges[..i + 1]) == ranges[i];
      filled := FillRange(filled, ranges[i]);
    }
    assert ranges[..|ranges|] == ranges;
  }

  /** No cell lies in two different ranges. */
  ghost predicate Disjoint(ranges: seq<Range>) {
    forall r <- ranges, q <- ranges, c :: r.Has(c) && q.Has(c) ==> r == q
  }

  /** The text that some range spreads to a cell. */
  ghost predicate Spreads(values: Values, ranges: seq<Range>, c: Cell, text: string) {
    text != "" && exists r <- ranges :: r.Has(c) && TopLeft(values, r) == text
  }

  /** Filling keeps every cell there is, in any order of any ranges. */
  lemma {:induction false} FillNeverOverwrites(values: Values, ranges: seq<Range>, filled: Values)
    requires IsFilledAll(values, ranges, filled)
    ensures forall c <- values :: c in filled && filled[c] == values[c]
  {
    if ranges != [] {
      var before: Values :| IsFilledAll(values, AllButLast(ranges), before) && IsFilled(before, Last(ranges), filled);
      FillNeverOverwrites(values, AllButLast(ranges), before);
    }
  }

  /** The corner of a range that has cells is one of them, so only the range itself could fill it, and it fills nothing then. */
  lemma CornerUntouched(values: Values, before: Values, others: seq<Range>, r: Range, c: Cell)
    requires Disjoint(others + [r]) && r.Has(c)
    requires forall d :: d in before <==> d in values || exists text :: Spreads(values, others, d, text)
    requires forall d <- before :: if d in values then before[d] == values[d] else Spreads(values, others, d, before[d])
    ensures TopLeft(before, r) == TopLeft(values, r)
  {
    assert r.Has(r.first);
    if r.first in before && r.first !in values {
      var q :| q in others && q.Has(r.first) && TopLeft(values, q) == before[r.first];
      assert q in others + [r] && r in others + [r];
      assert q == r;
    }
  }

  /**
   What the merge loop computes on disjoint ranges: a cell is filled exactly when it was
   there or some range spreads a corner text to it, and then with that text.
   */
  lemma {:induction false} FilledCells(values: Values, ranges: seq<Range>, filled: Values)
    requires Disjoint(ranges) && IsFilledAll(values, ranges, filled)
    ensures forall c :: c in filled <==> c in values || exists text :: Spreads(values, ranges, c, text)
    ensures forall c <- filled :: if c in values then filled[c] == values[c] else Spreads(values, ranges, c, filled[c])
  {
    if ranges != [] {
      var others, r := AllButLast(ranges), Last(ranges);
      assert ranges == others + [r];
      var before: Values :| IsFilledAll(values, others, before) && IsFilled(before, r, filled);
      FilledCells(values, others, before);
      forall c
        ensures c in filled <==> c in values || exists text :: Spreads(values, ranges, c, text)
        ensures c in filled ==> if c in values then filled[c] == values[c] else Spreads(values, ranges, c, filled[c])
      {
        FilledCell(values, before, filled, others, r, c);
      }
    }
  }

  /** One more range, seen from one cell. */
  lemma FilledCell(values: Values, before: Values, filled: Values, others: seq<Range>, r: Range, c: Cell)
    requires Disjoint(others + [r]) && IsFilled(before, r, filled)
    requires forall d :: d in before <==> d in values || exists text :: Spreads(values, others, d, text)
    requires forall d <- before :: if d in values then before[d] == values[d] else Spreads(values, others, d, before[d])
    ensures c in filled <==> c in values || exists text :: Spreads(values, others + [r], c, text)
    ensures c in filled ==> if c in values then filled[c] == values[c] else Spreads(values, others + [r], c, filled[c])
  {
    if r.Has(c) { CornerUntouched(values, before, others, r, c); }
    SpreadsMore(values, others, r, c);
    hide Spreads, Disjoint;
    if c in before && c !in values {
      assert Spreads(values, others + [r], c, before[c]);
    } else if c !in before && r.Has(c) && TopLeft(before, r) != "" {
      assert Spreads(values, others + [r], c, TopLeft(before, r));
    }
  }

  lemma SpreadsMore(values: Values, others: seq<Range>, r: Range, c: Cell)
    ensures forall text :: Spreads(values, others + [r], c, text) <==>
              Spreads(values, others, c, text) || (text != "" && r.Has(c) && TopLeft(values, r) == text)
  {
    forall text | text != "" && r.Has(c) && TopLeft(values, r) == text
      ensures Spreads(values, others + [r], c, text)
    {
      assert r in others + [r];
    }
  }

  /** For disjoint ranges the result does not depend on their order, nor on repetitions. */
  lemma FillOrderIrrelevant(values: Values, a: seq<Range>, b: seq<Range>, filledA: Values, filledB: Values)
    requires Disjoint(a) && (forall r :: r in a <==> r in b)
    requires IsFilledAll(values, a, filledA) && IsFilledAll(values, b, filledB)
    ensures filledA == filledB
  {
    FilledCells(values, a, filledA);
    FilledCells(values, b, filledB);
    forall c, text ensures Spreads(values, a, c, text) <==> Spreads(values, b, c, text) {
    }
    forall c | c in filledA ensures c in filledB && filledA[c] == filledB[c] {
      if c !in values {
        var r :| r in a && r.Has(c) && TopLeft(values, r) == filledA[c];
        var q :| q in b && q.Has(c) && TopLeft(values, q) == filledB[c];
        assert r in a && q in a;
      }
    }
    assert filledA.Keys == filledB.Keys;
  }

  // ---------------------------------------------------------------------------
  // Overlapping ranges.

  /** Some absent cell lies in both ranges, and both would fill it, with different texts. */
  ghost predicate Clash(values: Values, a: Range, b: Range) {
    && TopLeft(values, a) != "" && TopLeft(values, b) != "" && TopLeft(values, a) != TopLeft(values, b)
    && exists c :: c !in values && a.Has(c) && b.Has(c)
  }

  /** Range `a` fills the absent corner of `b`, which then spreads the text to a cell that `a` does not reach. */
  ghost predicate Relays(values: Values, a: Range, b: Range) {
    && TopLeft(values, a) != "" && a.Has(b.first) && b.first !in values
    && exists c :: c !in values && b.Has(c) && !a.Has(c)
  }

  lemma StripTwice(s: string)
    ensures Strip(Strip(s)) == Strip(s)
  {
    TrimSpec(s, PyBlank());
    TrimTrimmed(Strip(s), PyBlank());
  }

  /** The corner text of `b` once `a` is filled. */
  function CornerAfter(values: Values, a: Range, b: Range): string {
    if TopLeft(values, a) != "" && a.Has(b.first) && b.first !in values then TopLeft(values, a) else TopLeft(values, b)
  }

  /** What an absent cell holds after both ranges, "" if it is still absent. */
  function AfterBoth(values: Values, a: Range, b: Range, c: Cell): string {
    if TopLeft(values, a) != "" && a.Has(c) then TopLeft(values, a)
    else if b.Has(c) then CornerAfter(values, a, b)
    else ""
  }

  /** The absent cells get the texts of `x`. */
  ghost predicate Extends(values: Values, x: Cell -> string, filled: Values) {
    && (forall c :: c in filled <==> c in values || x(c) != "")
    && forall c <- filled :: filled[c] == if c in values then values[c] else x(c)
  }

  lemma SameExtension(values: Values, x: Cell -> string, y: Cell -> string, f: Values, g: Values)
    requires Extends(values, x, f) && Extends(values, y, g)
    ensures f == g <==> forall c | c !in values :: x(c) == y(c)
  {
    if f == g {
      forall c | c !in values ensures x(c) == y(c) {
        if c in f {
          assert f[c] == x(c) && g[c] == y(c);
        }
      }
    }
    if forall c | c !in values :: x(c) == y(c) {
      assert f.Keys == g.Keys;
    }
  }

  lemma CornerMoved(values: Values, a: Range, b: Range, mid: Values)
    requires IsFilled(values, a, mid)
    ensures TopLeft(mid, b) == CornerAfter(values, a, b)
  {
    StripTwice(if a.first in values then values[a.first] else "");
    hide Strip;
  }

  lemma BothFilled(values: Values, a: Range, b: Range, mid: Values, ab: Values)
    requires IsFilled(values, a, mid) && IsFilled(mid, b, ab)
    ensures Extends(values, c => AfterBoth(values, a, b, c), ab)
  {
    CornerMoved(values, a, b, mid);
    hide TopLeft, CornerAfter;
  }

  lemma TwoInOrder(values: Values, a: Range, b: Range, ab: Values)
    requires IsFilledAll(values, [a, b], ab)
    ensures Extends(values, c => AfterBoth(values, a, b, c), ab)
  {
    assert AllButLast([a, b]) == [a] && AllButLast([a]) == [];
    var mid: Values :| IsFilledAll(values, [a], mid) && IsFilled(mid, b, ab);
    var start: Values :| IsFilledAll(values, AllButLast([a]), start) && IsFilled(start, a, mid);
    assert start == values;
    hide IsFilled, Extends, AfterBoth;
    BothFilled(values, a, b, mid, ab);
  }

  lemma SameCells(values: Values, a: Range, b: Range)
    ensures (forall c | c !in values :: AfterBoth(values, a, b, c) == AfterBoth(values, b, a, c))
            <==> !Clash(values, a, b) && !Relays(values, a, b) && !Relays(values, b, a)
  {
    hide Strip;
    if Clash(values, a, b) {
      var c :| c !in values && a.Has(c) && b.Has(c);
      assert AfterBoth(values, a, b, c) != AfterBoth(values, b, a, c);
    } else if Relays(values, a, b) {
      var c :| c !in values && b.Has(c) && !a.Has(c);
      assert AfterBoth(values, a, b, c) != AfterBoth(values, b, a, c);
    } else if Relays(values, b, a) {
      var c :| c !in values && a.Has(c) && !b.Has(c);
      assert AfterBoth(values, a, b, c) != AfterBoth(values, b, a, c);
    }
  }

  /**
   Exactly when the order of two ranges matters: filling them in either order gives the same
   cells if and only if they do not clash and neither relays its text through the other.
   */
  lemma OrderIrrelevantIff(values: Values, a: Range, b: Range, ab: Values, ba: Values)
    requires IsFilledAll(values, [a, b], ab) && IsFilledAll(values, [b, a], ba)
    ensures ab == ba <==> !Clash(values, a, b) && !Relays(values, a, b) && !Relays(values, b, a)
  {
    TwoInOrder(values, a, b, ab);
    TwoInOrder(values, b, a, ba);
    SameCells(values, a, b);
    hide Clash, Relays, AfterBoth, IsFilledAll;
    SameExtension(values, c => AfterBoth(values, a, b, c), c => AfterBoth(values, b, a, c), ab, ba);
  }

  lemma OneFillUnique(values: Values, r: Range, f: Values, g: Values)
    requires IsFilled(values, r, f) && IsFilled(values, r, g)
    ensures f == g
  {
    assert f.Keys == g.Keys;
  }

  lemma {:induction false} FillUnique(values: Values, ranges: seq<Range>, f: Values, g: Values)
    requires IsFilledAll(values, ranges, f) && IsFilledAll(values, ranges, g)
    ensures f == g
    decreases |ranges|
  {
    if ranges != [] {
      var f0: Values :| IsFilledAll(values, AllButLast(ranges), f0) && IsFilled(f0, Last(ranges), f);
      var g0: Values :| IsFilledAll(values, AllButLast(ranges), g0) && IsFilled(g0, Last(ranges), g);
      FillUnique(values, AllButLast(ranges), f0, g0);
      hide IsFilled;
      OneFillUnique(f0, Last(ranges), f, g);
    }
  }

  lemma {:induction false} FillSplit(values: Values, first: seq<Range>, rest: seq<Range>, filled: Values) returns (mid: Values)
    requires IsFilledAll(values, first + rest, filled)
    ensures IsFilledAll(values, first, mid) && IsFilledAll(mid, rest, filled)
    decreases |rest|
  {
    if rest == [] {
      assert first + rest == first;
      mid := filled;
    } else {
      assert AllButLast(first + rest) == first + AllButLast(rest) && Last(first + rest) == Last(rest);
      var before: Values :| IsFilledAll(values, AllButLast(first + rest), before) && IsFilled(before, Last(rest), filled);
      mid := FillSplit(values, first, AllButLast(rest), before);
      assert IsFilledAll(mid, AllButLast(rest), before);
    }
  }

  /** In a list of any ranges, two neighbours that neither clash nor relay on the cells filled so far can change places. */
  lemma SwapNeighbours(values: Values, first: seq<Range>, a: Range, b: Range, rest: seq<Range>, mid: Values, f: Values, g: Values)
    requires IsFilledAll(values, first, mid)
    requires !Clash(mid, a, b) && !Relays(mid, a, b) && !Relays(mid, b, a)
    requires IsFilledAll(values, first + ([a, b] + rest), f) && IsFilledAll(values, first + ([b, a] + rest), g)
    ensures f == g
  {
    hide Clash, Relays, IsFilledAll;
    var f0 := FillSplit(values, first, [a, b] + rest, f);
    var g0 := FillSplit(values, first, [b, a] + rest, g);
    FillUnique(values, first, f0, mid);
    FillUnique(values, first, g0, mid);
    var f1 := FillSplit(mid, [a, b], rest, f);
    var g1 := FillSplit(mid, [b, a], rest, g);
    OrderIrrelevantIff(mid, a, b, f1, g1);
    FillUnique(f1, rest, f, g);
  }

  /** Two overlapping ranges whose order matters: a corner filled first spreads further. */
  lemma OverlapOrderMatters()
    returns (values: Values, a: Range, b: Range, ab: Values, ba: Values)
    ensures !Disjoint([a, b])
    ensures IsFilledAll(values, [a, b], ab) && IsFilledAll(values, [b, a], ba) && ab != ba
  {
    var left, middle, right := Cell(1, 1), Cell(1, 2), Cell(1, 3);
    values := map[left := "x"];
    a, b := Range(left, middle), Range(middle, right);
    StripX();
    var afterA := map[left := "x", middle := "x"];
    ab := map[left := "x", middle := "x", right := "x"];
    ba := afterA;
    assert a.Has(middle) && b.Has(middle) && a in [a, b] && b in [a, b];
    assert IsFilled(values, a, afterA) && IsFilled(afterA, b, ab);
    assert IsFilled(values, b, values) && IsFilled(values, a, ba);
    TwoFills(values, a, b, afterA, ab);
    TwoFills(values, b, a, values, ba);
    assert right in ab && right !in ba;
  }

  lemma StripX()
    ensures Strip("x") == "x"
  {}

  lemma TwoFills(values: Values, a: Range, b: Range, mid: Values, end: Values)
    requires IsFilled(values, a, mid) && IsFilled(mid, b, end)
    ensures IsFilledAll(values, [a, b], end)
  {
    assert AllButLast([a]) == [] && AllButLast([a, b]) == [a];
    assert IsFilledAll(values, [], values);
    assert IsFilledAll(values, [a], mid);
  }

  // ---------------------------------------------------------------------------
  // The dense grid.

  function CellText(values: Values, row: nat, col: nat): string {
    if Cell(row, col) in values then Strip(values[Cell(row, col)]) else ""
  }

  /** A grid row is the sheet row without its trailing blanks. */
  predicate IsGridRow(values: Values, row: nat, maxCol: nat, cells: seq<string>) {
    && |cells| <= maxCol
    && (forall col | 0 < col <= |cells| :: cells[col - 1] == CellText(values, row, col))
    && (forall col | |cells| < col <= maxCol :: CellText(values, row, col) == "")
    && (cells != [] ==> cells[|cells| - 1] != "")
  }

  /** The body of the row loop, for one row. */
  method GridRow(values: Values, row: nat, maxCol: nat) returns (cells: seq<string>)
    ensures IsGridRow(values, row, maxCol, cells)
  {
    cells := [];
    for n := 0 to maxCol
      invariant |cells| == n
      invariant forall col | 0 < col <= n :: cells[col - 1] == CellText(values, row, col)
    {
      cells := cells + [CellText(values, row, n + 1)];
    }
    while cells != [] && cells[|cells| - 1] == ""
      invariant |cells| <= maxCol
      invariant forall col | 0 < col <= |cells| :: cells[col - 1] == CellText(values, row, col)
      invariant forall col | |cells| < col <= maxCol :: CellText(values, row, col) == ""
    {
      assert CellText(values, row, |cells|) == "";
      cells := cells[..|cells| - 1];
    }
  }

  /** The largest row and column of a sheet. */
  method Extent(values: Values) returns (maxRow: nat, maxCol: nat)
    ensures forall c <- values :: c.row <= maxRow && c.col <= maxCol
    ensures values != map[] ==> (exists c <- values :: c.row == maxRow) && exists c <- values :: c.col == maxCol
  {
    maxRow, maxCol := 0, 0;
    var rest := values.Keys;
    var seen: set<Cell> := {};
    while rest != {}
      invariant rest + seen == values.Keys
      invariant forall c <- seen :: c.row <= maxRow && c.col <= maxCol
      invariant if seen == {} then maxRow == 0 && maxCol == 0
                else (exists c <- seen :: c.row == maxRow) && exists c <- seen :: c.col == maxCol
      decreases |rest|
    {
      var c :| c in rest;
      if seen == {} || c.row > maxRow { maxRow := c.row; }
      if seen == {} || c.col > maxCol { maxCol := c.col; }
      seen := seen + {c};
      rest := rest - {c};
    }
  }

  /** Whether a sheet row has anything in it. */
  ghost predicate HasText(values: Values, row: nat) {
    exists col: nat :: col > 0 && CellText(values, row, col) != ""
  }

  ghost predicate IsIncreasing(s: seq<nat>) {
    forall i, j | 0 <= i < j < |s| :: s[i] < s[j]
  }

  lemma GridRowHasText(values: Values, row: nat, maxCol: nat, cells: seq<string>)
    requires IsGridRow(values, row, maxCol, cells) && forall c <- values :: c.col <= maxCol
    ensures cells != [] <==> HasText(values, row)
  {
    if cells != [] {
      assert CellText(values, row, |cells|) != "";
    } else {
      assert forall col: nat | col > maxCol :: Cell(row, col) !in values;
    }
  }

  /** The rows hold the stripped cells. */
  ghost predicate SpellsCells(values: Values, rows: seq<seq<string>>, kept: seq<nat>)
    requires |kept| == |rows|
  {
    forall k: nat, col: nat | k < |rows| && 0 < col <= |rows[k]| ::
      rows[k][col - 1] == if Cell(kept[k], col) in values then Strip(values[Cell(kept[k], col)]) else ""
  }

  lemma RowsSpellCells(values: Values, rows: seq<seq<string>>, kept: seq<nat>, maxCol: nat)
    requires |kept| == |rows| && forall k | 0 <= k < |rows| :: IsGridRow(values, kept[k], maxCol, rows[k])
    ensures SpellsCells(values, rows, kept)
  {
    hide Strip;
    forall k: nat, col: nat | k < |rows| && 0 < col <= |rows[k]|
      ensures rows[k][col - 1] == if Cell(kept[k], col) in values then Strip(values[Cell(kept[k], col)]) else ""
    {
      assert IsGridRow(values, kept[k], maxCol, rows[k]);
      assert rows[k][col - 1] == CellText(values, kept[k], col);
    }
  }

  /**
   The grid built by `load_workbook_rows` loses no text: `kept` lists, in increasing order,
   exactly the sheet rows with text, and the grid rows are those rows without trailing
   blanks, every cell in its column.
   */
  method BuildGrid(values: Values) returns (rows: seq<seq<string>>, ghost kept: seq<nat>)
    ensures |kept| == |rows| && IsIncreasing(kept)
    ensures forall row: nat | row > 0 :: row in kept <==> HasText(values, row)
    ensures forall k, col | 0 <= k < |rows| && 0 < col <= |rows[k]| :: rows[k][col - 1] == CellText(values, kept[k], col)
    ensures forall k, col: nat | 0 <= k < |rows| && col > |rows[k]| :: CellText(values, kept[k], col) == ""
    ensures forall k | 0 <= k < |rows| :: rows[k] != [] && rows[k][|rows[k]| - 1] != ""
    ensures SpellsCells(values, rows, kept)
  {
    rows, kept := [], [];
    var maxRow, maxCol := Extent(values);
    for row := 1 to maxRow + 1
      invariant |kept| == |rows| && IsIncreasing(kept)
      invariant forall i | 0 <= i < |kept| :: 0 < kept[i] < row
      invariant forall r: nat | 0 < r < row :: r in kept <==> HasText(values, r)
      invariant forall k | 0 <= k < |rows| :: IsGridRow(values, kept[k], maxCol, rows[k]) && rows[k] != []
    {
      var cells := GridRow(values, row, maxCol);
      GridRowHasText(values, row, maxCol, cells);
      hide HasText, IsGridRow;
      if cells != [] {
        rows, kept := rows + [cells], kept + [row];
      }
    }
    forall row: nat | row > maxRow ensures !HasText(values, row) {
      assert forall col: nat :: Cell(row, col) !in values;
    }
    forall k, col: nat | 0 <= k < |rows| && col > |rows[k]| ensures CellText(values, kept[k], col) == "" {
      assert IsGridRow(values, kept[k], maxCol, rows[k]);
    }
    RowsSpellCells(values, rows, kept, maxCol);
    hide SpellsCells;
  }
}
