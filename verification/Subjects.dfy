/**
 Subject requirements: the compiler of runtime_skills/subject_advisor/scripts/build_subject_requirement_asset.py,
 which turns "A/B+C" into the groups that satisfy it, and the checker of
 subject_requirements_lookup.py, which evaluates the groups against a selection.
 */
module Subjects {
  import opened Arithmetic
  import opened Text
  import opened PythonText
  import opened Ordering

  type Subject = string

  const SUBJECTS: seq<Subject> := ["物理", "历史", "化学", "生物", "政治", "地理", "技术"]
  const NO_LIMIT := "不限"

  predicate IsSubject(s: Subject) {
    s in SUBJECTS
  }

  /** `SUBJECT_ALIASES.get(raw, raw)`; the only alias that is not the subject itself. */
  function Unalias(raw: string): Subject {
    if raw == "思想政治" then "政治" else raw
  }

  datatype Requirement = MissingInSource | NoLimit | Specified(groups: seq<seq<Subject>>)

  // ---------------------------------------------------------------------------
  // The compiler.

  /** `re.split` on the separators of alternatives. */
  function Alternatives(text: string): (pieces: seq<string>)
    ensures pieces != []
  {
    if text == "" then [""]
    else
      var rest := Alternatives(text[1..]);
      if IsSeparator(text[0]) then [""] + rest else [[text[0]] + rest[0]] + rest[1..]
  }

  predicate IsSeparator(c: char) {
    c in {'/', '、', '或'}
  }

  /** The pieces are what lies between the separators. */
  lemma {:induction false} AlternativesSplit(a: string, sep: char, b: string)
    requires (forall c <- a :: !IsSeparator(c)) && IsSeparator(sep)
    ensures Alternatives(a) == [a]
    ensures Alternatives(a + [sep] + b) == [a] + Alternatives(b)
  {
    var all := a + [sep] + b;
    if a == "" {
      assert all[1..] == b;
    } else {
      assert a[0] in a && forall c <- a[1..] :: c in a;
      AlternativesSplit(a[1..], sep, b);
      assert all[1..] == a[1..] + [sep] + b;
      assert [a[0]] + a[1..] == a;
    }
  }

  /** The known subjects among the pieces, each once, in order of first mention. */
  function KnownSubjects(pieces: seq<string>): seq<Subject> {
    if pieces == [] then []
    else
      var before := KnownSubjects(pieces[..|pieces| - 1]);
      var s := Unalias(Strip(pieces[|pieces| - 1]));
      if IsSubject(s) && s !in before then before + [s] else before
  }

  /** The subjects one "+" component can be met with; unknown text stays as a single option. */
  function Component(text: string): (options: seq<Subject>)
    ensures options != []
  {
    var known := KnownSubjects(Alternatives(text));
    if known == [] then [Strip(text)] else known
  }

  /** `_parse_subject_component`. */
  method ParseSubjectComponent(text: string) returns (options: seq<Subject>)
    ensures options == Component(text)
  {
    hide IsSubject, Strip, Unalias, Alternatives;
    var pieces := Alternatives(text);
    options := [];
    for i := 0 to |pieces|
      invariant options == KnownSubjects(pieces[..i])
    {
      assert pieces[..i + 1][..i] == pieces[..i];
      var subject := Unalias(Strip(pieces[i]));
      if IsSubject(subject) && subject !in options {
        options := options + [subject];
      }
    }
    assert pieces[..|pieces|] == pieces;
    if options == [] {
      options := [Strip(text)];
    }
  }

  /** The components of a requirement text: its non-blank parts between "+" signs. */
  function ComponentsOf(parts: seq<string>): seq<seq<Subject>> {
    if parts == [] then []
    else
      var last := parts[|parts| - 1];
      ComponentsOf(parts[..|parts| - 1]) + if Strip(last) != "" then [Component(last)] else []
  }

  function Components(text: string): seq<seq<Subject>> {
    ComponentsOf(Split(Strip(text), "+"))
  }

  /** `itertools.product`: one option of each component, the last component varying fastest. */
  function Product(components: seq<seq<Subject>>): seq<seq<Subject>> {
    if components == [] then [[]] else Cross(components[0], Product(components[1..]))
  }

  function Cross(options: seq<Subject>, tails: seq<seq<Subject>>): seq<seq<Subject>> {
    if options == [] then [] else seq(|tails|, i requires 0 <= i < |tails| => [options[0]] + tails[i]) + Cross(options[1..], tails)
  }

  /** A combination without repetitions and blanks. */
  function Group(combo: seq<Subject>): seq<Subject> {
    if combo == [] then []
    else
      var before, last := Group(combo[..|combo| - 1]), combo[|combo| - 1];
      if last != "" && last !in before then before + [last] else before
  }

  function GroupsOf(combos: seq<seq<Subject>>): seq<seq<Subject>> {
    if combos == [] then []
    else
      var g := Group(combos[|combos| - 1]);
      GroupsOf(combos[..|combos| - 1]) + if g != [] then [g] else []
  }

  /** What the compiler makes of a text. */
  function Compiled(text: string): Requirement {
    var normalized := Strip(text);
    if normalized == "" then MissingInSource
    else if normalized == NO_LIMIT then NoLimit
    else Specified(GroupsOf(Product(Components(text))))
  }

  /** `_parse_requirement`. */
  method ParseRequirement(text: string) returns (r: Requirement)
    ensures r == Compiled(text)
    ensures r.MissingInSource? <==> Strip(text) == ""
    ensures r.NoLimit? <==> Strip(text) == "不限"
  {
    var normalized := Strip(text);
    if normalized == "" { return MissingInSource; }
    if normalized == NO_LIMIT { return NoLimit; }
    var parts := Split(normalized, "+");
    var components: seq<seq<Subject>> := [];
    for i := 0 to |parts|
      invariant components == ComponentsOf(parts[..i])
    {
      assert parts[..i + 1][..i] == parts[..i];
      if Strip(parts[i]) != "" {
        var options := ParseSubjectComponent(parts[i]);
        components := components + [options];
      }
    }
    assert parts[..|parts|] == parts;
    var combos := Product(components);
    var groups: seq<seq<Subject>> := [];
    for i := 0 to |combos|
      invariant groups == GroupsOf(combos[..i])
    {
      assert combos[..i + 1][..i] == combos[..i];
      var group := Deduplicate(combos[i]);
      if group != [] {
        groups := groups + [group];
      }
    }
    assert combos[..|combos|] == combos;
    r := Specified(groups);
  }

  method Deduplicate(combo: seq<Subject>) returns (group: seq<Subject>)
    ensures group == Group(combo)
  {
    group := [];
    for j := 0 to |combo|
      invariant group == Group(combo[..j])
    {
      assert combo[..j + 1][..j] == combo[..j];
      var subject := combo[j];
      if subject != "" && subject !in group {
        group := group + [subject];
      }
    }
    assert combo[..|combo|] == combo;
  }

  // ---------------------------------------------------------------------------
  // The checker.

  datatype Status = UnknownNoSource | NoSubjectCombo | Eligible | NotEligible

  datatype Compatibility = Compatibility(status: Status, missing: seq<Subject>)

  /** How many subjects of a group the selection lacks. */
  function Lacking(group: seq<Subject>, selected: set<Subject>): set<Subject> {
    Elements(group) - selected
  }

  predicate Covered(groups: seq<seq<Subject>>, selected: set<Subject>) {
    exists g <- groups :: Lacking(g, selected) == {}
  }

  /** Group `i` is the first of those that lack the fewest subjects, and `missing` lists what it lacks. */
  predicate Cheapest(groups: seq<seq<Subject>>, selected: set<Subject>, i: nat, missing: seq<Subject>) {
    && i < |groups|
    && Sorted(missing) && Elements(missing) == Lacking(groups[i], selected)
    && (forall j | 0 <= j < |groups| :: |missing| <= |Lacking(groups[j], selected)|)
    && (forall j | 0 <= j < i :: |missing| < |Lacking(groups[j], selected)|)
  }

  /** What the checker promises. */
  ghost predicate IsCompatibility(r: Requirement, selected: seq<Subject>, c: Compatibility) {
    if r.MissingInSource? then c == Compatibility(UnknownNoSource, [])
    else if selected == [] then c == Compatibility(NoSubjectCombo, [])
    else if r.NoLimit? then c == Compatibility(Eligible, [])
    else if Covered(r.groups, Elements(selected)) then c == Compatibility(Eligible, [])
    else
      && c.status == NotEligible
      && if r.groups == [] then c.missing == []
         else exists i: nat :: Cheapest(r.groups, Elements(selected), i, c.missing)
  }

  /** `_compatibility`. */
  method CheckCompatibility(r: Requirement, selectedSubjects: seq<Subject>) returns (c: Compatibility)
    ensures IsCompatibility(r, selectedSubjects, c)
  {
    if r.MissingInSource? { return Compatibility(UnknownNoSource, []); }
    if selectedSubjects == [] { return Compatibility(NoSubjectCombo, []); }
    if r.NoLimit? { return Compatibility(Eligible, []); }
    var selected := Elements(selectedSubjects);
    var groups := r.groups;
    var missingOptions: seq<seq<Subject>> := [];
    for i := 0 to |groups|
      invariant |missingOptions| == i
      invariant forall j | 0 <= j < i ::
                  missingOptions[j] != [] && Sorted(missingOptions[j]) && Elements(missingOptions[j]) == Lacking(groups[j], selected)
    {
      var missing := SortedMissing(groups[i], selected);
      if missing == [] {
        assert groups[i] in groups;
        return Compatibility(Eligible, []);
      }
      missingOptions := missingOptions + [missing];
    }
    if missingOptions == [] {
      return Compatibility(NotEligible, []);
    }
    var best := 0;
    for i := 1 to |missingOptions|
      invariant best < i
      invariant forall j | 0 <= j < i :: |missingOptions[best]| <= |missingOptions[j]|
      invariant forall j | 0 <= j < best :: |missingOptions[best]| < |missingOptions[j]|
    {
      if |missingOptions[i]| < |missingOptions[best]| { best := i; }
    }
    forall j | 0 <= j < |groups| ensures |Lacking(groups[j], selected)| == |missingOptions[j]| {
      SortedSize(missingOptions[j]);
    }
    assert Cheapest(groups, selected, best, missingOptions[best]);
    forall g <- groups ensures Lacking(g, selected) != {} {
      var j :| 0 <= j < |groups| && groups[j] == g;
      assert missingOptions[j][0] in Elements(missingOptions[j]);
    }
    c := Compatibility(NotEligible, missingOptions[best]);
  }

  /** The promise fixes the answer: the checker is a function of the requirement and the selection. */
  lemma CompatibilityUnique(r: Requirement, selected: seq<Subject>, c: Compatibility, d: Compatibility)
    requires IsCompatibility(r, selected, c) && IsCompatibility(r, selected, d)
    ensures c == d
  {
    if r.Specified? && selected != [] && !Covered(r.groups, Elements(selected)) && r.groups != [] {
      var have := Elements(selected);
      var i: nat :| Cheapest(r.groups, have, i, c.missing);
      var j: nat :| Cheapest(r.groups, have, j, d.missing);
      SortedSize(c.missing);
      SortedSize(d.missing);
      assert i == j;
      SortedUnique(c.missing, d.missing);
    }
  }

  /** `sorted(required - selected)`. */
  method SortedMissing(group: seq<Subject>, selected: set<Subject>) returns (missing: seq<Subject>)
    ensures Sorted(missing) && Elements(missing) == Lacking(group, selected)
  {
    missing := [];
    for j := 0 to |group|
      invariant Sorted(missing) && Elements(missing) == Lacking(group[..j], selected)
    {
      assert group[..j + 1] == group[..j] + [group[j]];
      if group[j] !in selected {
        InsertSorted(missing, group[j]);
        missing := Insert(missing, group[j]);
      }
    }
    assert group[..|group|] == group;
  }

  // ---------------------------------------------------------------------------
  // Meaning: an AND of ORs.

  /** The selection meets every component with one of its options. */
  predicate Meets(selected: set<Subject>, components: seq<seq<Subject>>) {
    forall c <- components :: exists s <- c :: s in selected
  }

  lemma {:induction false} CrossHas(options: seq<Subject>, tails: seq<seq<Subject>>, combo: seq<Subject>)
    ensures combo in Cross(options, tails) <==> combo != [] && combo[0] in options && combo[1..] in tails
  {
    if options != [] {
      CrossHas(options[1..], tails, combo);
      var first := seq(|tails|, i requires 0 <= i < |tails| => [options[0]] + tails[i]);
      if combo != [] && combo[0] == options[0] && combo[1..] in tails {
        var i :| 0 <= i < |tails| && tails[i] == combo[1..];
        assert first[i] == combo;
      }
      if combo in first {
        var i :| 0 <= i < |first| && first[i] == combo;
        assert combo[1..] == tails[i];
      }
      assert options == [options[0]] + options[1..];
    }
  }

  /** The product holds exactly the combinations that take one option of each component. */
  lemma {:induction false} ProductHas(components: seq<seq<Subject>>, combo: seq<Subject>)
    ensures combo in Product(components) <==>
              |combo| == |components| && forall i | 0 <= i < |combo| :: combo[i] in components[i]
  {
    if components != [] {
      CrossHas(components[0], Product(components[1..]), combo);
      if combo != [] {
        ProductHas(components[1..], combo[1..]);
        if |combo| == |components| {
          assert (forall i | 0 <= i < |combo| :: combo[i] in components[i]) <==>
                 combo[0] in components[0] && forall i | 0 <= i < |combo[1..]| :: combo[1..][i] in components[1..][i] by {
            assert forall i | 1 <= i < |combo| :: combo[i] == combo[1..][i - 1] && components[i] == components[1..][i - 1];
          }
        }
      }
    }
  }

  lemma {:induction false} GroupElements(combo: seq<Subject>)
    ensures Elements(Group(combo)) == Elements(combo) - {""}
  {
    if combo != [] {
      var rest, last := combo[..|combo| - 1], combo[|combo| - 1];
      GroupElements(rest);
      assert combo == rest + [last];
      ElementsConcat(rest, [last]);
      ElementsConcat(Group(rest), [last]);
    }
  }

  lemma {:induction false} GroupsHave(combos: seq<seq<Subject>>, g: seq<Subject>)
    ensures g in GroupsOf(combos) <==> g != [] && exists c <- combos :: Group(c) == g
  {
    if combos != [] {
      var rest, last := combos[..|combos| - 1], combos[|combos| - 1];
      GroupsHave(rest, g);
      assert combos == rest + [last];
      ElementsConcat(rest, [last]);
      assert last in combos;
    }
  }

  /** Every option of every component is a real name. */
  lemma {:induction false} OptionsNamed(parts: seq<string>)
    ensures forall c <- ComponentsOf(parts) :: c != [] && "" !in c
  {
    if parts != [] {
      var last := parts[|parts| - 1];
      OptionsNamed(parts[..|parts| - 1]);
      KnownNamed(Alternatives(last));
    }
  }

  /** One of the seven subjects, under its own name or, for politics, its longer one. */
  predicate Names(piece: string, s: Subject) {
    && s in {"物理", "历史", "化学", "生物", "政治", "地理", "技术"}
    && (Strip(piece) == s || (s == "政治" && Strip(piece) == "思想政治"))
  }

  lemma NamesUnaliased(piece: string, s: Subject)
    ensures Names(piece, s) <==> IsSubject(s) && Unalias(Strip(piece)) == s
  {
    hide Strip;
  }

  /** Some piece names the subject. */
  predicate Mentions(pieces: seq<string>, s: Subject) {
    exists p <- pieces :: Names(p, s)
  }

  /** What a component offers: the subjects it mentions, each once, or its own text if it mentions none. */
  lemma ComponentMeans(text: string, s: Subject)
    ensures Mentions(Alternatives(text), s) ==> s in Component(text)
    ensures s in Component(text) ==> Mentions(Alternatives(text), s) || Component(text) == [Strip(text)]
    ensures Component(text) == [Strip(text)] ||
            forall i, j | 0 <= i < j < |Component(text)| :: Component(text)[i] != Component(text)[j]
  {
    KnownMeans(Alternatives(text), s);
    hide Unalias, Strip, Alternatives, Mentions, IsSubject, Names;
  }

  lemma {:induction false} KnownMeans(pieces: seq<string>, s: Subject)
    ensures s in KnownSubjects(pieces) <==> Mentions(pieces, s)
    ensures forall i, j | 0 <= i < j < |KnownSubjects(pieces)| :: KnownSubjects(pieces)[i] != KnownSubjects(pieces)[j]
  {
    hide Unalias, Strip, IsSubject, Names;
    if pieces != [] {
      var rest, last := pieces[..|pieces| - 1], pieces[|pieces| - 1];
      KnownMeans(rest, s);
      NamesUnaliased(last, s);
      assert pieces == rest + [last];
    }
  }

  /** In order of first mention: more pieces only add subjects behind those already there. */
  lemma {:induction false} KnownInOrder(first: seq<string>, more: seq<string>)
    ensures KnownSubjects(first) <= KnownSubjects(first + more)
    decreases |more|
  {
    hide Unalias, Strip, IsSubject;
    if more == [] {
      assert first + more == first;
    } else {
      KnownInOrder(first, more[..|more| - 1]);
      assert (first + more)[..|first + more| - 1] == first + more[..|more| - 1];
    }
  }

  /** The part before a "+" is a component of its own, unless it is blank, and comes before those of the rest. */
  lemma PlusSeparates(first: string, rest: string)
    requires '+' !in first && Strip(first + "+" + rest) == first + "+" + rest
    ensures Components(first + "+" + rest)
         == (if Strip(first) != "" then [Component(first)] else []) + ComponentsOf(Split(rest, "+"))
  {
    var text, i := first + "+" + rest, |first|;
    hide Strip, Component;
    assert text[i..i + 1] == "+";
    forall j | 0 <= j < i ensures !At(text, "+", j) {
      assert text[j..j + 1] == [first[j]] && first[j] in first;
    }
    SplitAt(text, "+", i);
    assert text[..i] == first && text[i + 1..] == rest;
    ComponentsConcat([first], Split(rest, "+"));
    assert [first][..0] == [];
    assert ComponentsOf([first]) == ComponentsOf([first][..0]) + if Strip(first) != "" then [Component(first)] else [];
  }

  lemma {:induction false} ComponentsConcat(a: seq<string>, b: seq<string>)
    ensures ComponentsOf(a + b) == ComponentsOf(a) + ComponentsOf(b)
    decreases |b|
  {
    hide Strip, Component;
    if b == [] {
      assert a + b == a;
    } else {
      ComponentsConcat(a, b[..|b| - 1]);
      assert (a + b)[..|a + b| - 1] == a + b[..|b| - 1];
    }
  }

  /** The product goes through the options of the first component in order, and for each through the product of the rest. */
  lemma {:induction false} ProductAt(components: seq<seq<Subject>>, i: nat, j: nat)
    requires components != [] && i < |components[0]| && j < |Product(components[1..])|
    ensures var tails := Product(components[1..]);
            && |Product(components)| == |components[0]| * |tails|
            && 0 <= i * |tails| + j < |Product(components)|
            && Product(components)[i * |tails| + j] == [components[0][i]] + tails[j]
  {
    CrossAt(components[0], Product(components[1..]), i, j);
  }

  lemma {:induction false} CrossAt(options: seq<Subject>, tails: seq<seq<Subject>>, i: nat, j: nat)
    requires i < |options| && j < |tails|
    ensures |Cross(options, tails)| == |options| * |tails|
    ensures 0 <= i * |tails| + j < |Cross(options, tails)|
    ensures Cross(options, tails)[i * |tails| + j] == [options[0 + i]] + tails[j]
    decreases |options|
  {
    var n := |tails|;
    CrossSize(options, tails);
    DistributeLeft(i, 1, n);
    MultiplyOrder(i, |options| - 1, n);
    DistributeLeft(|options|, 1, n);
    if i > 0 {
      CrossAt(options[1..], tails, i - 1, j);
      assert Cross(options, tails)[n..] == Cross(options[1..], tails);
    }
  }

  lemma {:induction false} CrossSize(options: seq<Subject>, tails: seq<seq<Subject>>)
    ensures |Cross(options, tails)| == |options| * |tails|
  {
    if options != [] {
      CrossSize(options[1..], tails);
      DistributeLeft(|options|, 1, |tails|);
    }
  }

  lemma {:induction false} GroupDistinct(combo: seq<Subject>)
    ensures forall i, j | 0 <= i < j < |Group(combo)| :: Group(combo)[i] != Group(combo)[j]
  {
    if combo != [] {
      GroupDistinct(combo[..|combo| - 1]);
    }
  }

  lemma {:induction false} KnownNamed(pieces: seq<string>)
    ensures "" !in KnownSubjects(pieces)
  {
    if pieces != [] {
      KnownNamed(pieces[..|pieces| - 1]);
    }
  }

  /** A combination gives a group that the selection covers when it lies in the selection. */
  lemma GroupOfCombo(components: seq<seq<Subject>>, combo: seq<Subject>, selected: set<Subject>)
    requires components != [] && forall c <- components :: "" !in c
    requires combo in Product(components)
    ensures Group(combo) in GroupsOf(Product(components))
    ensures Elements(Group(combo)) == Elements(combo)
  {
    ProductHas(components, combo);
    GroupElements(combo);
    forall s <- combo ensures s != "" {
      var i :| 0 <= i < |combo| && combo[i] == s;
      assert components[i] in components;
    }
    assert combo[0] in Elements(Group(combo));
    GroupsHave(Product(components), Group(combo));
  }

  function Choose(components: seq<seq<Subject>>, selected: set<Subject>): (combo: seq<Subject>)
    requires Meets(selected, components)
    ensures |combo| == |components|
    ensures forall i | 0 <= i < |combo| :: combo[i] in components[i] && combo[i] in selected
  {
    if components == [] then []
    else
      assert components[0] in components && forall c <- components[1..] :: c in components;
      [FirstIn(components[0], selected)] + Choose(components[1..], selected)
  }

  function FirstIn(options: seq<Subject>, selected: set<Subject>): (s: Subject)
    requires exists s <- options :: s in selected
    ensures s in options && s in selected
  {
    if options[0] in selected then options[0] else FirstIn(options[1..], selected)
  }

  lemma MetGivesGroup(components: seq<seq<Subject>>, selected: set<Subject>)
    requires components != [] && (forall c <- components :: "" !in c) && Meets(selected, components)
    ensures exists g <- GroupsOf(Product(components)) :: Lacking(g, selected) == {}
  {
    var combo := Choose(components, selected);
    ProductHas(components, combo);
    GroupOfCombo(components, combo, selected);
    hide Product, GroupsOf, Group, Choose, Meets;
    assert Lacking(Group(combo), selected) == {};
  }

  lemma GroupGivesMet(components: seq<seq<Subject>>, selected: set<Subject>, g: seq<Subject>)
    requires components != [] && forall c <- components :: "" !in c
    requires g in GroupsOf(Product(components)) && Lacking(g, selected) == {}
    ensures Meets(selected, components)
  {
    GroupsHave(Product(components), g);
    var combo :| combo in Product(components) && Group(combo) == g;
    ProductHas(components, combo);
    GroupOfCombo(components, combo, selected);
    hide Product, GroupsOf, Group;
    forall s <- Elements(combo) ensures s in selected {
      assert s in Elements(g);
      assert s !in selected ==> s in Lacking(g, selected);
    }
    forall c <- components ensures exists s <- c :: s in selected {
      var i :| 0 <= i < |components| && components[i] == c;
      assert combo[i] in Elements(combo);
      assert combo[i] in c;
    }
  }

  /** Some group lies in the selection exactly when the selection meets every component. */
  lemma CoveredIffMet(components: seq<seq<Subject>>, selected: set<Subject>)
    requires components != [] && forall c <- components :: "" !in c
    ensures Covered(GroupsOf(Product(components)), selected) <==> Meets(selected, components)
  {
    if Meets(selected, components) {
      MetGivesGroup(components, selected);
    }
    hide Product, GroupsOf, Meets;
    if g :| g in GroupsOf(Product(components)) && Lacking(g, selected) == {} {
      GroupGivesMet(components, selected, g);
    }
  }

  lemma NoComponents()
    ensures GroupsOf(Product([])) == []
  {
    var combos: seq<seq<Subject>> := Product([]);
    assert combos == [[]] && combos[..0] == [];
  }

  /**
   Expansion preserves meaning.  For a requirement with at least one non-blank component,
   the checker says eligible exactly when the selection meets every "+" component.  A
   requirement with no such component ("+" alone) is never met.
   */
  lemma ExpansionPreservesMeaning(text: string, selected: seq<Subject>, c: Compatibility)
    requires Compiled(text).Specified? && selected != [] && IsCompatibility(Compiled(text), selected, c)
    ensures c.status == Eligible <==> Components(text) != [] && Meets(Elements(selected), Components(text))
  {
    OptionsNamed(Split(Strip(text), "+"));
    if Components(text) == [] {
      NoComponents();
    } else {
      hide Product, GroupsOf, Group, Meets, ComponentsOf, Split, Strip;
      CoveredIffMet(Components(text), Elements(selected));
    }
  }

  /** What the checker says of the two special texts: nothing is known of a blank one, and "不限" admits every selection. */
  lemma SpecialTexts(text: string, selected: seq<Subject>, c: Compatibility)
    requires IsCompatibility(Compiled(text), selected, c)
    ensures Strip(text) == "" ==> c == Compatibility(UnknownNoSource, [])
    ensures Strip(text) != "" && selected == [] ==> c == Compatibility(NoSubjectCombo, [])
    ensures Strip(text) == "不限" && selected != [] ==> c == Compatibility(Eligible, [])
    ensures Strip(text) !in {"", "不限"} && selected != [] ==> c.status in {Eligible, NotEligible}
  {
    hide Strip, Components, Product, GroupsOf, Covered;
  }

  /** Eligibility never gets lost by selecting more. */
  lemma EligibilityMonotone(r: Requirement, selected: seq<Subject>, more: seq<Subject>, c: Compatibility, d: Compatibility)
    requires Elements(selected) <= Elements(more)
    requires IsCompatibility(r, selected, c) && IsCompatibility(r, more, d) && c.status == Eligible
    ensures d.status == Eligible
  {
    if selected != [] {
      assert selected[0] in Elements(more);
    }
    if r.Specified? {
      var g :| g in r.groups && Lacking(g, Elements(selected)) == {};
      assert Lacking(g, Elements(more)) == {};
    }
  }

  /**
   The reported missing set is optimal: adding it meets every component, it repeats nothing
   that is selected, and no smaller set of added subjects meets every component.
   */
  lemma MissingIsOptimal(text: string, selected: seq<Subject>, c: Compatibility, added: set<Subject>)
    requires Compiled(text).Specified? && selected != [] && Components(text) != []
    requires IsCompatibility(Compiled(text), selected, c)
    ensures Meets(Elements(selected) + Elements(c.missing), Components(text))
    ensures Elements(c.missing) !! Elements(selected)
    ensures Meets(Elements(selected) + added, Components(text)) ==> |c.missing| <= |added|
  {
    OptionsNamed(Split(Strip(text), "+"));
    MissingIsOptimalFor(Components(text), selected, c, added);
  }

  lemma MissingIsOptimalFor(components: seq<seq<Subject>>, selected: seq<Subject>, c: Compatibility, added: set<Subject>)
    requires components != [] && selected != [] && forall o <- components :: o != [] && "" !in o
    requires IsCompatibility(Specified(GroupsOf(Product(components))), selected, c)
    ensures Meets(Elements(selected) + Elements(c.missing), components)
    ensures Elements(c.missing) !! Elements(selected)
    ensures Meets(Elements(selected) + added, components) ==> |c.missing| <= |added|
  {
    var groups, have := GroupsOf(Product(components)), Elements(selected);
    GroupsNonEmpty(components);
    hide Product, GroupsOf, Meets, Cheapest, Covered;
    CoveredIffMet(components, have);
    CoveredIffMet(components, have + Elements(c.missing));
    CoveredIffMet(components, have + added);
    if c.status == Eligible {
      assert have + Elements(c.missing) == have;
    } else {
      var i: nat :| Cheapest(groups, have, i, c.missing);
      CheapestIsOptimal(groups, have, i, c.missing, added);
    }
  }

  lemma CheapestIsOptimal(groups: seq<seq<Subject>>, have: set<Subject>, i: nat, missing: seq<Subject>, added: set<Subject>)
    requires Cheapest(groups, have, i, missing)
    ensures Covered(groups, have + Elements(missing))
    ensures Elements(missing) !! have
    ensures Covered(groups, have + added) ==> |missing| <= |added|
  {
    assert Lacking(groups[i], have + Elements(missing)) == {};
    assert groups[i] in groups;
    if Covered(groups, have + added) {
      var g :| g in groups && Lacking(g, have + added) == {};
      var j :| 0 <= j < |groups| && groups[j] == g;
      forall s <- Lacking(g, have) ensures s in added {
        assert s !in added ==> s in Lacking(g, have + added);
      }
      SubsetSize(Lacking(g, have), added);
    }
  }

  /**
   Among equally cheap groups the first counts: of one component of subjects none of which is
   selected, the missing subject reported is the one mentioned first.
   */
  lemma FirstMentionedReported(options: seq<Subject>, selected: seq<Subject>, c: Compatibility)
    requires options != [] && "" !in options && selected != [] && Elements(options) !! Elements(selected)
    requires IsCompatibility(Specified(GroupsOf(Product([options]))), selected, c)
    ensures c == Compatibility(NotEligible, [options[0]])
  {
    Singletons(options);
    var groups, have := GroupsOf(Product([options])), Elements(selected);
    assert AreSingles(options, groups, have) by {
      forall s <- options ensures s !in have { assert s in Elements(options); }
    }
    hide AreSingles, Product, GroupsOf, Covered, Cheapest;
    SinglesUncovered(options, groups, have);
    var i: nat :| Cheapest(groups, have, i, c.missing);
    SinglesCheapest(options, groups, have, i, c.missing);
  }

  ghost predicate AreSingles(options: seq<Subject>, groups: seq<seq<Subject>>, have: set<Subject>) {
    && |groups| == |options| && (forall i: nat | i < |groups| :: groups[i] == [options[i]])
    && forall s <- options :: s !in have
  }

  lemma SinglesLack(options: seq<Subject>, groups: seq<seq<Subject>>, have: set<Subject>, i: nat)
    requires AreSingles(options, groups, have) && i < |groups|
    ensures Lacking(groups[i], have) == {options[i]}
  {
    assert options[i] in options && groups[i] == [options[i]];
  }

  lemma SinglesUncovered(options: seq<Subject>, groups: seq<seq<Subject>>, have: set<Subject>)
    requires AreSingles(options, groups, have)
    ensures !Covered(groups, have)
  {
    forall g <- groups ensures Lacking(g, have) != {} {
      var i :| 0 <= i < |groups| && groups[i] == g;
      SinglesLack(options, groups, have, i);
    }
  }

  lemma SinglesCheapest(options: seq<Subject>, groups: seq<seq<Subject>>, have: set<Subject>, i: nat, missing: seq<Subject>)
    requires AreSingles(options, groups, have) && Cheapest(groups, have, i, missing)
    ensures missing == [options[0]]
  {
    SinglesLack(options, groups, have, i);
    SinglesLack(options, groups, have, 0);
    SortedSize(missing);
    assert i == 0;
    assert missing[0] in Elements(missing);
  }

  lemma Singletons(options: seq<Subject>)
    requires "" !in options
    ensures var groups := GroupsOf(Product([options]));
            |groups| == |options| && forall i: nat | i < |groups| :: groups[i] == [options[i]]
  {
    var none: seq<seq<Subject>> := [];
    assert [options][1..] == none && Product(none) == [[]];
    CrossSingles(options);
    hide Cross, Group, GroupsOf;
    forall c <- Product([options]) ensures |c| == 1 && c[0] != "" {
      var i :| 0 <= i < |options| && c == [options[i]];
      assert options[i] in options;
    }
    SingletonGroups(Product([options]));
  }

  lemma {:induction false} CrossSingles(options: seq<Subject>)
    ensures var all := Cross(options, [[]]); |all| == |options| && forall i: nat | i < |all| :: all[i] == [options[i]]
  {
    if options != [] {
      CrossSingles(options[1..]);
      var all, rest := Cross(options, [[]]), Cross(options[1..], [[]]);
      assert all == [[options[0]] + []] + rest;
    }
  }

  lemma {:induction false} SingletonGroups(combos: seq<seq<Subject>>)
    requires forall c <- combos :: |c| == 1 && c[0] != ""
    ensures GroupsOf(combos) == combos
  {
    if combos != [] {
      var rest, last := combos[..|combos| - 1], combos[|combos| - 1];
      assert combos == rest + [last] && last in combos;
      SingletonGroups(rest);
      assert last[..0] == [] && last == [last[0]];
      assert Group(last) == [last[0]];
    }
  }

  lemma GroupsNonEmpty(components: seq<seq<Subject>>)
    requires components != [] && forall c <- components :: c != [] && "" !in c
    ensures GroupsOf(Product(components)) != []
  {
    var everything := set c, s | c in components && s in c :: s;
    forall c <- components ensures exists s <- c :: s in everything {
      assert c[0] in c;
    }
    hide Product, GroupsOf, Group, Choose;
    assert Meets(everything, components);
    MetGivesGroup(components, everything);
  }

  /** Exactly when the promise of a useful missing set fails: a specified requirement without a non-blank component. */
  lemma NothingHelpsIff(text: string, selected: seq<Subject>, c: Compatibility)
    requires Compiled(text).Specified? && selected != [] && IsCompatibility(Compiled(text), selected, c)
    ensures Components(text) == [] <==>
              forall more: seq<Subject>, d: Compatibility ::
                more != [] && IsCompatibility(Compiled(text), more, d) ==> d == Compatibility(NotEligible, [])
  {
    if Components(text) == [] {
      NoComponents();
    } else {
      MissingIsOptimal(text, selected, c, {});
      AddingHelps(text, selected, c.missing);
      assert selected + c.missing != [];
    }
  }

  lemma AddingHelps(text: string, selected: seq<Subject>, missing: seq<Subject>)
    requires Compiled(text).Specified? && selected != [] && Components(text) != []
    requires Meets(Elements(selected) + Elements(missing), Components(text))
    ensures IsCompatibility(Compiled(text), selected + missing, Compatibility(Eligible, []))
  {
    ElementsConcat(selected, missing);
    OptionsNamed(Split(Strip(text), "+"));
    hide Product, GroupsOf, Meets, ComponentsOf, Split, Strip;
    CoveredIffMet(Components(text), Elements(selected + missing));
  }
}
