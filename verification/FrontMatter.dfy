/**
 The front-matter splitter and the skill-routing synchroniser of
 frontend/src/utils/agentRoutingFrontmatter.ts.  The YAML library is a codec passed in.
 */
module FrontMatter {
  import opened JsText
  import opened Text

  const DELIMITER := "---"

  datatype Parts = Parts(yaml: string, body: string)

  datatype Splitting = Absent | Unclosed | Found(parts: Parts)

  /** `splitFrontMatter`. */
  function SplitFrontMatter(markdown: string): Splitting {
    if !(DELIMITER + "\n" <= markdown) then Absent
    else
      var closing := IndexFrom(markdown, "\n" + DELIMITER, |DELIMITER| + 1);
      if closing == -1 then Unclosed
      else
        var rest := markdown[closing + |DELIMITER| + 1..];
        Found(Parts(markdown[|DELIMITER| + 1..closing], if "\n" <= rest then rest[1..] else rest))
  }

  /** The text `syncAgentRoutingFrontmatter` writes around a YAML text and a body. */
  function Printed(yaml: string, body: string): string {
    DELIMITER + "\n" + yaml + "\n" + DELIMITER + "\n" + body
  }

  /** No line of the YAML text after its first starts with the delimiter. */
  ghost predicate Clean(yaml: string) {
    forall i :: !At(yaml, "\n" + DELIMITER, i)
  }

  /** Where the splitter finds the closing delimiter of a printed text: never after the place it was printed at. */
  lemma ClosingPlace(yaml: string, body: string)
    ensures var s, sep := Printed(yaml, body), "\n" + DELIMITER;
            var closing := IndexFrom(s, sep, 4);
            && 4 <= closing <= 4 + |yaml|
            && (closing == 4 + |yaml| <==> Clean(yaml))
  {
    var s, sep := Printed(yaml, body), "\n" + DELIMITER;
    var tail := sep + "\n" + body;
    var place := 4 + |yaml|;
    assert s == DELIMITER + "\n" + yaml + tail && s[4..] == yaml + tail;
    assert s[place..place + 4] == sep;
    assert At(s, sep, place);
    forall i | At(yaml, sep, i) ensures At(s, sep, 4 + i) {
      assert s[4 + i..8 + i] == yaml[i..i + 4];
    }
    var closing := IndexFrom(s, sep, 4);
    if closing < place {
      assert s[closing..closing + 4] == (yaml + tail)[closing - 4..closing];
      FirstInside(yaml, tail, closing - 4);
    }
  }

  /** Printing and splitting gives both parts back exactly when the YAML text has no such line; the body is arbitrary. */
  lemma PrintSplitIff(yaml: string, body: string)
    ensures SplitFrontMatter(Printed(yaml, body)) == Found(Parts(yaml, body)) <==> Clean(yaml)
  {
    ClosingPlace(yaml, body);
    hide Clean, IndexFrom, At;
    var s := Printed(yaml, body);
    var closing := IndexFrom(s, "\n" + DELIMITER, 4);
    assert DELIMITER + "\n" <= s;
    if closing == 4 + |yaml| {
      assert s[4..closing] == yaml;
      assert s[closing + 4..] == "\n" + body;
    } else {
      assert |s[4..closing]| < |yaml|;
    }
  }

  /** A delimiter found before the end of the YAML text lies wholly inside it. */
  lemma FirstInside(yaml: string, tail: string, i: nat)
    requires i < |yaml| && "\n" + DELIMITER <= tail && At(yaml + tail, "\n" + DELIMITER, i)
    ensures At(yaml, "\n" + DELIMITER, i)
  {
    var sep := "\n" + DELIMITER;
    assert (yaml + tail)[i..i + 4] == sep;
    assert (yaml + tail)[|yaml|] == '\n';
    if i + 4 <= |yaml| {
      assert yaml[i..i + 4] == (yaml + tail)[i..i + 4];
    }
  }

  /**
   Splitting loses nothing: the YAML text is everything up to the first line that starts with
   the delimiter, and the parts put together again are the source.  Only the line end after
   the closing delimiter may be missing.
   */
  lemma SplitKeepsText(markdown: string)
    ensures match SplitFrontMatter(markdown)
            case Absent => !(DELIMITER + "\n" <= markdown)
            case Unclosed => DELIMITER + "\n" <= markdown && Clean(markdown[4..])
            case Found(p) =>
              && Clean(p.yaml)
              && (markdown == Printed(p.yaml, p.body)
                  || (markdown == DELIMITER + "\n" + p.yaml + "\n" + DELIMITER + p.body && !("\n" <= p.body)))
  {
    if DELIMITER + "\n" <= markdown {
      var closing := IndexFrom(markdown, "\n" + DELIMITER, 4);
      CleanBefore(markdown, if closing == -1 then |markdown| else closing);
      hide Clean, IndexFrom;
      if closing != -1 {
        Reassembled(markdown, closing);
      } else {
        assert markdown[4..|markdown|] == markdown[4..];
      }
    }
  }

  lemma CleanBefore(s: string, end: nat)
    requires 4 <= end <= |s| && forall j | 4 <= j < end :: !At(s, "\n" + DELIMITER, j)
    ensures Clean(s[4..end])
  {
    var yaml := s[4..end];
    forall i ensures !At(yaml, "\n" + DELIMITER, i) {
      if 0 <= i && i + 4 <= |yaml| {
        assert yaml[i..i + 4] == s[4 + i..8 + i];
        assert !At(s, "\n" + DELIMITER, 4 + i);
      }
    }
  }

  lemma Reassembled(s: string, closing: nat)
    requires DELIMITER + "\n" <= s && closing >= 4 && At(s, "\n" + DELIMITER, closing)
    ensures var yaml, rest := s[4..closing], s[closing + 4..];
            && s == DELIMITER + "\n" + yaml + "\n" + DELIMITER + rest
            && ("\n" <= rest ==> s == Printed(yaml, rest[1..]))
  {
    assert s == s[..4] + s[4..closing] + s[closing..closing + 4] + s[closing + 4..];
    assert s[..4] == DELIMITER + "\n";
    var rest := s[closing + 4..];
    assert "\n" <= rest ==> rest == "\n" + rest[1..];
  }

  // ---------------------------------------------------------------------------
  // The YAML document, as far as the synchroniser looks at it.

  /** An entry of the rules list: a map with or without a string `skill_id`, or anything else. */
  datatype Item = Rule(skillId: string, details: string) | RuleWithoutId(details: string) | Other(text: string)

  datatype Rules = NoRules | NotAList | RuleList(items: seq<Item>)

  datatype Routing = NoRouting | NotAMap | RoutingMap(rules: Rules, details: string)

  datatype Document = Empty | NotAnObject | Object(routing: Routing, details: string)

  datatype Parse = Errors | Fine(doc: Document)

  datatype Codec = Codec(parse: string -> Parse, print_: Document -> string)

  datatype Synced = Text(markdown: string) | Failed

  /** `new Set(ids.map(trim).filter(Boolean))`: the trimmed non-empty ids, each once, in order. */
  function UniqueIds(ids: seq<string>): seq<string> {
    if ids == [] then []
    else
      var before, id := UniqueIds(ids[..|ids| - 1]), JsTrim(ids[|ids| - 1]);
      if id != "" && id !in before then before + [id] else before
  }

  function RuleIds(items: seq<Item>): set<string> {
    set i | i in items && i.Rule? :: i.skillId
  }

  function Generated(id: string): Item {
    Rule(id, "when: []")
  }

  /** The rules added for the ids that have none. */
  function Added(existing: set<string>, ids: seq<string>): seq<Item> {
    if ids == [] then []
    else Added(existing, ids[..|ids| - 1]) + if ids[|ids| - 1] in existing then [] else [Generated(ids[|ids| - 1])]
  }

  /** The rules loop: appends a skeleton for each missing id. */
  method AddMissing(items: seq<Item>, ids: seq<string>) returns (r: seq<Item>)
    ensures r == items + Added(RuleIds(items), ids)
  {
    var existing := RuleIds(items);
    r := items;
    for i := 0 to |ids|
      invariant r == items + Added(existing, ids[..i])
    {
      assert ids[..i + 1][..i] == ids[..i];
      if ids[i] !in existing {
        r := r + [Generated(ids[i])];
      }
    }
    assert ids[..|ids|] == ids;
  }

  /** The document with its routing rules completed, if it has the right shape. */
  function WithRules(doc: Document, ids: seq<string>): Parse {
    match doc
    case NotAnObject => Errors
    case Empty => Fine(Object(RoutingMap(RuleList(Added({}, ids)), ""), ""))
    case Object(NoRouting, d) => Fine(Object(RoutingMap(RuleList(Added({}, ids)), ""), d))
    case Object(NotAMap, _) => Errors
    case Object(RoutingMap(NoRules, e), d) => Fine(Object(RoutingMap(RuleList(Added({}, ids)), e), d))
    case Object(RoutingMap(NotAList, _), _) => Errors
    case Object(RoutingMap(RuleList(items), e), d) =>
      Fine(Object(RoutingMap(RuleList(items + Added(RuleIds(items), ids)), e), d))
  }

  lemma NoItems(ids: seq<string>)
    ensures [] + Added(RuleIds([]), ids) == Added({}, ids)
  {
    assert RuleIds([]) == {};
  }

  /** The text that is not front matter: what follows it, or everything. */
  function BodyOf(source: string): string {
    if SplitFrontMatter(source).Found? then SplitFrontMatter(source).parts.body else source
  }

  function YamlOf(source: string): string {
    if SplitFrontMatter(source).Found? then SplitFrontMatter(source).parts.yaml else ""
  }

  /** The document can take rules: it is empty or an object, its routing missing or a map, its rules missing or a list. */
  predicate TakesRules(doc: Document) {
    doc.Empty? || (doc.Object? && (doc.routing.NoRouting? || (doc.routing.RoutingMap? && !doc.routing.rules.NotAList?)))
  }

  function ItemsOf(doc: Document): seq<Item> {
    if doc.Object? && doc.routing.RoutingMap? && doc.routing.rules.RuleList? then doc.routing.rules.items else []
  }

  /** Document `d` is `doc` with rules added: nothing else of it changes, and every id has a rule. */
  ghost predicate Completes(doc: Document, d: Document, ids: seq<string>) {
    && d.Object? && d.routing.RoutingMap? && d.routing.rules.RuleList?
    && d.details == (if doc.Object? then doc.details else "")
    && d.routing.details == (if doc.Object? && doc.routing.RoutingMap? then doc.routing.details else "")
    && ItemsOf(doc) <= ItemsOf(d)
    && (forall i <- ItemsOf(d)[|ItemsOf(doc)|..] ::
          i.Rule? && i.skillId in ids && i.skillId !in RuleIds(ItemsOf(doc)) && i.details == "when: []")
    && (forall id <- ids :: id in RuleIds(ItemsOf(d)))
  }

  /** What the synchroniser writes: front matter with a completed document in front of the unchanged body. */
  ghost predicate Writes(codec: Codec, source: string, ids: seq<string>, d: Document, markdown: string) {
    && markdown == "---\n" + JsTrimEnd(codec.print_(d)) + "\n---\n" + BodyOf(source)
    && codec.parse(YamlOf(source)).Fine? && Completes(codec.parse(YamlOf(source)).doc, d, ids)
  }

  lemma PrintedAs(yaml: string, body: string)
    ensures Printed(yaml, body) == "---\n" + yaml + "\n---\n" + body
  {
    assert "\n" + DELIMITER + "\n" == "\n---\n";
  }

  lemma SyncedAs(codec: Codec, source: string, skillIds: seq<string>)
    ensures var ids := UniqueIds(skillIds);
            SyncedText(codec, source, skillIds)
            == if ids == [] then Text(source)
               else if SplitFrontMatter(source).Unclosed? then Failed
               else Rewritten(codec, codec.parse(YamlOf(source)), BodyOf(source), ids)
  {
    hide UniqueIds, SplitFrontMatter, Rewritten;
  }

  lemma RewrittenAs(codec: Codec, parsed: Parse, body: string, ids: seq<string>)
    ensures Rewritten(codec, parsed, body, ids)
            == if parsed.Errors? || !TakesRules(parsed.doc) then Failed
               else Text("---\n" + JsTrimEnd(codec.print_(WithRules(parsed.doc, ids).doc)) + "\n---\n" + body)
  {
    hide JsTrimEnd;
    if parsed.Fine? && TakesRules(parsed.doc) {
      PrintedAs(JsTrimEnd(codec.print_(WithRules(parsed.doc, ids).doc)), body);
    }
    hide Printed;
  }

  lemma SyncWrites(codec: Codec, source: string, skillIds: seq<string>)
    ensures var r, ids := SyncedText(codec, source, skillIds), UniqueIds(skillIds);
            var parsed := codec.parse(YamlOf(source));
            && (r.Failed? <==> ids != [] && (SplitFrontMatter(source).Unclosed? || parsed.Errors? || !TakesRules(parsed.doc)))
            && (r.Text? && ids == [] ==> r.markdown == source)
            && (r.Text? && ids != [] ==> exists d :: Writes(codec, source, ids, d, r.markdown))
  {
    var ids := UniqueIds(skillIds);
    var parsed := codec.parse(YamlOf(source));
    SyncedAs(codec, source, skillIds);
    RewrittenAs(codec, parsed, BodyOf(source), ids);
    hide SplitFrontMatter, WithRules, UniqueIds, Completes, JsTrimEnd, SyncedText, Rewritten, YamlOf, BodyOf;
    if ids != [] && !SplitFrontMatter(source).Unclosed? && parsed.Fine? && TakesRules(parsed.doc) {
      CompletesWithRules(parsed.doc, ids);
      hide TakesRules;
      assert Writes(codec, source, ids, WithRules(parsed.doc, ids).doc, SyncedText(codec, source, skillIds).markdown);
    }
  }

  lemma CompletesWithRules(doc: Document, ids: seq<string>)
    requires TakesRules(doc)
    ensures WithRules(doc, ids).Fine? && Completes(doc, WithRules(doc, ids).doc, ids)
  {
    RulesCompleted(doc, ids);
    var items := ItemsOf(doc);
    NoItems(ids);
    AddedIds(RuleIds(items), ids);
    assert RuleIds([]) == {};
    assert ItemsOf(WithRules(doc, ids).doc) == items + Added(RuleIds(items), ids);
    hide Added, RuleIds;
  }

  /** With a codec that keeps what it wrote, the result splits into that YAML text and the unchanged body, and parses to the completed document. */
  lemma SyncKeepsDocument(codec: Codec, source: string, ids: seq<string>, d: Document, markdown: string)
    requires Writes(codec, source, ids, d, markdown) && Keeps(codec, d)
    ensures SplitFrontMatter(markdown) == Found(Parts(JsTrimEnd(codec.print_(d)), BodyOf(source)))
    ensures codec.parse(YamlOf(markdown)) == Fine(d) && BodyOf(markdown) == BodyOf(source)
  {
    var yaml, body := JsTrimEnd(codec.print_(d)), BodyOf(source);
    PrintSplitIff(yaml, body);
    PrintedAs(yaml, body);
    hide SplitFrontMatter, Completes, Clean, JsTrimEnd, Printed, YamlOf, BodyOf;
    SplitParts(markdown, yaml, body);
  }

  lemma SplitParts(markdown: string, yaml: string, body: string)
    requires SplitFrontMatter(markdown) == Found(Parts(yaml, body))
    ensures YamlOf(markdown) == yaml && BodyOf(markdown) == body
  {
    hide SplitFrontMatter;
  }

  /** `syncAgentRoutingFrontmatter`. */
  method Sync(codec: Codec, source: string, skillIds: seq<string>) returns (r: Synced)
    ensures r == SyncedText(codec, source, skillIds)
    ensures r.Failed? <==>
              && UniqueIds(skillIds) != []
              && (|| SplitFrontMatter(source).Unclosed? || codec.parse(YamlOf(source)).Errors?
                  || !TakesRules(codec.parse(YamlOf(source)).doc))
    ensures UniqueIds(skillIds) == [] ==> r == Text(source)
    ensures r.Text? && UniqueIds(skillIds) != [] ==> exists d :: Writes(codec, source, UniqueIds(skillIds), d, r.markdown)
  {
    SyncWrites(codec, source, skillIds);
    hide Writes, TakesRules;
    var ids := UniqueIds(skillIds);
    if ids == [] { return Text(source); }
    var existing := SplitFrontMatter(source);
    if existing.Unclosed? { return Failed; }
    var parsed := codec.parse(if existing.Found? then existing.parts.yaml else "");
    if parsed.Errors? { return Failed; }
    var document := parsed.doc;
    if document.Empty? { document := Object(NoRouting, ""); }
    if document.NotAnObject? { return Failed; }
    var routing := document.routing;
    if routing.NoRouting? { routing := RoutingMap(RuleList([]), ""); }
    if routing.NotAMap? { return Failed; }
    var rules := routing.rules;
    if rules.NoRules? { rules := RuleList([]); }
    if rules.NotAList? { return Failed; }
    var items := AddMissing(rules.items, ids);
    NoItems(ids);
    document := Object(RoutingMap(RuleList(items), routing.details), document.details);
    r := Text(Printed(JsTrimEnd(codec.print_(document)), if existing.Found? then existing.parts.body else source));
  }

  function SyncedText(codec: Codec, source: string, skillIds: seq<string>): Synced {
    var ids := UniqueIds(skillIds);
    if ids == [] then Text(source)
    else
      match SplitFrontMatter(source)
      case Unclosed => Failed
      case Absent => Rewritten(codec, codec.parse(""), source, ids)
      case Found(p) => Rewritten(codec, codec.parse(p.yaml), p.body, ids)
  }

  function Rewritten(codec: Codec, parsed: Parse, body: string, ids: seq<string>): Synced {
    if parsed.Errors? then Failed
    else
      match WithRules(parsed.doc, ids)
      case Errors => Failed
      case Fine(doc) => Text(Printed(JsTrimEnd(codec.print_(doc)), body))
  }

  // ---------------------------------------------------------------------------
  // What synchronising promises.

  /** A codec that keeps a document: its printed text splits off cleanly and parses back. */
  ghost predicate Keeps(codec: Codec, doc: Document) {
    var yaml := JsTrimEnd(codec.print_(doc));
    Clean(yaml) && codec.parse(yaml) == Fine(doc)
  }

  lemma {:induction false} UniqueIdsDistinct(ids: seq<string>)
    ensures forall i, j | 0 <= i < j < |UniqueIds(ids)| :: UniqueIds(ids)[i] != UniqueIds(ids)[j]
    ensures forall x :: x in UniqueIds(ids) <==> x != "" && exists id <- ids :: JsTrim(id) == x
  {
    hide JsTrim;
    if ids != [] {
      UniqueIdsDistinct(ids[..|ids| - 1]);
      assert ids == ids[..|ids| - 1] + [ids[|ids| - 1]];
    }
  }

  /** In order of first occurrence: more ids only come behind. */
  lemma {:induction false} UniqueIdsInOrder(first: seq<string>, more: seq<string>)
    ensures UniqueIds(first) <= UniqueIds(first + more)
    decreases |more|
  {
    hide JsTrim;
    if more == [] {
      assert first + more == first;
    } else {
      UniqueIdsInOrder(first, more[..|more| - 1]);
      assert (first + more)[..|first + more| - 1] == first + more[..|more| - 1];
    }
  }

  /** The rules added stand in the order of the ids. */
  lemma {:induction false} AddedInOrder(existing: set<string>, a: seq<string>, b: seq<string>)
    ensures Added(existing, a + b) == Added(existing, a) + Added(existing, b)
    decreases |b|
  {
    if b == [] {
      assert a + b == a;
    } else {
      AddedInOrder(existing, a, b[..|b| - 1]);
      assert (a + b)[..|a + b| - 1] == a + b[..|b| - 1];
    }
  }

  lemma {:induction false} AddedIds(existing: set<string>, ids: seq<string>)
    ensures RuleIds(Added(existing, ids)) == (set id | id in ids && id !in existing)
    ensures |Added(existing, ids)| <= |ids|
    ensures (forall id <- ids :: id in existing) ==> Added(existing, ids) == []
    ensures forall i <- Added(existing, ids) :: i.Rule? && i.skillId in ids && i.skillId !in existing && i == Generated(i.skillId)
  {
    if ids != [] {
      var rest, last := ids[..|ids| - 1], ids[|ids| - 1];
      AddedIds(existing, rest);
      assert ids == rest + [last];
      RuleIdsConcat(Added(existing, rest), if last in existing then [] else [Generated(last)]);
      assert RuleIds([]) == {};
      assert RuleIds([Generated(last)]) == {last} by {
        assert Generated(last) in [Generated(last)];
      }
    }
  }

  lemma RuleIdsConcat(a: seq<Item>, b: seq<Item>)
    ensures RuleIds(a + b) == RuleIds(a) + RuleIds(b)
  {
    forall x ensures x in RuleIds(a + b) <==> x in RuleIds(a) || x in RuleIds(b) {
      if x in RuleIds(a) {
        var i :| i in a && i.Rule? && i.skillId == x;
        assert i in a + b;
      }
      if x in RuleIds(b) {
        var i :| i in b && i.Rule? && i.skillId == x;
        assert i in a + b;
      }
    }
  }

  /** Each missing id is added exactly once. */
  lemma {:induction false} AddedOnce(existing: set<string>, ids: seq<string>)
    requires forall i, j | 0 <= i < j < |ids| :: ids[i] != ids[j]
    ensures var added := Added(existing, ids);
            forall i, j | 0 <= i < j < |added| :: added[i] != added[j]
  {
    if ids != [] {
      var rest, last := ids[..|ids| - 1], ids[|ids| - 1];
      AddedOnce(existing, rest);
      AddedIds(existing, rest);
    }
  }

  /** Existing rules stay as a prefix, and afterwards every requested id has a rule; a second pass adds nothing. */
  lemma RulesCompleted(doc: Document, ids: seq<string>)
    requires WithRules(doc, ids).Fine?
    ensures var items := if doc.Object? && doc.routing.RoutingMap? && doc.routing.rules.RuleList? then doc.routing.rules.items else [];
            var done := WithRules(doc, ids).doc;
            && done.Object? && done.routing.RoutingMap? && done.routing.rules.RuleList?
            && items <= done.routing.rules.items
            && (forall id <- ids :: id in RuleIds(done.routing.rules.items))
            && WithRules(done, ids) == Fine(done)
  {
    var items := if doc.Object? && doc.routing.RoutingMap? && doc.routing.rules.RuleList? then doc.routing.rules.items else [];
    var done := WithRules(doc, ids).doc;
    var all := done.routing.rules.items;
    assert RuleIds([]) == {};
    assert [] + Added({}, ids) == Added({}, ids);
    assert all == items + Added(RuleIds(items), ids);
    RuleIdsConcat(items, Added(RuleIds(items), ids));
    AddedIds(RuleIds(items), ids);
    AddedIds(RuleIds(all), ids);
    assert all + [] == all;
  }

  /** The document that synchronising writes. */
  function Completed(codec: Codec, source: string, skillIds: seq<string>): Parse {
    var existing := SplitFrontMatter(source);
    var parsed := codec.parse(if existing.Found? then existing.parts.yaml else "");
    if existing.Unclosed? || parsed.Errors? then Errors else WithRules(parsed.doc, UniqueIds(skillIds))
  }

  /** Synchronising twice is synchronising once, if the codec keeps the document that was written. */
  lemma SyncIdempotent(codec: Codec, source: string, skillIds: seq<string>)
    requires SyncedText(codec, source, skillIds).Text?
    requires Completed(codec, source, skillIds).Fine? ==> Keeps(codec, Completed(codec, source, skillIds).doc)
    ensures var once := SyncedText(codec, source, skillIds).markdown;
            SyncedText(codec, once, skillIds) == Text(once)
  {
    var ids := UniqueIds(skillIds);
    if ids != [] {
      var existing := SplitFrontMatter(source);
      var parsed := codec.parse(if existing.Found? then existing.parts.yaml else "");
      var body := if existing.Found? then existing.parts.body else source;
      var done := WithRules(parsed.doc, ids).doc;
      RulesCompleted(parsed.doc, ids);
      PrintSplitIff(JsTrimEnd(codec.print_(done)), body);
      hide Clean, Printed, SplitFrontMatter, WithRules, UniqueIds;
    }
  }
}
