/**
 The grouping of path-rule rows in scripts/build_multiroute_assets.py: one item per path,
 each with the variants of its rows, built by mutating the current item row by row.
 */
module PathCatalog {
  import opened Text

  /** A row with its stripped cells, three of them rule texts. */
  datatype Row = Row(blank: bool, pathId: string, category: string, byProvince: string, merged: string, plain: string)
  {
    /** The first rule text that is not empty: by province, merged, or plain. */
    function RuleText(): string {
      if byProvince != "" then byProvince else if merged != "" then merged else plain
    }
  }

  /** No text comes from a column while an earlier one has something, and none is passed over. */
  lemma RuleTextMeans(row: Row)
    ensures row.RuleText() in {row.byProvince, row.merged, row.plain}
    ensures row.RuleText() == "" <==> row.byProvince == "" && row.merged == "" && row.plain == ""
    ensures row.byProvince != "" ==> row.RuleText() == row.byProvince
    ensures row.byProvince == "" && row.merged != "" ==> row.RuleText() == row.merged
  {}

  /** What the text scanners find in a rule text. */
  datatype Findings = Findings(factKeys: set<string>, subjects: set<string>, provinces: set<string>, regions: set<string>)
  {
    function Plus(other: Findings): Findings {
      Findings(factKeys + other.factKeys, subjects + other.subjects, provinces + other.provinces, regions + other.regions)
    }
  }

  const NOTHING := Findings({}, {}, {}, {})

  type Scanner = string -> Findings

  datatype Variant = Variant(pathId: string, category: string, index: nat, row: Row, found: Findings)

  /** A catalog item as a value. */
  datatype Item = Item(pathId: string, category: string, variants: seq<Variant>, ruleText: string, found: Findings)

  function AddText(text: string, more: string): string {
    if more == "" then text else if text == "" then more else text + "\n---\n" + more
  }

  // ---------------------------------------------------------------------------
  // The loop, over item objects that are updated in place.

  class PathItem {
    const pathId: string
    const category: string
    var variants: seq<Variant>
    var ruleText: string
    var factKeys: set<string>
    var subjects: set<string>
    var provinces: set<string>
    var regions: set<string>

    function Value(): Item
      reads this
    {
      Item(pathId, category, variants, ruleText, Findings(factKeys, subjects, provinces, regions))
    }

    constructor (pathId: string, category: string)
      ensures Value() == Item(pathId, category, [], "", NOTHING)
    {
      this.pathId, this.category := pathId, category;
      variants, ruleText := [], "";
      factKeys, subjects, provinces, regions := {}, {}, {}, {};
    }

    /** Appends the variant of a row and folds its text and findings into the item. */
    method Add(row: Row, index: nat, scan: Scanner)
      modifies this
      ensures Value() == WithVariant(old(Value()), Variant(pathId, category, index, row, scan(row.RuleText())))
    {
      var found := scan(row.RuleText());
      variants := variants + [Variant(pathId, category, index, row, found)];
      ruleText := AddText(ruleText, row.RuleText());
      factKeys := factKeys + found.factKeys;
      subjects := subjects + found.subjects;
      provinces := provinces + found.provinces;
      regions := regions + found.regions;
    }
  }

  function WithVariant(item: Item, v: Variant): Item {
    Item(item.pathId, item.category, item.variants + [v], AddText(item.ruleText, v.row.RuleText()), item.found.Plus(v.found))
  }

  function Values(items: seq<PathItem>): seq<Item>
    reads items
  {
    seq(|items|, i requires 0 <= i < |items| reads items => items[i].Value())
  }

  /** `current` is the last item, and `index` the number of its variants. */
  predicate Positioned(items: seq<PathItem>, current: PathItem?, index: nat)
    reads items
  {
    && (forall i, j | 0 <= i < j < |items| :: items[i] != items[j])
    && if items == [] then current == null else current == items[|items| - 1] && index == |current.variants|
  }

  /** The rows of one sheet, after the header row. */
  method ParseSheet(rows: seq<Row>, scan: Scanner) returns (items: seq<PathItem>)
    ensures (forall x <- items :: fresh(x)) && forall i, j | 0 <= i < j < |items| :: items[i] != items[j]
    ensures Values(items) == Grouped(rows, scan)
  {
    items := [];
    var current: PathItem? := null;
    var index := 0;
    for i := 0 to |rows|
      invariant fresh(items)
      invariant forall x <- items :: fresh(x)
      invariant Positioned(items, current, index)
      invariant Values(items) == Grouped(rows[..i], scan)
    {
      hide NextItems, Positioned, Values;
      assert rows[..i + 1][..i] == rows[..i];
      items, current, index := ParseRow(items, current, index, rows[i], scan);
    }
    assert rows[..|rows|] == rows;
  }

  /** The non-empty rule texts of the variants, in order. */
  function TextsOf(variants: seq<Variant>): seq<string> {
    if variants == [] then []
    else
      var text := variants[|variants| - 1].row.RuleText();
      TextsOf(variants[..|variants| - 1]) + if text != "" then [text] else []
  }

  /** The text of an item is the join of its variants' texts. */
  lemma {:induction false} TextIsJoin(variants: seq<Variant>)
    ensures AllText(variants) == Join(TextsOf(variants), "\n---\n")
    ensures (forall t <- TextsOf(variants) :: t != "") && (AllText(variants) == "" <==> TextsOf(variants) == [])
  {
    if variants != [] {
      var rest, text := variants[..|variants| - 1], variants[|variants| - 1].row.RuleText();
      TextIsJoin(rest);
      if text == "" {
        assert TextsOf(variants) == TextsOf(rest);
      } else if TextsOf(rest) != [] {
        JoinEnd(TextsOf(rest), text, "\n---\n");
      } else {
        assert [] + [text] == [text];
      }
    }
  }

  lemma {:induction false} JoinEnd(parts: seq<string>, last: string, sep: string)
    requires parts != []
    ensures Join(parts + [last], sep) == Join(parts, sep) + sep + last
  {
    if |parts| == 1 {
      assert (parts + [last])[1..] == [last];
    } else {
      JoinEnd(parts[1..], last, sep);
      assert (parts + [last])[1..] == parts[1..] + [last];
    }
  }

  /** The findings of an item are those of its variants, each kind by itself. */
  lemma {:induction false} FoundIsUnion(variants: seq<Variant>, x: string)
    ensures x in AllFound(variants).factKeys <==> exists v <- variants :: x in v.found.factKeys
    ensures x in AllFound(variants).subjects <==> exists v <- variants :: x in v.found.subjects
    ensures x in AllFound(variants).provinces <==> exists v <- variants :: x in v.found.provinces
    ensures x in AllFound(variants).regions <==> exists v <- variants :: x in v.found.regions
  {
    if variants != [] {
      var rest, last := variants[..|variants| - 1], variants[|variants| - 1];
      FoundIsUnion(rest, x);
      assert variants == rest + [last];
    }
  }

  /** A sheet: its name, and its rows after the header row. */
  datatype Sheet = Sheet(name: string, rows: seq<Row>)

  /** `re.match(r"^\d+\.", name)`: digits and a point at the beginning. */
  predicate IsNumbered(name: string) {
    exists k | 0 < k < |name| :: name[k] == '.' && forall c <- name[..k] :: '0' <= c <= '9'
  }

  /** Digits and then a point, and nothing else in between. */
  lemma NumberedIff(digits: string, rest: string)
    requires (forall c <- digits :: '0' <= c <= '9') && (rest != "" ==> !('0' <= rest[0] <= '9'))
    ensures IsNumbered(digits + rest) <==> digits != "" && rest != "" && rest[0] == '.'
  {
    var name, n := digits + rest, |digits|;
    if digits != "" && rest != "" && rest[0] == '.' {
      assert name[..n] == digits && name[n] == '.';
    }
    forall k | 0 < k < |name| && name[k] == '.' && forall c <- name[..k] :: '0' <= c <= '9' ensures k == n && rest != "" {
      if k < n {
        DigitAt(digits, rest, k);
      } else if k > n {
        DigitBefore(name, k, n);
      }
    }
  }

  lemma DigitAt(digits: string, rest: string, k: nat)
    requires (forall c <- digits :: '0' <= c <= '9') && k < |digits|
    ensures '0' <= (digits + rest)[k] <= '9'
  {
    assert (digits + rest)[k] == digits[k] && digits[k] in digits;
  }

  lemma DigitBefore(name: string, k: nat, n: nat)
    requires n < k <= |name| && forall c <- name[..k] :: '0' <= c <= '9'
    ensures '0' <= name[n] <= '9'
  {
    assert name[n] == name[..k][n] && name[..k][n] in name[..k];
  }

  /** `parse_path_catalog`: the numbered sheets, one after another. */
  method ParseCatalog(sheets: seq<Sheet>, scan: Scanner) returns (items: seq<PathItem>)
    ensures Values(items) == GroupedSheets(sheets, scan)
  {
    items := [];
    for i := 0 to |sheets|
      invariant Values(items) == GroupedSheets(sheets[..i], scan)
    {
      assert sheets[..i + 1][..i] == sheets[..i];
      if IsNumbered(sheets[i].name) {
        ghost var before := Values(items);
        var more := ParseSheet(sheets[i].rows, scan);
        assert Values(items) == before;
        items := items + more;
        assert Values(items) == before + Values(more);
      }
    }
    assert sheets[..|sheets|] == sheets;
  }

  /** The loop body. */
  method ParseRow(items: seq<PathItem>, current: PathItem?, index: nat, row: Row, scan: Scanner)
    returns (next: seq<PathItem>, last: PathItem?, count: nat)
    requires Positioned(items, current, index)
    modifies items
    ensures Positioned(next, last, count)
    ensures forall k | 0 <= k < |next| :: next[k] in items || fresh(next[k])
    ensures Values(next) == NextItems(old(Values(items)), row, scan)
  {
    assert items != [] ==> Values(items)[|items| - 1] == current.Value();
    next, last, count := items, current, index;
    if row.blank { return; }
    var pathId := if row.pathId != "" then row.pathId else if current != null then current.pathId else "";
    var category := if row.category != "" then row.category else if current != null then current.category else "";
    if pathId == "" || category == "" { return; }
    hide NextItems;
    next, last, count := PlaceRow(items, current, index, row, pathId, category, scan);
  }

  /** The part of the loop body after the row is accepted: opens a new item if needed, and adds the row's variant. */
  method PlaceRow(items: seq<PathItem>, current: PathItem?, index: nat, row: Row, pathId: string, category: string, scan: Scanner)
    returns (next: seq<PathItem>, last: PathItem, count: nat)
    requires Positioned(items, current, index) && !row.blank
    requires pathId == PathOf(Values(items), row) != "" && category == CategoryOf(Values(items), row) != ""
    modifies items
    ensures Positioned(next, last, count) && next != []
    ensures forall k | 0 <= k < |next| :: next[k] in items || fresh(next[k])
    ensures Values(next) == NextItems(old(Values(items)), row, scan)
  {
    ghost var before := Values(items);
    assert items != [] ==> before[|items| - 1] == current.Value();
    if current == null || row.pathId != "" || (row.category != "" && row.category != current.category) {
      last := new PathItem(pathId, category);
      next, count := items + [last], 0;
    } else {
      next, last, count := items, current, index;
    }
    ghost var open := Values(next);
    assert open == if Starts(before, row) then before + [Item(pathId, category, [], "", NOTHING)] else before;
    Appended(before, open, row, scan);
    hide NextItems, WithVariant;
    count := count + 1;
    last.Add(row, count, scan);
    assert Values(next) == open[|open| - 1 := last.Value()];
  }

  // ---------------------------------------------------------------------------
  // The same on values.

  /** What a row inherits from the item before it. */
  function PathOf(items: seq<Item>, row: Row): string {
    if row.pathId != "" then row.pathId else if items != [] then items[|items| - 1].pathId else ""
  }

  function CategoryOf(items: seq<Item>, row: Row): string {
    if row.category != "" then row.category else if items != [] then items[|items| - 1].category else ""
  }

  predicate Starts(items: seq<Item>, row: Row) {
    items == [] || row.pathId != "" || (row.category != "" && row.category != items[|items| - 1].category)
  }

  function NextItems(items: seq<Item>, row: Row, scan: Scanner): seq<Item> {
    var pathId, category := PathOf(items, row), CategoryOf(items, row);
    if row.blank || pathId == "" || category == "" then items
    else if Starts(items, row) then
      items + [WithVariant(Item(pathId, category, [], "", NOTHING), Variant(pathId, category, 1, row, scan(row.RuleText())))]
    else
      var last := items[|items| - 1];
      items[..|items| - 1] +
      [WithVariant(last, Variant(last.pathId, last.category, |last.variants| + 1, row, scan(row.RuleText())))]
  }

  /** `NextItems` in the two steps of the loop: open a new item if one starts, then add to the last one. */
  lemma Appended(before: seq<Item>, open: seq<Item>, row: Row, scan: Scanner)
    requires !row.blank && PathOf(before, row) != "" && CategoryOf(before, row) != ""
    requires open == if Starts(before, row) then before + [Item(PathOf(before, row), CategoryOf(before, row), [], "", NOTHING)] else before
    ensures open != []
    ensures var last := open[|open| - 1];
            NextItems(before, row, scan)
            == open[|open| - 1 := WithVariant(last, Variant(last.pathId, last.category, |last.variants| + 1, row, scan(row.RuleText())))]
  {}

  function Grouped(rows: seq<Row>, scan: Scanner): seq<Item> {
    if rows == [] then [] else NextItems(Grouped(rows[..|rows| - 1], scan), rows[|rows| - 1], scan)
  }

  // ---------------------------------------------------------------------------
  // Grouping loses nothing.

  /** A row with the path and category it takes over from above: filled down, row by row. */
  datatype Filled = Filled(row: Row, pathId: string, category: string)

  /** The reference: fill path and category down, and keep the rows that then have both. */
  function FillDown(rows: seq<Row>): seq<Filled> {
    if rows == [] then [] else FillRow(FillDown(rows[..|rows| - 1]), rows[|rows| - 1])
  }

  function FillRow(above: seq<Filled>, row: Row): seq<Filled> {
    var pathId := if row.pathId != "" then row.pathId else if above != [] then above[|above| - 1].pathId else "";
    var category := if row.category != "" then row.category else if above != [] then above[|above| - 1].category else "";
    if row.blank || pathId == "" || category == "" then above else above + [Filled(row, pathId, category)]
  }

  /** Which rows are accepted and as what: a blank one never, a complete one always, and an incomplete one with what it lacks from above. */
  lemma FillRowMeans(above: seq<Filled>, row: Row)
    ensures row.blank ==> FillRow(above, row) == above
    ensures !row.blank && row.pathId != "" && row.category != "" ==>
              FillRow(above, row) == above + [Filled(row, row.pathId, row.category)]
    ensures above == [] && (row.pathId == "" || row.category == "") ==> FillRow(above, row) == []
    ensures !row.blank && above != [] && above[|above| - 1].pathId != "" && above[|above| - 1].category != "" ==>
              var last := above[|above| - 1];
              FillRow(above, row)
              == above + [Filled(row, if row.pathId == "" then last.pathId else row.pathId,
                                 if row.category == "" then last.category else row.category)]
  {}

  function VariantRows(variants: seq<Variant>): seq<Filled> {
    seq(|variants|, i requires 0 <= i < |variants| => Filled(variants[i].row, variants[i].pathId, variants[i].category))
  }

  /** All variants of all items, in order. */
  function Flattened(items: seq<Item>): seq<Filled> {
    if items == [] then [] else Flattened(items[..|items| - 1]) + VariantRows(items[|items| - 1].variants)
  }

  function AllFound(variants: seq<Variant>): Findings {
    if variants == [] then NOTHING else AllFound(variants[..|variants| - 1]).Plus(variants[|variants| - 1].found)
  }

  function AllText(variants: seq<Variant>): string {
    if variants == [] then "" else AddText(AllText(variants[..|variants| - 1]), variants[|variants| - 1].row.RuleText())
  }

  /** An item agrees with its variants. */
  predicate ItemHolds(item: Item, scan: Scanner) {
    && item.pathId != "" && item.category != "" && item.variants != []
    && (forall k | 0 <= k < |item.variants| ::
          var v := item.variants[k];
          v.pathId == item.pathId && v.category == item.category && v.index == k + 1 && v.found == scan(v.row.RuleText()))
    && (forall k | 1 <= k < |item.variants| ::
          item.variants[k].row.pathId == "" && item.variants[k].row.category in {"", item.category})
    && item.found == AllFound(item.variants)
    && item.ruleText == AllText(item.variants)
  }

  lemma AddKeepsItem(item: Item, v: Variant, scan: Scanner)
    requires item.variants == [] ==> item.ruleText == "" && item.found == NOTHING && item.pathId != "" && item.category != ""
    requires item.variants != [] ==> ItemHolds(item, scan) && v.row.pathId == "" && v.row.category in {"", item.category}
    requires v.pathId == item.pathId && v.category == item.category && v.index == |item.variants| + 1 && v.found == scan(v.row.RuleText())
    ensures ItemHolds(WithVariant(item, v), scan)
  {
    var all := item.variants + [v];
    assert all[..|all| - 1] == item.variants;
  }

  /**
   Every item agrees with its variants: ids, categories, numbering 1..n, the joined text and
   exactly the union of the findings; and the variants of all items, in order, are the
   accepted rows with what they take over from above.
   */
  lemma {:induction false} GroupingLosesNothing(rows: seq<Row>, scan: Scanner)
    ensures forall item <- Grouped(rows, scan) :: ItemHolds(item, scan)
    ensures Flattened(Grouped(rows, scan)) == FillDown(rows)
  {
    hide ItemHolds, NextItems, FillRow;
    if rows != [] {
      var rest := rows[..|rows| - 1];
      GroupingLosesNothing(rest, scan);
      OneRow(Grouped(rest, scan), rows[|rows| - 1], scan);
    }
  }

  lemma OneRow(items: seq<Item>, row: Row, scan: Scanner)
    requires forall item <- items :: ItemHolds(item, scan)
    ensures forall item <- NextItems(items, row, scan) :: ItemHolds(item, scan)
    ensures Flattened(NextItems(items, row, scan)) == FillRow(Flattened(items), row)
  {
    LastFilled(items, scan);
    hide ItemHolds, Flattened;
    if !row.blank && PathOf(items, row) != "" && CategoryOf(items, row) != "" {
      hide NextItems;
      OneMoreRow(items, row, scan);
    }
  }

  lemma OneVariant(init: seq<Item>, item: Item, v: Variant)
    ensures Flattened(init + [WithVariant(item, v)])
         == Flattened(init) + VariantRows(item.variants) + [Filled(v.row, v.pathId, v.category)]
  {
    var all := init + [WithVariant(item, v)];
    assert all[..|all| - 1] == init;
    assert VariantRows(item.variants + [v]) == VariantRows(item.variants) + [Filled(v.row, v.pathId, v.category)];
  }

  /** An accepted row adds a variant to `item`, which is a new one or the last one. */
  lemma Placed(items: seq<Item>, row: Row, scan: Scanner) returns (init: seq<Item>, item: Item, v: Variant)
    requires !row.blank && PathOf(items, row) != "" && CategoryOf(items, row) != ""
    ensures NextItems(items, row, scan) == init + [WithVariant(item, v)]
    ensures v == Variant(item.pathId, item.category, |item.variants| + 1, row, scan(row.RuleText()))
    ensures item.pathId == PathOf(items, row) && item.category == CategoryOf(items, row)
    ensures if Starts(items, row) then init == items && item == Item(item.pathId, item.category, [], "", NOTHING)
            else items == init + [item] && row.pathId == "" && row.category in {"", item.category}
  {
    if Starts(items, row) {
      init, item := items, Item(PathOf(items, row), CategoryOf(items, row), [], "", NOTHING);
    } else {
      init, item := items[..|items| - 1], items[|items| - 1];
    }
    v := Variant(item.pathId, item.category, |item.variants| + 1, row, scan(row.RuleText()));
  }

  /** One accepted row. */
  lemma OneMoreRow(items: seq<Item>, row: Row, scan: Scanner)
    requires forall item <- items :: ItemHolds(item, scan)
    requires !row.blank && PathOf(items, row) != "" && CategoryOf(items, row) != ""
    ensures var next := NextItems(items, row, scan);
            && next != [] && (forall item <- next :: ItemHolds(item, scan))
            && Flattened(next) == Flattened(items) + [Filled(row, PathOf(items, row), CategoryOf(items, row))]
  {
    var init, item, v := Placed(items, row, scan);
    hide NextItems, PathOf, CategoryOf;
    OneVariant(init, item, v);
    if Starts(items, row) {
      AddKeepsItem(item, v, scan);
    } else {
      assert item in items && ItemHolds(item, scan);
      AddKeepsItem(item, v, scan);
      assert items[..|items| - 1] == init;
    }
    hide Starts, ItemHolds, WithVariant;
  }

  function GroupedSheets(sheets: seq<Sheet>, scan: Scanner): seq<Item> {
    if sheets == [] then []
    else
      var last := sheets[|sheets| - 1];
      GroupedSheets(sheets[..|sheets| - 1], scan) + if IsNumbered(last.name) then Grouped(last.rows, scan) else []
  }

  /** Filling down starts anew on every sheet. */
  function FillDownSheets(sheets: seq<Sheet>): seq<Filled> {
    if sheets == [] then []
    else
      var last := sheets[|sheets| - 1];
      FillDownSheets(sheets[..|sheets| - 1]) + if IsNumbered(last.name) then FillDown(last.rows) else []
  }

  lemma FlattenedLast(items: seq<Item>)
    requires items != []
    ensures Flattened(items) == Flattened(items[..|items| - 1]) + VariantRows(items[|items| - 1].variants)
  {}

  lemma {:induction false} FlattenedConcat(a: seq<Item>, b: seq<Item>)
    ensures Flattened(a + b) == Flattened(a) + Flattened(b)
  {
    if b == [] {
      assert a + b == a;
    } else {
      FlattenedLast(a + b);
      FlattenedLast(b);
      hide Flattened, VariantRows;
      FlattenedConcat(a, b[..|b| - 1]);
      assert (a + b)[..|a + b| - 1] == a + b[..|b| - 1];
    }
  }

  /** The same for the whole workbook: nothing is carried over from one sheet to the next. */
  lemma {:induction false} CatalogLosesNothing(sheets: seq<Sheet>, scan: Scanner)
    ensures forall item <- GroupedSheets(sheets, scan) :: ItemHolds(item, scan)
    ensures Flattened(GroupedSheets(sheets, scan)) == FillDownSheets(sheets)
  {
    hide ItemHolds, Grouped, FillDown, IsNumbered;
    if sheets != [] {
      var rest, last := sheets[..|sheets| - 1], sheets[|sheets| - 1];
      CatalogLosesNothing(rest, scan);
      GroupingLosesNothing(last.rows, scan);
      FlattenedConcat(GroupedSheets(rest, scan), if IsNumbered(last.name) then Grouped(last.rows, scan) else []);
    }
  }

  /** The last accepted row carries the path and category of the last item. */
  lemma LastFilled(items: seq<Item>, scan: Scanner)
    requires forall item <- items :: ItemHolds(item, scan)
    ensures items != [] ==>
              var all := Flattened(items);
              all != [] && all[|all| - 1].pathId == items[|items| - 1].pathId && all[|all| - 1].category == items[|items| - 1].category
    ensures items == [] <==> Flattened(items) == []
  {
    if items != [] {
      assert items[|items| - 1] in items;
    }
  }

  /** A new item starts only where a row names a path, changes the category, or nothing came before. */
  lemma {:induction false} ItemsSplitOnlyWhereNamed(rows: seq<Row>, scan: Scanner, k: nat)
    requires 0 < k < |Grouped(rows, scan)|
    ensures SplitsAt(Grouped(rows, scan), k)
  {
    var rest := rows[..|rows| - 1];
    var items := Grouped(rest, scan);
    GroupingLosesNothing(rest, scan);
    if k < |items| {
      ItemsSplitOnlyWhereNamed(rest, scan, k);
    }
    SplitStep(items, rows[|rows| - 1], scan, k);
  }

  /** The first row of item `k` names a path or a category other than that of the item before. */
  predicate SplitsAt(items: seq<Item>, k: nat)
    requires 0 < k < |items|
  {
    && items[k].variants != []
    && (items[k].variants[0].row.pathId != "" || items[k].variants[0].row.category !in {"", items[k - 1].category})
  }

  lemma SplitStep(items: seq<Item>, row: Row, scan: Scanner, k: nat)
    requires forall item <- items :: ItemHolds(item, scan)
    requires 0 < k < |NextItems(items, row, scan)| && (k < |items| ==> SplitsAt(items, k))
    ensures SplitsAt(NextItems(items, row, scan), k)
  {
    if k < |items| { assert items[k] in items; }
  }
}
