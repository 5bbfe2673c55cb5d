/**
 * The dropdown side of the search: the items of a dropdown, the per-dropdown
 * index of normalized item records, filtering, highlighting and keyboard
 * navigation.
 *
 * An item's DOM subtree is seen as a flat list of segments: plain text nodes
 * and `gc-highlight` spans, each span holding one text node. The item's
 * `textContent` is the concatenation of the segments' texts.
 */
module DropdownSearch {
  import opened JsString
  import opened ReadingDictionary
  import opened RomajiVariants
  import opened QueryPatterns

  /** A text node of an item (`Plain`) or a `<span class="gc-highlight">` around one (`Mark`). */
  datatype Segment = Plain(text: string) | Mark(text: string)

  /** An option element of a dropdown. */
  class Item {
    var segments: seq<Segment>
    /** The `data-gc-original-text` attribute. */
    var originalText: Option<string>
    /** `style.display == "none"`; a hidden item has no `offsetParent`. */
    var hidden: bool
    /** The `gc-active` class. */
    var active: bool

    constructor (segments: seq<Segment>)
      ensures this.segments == segments && originalText == None && !hidden && !active
    {
      this.segments := segments;
      originalText := None;
      hidden := false;
      active := false;
    }
  }

  /** A listbox: its option items (what `getDropdownItems` returns) and the value of its search box. */
  class Dropdown {
    var items: seq<Item>
    var input: string

    predicate Valid()
      reads this
    {
      NoDup(items)
    }

    constructor (items: seq<Item>)
      requires NoDup(items)
      ensures Valid() && this.items == items && input == ""
    {
      this.items := items;
      input := "";
    }
  }

  /** The record `getNormalizedItems` builds for one item. */
  datatype NormalizedItem = NormalizedItem(
    element: Item,
    original: string,
    hiragana: string,
    romaji: string,
    romajiVariants: seq<string>,
    normalized: string)

  datatype Key = ArrowDown | ArrowUp | Escape | OtherKey

  // ---------------------------------------------------------------- text

  /** `textContent` */
  function TextOf(segs: seq<Segment>): string {
    if segs == [] then "" else segs[0].text + TextOf(segs[1..])
  }

  lemma {:induction false} TextOfAppend(a: seq<Segment>, b: seq<Segment>)
    ensures TextOf(a + b) == TextOf(a) + TextOf(b)
    decreases |a|
  {
    if a == [] {
      assert a + b == b;
    } else {
      assert (a + b)[1..] == a[1..] + b;
      TextOfAppend(a[1..], b);
    }
  }

  /**
   * Every highlight span replaced by a text node with its text: no span is
   * left, each node keeps its place and its text, and so the item's text is kept.
   */
  function Unmarked(segs: seq<Segment>): (r: seq<Segment>)
    ensures |r| == |segs|
    ensures forall k :: 0 <= k < |r| ==> r[k].Plain? && r[k].text == segs[k].text
    ensures TextOf(r) == TextOf(segs)
  {
    if segs == [] then []
    else
      var rest := Unmarked(segs[1..]);
      assert ([Plain(segs[0].text)] + rest)[1..] == rest;
      [Plain(segs[0].text)] + rest
  }

  /** A single text node holding `t`, or nothing when `t` is empty. */
  function Unwrapped(t: string): seq<Segment> {
    if t == "" then [] else [Plain(t)]
  }

  /**
   * `Node.normalize()`: adjacent text nodes merge and empty text nodes go;
   * spans stay where they are.
   */
  function Normalize(segs: seq<Segment>): (r: seq<Segment>)
    ensures TextOf(r) == TextOf(segs)
    ensures |r| <= |segs|
    ensures forall k :: 0 <= k < |r| && r[k].Plain? ==> r[k].text != ""
    ensures forall k :: 0 <= k < |r| - 1 ==> !(r[k].Plain? && r[k + 1].Plain?)
  {
    if segs == [] then []
    else
      var rest := Normalize(segs[1..]);
      match segs[0]
      case Mark(t) => [Mark(t)] + rest
      case Plain(t) =>
        if t == "" then rest
        else if rest != [] && rest[0].Plain? then
          assert rest == [rest[0]] + rest[1..];
          [Plain(t + rest[0].text)] + rest[1..]
        else [Plain(t)] + rest
  }

  /** Without highlight spans, normalizing leaves one text node with the whole text. */
  lemma {:induction false} NormalizePlain(segs: seq<Segment>)
    requires forall k :: 0 <= k < |segs| ==> segs[k].Plain?
    ensures Normalize(segs) == Unwrapped(TextOf(segs))
  {
    if segs != [] {
      var t := segs[0].text;
      NormalizePlain(segs[1..]);
      var rest := Normalize(segs[1..]);
      assert segs[0] == Plain(t);
      assert TextOf(segs) == t + TextOf(segs[1..]);
      if t == "" {
        assert Normalize(segs) == rest;
      } else if rest != [] {
        assert rest == [Plain(TextOf(segs[1..]))];
        assert Normalize(segs) == [Plain(t + TextOf(segs[1..]))];
      } else {
        assert TextOf(segs[1..]) == "";
        assert TextOf(segs) == t;
        assert Normalize(segs) == [Plain(t)];
      }
    }
  }

  // ---------------------------------------------------------------- highlight

  /** The tree walker of `highlightText` accepts text nodes outside highlight spans whose trimmed text is non-empty. */
  predicate Accepted(seg: Segment) {
    seg.Plain? && Trim(seg.text) != ""
  }

  /** `t` split at the match of length `n` at `i`: before (if non-empty), the highlight span, after (if non-empty). */
  function SplitAt(t: string, i: nat, n: nat): (r: seq<Segment>)
    ensures TextOf(r) == t
  {
    var before := Slice(t, 0, i);
    var match_ := Slice(t, i, i + n);
    var after := SliceFrom(t, i + n);
    var r := (if before != "" then [Plain(before)] else []) + [Mark(match_)] + (if after != "" then [Plain(after)] else []);
    TextOfAppend((if before != "" then [Plain(before)] else []) + [Mark(match_)], if after != "" then [Plain(after)] else []);
    TextOfAppend(if before != "" then [Plain(before)] else [], [Mark(match_)]);
    assert before + match_ + after == t;
    r
  }

  /** What `highlightText` does to one segment. */
  function HighlightSegment(conv: Converter, seg: Segment, query: string): (r: seq<Segment>)
    ensures TextOf(r) == seg.text
    ensures !Accepted(seg) || IndexOf(conv.toLower(seg.text), query, 0) == -1 ==> r == [seg]
  {
    if !Accepted(seg) then [seg]
    else
      var i := IndexOf(conv.toLower(seg.text), query, 0);
      if i == -1 then [seg] else SplitAt(seg.text, i, |query|)
  }

  /** `highlightText` over all segments of an item (with a non-empty query). */
  function Highlighted(conv: Converter, segs: seq<Segment>, query: string): (r: seq<Segment>)
    ensures TextOf(r) == TextOf(segs)
  {
    if segs == [] then []
    else
      var last := segs[|segs| - 1];
      var init := segs[..|segs| - 1];
      assert segs == init + [last];
      TextOfAppend(init, [last]);
      TextOfAppend(Highlighted(conv, init, query), HighlightSegment(conv, last, query));
      Highlighted(conv, init, query) + HighlightSegment(conv, last, query)
  }

  /**
   * `r` shows `t` with exactly one highlight span, holding the `n` characters
   * at `i`, preceded by exactly the text before them.
   */
  predicate MarkedAt(r: seq<Segment>, t: string, i: nat, n: nat)
    requires i + n <= |t|
  {
    exists m :: 0 <= m < |r| && r[m] == Mark(t[i..i + n]) && TextOf(r[..m]) == t[..i]
      && (forall k :: 0 <= k < |r| && k != m ==> r[k].Plain?)
  }

  /**
   * The highlighted piece of an accepted text node starts at the first index
   * of the query in the lower-cased text and has the query's length, when
   * lower-casing keeps the length; the text before it is kept in front of it.
   */
  lemma HighlightMatch(conv: Converter, t: string, query: string)
    requires Accepted(Plain(t)) && |conv.toLower(t)| == |t|
    requires Contains(conv.toLower(t), query)
    ensures var i := IndexOf(conv.toLower(t), query, 0);
      && OccursAt(conv.toLower(t), query, i)
      && (forall k :: 0 <= k < i ==> !OccursAt(conv.toLower(t), query, k))
      && i + |query| <= |t|
      && MarkedAt(HighlightSegment(conv, Plain(t), query), t, i, |query|)
  {
    var i := IndexOf(conv.toLower(t), query, 0);
    IndexOfFirst(conv.toLower(t), query, 0);
    assert HighlightSegment(conv, Plain(t), query) == SplitAt(t, i, |query|);
    SplitAtMatch(t, i, |query|);
  }

  /** The split of `t` at a match inside it: one span with the match, preceded by exactly the text before it. */
  lemma SplitAtMatch(t: string, i: nat, n: nat)
    requires i + n <= |t|
    ensures MarkedAt(SplitAt(t, i, n), t, i, n)
  {
    var r := SplitAt(t, i, n);
    var before, match_, after := Slice(t, 0, i), Slice(t, i, i + n), SliceFrom(t, i + n);
    assert before == t[..i] && match_ == t[i..i + n];
    var head := if before != "" then [Plain(before)] else [];
    var tail := if after != "" then [Plain(after)] else [];
    assert r == head + [Mark(match_)] + tail;
    var m := |head|;
    assert r[m] == Mark(t[i..i + n]);
    assert r[..m] == head;
    assert TextOf(head) == before by {
      if before != "" {
        assert TextOf(head) == before + TextOf([]);
      }
    }
    assert forall k :: 0 <= k < |r| && k != m ==> r[k].Plain?;
  }

  /** Removing the highlights leaves one text node with the item's whole text. */
  lemma UnmarkedNormalized(segs: seq<Segment>)
    ensures Normalize(Unmarked(segs)) == Unwrapped(TextOf(segs))
  {
    NormalizePlain(Unmarked(segs));
  }

  /** Removing the highlights after highlighting gives back the item's text as it was before. */
  lemma RemoveAfterHighlight(conv: Converter, segs: seq<Segment>, query: string)
    ensures Normalize(Unmarked(Highlighted(conv, segs, query))) == Unwrapped(TextOf(segs))
  {
    UnmarkedNormalized(Highlighted(conv, segs, query));
  }

  // ---------------------------------------------------------------- item records

  /**
   * `converted.replace(/[^぀-ゟ]/g, "")`: every hiragana character is kept,
   * as often as it occurs, and nothing else.
   */
  function HiraganaOnly(s: string): (r: string)
    ensures |r| <= |s|
    ensures forall k :: 0 <= k < |r| ==> IsHiragana(r[k])
    ensures forall c {:trigger multiset(r)[c]} :: IsHiragana(c) ==> multiset(r)[c] == multiset(s)[c]
  {
    if s == [] then []
    else
      assert s == [s[0]] + s[1..];
      (if IsHiragana(s[0]) then [s[0]] else []) + HiraganaOnly(s[1..])
  }

  /**
   * The removal works character by character and keeps the order: the
   * hiragana of a concatenation are those of each part, one after the other.
   */
  lemma {:induction false} HiraganaOnlyAppend(a: string, b: string)
    ensures HiraganaOnly(a + b) == HiraganaOnly(a) + HiraganaOnly(b)
    decreases |a|
  {
    if a == [] {
      assert a + b == b;
      assert HiraganaOnly(a) == [];
    } else {
      var head := if IsHiragana(a[0]) then [a[0]] else [];
      assert (a + b)[0] == a[0] && (a + b)[1..] == a[1..] + b;
      assert HiraganaOnly(a + b) == head + HiraganaOnly(a[1..] + b);
      HiraganaOnlyAppend(a[1..], b);
      assert HiraganaOnly(a) == head + HiraganaOnly(a[1..]);
      assert head + (HiraganaOnly(a[1..]) + HiraganaOnly(b)) == (head + HiraganaOnly(a[1..])) + HiraganaOnly(b);
    }
  }

  /** A single character is kept exactly when it is hiragana. */
  lemma HiraganaOnlyChar(c: char)
    ensures HiraganaOnly([c]) == if IsHiragana(c) then [c] else []
  {
    assert [c][1..] == [];
  }

  /**
   * `extractAllHiraganaFromText`: the hiragana of the text converted with
   * romaji passed through, and nothing else.
   */
  function ExtractAllHiragana(conv: Converter, text: string): (r: string)
    ensures forall k :: 0 <= k < |r| ==> IsHiragana(r[k])
    ensures forall c :: IsHiragana(c) ==> multiset(r)[c] == multiset(conv.toHiraganaPassRomaji(text))[c]
  {
    HiraganaOnly(conv.toHiraganaPassRomaji(text))
  }

  /** The record `getNormalizedItems` makes for element `el` whose text is `text`. */
  function RecordFor(conv: Converter, rules: seq<Rule>, el: Item, text: string): NormalizedItem
    requires ValidRules(rules)
  {
    var normalizedText := conv.nfkc(text);
    var textWithReading := GetReadingWithFallback(conv, normalizedText);
    var allHiragana := ExtractAllHiragana(conv, textWithReading);
    var finalHiragana := if allHiragana != "" then allHiragana else conv.toHiragana(textWithReading);
    var romaji := conv.toLower(conv.toRomaji(finalHiragana));
    NormalizedItem(el, text, finalHiragana, romaji,
      RomajiVariants.RomajiVariants(romaji, rules), conv.toLower(normalizedText))
  }

  /**
   * A record keeps its element and text; its romaji heads its duplicate-free
   * variant list; its hiragana is the extracted hiragana whenever that is
   * non-empty, and then holds only hiragana.
   */
  lemma RecordSpec(conv: Converter, rules: seq<Rule>, el: Item, text: string)
    requires ValidRules(rules)
    ensures var rec := RecordFor(conv, rules, el, text);
      && rec.element == el && rec.original == text
      && rec.romaji in rec.romajiVariants && rec.romajiVariants[0] == rec.romaji && NoDup(rec.romajiVariants)
      && rec.normalized == conv.toLower(conv.nfkc(text))
      && var extracted := ExtractAllHiragana(conv, GetReadingWithFallback(conv, conv.nfkc(text)));
         (extracted != "" ==> rec.hiragana == extracted && forall k :: 0 <= k < |rec.hiragana| ==> IsHiragana(rec.hiragana[k]))
  {
    var rec := RecordFor(conv, rules, el, text);
    RomajiVariantsSpec(rec.romaji, rules);
  }

  /** Records that follow `RecordFor` item by item still do after one more such record. */
  lemma RecordsExtend(conv: Converter, rules: seq<Rule>, items: seq<Item>, texts: seq<string>, recs: seq<NormalizedItem>, rec: NormalizedItem)
    requires ValidRules(rules) && |recs| < |items| <= |texts|
    requires forall j :: 0 <= j < |recs| ==> recs[j] == RecordFor(conv, rules, items[j], texts[j])
    requires rec == RecordFor(conv, rules, items[|recs|], texts[|recs|])
    ensures forall j :: 0 <= j < |recs| + 1 ==> (recs + [rec])[j] == RecordFor(conv, rules, items[j], texts[j])
  {
    forall j | 0 <= j < |recs| + 1
      ensures (recs + [rec])[j] == RecordFor(conv, rules, items[j], texts[j])
    {
      if j < |recs| {
        assert (recs + [rec])[j] == recs[j];
      }
    }
  }

  /** The strings an item is matched against. */
  function Targets(conv: Converter, rec: NormalizedItem): seq<string> {
    [rec.normalized, conv.toLower(rec.original), rec.hiragana, rec.romaji] + rec.romajiVariants
  }

  /** `searchPatterns.some((pattern) => searchTargets.some((target) => target.includes(pattern)))` */
  predicate ItemMatches(conv: Converter, patterns: seq<string>, rec: NormalizedItem) {
    exists p, t :: p in patterns && t in Targets(conv, rec) && Contains(t, p)
  }

  /** An item whose lower-cased text contains the non-empty normalized query is always shown. */
  lemma ShownWhenTextContainsQuery(conv: Converter, rules: seq<Rule>, rec: NormalizedItem, query: string)
    requires ValidRules(rules)
    requires NormalizeQuery(conv, query) != "" && Contains(conv.toLower(rec.original), NormalizeQuery(conv, query))
    ensures ItemMatches(conv, SearchPatterns(conv, rules, query), rec)
  {
    SearchPatternsSpec(conv, rules, query);
    assert conv.toLower(rec.original) in Targets(conv, rec);
  }

  /**
   * Matching against the generated patterns is matching against what
   * `generateSearchPatterns` put into its set: an item is shown iff some
   * non-empty form of the query (the query itself, its kana, its romaji and
   * their variants, its tokens' kana) occurs in one of the item's targets,
   * and hidden when none does. The deduplication and the empty-string filter
   * change nothing about which items match.
   */
  lemma MatchesIffSourceOccurs(conv: Converter, rules: seq<Rule>, query: string, rec: NormalizedItem)
    requires ValidRules(rules)
    ensures ItemMatches(conv, SearchPatterns(conv, rules, query), rec) <==>
      exists p, t :: p in PatternSources(conv, rules, query) && p != "" && t in Targets(conv, rec) && Contains(t, p)
  {
    SearchPatternsSpec(conv, rules, query);
  }

  // ---------------------------------------------------------------- keyboard

  /** ArrowDown: the next visible item, cyclically; with none active, the first. */
  function NextIndex(current: int, n: nat): (r: nat)
    requires n > 0 && -1 <= current < n
    ensures r < n
    ensures current == -1 ==> r == 0
    ensures current >= 0 ==> r == (current + 1) % n
  {
    if current < n - 1 then current + 1 else 0
  }

  /** ArrowUp: the previous visible item, cyclically; with none active, the last. */
  function PrevIndex(current: int, n: nat): (r: nat)
    requires n > 0 && -1 <= current < n
    ensures r < n
    ensures current == -1 ==> r == n - 1
    ensures current >= 0 ==> r == (current - 1) % n
  {
    if current > 0 then current - 1 else n - 1
  }

  /** The items with an `offsetParent`. */
  function Visible(items: seq<Item>): (r: seq<Item>)
    reads items
    ensures forall k :: 0 <= k < |r| ==> r[k] in items && !r[k].hidden
    ensures forall k :: 0 <= k < |items| && !items[k].hidden ==> items[k] in r
    ensures NoDup(items) ==> NoDup(r)
  {
    if items == [] then []
    else
      var rest := Visible(items[1..]);
      assert forall it :: it in items[1..] ==> it in items;
      assert NoDup(items) ==> NoDup(items[1..]) && forall k :: 0 <= k < |items| - 1 ==> items[1..][k] != items[0];
      assert NoDup(items) ==> items[0] !in items[1..];
      if items[0].hidden then rest else [items[0]] + rest
  }

  /** The visible items keep their document order: filtering a concatenation filters each part in turn. */
  lemma {:induction false} VisibleAppend(a: seq<Item>, b: seq<Item>)
    ensures Visible(a + b) == Visible(a) + Visible(b)
    decreases |a|
  {
    if a == [] {
      assert a + b == b;
    } else {
      assert (a + b)[0] == a[0] && (a + b)[1..] == a[1..] + b;
      VisibleAppend(a[1..], b);
    }
  }

  /** `dropdown.querySelector(".gc-active")` over the items: the first active one. */
  function FirstActive(items: seq<Item>): (r: Option<Item>)
    reads items
    ensures r.Some? ==> r.value in items && r.value.active
    ensures r.Some? ==> exists k :: 0 <= k < |items| && items[k] == r.value && forall j :: 0 <= j < k ==> !items[j].active
    ensures r.None? ==> forall k :: 0 <= k < |items| ==> !items[k].active
  {
    if items == [] then None
    else if items[0].active then Some(items[0])
    else FirstActive(items[1..])
  }

  /** `items.indexOf(x)` */
  function IndexOfItem(items: seq<Item>, x: Item): (r: int)
    ensures -1 <= r < |items|
    ensures r == -1 <==> x !in items
    ensures r >= 0 ==> items[r] == x && forall k :: 0 <= k < r ==> items[k] != x
  {
    if items == [] then -1
    else if items[0] == x then 0
    else
      var r := IndexOfItem(items[1..], x);
      if r == -1 then -1 else r + 1
  }

  /**
   * The item an arrow key makes active: the next (ArrowDown) or previous
   * (ArrowUp) visible item after the active one, where an active item that is
   * not visible counts as none.
   */
  function MoveTarget(visible: seq<Item>, active: Option<Item>, down: bool): (target: Item)
    requires |visible| > 0
    ensures target in visible
  {
    var n := |visible|;
    var currentIndex := if active.Some? then IndexOfItem(visible, active.value) else -1;
    visible[if down then NextIndex(currentIndex, n) else PrevIndex(currentIndex, n)]
  }

  /** The elements of some records. */
  ghost function Elements(records: seq<NormalizedItem>): set<Item> {
    set k | 0 <= k < |records| :: records[k].element
  }

  ghost predicate AtMostOneActive(items: seq<Item>)
    reads items
  {
    forall i, j :: 0 <= i < |items| && 0 <= j < |items| && items[i].active && items[j].active ==> i == j
  }

  /** The extension's search engine, with the substitution table it was built with. */
  class DropdownSearchEnhancer {
    const conv: Converter
    const rules: seq<Rule>
    /** The `WeakMap` from dropdown to its normalized records. */
    var itemCache: map<Dropdown, seq<NormalizedItem>>

    ghost predicate Valid()
      reads this
    {
      && ValidRules(rules)
      && forall d :: d in itemCache ==> CacheEntryOk(itemCache[d])
    }

    /** A cache entry: one record per element, no element twice, each record built from its element's text. */
    ghost predicate CacheEntryOk(recs: seq<NormalizedItem>)
      reads this
    {
      && ValidRules(rules)
      && (forall i, j :: 0 <= i < j < |recs| ==> recs[i].element != recs[j].element)
      && forall k {:trigger RecordFor(conv, rules, recs[k].element, recs[k].original)} :: 0 <= k < |recs| ==>
        recs[k] == RecordFor(conv, rules, recs[k].element, recs[k].original)
    }

    /** The elements of all cached records. */
    ghost function CachedElements(): set<Item>
      reads this
    {
      set d, k | d in itemCache && 0 <= k < |itemCache[d]| :: itemCache[d][k].element
    }

    constructor (conv: Converter, rules: seq<Rule>)
      requires ValidRules(rules)
      ensures Valid() && this.conv == conv && this.rules == rules && itemCache == map[]
    {
      this.conv := conv;
      this.rules := rules;
      itemCache := map[];
    }

    /** The text `getItemText` returns: the stored original text, else the current text. */
    static function StashedText(item: Item): string
      reads item
    {
      if item.originalText.Some? then item.originalText.value else TextOf(item.segments)
    }

    /** `getItemText`: the text is stored on first read and returned from then on. */
    static method GetItemText(item: Item) returns (text: string)
      modifies item`originalText
      ensures text == old(StashedText(item))
      ensures item.originalText == Some(text)
    {
      if item.originalText.Some? {
        return item.originalText.value;
      }
      text := TextOf(item.segments);
      item.originalText := Some(text);
    }

    /** One record, computed the way `getNormalizedItems` computes it. */
    method NormalizeItem(el: Item) returns (rec: NormalizedItem)
      requires ValidRules(rules)
      modifies el`originalText
      ensures rec == RecordFor(conv, rules, el, old(StashedText(el)))
      ensures rec.element == el && el.originalText == Some(rec.original)
    {
      var text := GetItemText(el);
      var normalizedText := conv.nfkc(text);
      var textWithReading := GetReadingWithFallback(conv, normalizedText);
      var hiragana := conv.toHiragana(textWithReading);
      var allHiragana := ExtractAllHiragana(conv, textWithReading);
      var finalHiragana := if allHiragana != "" then allHiragana else hiragana;
      var romaji := conv.toLower(conv.toRomaji(finalHiragana));
      var romajiVariants := GenerateRomajiVariants(romaji, rules);
      rec := NormalizedItem(el, text, finalHiragana, romaji, romajiVariants, conv.toLower(normalizedText));
    }

    /**
     * `getNormalizedItems`: a cached dropdown gets its cached records back,
     * unchanged; otherwise one record per item, in item order, is built and cached.
     */
    method GetNormalizedItems(dropdown: Dropdown) returns (records: seq<NormalizedItem>)
      requires Valid() && dropdown.Valid()
      modifies this`itemCache, dropdown.items`originalText
      ensures Valid()
      ensures dropdown in itemCache && itemCache[dropdown] == records
      ensures forall it :: it in dropdown.items && it !in Elements(records) ==> it.originalText == old(it.originalText)
      ensures old(dropdown in itemCache) ==>
        && itemCache == old(itemCache)
        && forall it :: it in dropdown.items ==> it.originalText == old(it.originalText)
      ensures old(dropdown !in itemCache) ==>
        && itemCache == old(itemCache)[dropdown := records]
        && |records| == |dropdown.items|
        && (forall k :: 0 <= k < |records| ==>
          && records[k].element == dropdown.items[k]
          && records[k].original == old(StashedText(dropdown.items[k]))
          && dropdown.items[k].originalText == Some(records[k].original))
        && forall k {:trigger RecordFor(conv, rules, records[k].element, records[k].original)} :: 0 <= k < |records| ==>
          records[k] == RecordFor(conv, rules, records[k].element, records[k].original)
    {
      if dropdown in itemCache {
        return itemCache[dropdown];
      }
      var normalized := NormalizeAll(dropdown.items);
      itemCache := itemCache[dropdown := normalized];
      records := normalized;
    }

    /** The loop of `getNormalizedItems` over an uncached dropdown's items: one record per item, in order. */
    method NormalizeAll(items: seq<Item>) returns (normalized: seq<NormalizedItem>)
      requires ValidRules(rules) && NoDup(items)
      modifies items`originalText
      ensures |normalized| == |items|
      ensures forall k :: 0 <= k < |items| ==>
        && normalized[k].element == items[k]
        && normalized[k] == RecordFor(conv, rules, items[k], old(StashedText(items[k])))
        && items[k].originalText == Some(normalized[k].original)
    {
      ghost var stashed := seq(|items|, j requires 0 <= j < |items| reads items => StashedText(items[j]));
      normalized := [];
      for k := 0 to |items|
        invariant |normalized| == k
        invariant forall j :: 0 <= j < k ==> normalized[j] == RecordFor(conv, rules, items[j], stashed[j])
        invariant forall j :: 0 <= j < k ==> normalized[j].element == items[j] && items[j].originalText == Some(normalized[j].original)
        invariant forall j :: k <= j < |items| ==> stashed[j] == StashedText(items[j])
      {
        normalized := NormalizeNext(items, stashed, normalized);
      }
    }

    /** One turn of the loop of `getNormalizedItems`: the next item gets its record. */
    method NormalizeNext(items: seq<Item>, ghost stashed: seq<string>, normalized: seq<NormalizedItem>) returns (next: seq<NormalizedItem>)
      requires ValidRules(rules) && NoDup(items) && |normalized| < |items| == |stashed|
      requires forall j :: 0 <= j < |normalized| ==> normalized[j] == RecordFor(conv, rules, items[j], stashed[j])
      requires forall j :: 0 <= j < |normalized| ==> normalized[j].element == items[j] && items[j].originalText == Some(normalized[j].original)
      requires forall j :: |normalized| <= j < |items| ==> stashed[j] == StashedText(items[j])
      modifies {items[|normalized|]}`originalText
      ensures |next| == |normalized| + 1
      ensures forall j :: 0 <= j < |next| ==> next[j] == RecordFor(conv, rules, items[j], stashed[j])
      ensures forall j :: 0 <= j < |next| ==> next[j].element == items[j] && items[j].originalText == Some(next[j].original)
      ensures forall j :: |next| <= j < |items| ==> stashed[j] == StashedText(items[j])
    {
      var rec := NormalizeItem(items[|normalized|]);
      next := normalized + [rec];
      RecordsExtend(conv, rules, items, stashed, normalized, rec);
    }

    /** `removeHighlight`: every span becomes a text node with its text, then the item is normalized. */
    static method RemoveHighlight(item: Item)
      modifies item`segments
      ensures item.segments == Unwrapped(TextOf(old(item.segments)))
    {
      ghost var original := item.segments;
      var highlights := item.segments;
      for k := 0 to |highlights|
        invariant |item.segments| == |original|
        invariant forall j :: 0 <= j < |original| ==> item.segments[j] == (if j < k then Plain(original[j].text) else original[j])
      {
        if highlights[k].Mark? {
          item.segments := item.segments[k := Plain(highlights[k].text)];
        }
      }
      assert item.segments == Unmarked(original);
      UnmarkedNormalized(original);
      item.segments := Normalize(item.segments);
    }

    /** `resetFilter`: every item of the dropdown is shown, loses `gc-active` and has its highlights removed. */
    static method ResetFilter(dropdown: Dropdown)
      requires dropdown.Valid()
      modifies dropdown.items`hidden, dropdown.items`active, dropdown.items`segments
      ensures forall it :: it in dropdown.items ==>
        !it.hidden && !it.active && it.segments == Unwrapped(TextOf(old(it.segments)))
    {
      var items := dropdown.items;
      for k := 0 to |items|
        invariant forall j :: 0 <= j < k ==>
          !items[j].hidden && !items[j].active && items[j].segments == Unwrapped(TextOf(old(items[j].segments)))
        invariant forall j :: k <= j < |items| ==> items[j].segments == old(items[j].segments)
      {
        items[k].hidden := false;
        RemoveHighlight(items[k]);
        items[k].active := false;
      }
    }

    /** The first loop of `filterDropdown`: the elements some pattern matches. */
    method MatchedElements(records: seq<NormalizedItem>, patterns: seq<string>) returns (matched: set<Item>)
      ensures matched == set k | 0 <= k < |records| && ItemMatches(conv, patterns, records[k]) :: records[k].element
    {
      matched := {};
      for k := 0 to |records|
        invariant matched == set j | 0 <= j < k && ItemMatches(conv, patterns, records[j]) :: records[j].element
      {
        var item := records[k];
        var searchTargets := Targets(conv, item);
        var isMatch := exists p, t :: p in patterns && t in searchTargets && Contains(t, p);
        if isMatch {
          matched := matched + {item.element};
        }
      }
    }

    /** What the second loop of `filterDropdown` leaves on an element that had `active0` and `segments0` before. */
    ghost predicate Filtered(e: Item, shown: bool, query: string, active0: bool, segments0: seq<Segment>)
      reads this, e
    {
      if shown then !e.hidden && e.active == active0 && e.segments == Highlighted(conv, segments0, query)
      else e.hidden && !e.active && e.segments == segments0
    }

    /** One step of the second loop: shown and highlighted, or hidden and deactivated (its highlights stay). */
    method FilterOne(e: Item, shown: bool, query: string)
      requires query != ""
      modifies e`hidden, e`active, e`segments
      ensures Filtered(e, shown, query, old(e.active), old(e.segments))
    {
      if shown {
        e.hidden := false;
        HighlightText(e, query);
      } else {
        e.hidden := true;
        e.active := false;
      }
    }

    /** The second loop of `filterDropdown`, given the elements the first loop matched. */
    method ApplyFilter(records: seq<NormalizedItem>, patterns: seq<string>, matched: set<Item>, query: string)
      requires query != ""
      requires forall i, j :: 0 <= i < j < |records| ==> records[i].element != records[j].element
      requires forall k :: 0 <= k < |records| ==> (records[k].element in matched <==> ItemMatches(conv, patterns, records[k]))
      modifies Elements(records)`hidden, Elements(records)`active, Elements(records)`segments
      ensures forall k :: 0 <= k < |records| ==>
        Filtered(records[k].element, ItemMatches(conv, patterns, records[k]), query,
          old(records[k].element.active), old(records[k].element.segments))
    {
      for k := 0 to |records|
        invariant forall j :: 0 <= j < k ==>
          Filtered(records[j].element, ItemMatches(conv, patterns, records[j]), query,
            old(records[j].element.active), old(records[j].element.segments))
        invariant forall j :: k <= j < |records| ==> unchanged(records[j].element)
      {
        FilterOne(records[k].element, records[k].element in matched, query);
      }
    }

    /**
     * `filterDropdown`: an empty trimmed query resets the dropdown; otherwise
     * every record's element is shown iff some search pattern occurs in one of
     * the record's targets, and shown elements are highlighted.
     */
    method FilterDropdown(dropdown: Dropdown)
      requires Valid() && dropdown.Valid()
      modifies this`itemCache, dropdown.items, CachedElements()
      ensures Trim(dropdown.input) == "" ==>
        && itemCache == old(itemCache)
        && forall it :: it in dropdown.items ==>
          !it.hidden && !it.active && it.segments == Unwrapped(TextOf(old(it.segments)))
      ensures Trim(dropdown.input) != "" ==> dropdown in itemCache
      ensures Trim(dropdown.input) != "" && old(dropdown in itemCache) ==> itemCache == old(itemCache)
      ensures Trim(dropdown.input) != "" && old(dropdown !in itemCache) ==>
        itemCache == old(itemCache)[dropdown := itemCache[dropdown]]
      ensures Trim(dropdown.input) != "" && old(dropdown !in itemCache) ==>
        |itemCache[dropdown]| == |dropdown.items|
        && forall k :: 0 <= k < |dropdown.items| ==> itemCache[dropdown][k].element == dropdown.items[k]
      ensures Trim(dropdown.input) != "" && old(dropdown in itemCache) ==>
        forall k :: 0 <= k < |itemCache[dropdown]| ==>
          Filtered(itemCache[dropdown][k].element,
            ItemMatches(conv, SearchPatterns(conv, rules, Trim(dropdown.input)), itemCache[dropdown][k]),
            Trim(dropdown.input),
            old(itemCache[dropdown][k].element.active), old(itemCache[dropdown][k].element.segments))
      ensures Trim(dropdown.input) != "" && old(dropdown !in itemCache) ==>
        forall k :: 0 <= k < |dropdown.items| ==>
          Filtered(dropdown.items[k],
            ItemMatches(conv, SearchPatterns(conv, rules, Trim(dropdown.input)), itemCache[dropdown][k]),
            Trim(dropdown.input), old(dropdown.items[k].active), old(dropdown.items[k].segments))
      ensures Trim(dropdown.input) != "" && old(dropdown !in itemCache) ==>
        forall k :: 0 <= k < |dropdown.items| ==>
          && itemCache[dropdown][k] == RecordFor(conv, rules, dropdown.items[k], old(StashedText(dropdown.items[k])))
          && dropdown.items[k].originalText == Some(itemCache[dropdown][k].original)
      ensures Trim(dropdown.input) == "" || old(dropdown in itemCache) ==>
        forall it :: it in dropdown.items ==> it.originalText == old(it.originalText)
      ensures Trim(dropdown.input) == "" ==>
        forall it :: it in old(CachedElements()) && it !in dropdown.items ==> unchanged(it)
      ensures Trim(dropdown.input) != "" ==>
        forall it :: (it in old(CachedElements()) || it in dropdown.items) && it !in Elements(itemCache[dropdown]) ==>
          unchanged(it)
      ensures Valid()
    {
      var rawQuery := Trim(dropdown.input);
      if rawQuery == "" {
        ResetFilter(dropdown);
        return;
      }
      FilterWith(dropdown, rawQuery);
    }

    /** `filterDropdown` past its empty-query test. */
    method FilterWith(dropdown: Dropdown, rawQuery: string)
      requires Valid() && dropdown.Valid() && rawQuery != ""
      modifies this`itemCache, dropdown.items, CachedElements()
      ensures dropdown in itemCache
      ensures old(dropdown in itemCache) ==> itemCache == old(itemCache)
      ensures old(dropdown !in itemCache) ==> itemCache == old(itemCache)[dropdown := itemCache[dropdown]]
      ensures old(dropdown !in itemCache) ==>
        |itemCache[dropdown]| == |dropdown.items|
        && forall k :: 0 <= k < |dropdown.items| ==> itemCache[dropdown][k].element == dropdown.items[k]
      ensures old(dropdown in itemCache) ==>
        forall k :: 0 <= k < |itemCache[dropdown]| ==>
          Filtered(itemCache[dropdown][k].element,
            ItemMatches(conv, SearchPatterns(conv, rules, rawQuery), itemCache[dropdown][k]), rawQuery,
            old(itemCache[dropdown][k].element.active), old(itemCache[dropdown][k].element.segments))
      ensures old(dropdown !in itemCache) ==>
        forall k :: 0 <= k < |dropdown.items| ==>
          Filtered(dropdown.items[k],
            ItemMatches(conv, SearchPatterns(conv, rules, rawQuery), itemCache[dropdown][k]), rawQuery,
            old(dropdown.items[k].active), old(dropdown.items[k].segments))
      ensures old(dropdown !in itemCache) ==>
        forall k :: 0 <= k < |dropdown.items| ==>
          && itemCache[dropdown][k] == RecordFor(conv, rules, dropdown.items[k], old(StashedText(dropdown.items[k])))
          && dropdown.items[k].originalText == Some(itemCache[dropdown][k].original)
      ensures old(dropdown in itemCache) ==>
        forall it :: it in dropdown.items ==> it.originalText == old(it.originalText)
      ensures forall it :: (it in old(CachedElements()) || it in dropdown.items) && it !in Elements(itemCache[dropdown]) ==>
        unchanged(it)
      ensures Valid()
    {
      if dropdown in itemCache {
        FilterCached(dropdown, rawQuery);
      } else {
        FilterFresh(dropdown, rawQuery);
      }
    }

    /** `filterDropdown` on a dropdown whose records are already cached. */
    method FilterCached(dropdown: Dropdown, rawQuery: string)
      requires Valid() && dropdown.Valid() && rawQuery != "" && dropdown in itemCache
      modifies this`itemCache, dropdown.items, CachedElements()
      ensures itemCache == old(itemCache)
      ensures forall k :: 0 <= k < |itemCache[dropdown]| ==>
        Filtered(itemCache[dropdown][k].element,
          ItemMatches(conv, SearchPatterns(conv, rules, rawQuery), itemCache[dropdown][k]), rawQuery,
          old(itemCache[dropdown][k].element.active), old(itemCache[dropdown][k].element.segments))
      ensures forall it :: it in dropdown.items ==> it.originalText == old(it.originalText)
      ensures forall it :: (it in old(CachedElements()) || it in dropdown.items) && it !in Elements(itemCache[dropdown]) ==>
        unchanged(it)
      ensures Valid()
    {
      var normalizedItems := GetNormalizedItems(dropdown);
      FilterRecords(normalizedItems, rawQuery);
    }

    /** `filterDropdown` on a dropdown met for the first time: its records are built, cached and filtered. */
    method FilterFresh(dropdown: Dropdown, rawQuery: string)
      requires Valid() && dropdown.Valid() && rawQuery != "" && dropdown !in itemCache
      modifies this`itemCache, dropdown.items, CachedElements()
      ensures dropdown in itemCache
      ensures itemCache == old(itemCache)[dropdown := itemCache[dropdown]]
      ensures |itemCache[dropdown]| == |dropdown.items|
      ensures forall k :: 0 <= k < |dropdown.items| ==> itemCache[dropdown][k].element == dropdown.items[k]
      ensures forall k :: 0 <= k < |dropdown.items| ==>
        Filtered(dropdown.items[k],
          ItemMatches(conv, SearchPatterns(conv, rules, rawQuery), itemCache[dropdown][k]), rawQuery,
          old(dropdown.items[k].active), old(dropdown.items[k].segments))
      ensures forall k :: 0 <= k < |dropdown.items| ==>
        && itemCache[dropdown][k] == RecordFor(conv, rules, dropdown.items[k], old(StashedText(dropdown.items[k])))
        && dropdown.items[k].originalText == Some(itemCache[dropdown][k].original)
      ensures forall it :: (it in old(CachedElements()) || it in dropdown.items) && it !in Elements(itemCache[dropdown]) ==>
        unchanged(it)
      ensures Valid()
    {
      var normalizedItems := GetNormalizedItems(dropdown);
      FilterRecords(normalizedItems, rawQuery);
    }

    /** The search patterns of the query, the matching elements, and the second loop of `filterDropdown`. */
    method FilterRecords(records: seq<NormalizedItem>, rawQuery: string)
      requires ValidRules(rules) && rawQuery != ""
      requires forall i, j :: 0 <= i < j < |records| ==> records[i].element != records[j].element
      modifies Elements(records)`hidden, Elements(records)`active, Elements(records)`segments
      ensures forall k :: 0 <= k < |records| ==>
        Filtered(records[k].element, ItemMatches(conv, SearchPatterns(conv, rules, rawQuery), records[k]), rawQuery,
          old(records[k].element.active), old(records[k].element.segments))
    {
      var searchPatterns := GenerateSearchPatterns(conv, rules, rawQuery);
      var matched := MatchedElements(records, searchPatterns);
      forall k | 0 <= k < |records|
        ensures records[k].element in matched <==> ItemMatches(conv, searchPatterns, records[k])
      {
        if records[k].element in matched {
          var j :| 0 <= j < |records| && ItemMatches(conv, searchPatterns, records[j])
            && records[j].element == records[k].element;
        }
      }
      ApplyFilter(records, searchPatterns, matched, rawQuery);
    }

    /** The active marker moves from the first active item (if any) to `target`. */
    static method MoveActive(items: seq<Item>, active: Option<Item>, target: Item)
      requires target in items && active == FirstActive(items)
      modifies items`active
      ensures forall it :: it in items ==> it.active == (it == target || (old(it.active) && active != Some(it)))
      ensures old(AtMostOneActive(items)) ==> forall it :: it in items ==> (it.active <==> it == target)
    {
      if active.Some? {
        active.value.active := false;
      }
      target.active := true;
    }

    /**
     * `handleKeyboard` over the visible items: the arrows move the single
     * active marker cyclically; Escape clears the search box and resets the
     * dropdown; with no visible item nothing happens.
     */
    static method HandleKeyboard(dropdown: Dropdown, key: Key)
      requires dropdown.Valid()
      modifies dropdown`input, dropdown.items`hidden, dropdown.items`active, dropdown.items`segments
      ensures |old(Visible(dropdown.items))| == 0 || key == OtherKey ==>
        dropdown.input == old(dropdown.input) && forall it :: it in dropdown.items ==> unchanged(it)
      ensures |old(Visible(dropdown.items))| > 0 && key == Escape ==>
        dropdown.input == ""
        && forall it :: it in dropdown.items ==>
          !it.hidden && !it.active && it.segments == Unwrapped(TextOf(old(it.segments)))
      ensures |old(Visible(dropdown.items))| > 0 && (key == ArrowDown || key == ArrowUp) ==>
        var target := MoveTarget(old(Visible(dropdown.items)), old(FirstActive(dropdown.items)), key == ArrowDown);
        && dropdown.input == old(dropdown.input)
        && (forall it :: it in dropdown.items ==>
          && it.hidden == old(it.hidden) && it.segments == old(it.segments)
          && it.active == (it == target || (old(it.active) && old(FirstActive(dropdown.items)) != Some(it))))
        && (old(AtMostOneActive(dropdown.items)) ==> forall it :: it in dropdown.items ==> (it.active <==> it == target))
    {
      var items := Visible(dropdown.items);
      if |items| == 0 {
        return;
      }
      var active := FirstActive(dropdown.items);
      match key
      case ArrowDown =>
        MoveActive(dropdown.items, active, MoveTarget(items, active, true));
      case ArrowUp =>
        MoveActive(dropdown.items, active, MoveTarget(items, active, false));
      case Escape =>
        dropdown.input := "";
        ResetFilter(dropdown);
      case OtherKey =>
    }

    /** `highlightText`: with an empty query, the highlights are removed; otherwise each accepted text node gets its first match wrapped. */
    method HighlightText(item: Item, query: string)
      modifies item`segments
      ensures query == "" ==> item.segments == Unwrapped(TextOf(old(item.segments)))
      ensures query != "" ==> item.segments == Highlighted(conv, old(item.segments), query)
    {
      if query == "" {
        RemoveHighlight(item);
        return;
      }
      var textNodes := item.segments;
      var out: seq<Segment> := [];
      for k := 0 to |textNodes|
        invariant out == Highlighted(conv, textNodes[..k], query)
      {
        assert textNodes[..k + 1][..k] == textNodes[..k];
        out := out + HighlightSegment(conv, textNodes[k], query);
      }
      assert textNodes[..|textNodes|] == textNodes;
      item.segments := out;
    }
  }
}
