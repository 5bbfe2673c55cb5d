/**
 * Hiding the poster's name in Classroom notices: the first notice pattern
 * that matches a text containing `さんが` picks which capture becomes the new
 * text; otherwise whatever follows the first `さんが` is kept. A processed
 * text then goes through `cleanupText`, a fixed pipeline of regular
 * expression replacements that removes years and worksheet labels, trims
 * separators and collapses runs of them.
 */
module ClassroomText {
  import opened JsString

  /** The marker that follows a poster's name. */
  const Sanga: string := "さんが"

  /** The label `cleanupText` removes. */
  const Worksheet: string := "ワークシート"

  // ---------------------------------------------------------------------
  // Character classes and the regular expressions of `cleanupText`
  // ---------------------------------------------------------------------

  /** `[_＿\s]` */
  predicate IsSep(c: char) {
    InClass(c, Sep)
  }

  /** `[_＿]` */
  predicate IsUnderscore(c: char) {
    InClass(c, Underscore)
  }

  /** `[_＿\-\s]` */
  predicate IsEdgeSep(c: char) {
    InClass(c, EdgeSep)
  }

  /** `20\d{2}` matches at `i`. */
  predicate YearAt(s: string, i: nat) {
    i + 4 <= |s| && s[i] == '2' && s[i + 1] == '0' && IsAsciiDigit(s[i + 2]) && IsAsciiDigit(s[i + 3])
  }

  /** The length of the longest prefix of `s` whose characters all belong to class `k`. */
  function RunLength(s: string, k: CharClass): (n: nat)
    ensures n <= |s|
    ensures forall i :: 0 <= i < n ==> InClass(s[i], k)
    ensures n < |s| ==> !InClass(s[n], k)
  {
    DropWhileSuffix(s, k);
    |s| - |DropWhile(s, k)|
  }

  /** The unanchored patterns `cleanupText` replaces globally. */
  datatype Pattern =
    | YearKanjiSep        // 20\d{2}年[_＿\s]
    | YearSep             // 20\d{2}[_＿\s]
    | SepYearKanjiOpt     // [_＿\s]20\d{2}年?
    | UnderscoreYear      // [_＿]20\d{2}
    | SepWorksheetSepOpt  // [_＿\s]ワークシート[_＿\s]?
    | UnderscoreRun       // [_＿]{2,}
    | SepRun              // [_＿\s]{2,}

  /**
   * The length of the match of `pat` at the start of `s` (quantifiers are
   * greedy), or 0 when it does not match there. No pattern matches fewer
   * than two characters.
   */
  function MatchLength(pat: Pattern, s: string): (n: nat)
    ensures n <= |s|
    ensures n == 0 || n >= 2
  {
    match pat
    case YearKanjiSep =>
      if YearAt(s, 0) && 6 <= |s| && s[4] == '年' && IsSep(s[5]) then 6 else 0
    case YearSep =>
      if YearAt(s, 0) && 5 <= |s| && IsSep(s[4]) then 5 else 0
    case SepYearKanjiOpt =>
      if 1 <= |s| && IsSep(s[0]) && YearAt(s, 1) then (if 6 <= |s| && s[5] == '年' then 6 else 5) else 0
    case UnderscoreYear =>
      if 1 <= |s| && IsUnderscore(s[0]) && YearAt(s, 1) then 5 else 0
    case SepWorksheetSepOpt =>
      if 1 <= |s| && IsSep(s[0]) && OccursAt(s, Worksheet, 1) then (if 8 <= |s| && IsSep(s[7]) then 8 else 7) else 0
    case UnderscoreRun =>
      var n := RunLength(s, Underscore); if n >= 2 then n else 0
    case SepRun =>
      var n := RunLength(s, Sep); if n >= 2 then n else 0
  }

  /**
   * `s.replace(/pat/g, rep)`: the text is scanned left to right; a match is
   * replaced and the scan resumes right after it, elsewhere one character is
   * kept. A replacement of at most two characters never lengthens the text.
   */
  function ReplaceAll(pat: Pattern, s: string, rep: string): (r: string)
    ensures |rep| <= 2 ==> |r| <= |s|
    decreases |s|
  {
    if s == [] then []
    else
      var n := MatchLength(pat, s);
      if n > 0 then rep + ReplaceAll(pat, s[n..], rep)
      else [s[0]] + ReplaceAll(pat, s[1..], rep)
  }

  /** `s.replace(/^20\d{2}年[_＿\s]?/g, "")`: the anchor allows one match only, at the start. */
  function StripLeadingYear(s: string): (r: string)
    ensures |r| <= |s| && r == s[|s| - |r|..]
  {
    if YearAt(s, 0) && 5 <= |s| && s[4] == '年' then s[(if 6 <= |s| && IsSep(s[5]) then 6 else 5)..]
    else s
  }

  /**
   * `s.replace(/_?ワークシート$/, "")`: the leftmost match is preferred, so an
   * ASCII underscore right before a final `ワークシート` goes with it.
   */
  function StripTrailingWorksheetUnderscore(s: string): (r: string)
    ensures |r| <= |s| && r == s[..|r|]
  {
    if 7 <= |s| && s[|s| - 7] == '_' && s[|s| - 6..] == Worksheet then s[..|s| - 7]
    else StripTrailingWorksheet(s)
  }

  /** `s.replace(/ワークシート$/, "")` */
  function StripTrailingWorksheet(s: string): (r: string)
    ensures |r| <= |s| && r == s[..|r|]
  {
    if 6 <= |s| && s[|s| - 6..] == Worksheet then s[..|s| - 6] else s
  }

  /** `s.replace(/^ワークシート[_＿\s]?/, "")` */
  function StripLeadingWorksheet(s: string): (r: string)
    ensures |r| <= |s| && r == s[|s| - |r|..]
  {
    if OccursAt(s, Worksheet, 0) then s[(if 7 <= |s| && IsSep(s[6]) then 7 else 6)..] else s
  }

  /** `cleanupText`, lines one to five: the years. */
  function StripYears(text: string): (r: string)
    ensures |r| <= |text|
  {
    var t1 := StripLeadingYear(text);                       // /^20\d{2}年[_＿\s]?/g
    var t2 := ReplaceAll(YearKanjiSep, t1, "");             // /20\d{2}年[_＿\s]/g
    var t3 := ReplaceAll(YearSep, t2, "");                  // /20\d{2}[_＿\s]/g
    var t4 := ReplaceAll(SepYearKanjiOpt, t3, "");          // /[_＿\s]20\d{2}年?/g
    ReplaceAll(UnderscoreYear, t4, "")                      // /[_＿]20\d{2}/g
  }

  /** `cleanupText`, lines six to nine: the worksheet labels. */
  function StripWorksheetLabels(t: string): (r: string)
    ensures |r| <= |t|
  {
    var t6 := StripTrailingWorksheetUnderscore(t);          // /_?ワークシート$/
    var t7 := StripTrailingWorksheet(t6);                   // /ワークシート$/
    var t8 := StripLeadingWorksheet(t7);                    // /^ワークシート[_＿\s]?/
    ReplaceAll(SepWorksheetSepOpt, t8, "")                  // /[_＿\s]ワークシート[_＿\s]?/g
  }

  /** `cleanupText`, lines ten to thirteen: separators at the ends go, runs of them shrink to one character. */
  function CollapseSeparators(t: string): (r: string)
    ensures |r| <= |t|
  {
    var t10 := DropWhile(t, Sep);                         // /^[_＿\s]+/
    var t11 := DropLastWhile(t10, Sep);                   // /[_＿\s]+$/
    var t12 := ReplaceAll(UnderscoreRun, t11, "_");         // /[_＿]{2,}/g
    ReplaceAll(SepRun, t12, " ")                            // /[_＿\s]{2,}/g
  }

  /** `cleanupText`, the last three lines: whitespace, then separators and hyphens, go from both ends. */
  function TrimEdges(t: string): (r: string)
    ensures |r| <= |t|
    ensures r == [] || (!IsEdgeSep(r[0]) && !IsEdgeSep(r[|r| - 1]))
  {
    var t14 := Trim(t);
    var t15 := DropWhile(t14, EdgeSep);                   // /^[_＿\-\s]+/
    var r := DropLastWhile(t15, EdgeSep);                 // /[_＿\-\s]+$/
    assert r != [] ==> r[0] == t15[0];
    r
  }

  /** `cleanupText`: the fifteen replacements and the trim, in order. */
  function CleanupText(text: string): string {
    TrimEdges(CollapseSeparators(StripWorksheetLabels(StripYears(text))))
  }

  // ---------------------------------------------------------------------
  // What `cleanupText` guarantees
  // ---------------------------------------------------------------------

  /** No two neighbouring characters are both drawn from `[_＿\s]`. */
  predicate NoAdjacentSeps(s: string) {
    forall i :: 0 <= i < |s| - 1 ==> !(IsSep(s[i]) && IsSep(s[i + 1]))
  }

  /** The text neither starts nor ends with `_`, `＿`, `-` or whitespace. */
  predicate NoEdgeSeps(s: string) {
    s == [] || (!IsEdgeSep(s[0]) && !IsEdgeSep(s[|s| - 1]))
  }

  /** `s` is empty or does not start with a separator. */
  predicate StartsClear(s: string) {
    s == [] || !IsSep(s[0])
  }

  /** One character in front of a text without neighbouring separators. */
  lemma NoAdjacentSepsCons(head: string, tail: string)
    requires |head| == 1 && NoAdjacentSeps(tail)
    requires IsSep(head[0]) ==> StartsClear(tail)
    ensures NoAdjacentSeps(head + tail)
  {
    var r := head + tail;
    forall i | 0 <= i < |r| - 1
      ensures !(IsSep(r[i]) && IsSep(r[i + 1]))
    {
      if i > 0 {
        assert r[i] == tail[i - 1] && r[i + 1] == tail[i];
      }
    }
  }

  /** The collapsing replacement keeps the first character of a text that does not start with a separator. */
  lemma SepRunStartsClear(s: string)
    requires StartsClear(s)
    ensures StartsClear(ReplaceAll(SepRun, s, " "))
  {
    if s != [] {
      assert RunLength(s, Sep) == 0;
      assert ReplaceAll(SepRun, s, " ")[0] == s[0];
    }
  }

  /** A separator at the head of the scan ends a maximal run, so what the scan resumes on does not start with one. */
  lemma SepRunHead(s: string)
    requires s != []
    ensures var n := MatchLength(SepRun, s);
      var k := if n > 0 then n else 1;
      var head := if n > 0 then " " else [s[0]];
      && ReplaceAll(SepRun, s, " ") == head + ReplaceAll(SepRun, s[k..], " ")
      && (IsSep(head[0]) ==> StartsClear(s[k..]))
  {
    var n := RunLength(s, Sep);
    if n < |s| {
      assert !IsSep(s[n]);
    }
  }

  /** After the collapsing replacement, no separator follows another. */
  lemma {:induction false} SepRunsCollapsed(s: string)
    ensures NoAdjacentSeps(ReplaceAll(SepRun, s, " "))
    decreases |s|
  {
    if s != [] {
      var n := MatchLength(SepRun, s);
      var k := if n > 0 then n else 1;
      var head := if n > 0 then " " else [s[0]];
      SepRunHead(s);
      SepRunsCollapsed(s[k..]);
      if IsSep(head[0]) {
        SepRunStartsClear(s[k..]);
      }
      NoAdjacentSepsCons(head, ReplaceAll(SepRun, s[k..], " "));
    }
  }

  /** Cutting characters off either end keeps neighbouring separators apart. */
  lemma NoAdjacentSepsSlice(s: string, a: nat, b: nat)
    requires a <= b <= |s| && NoAdjacentSeps(s)
    ensures NoAdjacentSeps(s[a..b])
  {
    forall i | 0 <= i < b - a - 1
      ensures !(IsSep(s[a..b][i]) && IsSep(s[a..b][i + 1]))
    {
      assert s[a..b][i] == s[a + i] && s[a..b][i + 1] == s[a + i + 1];
    }
  }

  /** Lines ten to thirteen leave no two neighbouring separators. */
  lemma CollapseSeparatorsSpec(t: string)
    ensures NoAdjacentSeps(CollapseSeparators(t))
  {
    var t10 := DropWhile(t, Sep);
    var t11 := DropLastWhile(t10, Sep);
    SepRunsCollapsed(ReplaceAll(UnderscoreRun, t11, "_"));
  }

  /** Dropping a prefix keeps neighbouring separators apart. */
  lemma DropWhileKeepsApart(s: string, k: CharClass)
    requires NoAdjacentSeps(s)
    ensures NoAdjacentSeps(DropWhile(s, k))
  {
    NoAdjacentSepsSlice(s, |s| - |DropWhile(s, k)|, |s|);
  }

  /** Dropping a suffix keeps neighbouring separators apart. */
  lemma DropLastWhileKeepsApart(s: string, k: CharClass)
    requires NoAdjacentSeps(s)
    ensures NoAdjacentSeps(DropLastWhile(s, k))
  {
    NoAdjacentSepsSlice(s, 0, |DropLastWhile(s, k)|);
  }

  /** The last three lines only cut characters off the ends, so they keep separators apart. */
  lemma TrimEdgesKeepsApart(t: string)
    requires NoAdjacentSeps(t)
    ensures NoAdjacentSeps(TrimEdges(t))
  {
    var u := DropWhile(t, Space);
    DropWhileKeepsApart(t, Space);
    DropLastWhileKeepsApart(u, Space);
    var t14 := Trim(t);
    DropWhileKeepsApart(t14, EdgeSep);
    DropLastWhileKeepsApart(DropWhile(t14, EdgeSep), EdgeSep);
  }

  /**
   * `cleanupText` returns a text that neither starts nor ends with a
   * separator or hyphen, in which no two separators are neighbours, and
   * which is never longer than its input.
   */
  lemma CleanupTextSpec(text: string)
    ensures NoEdgeSeps(CleanupText(text))
    ensures NoAdjacentSeps(CleanupText(text))
    ensures |CleanupText(text)| <= |text|
  {
    var t := StripWorksheetLabels(StripYears(text));
    CollapseSeparatorsSpec(t);
    TrimEdgesKeepsApart(CollapseSeparators(t));
  }

  /** A character that no step of `cleanupText` can start a match on. */
  predicate Inert(c: char) {
    !IsEdgeSep(c) && c != '2' && c != 'ワ'
  }

  /** Every character of `s` is inert. */
  predicate AllInert(s: string) {
    forall i :: 0 <= i < |s| ==> Inert(s[i])
  }

  /** No pattern matches at an inert character. */
  lemma MatchLengthInert(pat: Pattern, s: string)
    requires s != [] && Inert(s[0])
    ensures MatchLength(pat, s) == 0
  {
    assert !IsUnderscore(s[0]) && !IsSep(s[0]) && s[0] != '2';
    match pat
    case UnderscoreRun =>
      assert RunLength(s, Underscore) == 0;
    case SepRun =>
      assert RunLength(s, Sep) == 0;
    case _ =>
  }

  /** A global replacement that matches nowhere leaves the text as it is. */
  lemma {:induction false} ReplaceAllInert(pat: Pattern, s: string, rep: string)
    requires AllInert(s)
    ensures ReplaceAll(pat, s, rep) == s
    decreases |s|
  {
    if s != [] {
      MatchLengthInert(pat, s);
      assert AllInert(s[1..]);
      ReplaceAllInert(pat, s[1..], rep);
      assert ReplaceAll(pat, s, rep) == [s[0]] + s[1..];
    }
  }

  /** Lines one to five find no year in an inert text. */
  lemma StripYearsInert(text: string)
    requires AllInert(text)
    ensures StripYears(text) == text
  {
    assert StripLeadingYear(text) == text;
    ReplaceAllInert(YearKanjiSep, text, "");
    ReplaceAllInert(YearSep, text, "");
    ReplaceAllInert(SepYearKanjiOpt, text, "");
    ReplaceAllInert(UnderscoreYear, text, "");
  }

  /** `ワークシート` starts with `ワ`, so it occurs nowhere in an inert text. */
  lemma NoWorksheetInInert(text: string, i: nat)
    requires AllInert(text) && i + 6 <= |text|
    ensures text[i..i + 6] != Worksheet
  {
    assert text[i..i + 6][0] == text[i] != 'ワ';
  }

  /** The two anchored removals at the end find no `ワークシート` in an inert text. */
  lemma StripTrailingWorksheetInert(text: string)
    requires AllInert(text)
    ensures StripTrailingWorksheetUnderscore(text) == text
  {
    if 6 <= |text| {
      var tail := text[|text| - 6..];
      assert tail[0] == text[|text| - 6] && Inert(text[|text| - 6]);
      assert tail[0] != Worksheet[0];
    }
  }

  /** The anchored removal at the start finds no `ワークシート` in an inert text. */
  lemma StripLeadingWorksheetInert(text: string)
    requires AllInert(text)
    ensures StripLeadingWorksheet(text) == text
  {
    if 6 <= |text| {
      NoWorksheetInInert(text, 0);
    }
  }

  /** Lines six to nine find no worksheet label in an inert text. */
  lemma StripWorksheetLabelsInert(text: string)
    requires AllInert(text)
    ensures StripWorksheetLabels(text) == text
  {
    StripTrailingWorksheetInert(text);
    assert StripTrailingWorksheet(text) == text;
    StripLeadingWorksheetInert(text);
    ReplaceAllInert(SepWorksheetSepOpt, text, "");
  }

  /** Lines ten to thirteen find no separator in an inert text. */
  lemma CollapseSeparatorsInert(text: string)
    requires AllInert(text)
    ensures CollapseSeparators(text) == text
  {
    assert DropWhile(text, Sep) == text;
    assert DropLastWhile(text, Sep) == text;
    ReplaceAllInert(UnderscoreRun, text, "_");
    ReplaceAllInert(SepRun, text, " ");
  }

  /** The last three lines find nothing to trim on an inert text. */
  lemma TrimEdgesInert(text: string)
    requires AllInert(text)
    ensures TrimEdges(text) == text
  {
    assert Trim(text) == text;
    assert DropWhile(text, EdgeSep) == text;
  }

  /** A text with no separator, hyphen, `2` or `ワ` comes out of `cleanupText` unchanged. */
  lemma CleanupTextKeepsInert(text: string)
    requires AllInert(text)
    ensures CleanupText(text) == text
  {
    StripYearsInert(text);
    StripWorksheetLabelsInert(text);
    CollapseSeparatorsInert(text);
    TrimEdgesInert(text);
  }

  // ---------------------------------------------------------------------
  // `processTextInElement`
  // ---------------------------------------------------------------------

  /** The array `text.match(pattern)` returns: entry `k` is capture group `k`, `None` when it took no part. */
  type Captures = seq<Option<string>>

  /** A notice pattern of the (unmodelled) constants table, as the result of `text.match(pattern)`. */
  type Regex = string -> Option<Captures>

  /** `match[k] || ""` */
  function Group(m: Captures, k: nat): string {
    if k < |m| && m[k].Some? then m[k].value else ""
  }

  /** The text pattern `i` keeps of its match `m`. */
  function NewText(i: nat, m: Captures): string {
    if i == 0 || i == 3 then Group(m, 3)
    else if i == 1 || i == 2 then (if Group(m, 4) != "" then Group(m, 4) else Group(m, 3))
    else if i == 4 then (if Trim(Group(m, 3)) != "" then Trim(Group(m, 3)) else Group(m, 2))
    else Group(m, 2)
  }

  /** The first pattern, from index `i` on, that matches `text`, with its captures. */
  function FirstMatch(patterns: seq<Regex>, text: string, i: nat): (r: Option<(nat, Captures)>)
    requires i <= |patterns|
    ensures r.Some? ==> i <= r.value.0 < |patterns| && patterns[r.value.0](text) == Some(r.value.1)
    ensures forall k :: i <= k < |patterns| && (r.None? || k < r.value.0) ==> patterns[k](text).None?
    decreases |patterns| - i
  {
    if i == |patterns| then None
    else match patterns[i](text)
      case Some(m) => Some((i, m))
      case None => FirstMatch(patterns, text, i + 1)
  }

  /** The trimmed text after the first `さんが`. */
  function AfterSanga(text: string): string {
    var i := IndexOf(text, Sanga, 0);
    Trim(SliceFrom(text, if i == -1 then 0 else i + |Sanga|))
  }

  /**
   * The text and flag chosen for a text containing `さんが`: the first
   * matching pattern picks the new text; otherwise a non-empty remainder
   * after `さんが` is kept; either sets the flag, and with neither the
   * element keeps its text and flag.
   */
  function Picked(patterns: seq<Regex>, text: string, flagged: bool): (string, bool) {
    match FirstMatch(patterns, text, 0)
    case Some(hit) => (NewText(hit.0, hit.1), true)
    case None => if AfterSanga(text) != "" then (AfterSanga(text), true) else (text, flagged)
  }

  /**
   * The text and processed flag `processTextInElement` leaves on an element
   * that had `text` and `flagged`: text without `さんが` is left alone; else
   * the picked text, cleaned up whenever the element is flagged.
   */
  function Process(patterns: seq<Regex>, text: string, flagged: bool): (string, bool) {
    if !Contains(text, Sanga) then (text, flagged)
    else
      var picked := Picked(patterns, text, flagged);
      if picked.1 then (CleanupText(picked.0), true) else picked
  }

  /** An element of the page, with the text and the flag the extension reads and writes. */
  class NoticeElement {
    /** `textContent` */
    var text: string
    /** `dataset.processedByHidePoster === "true"` */
    var processed: bool

    constructor (text: string)
      ensures this.text == text && !processed
    {
      this.text := text;
      processed := false;
    }
  }

  class ClassroomTextProcessor {
    /** `CLASSROOM_PATTERNS`, in order. */
    const patterns: seq<Regex>

    constructor (patterns: seq<Regex>)
      ensures this.patterns == patterns
    {
      this.patterns := patterns;
    }

    /**
     * `processTextInElement`. Its second guard (flagged and without `さんが`)
     * can never fire after the first, so it is not repeated here.
     */
    method ProcessTextInElement(element: NoticeElement)
      modifies element
      ensures !Contains(old(element.text), Sanga) ==> unchanged(element)
      ensures (element.text, element.processed) == Process(patterns, old(element.text), old(element.processed))
    {
      var originalText := element.text;
      if !Contains(originalText, Sanga) {
        return;
      }
      PickText(element, originalText);
      if element.processed {
        element.text := CleanupText(element.text);
      }
    }

    /** The pattern loop of `processTextInElement` and its `さんが` fallback. */
    method PickText(element: NoticeElement, originalText: string)
      requires element.text == originalText && Contains(originalText, Sanga)
      modifies element
      ensures (element.text, element.processed) == Picked(patterns, originalText, old(element.processed))
    {
      var processed := false;
      for i := 0 to |patterns|
        invariant FirstMatch(patterns, originalText, i) == FirstMatch(patterns, originalText, 0)
        invariant !processed && element.text == originalText && element.processed == old(element.processed)
      {
        var m := patterns[i](originalText);
        if m.Some? {
          assert FirstMatch(patterns, originalText, 0) == Some((i, m.value));
          element.text := NewText(i, m.value);
          element.processed := true;
          processed := true;
          break;
        }
      }
      if !processed {
        SangaFallback(element, originalText);
      }
    }

    /** The `さんが` fallback of `processTextInElement`, reached when no pattern matched. */
    method SangaFallback(element: NoticeElement, originalText: string)
      requires element.text == originalText && Contains(originalText, Sanga)
      requires FirstMatch(patterns, originalText, 0).None?
      modifies element
      ensures (element.text, element.processed) == Picked(patterns, originalText, old(element.processed))
    {
      var sangaIndex := IndexOf(originalText, Sanga, 0);
      if sangaIndex != -1 {
        var afterSanga := Trim(SliceFrom(originalText, sangaIndex + |Sanga|));
        assert afterSanga == AfterSanga(originalText);
        if |afterSanga| > 0 {
          element.text := afterSanga;
          element.processed := true;
        }
      }
    }
  }

  // ---------------------------------------------------------------------
  // What `processTextInElement` guarantees
  // ---------------------------------------------------------------------

  /**
   * The element ends up flagged exactly when it already was, or its text
   * contains `さんが` and either some pattern matches it or something other
   * than whitespace follows the first `さんが`.
   */
  lemma ProcessFlagsIff(patterns: seq<Regex>, text: string, flagged: bool)
    ensures Process(patterns, text, flagged).1 <==>
      flagged || (Contains(text, Sanga)
        && ((exists i :: 0 <= i < |patterns| && patterns[i](text).Some?) || AfterSanga(text) != ""))
  {
    if exists i :: 0 <= i < |patterns| && patterns[i](text).Some? {
      var i :| 0 <= i < |patterns| && patterns[i](text).Some?;
      assert FirstMatch(patterns, text, 0).Some?;
    }
  }

  /** When pattern `i` is the first that matches, the new text is what it keeps of the match, cleaned up. */
  lemma FirstMatchingPatternWins(patterns: seq<Regex>, text: string, flagged: bool, i: nat, m: Captures)
    requires Contains(text, Sanga)
    requires i < |patterns| && patterns[i](text) == Some(m)
    requires forall k :: 0 <= k < i ==> patterns[k](text).None?
    ensures Process(patterns, text, flagged) == (CleanupText(NewText(i, m)), true)
  {
    var f := FirstMatch(patterns, text, 0);
    assert f.Some?;
    assert f.value.0 == i;
  }

  /**
   * When no pattern matches, the text becomes the trimmed remainder after
   * the first occurrence of `さんが`, cleaned up, provided that remainder is
   * not empty; otherwise the text stays as it was (cleaned up if the element
   * had already been processed).
   */
  lemma FallbackAfterSanga(patterns: seq<Regex>, text: string, flagged: bool)
    requires Contains(text, Sanga)
    requires forall k :: 0 <= k < |patterns| ==> patterns[k](text).None?
    ensures var p := IndexOf(text, Sanga, 0);
      var rest := Trim(text[p + |Sanga|..]);
      && OccursAt(text, Sanga, p)
      && (forall k :: 0 <= k < p ==> !OccursAt(text, Sanga, k))
      && (rest != "" ==> Process(patterns, text, flagged) == (CleanupText(rest), true))
      && (rest == "" ==> Process(patterns, text, flagged) == (if flagged then CleanupText(text) else text, flagged))
  {
    var p := IndexOf(text, Sanga, 0);
    var rest := Trim(text[p + |Sanga|..]);
    IndexOfFirst(text, Sanga, 0);
    assert FirstMatch(patterns, text, 0).None?;
    assert SliceFrom(text, p + |Sanga|) == text[p + |Sanga|..];
    assert AfterSanga(text) == rest;
    if rest != "" {
      assert Picked(patterns, text, flagged) == (rest, true);
    } else {
      assert Picked(patterns, text, flagged) == (text, flagged);
    }
  }

  /** Whatever the element ends up showing after it was processed is clean. */
  lemma ProcessedTextIsClean(patterns: seq<Regex>, text: string, flagged: bool)
    requires Contains(text, Sanga) && Process(patterns, text, flagged).1
    ensures NoEdgeSeps(Process(patterns, text, flagged).0)
    ensures NoAdjacentSeps(Process(patterns, text, flagged).0)
  {
    CleanupTextSpec(Picked(patterns, text, flagged).0);
  }
}
