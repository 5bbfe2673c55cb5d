/**
 * The query side of the search: a raw query becomes a duplicate-free list of
 * non-empty patterns (its normalized form, its raw lower-case form, its kana
 * and romaji conversions, the romaji spelling variants, and the kana forms of
 * every run of Latin letters in it).
 */
module QueryPatterns {
  import opened JsString
  import opened RomajiVariants

  /** `normalizeQuery`: NFKC, then lower case, then trim. */
  function NormalizeQuery(conv: Converter, query: string): (r: string)
    ensures r == [] || (!IsJsSpace(r[0]) && !IsJsSpace(r[|r| - 1]))
  {
    Trim(conv.toLower(conv.nfkc(query)))
  }

  /** The length of the run of ASCII letters at the start of `s`. */
  function LetterPrefix(s: string): (n: nat)
    ensures n <= |s|
    ensures forall i :: 0 <= i < n ==> IsAsciiLetter(s[i])
    ensures n == |s| || !IsAsciiLetter(s[n])
  {
    if s != [] && IsAsciiLetter(s[0]) then 1 + LetterPrefix(s[1..]) else 0
  }

  /** The maximal runs of ASCII letters of `s`, left to right. */
  function LetterRuns(s: string): seq<string>
    decreases |s|
  {
    if s == [] then []
    else if !IsAsciiLetter(s[0]) then LetterRuns(s[1..])
    else
      var n := LetterPrefix(s);
      [s[..n]] + LetterRuns(s[n..])
  }

  /** The ASCII letters of `s`, in order. */
  function Letters(s: string): string
    decreases |s|
  {
    if s == [] then [] else (if IsAsciiLetter(s[0]) then [s[0]] else []) + Letters(s[1..])
  }

  /** The number of places where a run of letters starts, given whether the character before `s` was a letter. */
  function RunStarts(s: string, afterLetter: bool): nat
    decreases |s|
  {
    if s == [] then 0
    else (if IsAsciiLetter(s[0]) && !afterLetter then 1 else 0) + RunStarts(s[1..], IsAsciiLetter(s[0]))
  }

  function Concat(ts: seq<string>): string {
    if ts == [] then [] else ts[0] + Concat(ts[1..])
  }

  /**
   * `/[a-z]+/gi.exec(s)` with `lastIndex == from`: the first run of letters
   * starting at or after `from`, as the pair (start, end), or nothing.
   */
  function ExecLetters(s: string, from: nat): (m: Option<(nat, nat)>)
    requires from <= |s|
    ensures m.Some? ==> from <= m.value.0 < m.value.1 <= |s|
    decreases |s| - from
  {
    if from == |s| then None
    else if IsAsciiLetter(s[from]) then Some((from, from + LetterPrefix(s[from..])))
    else ExecLetters(s, from + 1)
  }

  /** What one `exec` call finds is the next of the letter runs. */
  lemma {:induction false} ExecFindsNextRun(s: string, from: nat)
    requires from <= |s|
    ensures match ExecLetters(s, from)
      case None => LetterRuns(s[from..]) == []
      case Some(m) => LetterRuns(s[from..]) == [s[m.0..m.1]] + LetterRuns(s[m.1..])
    decreases |s| - from
  {
    if from < |s| {
      var t := s[from..];
      if IsAsciiLetter(s[from]) {
        var n := LetterPrefix(t);
        assert t[..n] == s[from..from + n];
        assert t[n..] == s[from + n..];
      } else {
        assert t[1..] == s[from + 1..];
        ExecFindsNextRun(s, from + 1);
      }
    }
  }

  /** The run of letters `t` sits at `i` in `s`: it occurs there, with no letter just before or just after it. */
  predicate IsRunAt(s: string, i: int, t: string) {
    && 0 <= i && i + |t| <= |s| && s[i..i + |t|] == t
    && (i == 0 || !IsAsciiLetter(s[i - 1]))
    && (i + |t| == |s| || !IsAsciiLetter(s[i + |t|]))
  }

  /**
   * The tokens are the maximal runs of letters: each is a non-empty string of
   * ASCII letters sitting in the input between non-letters (or its ends);
   * joined they are exactly the input's letters in order; and there is one
   * token for each place where a run of letters starts.
   */
  lemma {:induction false} LetterRunsSpec(s: string)
    ensures forall t :: t in LetterRuns(s) ==> t != [] && forall i :: 0 <= i < |t| ==> IsAsciiLetter(t[i])
    ensures forall t :: t in LetterRuns(s) ==> exists i :: IsRunAt(s, i, t)
    ensures Concat(LetterRuns(s)) == Letters(s)
    ensures |LetterRuns(s)| == RunStarts(s, false)
    decreases |s|
  {
    if s != [] {
      if !IsAsciiLetter(s[0]) {
        var rest := s[1..];
        LetterRunsSpec(rest);
        forall t | t in LetterRuns(s)
          ensures exists i :: IsRunAt(s, i, t)
        {
          RunInSuffix(s, 1, t);
        }
      } else {
        var n := LetterPrefix(s);
        var rest := s[n..];
        LetterRunsSpec(rest);
        var rs := LetterRuns(s);
        assert rs[0] == s[..n] && rs[1..] == LetterRuns(rest);
        LettersOfWord(s, n);
        InsideRunNoStarts(s[1..], n - 1);
        assert s[1..][n - 1..] == rest;
        assert IsRunAt(s, 0, s[..n]);
        forall t | t in LetterRuns(rest)
          ensures exists i :: IsRunAt(s, i, t)
        {
          RunInSuffix(s, n, t);
        }
      }
    }
  }

  /** A run of `s[d..]` that starts with a letter is a run of `s` when a non-letter sits on one side of the cut at `d`. */
  lemma RunInSuffix(s: string, d: nat, t: string)
    requires 0 < d <= |s| && t != [] && IsAsciiLetter(t[0])
    requires d == |s| || !IsAsciiLetter(s[d - 1]) || !IsAsciiLetter(s[d])
    requires exists i :: IsRunAt(s[d..], i, t)
    ensures exists i :: IsRunAt(s, i, t)
  {
    var rest := s[d..];
    var i :| IsRunAt(rest, i, t);
    assert rest[i] == t[0];
    assert s[d + i..d + i + |t|] == rest[i..i + |t|];
    assert IsRunAt(s, d + i, t);
  }

  /** The letters of `s` are its first `n` characters, when those are letters, followed by the letters of the rest. */
  lemma {:induction false} LettersOfWord(s: string, n: nat)
    requires n <= |s| && forall i :: 0 <= i < n ==> IsAsciiLetter(s[i])
    ensures Letters(s) == s[..n] + Letters(s[n..])
    decreases n
  {
    if n > 0 {
      LettersOfWord(s[1..], n - 1);
      assert s[1..][n - 1..] == s[n..];
      assert s[..n] == [s[0]] + s[1..][..n - 1];
    }
  }

  /** Inside a run of letters no new run starts; after it the run count is the same as at the start of the text. */
  lemma {:induction false} InsideRunNoStarts(s: string, n: nat)
    requires n <= |s| && forall i :: 0 <= i < n ==> IsAsciiLetter(s[i])
    requires n == |s| || !IsAsciiLetter(s[n])
    ensures RunStarts(s, true) == RunStarts(s[n..], false)
    decreases n
  {
    if n > 0 {
      InsideRunNoStarts(s[1..], n - 1);
      assert s[1..][n - 1..] == s[n..];
    } else if s != [] {
      assert !IsAsciiLetter(s[0]);
    }
  }

  /** `tokenizeRomaji`: the loop of `exec` calls. */
  method TokenizeRomaji(text: string) returns (tokens: seq<string>)
    ensures tokens == LetterRuns(text)
  {
    tokens := [];
    var lastIndex: nat := 0;
    var m := ExecLetters(text, lastIndex);
    while m.Some?
      invariant lastIndex <= |text|
      invariant m == ExecLetters(text, lastIndex)
      invariant tokens + LetterRuns(text[lastIndex..]) == LetterRuns(text)
      decreases |text| - lastIndex
    {
      ExecFindsNextRun(text, lastIndex);
      tokens := tokens + [text[m.value.0..m.value.1]];
      lastIndex := m.value.1;
      m := ExecLetters(text, lastIndex);
    }
    ExecFindsNextRun(text, lastIndex);
  }

  /** The hiragana then katakana form of every token, in token order. */
  function TokenForms(conv: Converter, tokens: seq<string>): seq<string>
  {
    if tokens == [] then []
    else
      var last := tokens[|tokens| - 1];
      TokenForms(conv, tokens[..|tokens| - 1]) + [conv.toHiragana(last), conv.toKatakana(last)]
  }

  /** Everything `generateSearchPatterns` adds to its set, in the order it adds it. */
  function PatternSources(conv: Converter, rules: seq<Rule>, query: string): seq<string>
    requires ValidRules(rules)
  {
    var normalized := NormalizeQuery(conv, query);
    var hiragana := conv.toHiragana(normalized);
    var romaji := conv.toLower(conv.toRomaji(hiragana));
    [normalized, conv.toLower(query), hiragana, conv.toKatakana(normalized), romaji]
      + RomajiVariants.RomajiVariants(romaji, rules)
      + TokenForms(conv, LetterRuns(normalized))
  }

  /** `.filter((p) => p.length > 0)` */
  function NonEmpty(xs: seq<string>): (r: seq<string>)
    ensures forall x :: x in r <==> x in xs && x != ""
    ensures NoDup(xs) ==> NoDup(r)
  {
    if xs == [] then []
    else if xs[0] == "" then NonEmpty(xs[1..])
    else
      assert forall x :: x in xs[1..] ==> x in xs;
      assert NoDup(xs) ==> NoDup(xs[1..]) && forall k :: 0 <= k < |xs| - 1 ==> xs[1..][k] != xs[0];
      assert NoDup(xs) ==> xs[0] !in xs[1..];
      [xs[0]] + NonEmpty(xs[1..])
  }

  /** `generateSearchPatterns(query)` as a value. */
  function SearchPatterns(conv: Converter, rules: seq<Rule>, query: string): seq<string>
    requires ValidRules(rules)
  {
    NonEmpty(AddAll([], PatternSources(conv, rules, query)))
  }

  /**
   * The pattern list holds every non-empty source string and nothing else,
   * never twice; in particular it holds the normalized query whenever that is non-empty.
   */
  lemma SearchPatternsSpec(conv: Converter, rules: seq<Rule>, query: string)
    requires ValidRules(rules)
    ensures var ps := SearchPatterns(conv, rules, query);
      (forall p :: p in ps <==> p in PatternSources(conv, rules, query) && p != "")
      && NoDup(ps)
      && "" !in ps
      && (NormalizeQuery(conv, query) != "" ==> NormalizeQuery(conv, query) in ps)
  {
    var src := PatternSources(conv, rules, query);
    AddAllSpec([], src);
    assert src[0] == NormalizeQuery(conv, query);
  }

  lemma AddAllOne<T>(acc: seq<T>, x: T)
    ensures AddAll(acc, [x]) == AddIfAbsent(acc, x)
  {
    assert [x][1..] == [];
  }

  /** Five `add` calls in a row are adding the five strings in order. */
  lemma AddFive<T>(a: T, b: T, c: T, d: T, e: T)
    ensures AddAll([], [a, b, c, d, e])
      == AddIfAbsent(AddIfAbsent(AddIfAbsent(AddIfAbsent(AddIfAbsent([], a), b), c), d), e)
  {
    var s1 := AddIfAbsent([], a);
    var s2 := AddIfAbsent(s1, b);
    var s3 := AddIfAbsent(s2, c);
    var s4 := AddIfAbsent(s3, d);
    assert [a, b, c, d, e][1..] == [b, c, d, e];
    assert [b, c, d, e][1..] == [c, d, e];
    assert [c, d, e][1..] == [d, e];
    assert [d, e][1..] == [e];
    AddAllOne(s4, e);
    assert AddAll(s3, [d, e]) == AddAll(s4, [e]);
    assert AddAll(s2, [c, d, e]) == AddAll(s3, [d, e]);
    assert AddAll(s1, [b, c, d, e]) == AddAll(s2, [c, d, e]);
  }

  /** `xs.forEach((v) => set.add(v))` */
  method AddEach(found: seq<string>, xs: seq<string>) returns (r: seq<string>)
    ensures r == AddAll(found, xs)
  {
    r := found;
    for i := 0 to |xs|
      invariant r == AddAll(found, xs[..i])
    {
      assert xs[..i + 1] == xs[..i] + [xs[i]];
      AddAllAppend(found, xs[..i], [xs[i]]);
      AddAllOne(r, xs[i]);
      r := AddIfAbsent(r, xs[i]);
    }
    assert xs[..|xs|] == xs;
  }

  /** `tokens.forEach((token) => { set.add(toHiragana(token)); set.add(toKatakana(token)); })` */
  method AddTokenForms(conv: Converter, found: seq<string>, tokens: seq<string>) returns (r: seq<string>)
    ensures r == AddAll(found, TokenForms(conv, tokens))
  {
    r := found;
    for i := 0 to |tokens|
      invariant r == AddAll(found, TokenForms(conv, tokens[..i]))
    {
      var token := tokens[i];
      var h, k := conv.toHiragana(token), conv.toKatakana(token);
      assert tokens[..i + 1][..i] == tokens[..i];
      AddAllAppend(found, TokenForms(conv, tokens[..i]), [h, k]);
      assert [h, k] == [h] + [k];
      AddAllAppend(r, [h], [k]);
      AddAllOne(r, h);
      AddAllOne(AddIfAbsent(r, h), k);
      r := AddIfAbsent(r, h);
      r := AddIfAbsent(r, k);
    }
    assert tokens[..|tokens|] == tokens;
  }

  /** `generateSearchPatterns` */
  method GenerateSearchPatterns(conv: Converter, rules: seq<Rule>, query: string) returns (patterns: seq<string>)
    requires ValidRules(rules)
    ensures patterns == SearchPatterns(conv, rules, query)
  {
    var found: seq<string> := [];
    var normalized := NormalizeQuery(conv, query);
    found := AddIfAbsent(found, normalized);
    found := AddIfAbsent(found, conv.toLower(query));
    var hiragana := conv.toHiragana(normalized);
    found := AddIfAbsent(found, hiragana);
    var katakana := conv.toKatakana(normalized);
    found := AddIfAbsent(found, katakana);
    var romaji := conv.toRomaji(hiragana);
    found := AddIfAbsent(found, conv.toLower(romaji));
    ghost var head := [normalized, conv.toLower(query), hiragana, katakana, conv.toLower(romaji)];
    AddFive(normalized, conv.toLower(query), hiragana, katakana, conv.toLower(romaji));

    var romajiVariants := GenerateRomajiVariants(conv.toLower(romaji), rules);
    found := AddEach(found, romajiVariants);

    var tokens := TokenizeRomaji(normalized);
    found := AddTokenForms(conv, found, tokens);

    AddAllAppend([], head, romajiVariants);
    AddAllAppend([], head + romajiVariants, TokenForms(conv, tokens));
    patterns := NonEmpty(found);
  }
}
