/**
 * Romaji spelling variants: one sweep over an ordered table of substitution
 * rules. For each rule, every string already in the set when the rule starts
 * is scanned left to right for non-overlapping occurrences of the rule's
 * `from`, and each occurrence, replaced on its own by `to`, is added to the set.
 */
module RomajiVariants {
  import opened JsString

  /** One entry of the substitution table: occurrences of `.0` may also be spelt `.1`. */
  type Rule = (string, string)

  /**
   * The scan advances by the length of `from`; with an empty `from` it would
   * find the same occurrence forever, so the table must not contain one.
   */
  predicate ValidRules(rules: seq<Rule>) {
    forall k :: 0 <= k < |rules| ==> rules[k].0 != ""
  }

  /** `s` with the occurrence of `from` at `i` written as `to`. */
  function ReplaceAt(s: string, i: nat, from: string, to: string): string
    requires i + |from| <= |s|
  {
    s[..i] + to + s[i + |from|..]
  }

  /** `x` is `s` with exactly one occurrence of `from` replaced by `to`. */
  ghost predicate OneReplacement(s: string, x: string, from: string, to: string) {
    exists i: nat :: OccursAt(s, from, i) && x == ReplaceAt(s, i, from, to)
  }

  /**
   * The strings the indexOf scan of `s` produces from position `k` on: one
   * replacement per occurrence found, resuming the search after each one.
   */
  function Expansions(s: string, from: string, to: string, k: nat): seq<string>
    requires from != "" && k <= |s|
    decreases |s| - k
  {
    var j := IndexOf(s, from, k);
    if j == -1 then [] else [ReplaceAt(s, j, from, to)] + Expansions(s, from, to, j + |from|)
  }

  /** One rule applied to each string of `snapshot` in turn, growing `acc`. */
  function ApplyRule(acc: seq<string>, snapshot: seq<string>, from: string, to: string): seq<string>
    requires from != ""
    decreases |snapshot|
  {
    if snapshot == [] then acc
    else ApplyRule(AddAll(acc, Expansions(snapshot[0], from, to, 0)), snapshot[1..], from, to)
  }

  /** The set (in insertion order) after the first `k` rules; each rule scans the set as it was when the rule began. */
  function Stage(base: string, rules: seq<Rule>, k: nat): seq<string>
    requires ValidRules(rules) && k <= |rules|
  {
    if k == 0 then [base]
    else
      var prev := Stage(base, rules, k - 1);
      ApplyRule(prev, prev, rules[k - 1].0, rules[k - 1].1)
  }

  /** `generateRomajiVariants(base)` as a value. */
  function RomajiVariants(base: string, rules: seq<Rule>): seq<string>
    requires ValidRules(rules)
  {
    Stage(base, rules, |rules|)
  }

  /** `x` is a one-occurrence replacement of some string of `snapshot`. */
  ghost predicate DerivedFrom(x: string, snapshot: seq<string>, from: string, to: string) {
    exists y :: y in snapshot && OneReplacement(y, x, from, to)
  }

  /** Every string the scan produces replaces exactly one occurrence of `from`. */
  lemma {:induction false} ExpansionsSound(s: string, from: string, to: string, k: nat)
    requires from != "" && k <= |s|
    ensures forall x :: x in Expansions(s, from, to, k) ==> OneReplacement(s, x, from, to)
    decreases |s| - k
  {
    var j := IndexOf(s, from, k);
    if j != -1 {
      ExpansionsSound(s, from, to, j + |from|);
      assert OneReplacement(s, ReplaceAt(s, j, from, to), from, to);
    }
  }

  /**
   * Applying one rule keeps the old set as a prefix, stays duplicate-free,
   * and adds exactly the scan results of the snapshot's strings.
   */
  lemma {:induction false} ApplyRuleSpec(acc: seq<string>, snapshot: seq<string>, from: string, to: string)
    requires from != ""
    ensures var r := ApplyRule(acc, snapshot, from, to); |acc| <= |r| && r[..|acc|] == acc
    ensures NoDup(acc) ==> NoDup(ApplyRule(acc, snapshot, from, to))
    ensures forall x :: x in ApplyRule(acc, snapshot, from, to) ==>
      x in acc || exists y :: y in snapshot && x in Expansions(y, from, to, 0)
    ensures forall y, x :: y in snapshot && x in Expansions(y, from, to, 0) ==> x in ApplyRule(acc, snapshot, from, to)
    decreases |snapshot|
  {
    if snapshot != [] {
      var e := Expansions(snapshot[0], from, to, 0);
      var acc' := AddAll(acc, e);
      AddAllSpec(acc, e);
      ApplyRuleSpec(acc', snapshot[1..], from, to);
      var r := ApplyRule(acc, snapshot, from, to);
      assert r == ApplyRule(acc', snapshot[1..], from, to);
      assert r[..|acc'|] == acc';
      assert r[..|acc|] == acc'[..|acc|];
      forall x | x in r
        ensures x in acc || exists y :: y in snapshot && x in Expansions(y, from, to, 0)
      {
        if x !in acc' {
          var y :| y in snapshot[1..] && x in Expansions(y, from, to, 0);
          assert y in snapshot;
        } else if x !in acc {
          assert snapshot[0] in snapshot && x in e;
        }
      }
      forall y, x | y in snapshot && x in Expansions(y, from, to, 0)
        ensures x in r
      {
        if y != snapshot[0] {
          assert y in snapshot[1..];
        }
      }
    }
  }

  /** The input is always the first member, and the list never repeats a string. */
  lemma {:induction false} StageSpec(base: string, rules: seq<Rule>, k: nat)
    requires ValidRules(rules) && k <= |rules|
    ensures |Stage(base, rules, k)| >= 1 && Stage(base, rules, k)[0] == base
    ensures NoDup(Stage(base, rules, k))
  {
    if k > 0 {
      StageSpec(base, rules, k - 1);
      var prev := Stage(base, rules, k - 1);
      ApplyRuleSpec(prev, prev, rules[k - 1].0, rules[k - 1].1);
    }
  }

  /**
   * What rule `k` does to the set: nothing is removed (the old set is a
   * prefix of the new one); every new string is one replacement of a string
   * that was in the set when the rule began; and every string the scan
   * produces from such a string, the replacement of its first occurrence
   * included, ends up in the set.
   */
  lemma StageStep(base: string, rules: seq<Rule>, k: nat)
    requires ValidRules(rules) && k < |rules|
    ensures var before := Stage(base, rules, k);
      var after := Stage(base, rules, k + 1);
      |before| <= |after| && after[..|before|] == before
    ensures forall x :: x in Stage(base, rules, k + 1) ==>
      x in Stage(base, rules, k) || DerivedFrom(x, Stage(base, rules, k), rules[k].0, rules[k].1)
    ensures forall y, x :: y in Stage(base, rules, k) && x in Expansions(y, rules[k].0, rules[k].1, 0) ==>
      x in Stage(base, rules, k + 1)
    ensures forall y :: y in Stage(base, rules, k) && Contains(y, rules[k].0) ==>
      ReplaceAt(y, IndexOf(y, rules[k].0, 0), rules[k].0, rules[k].1) in Stage(base, rules, k + 1)
  {
    var before := Stage(base, rules, k);
    var from, to := rules[k].0, rules[k].1;
    var after := ApplyRule(before, before, from, to);
    assert after == Stage(base, rules, k + 1);
    ApplyRuleSpec(before, before, from, to);
    forall x | x in after
      ensures x in before || DerivedFrom(x, before, from, to)
    {
      if x !in before {
        var y :| y in before && x in Expansions(y, from, to, 0);
        ExpansionsSound(y, from, to, 0);
      }
    }
    forall y | y in before && Contains(y, from)
      ensures ReplaceAt(y, IndexOf(y, from, 0), from, to) in after
    {
      var j := IndexOf(y, from, 0);
      ExpansionsUnfold(y, from, to, 0, j);
      assert ReplaceAt(y, j, from, to) in Expansions(y, from, to, 0);
    }
  }

  /** `generateRomajiVariants` returns a duplicate-free list that starts with its input. */
  lemma RomajiVariantsSpec(base: string, rules: seq<Rule>)
    requires ValidRules(rules)
    ensures var r := RomajiVariants(base, rules); |r| >= 1 && r[0] == base && base in r && NoDup(r)
  {
    StageSpec(base, rules, |rules|);
  }

  /** When the scan from `k` finds `from` at `j`, the first string it produces replaces that occurrence. */
  lemma ExpansionsUnfold(s: string, from: string, to: string, k: nat, j: nat)
    requires from != "" && k <= |s| && IndexOf(s, from, k) == j
    ensures j + |from| <= |s|
    ensures Expansions(s, from, to, k) == [ReplaceAt(s, j, from, to)] + Expansions(s, from, to, j + |from|)
  {
  }

  /** One turn of the indexOf loop: adding the occurrence `j` found from `k`, then the rest. */
  lemma {:induction false} ExpansionsStep(s: string, from: string, to: string, k: nat, j: nat, acc: seq<string>)
    requires from != "" && k <= |s| && IndexOf(s, from, k) == j
    ensures AddAll(acc, Expansions(s, from, to, k))
      == AddAll(AddIfAbsent(acc, ReplaceAt(s, j, from, to)), Expansions(s, from, to, j + |from|))
  {
    ExpansionsUnfold(s, from, to, k, j);
    AddAllCons(acc, ReplaceAt(s, j, from, to), Expansions(s, from, to, j + |from|));
  }

  /** The indexOf scan of `s` from `k`, adding each replacement to `acc` as it is found. */
  function ScanAdd(acc: seq<string>, s: string, from: string, to: string, k: nat): seq<string>
    requires from != "" && k <= |s|
    decreases |s| - k
  {
    var j := IndexOf(s, from, k);
    if j == -1 then acc else ScanAdd(AddIfAbsent(acc, ReplaceAt(s, j, from, to)), s, from, to, j + |from|)
  }

  /** Adding while scanning is adding the scan's whole list afterwards. */
  lemma {:induction false} ScanAddSpec(acc: seq<string>, s: string, from: string, to: string, k: nat)
    requires from != "" && k <= |s|
    ensures ScanAdd(acc, s, from, to, k) == AddAll(acc, Expansions(s, from, to, k))
    decreases |s| - k
  {
    var j := IndexOf(s, from, k);
    if j != -1 {
      ExpansionsStep(s, from, to, k, j, acc);
      ScanAddSpec(AddIfAbsent(acc, ReplaceAt(s, j, from, to)), s, from, to, j + |from|);
    }
  }

  /**
   * One turn of the indexOf loop: the occurrence at `found` is replaced and
   * added, and the search resumes after it.
   */
  method ScanOnce(grown: seq<string>, result: string, from: string, to: string, index: nat, found: int)
    returns (grown': seq<string>, index': nat, found': int)
    requires from != "" && index <= |result|
    requires found == IndexOf(result, from, index) && found != -1
    ensures index < index' <= |result|
    ensures found' == IndexOf(result, from, index')
    ensures ScanAdd(grown', result, from, to, index') == ScanAdd(grown, result, from, to, index)
  {
    // result.substring(0, index) + to + result.substring(index + from.length)
    var replaced := ReplaceAt(result, found, from, to);
    grown' := AddIfAbsent(grown, replaced);
    index' := found + |from|;
    found' := IndexOf(result, from, index');
  }

  /**
   * The indexOf loop for one string: every non-overlapping occurrence of
   * `from`, found left to right, is replaced on its own and added to the set.
   */
  method ScanReplacements(variants: seq<string>, result: string, from: string, to: string) returns (grown: seq<string>)
    requires from != ""
    ensures grown == AddAll(variants, Expansions(result, from, to, 0))
  {
    ghost var goal := ScanAdd(variants, result, from, to, 0);
    grown := variants;
    var index: nat := 0;
    var found := IndexOf(result, from, index);
    while found != -1
      invariant index <= |result|
      invariant found == IndexOf(result, from, index)
      invariant ScanAdd(grown, result, from, to, index) == goal
      decreases |result| - index
    {
      grown, index, found := ScanOnce(grown, result, from, to, index, found);
    }
    ScanAddSpec(variants, result, from, to, 0);
  }

  /**
   * `generateRomajiVariants`: the source keeps two sets, `variants` and
   * `results`, that always receive the same strings; one list stands for both.
   */
  method GenerateRomajiVariants(romaji: string, rules: seq<Rule>) returns (variants: seq<string>)
    requires ValidRules(rules)
    ensures variants == RomajiVariants(romaji, rules)
  {
    variants := [romaji];
    for r := 0 to |rules|
      invariant variants == Stage(romaji, rules, r)
    {
      var from, to := rules[r].0, rules[r].1;
      var currentResults := variants;
      for m := 0 to |currentResults|
        invariant ApplyRule(variants, currentResults[m..], from, to) == Stage(romaji, rules, r + 1)
      {
        var result := currentResults[m];
        assert currentResults[m..][1..] == currentResults[m + 1..];
        if Contains(result, from) {
          variants := ScanReplacements(variants, result, from, to);
        }
      }
    }
  }
}
