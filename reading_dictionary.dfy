/**
 * The reading resolver: a fixed, ordered table from kanji phrases to their
 * hiragana readings, and the best-effort lookup that either returns the
 * reading of an exact key or replaces the first occurrence of the first key
 * (in table order) found inside the text.
 */
module ReadingDictionary {
  import opened JsString

  /** A phrase and its reading. */
  type Entry = (string, string)

  /** `readingDictionary`, in declaration order. */
  const ReadingTable: seq<Entry> := [
    ("進路授業", "しんろじゅぎょう"),
    ("学問入門講座", "がくもんにゅうもんこうざ"),
    ("小論文", "しょうろんぶん"),
    ("討論対策", "とうろんたいさく"),
    ("書類", "しょるい"),
    ("面接", "めんせつ"),
    ("講座", "こうざ"),
    ("授業", "じゅぎょう"),
    ("年", "ねん"),
    ("就職", "しゅうしょく"),
    ("進学", "しんがく"),
    ("試験対策", "しけんたいさく"),
    ("応用", "おうよう"),
    ("入門", "にゅうもん"),
    ("活動", "かつどう"),
    ("隔週", "かくしゅう"),
    ("基礎", "きそ"),
    ("理科", "りか"),
    ("文科", "ぶんか"),
    ("教養", "きょうよう"),
    ("数学", "すうがく"),
    ("国語", "こくご"),
    ("統計", "とうけい"),
    ("情報", "じょうほう"),
    ("英語", "えいご"),
    ("検定", "けんてい"),
    ("級", "きゅう"),
    ("対策", "たいさく"),
    ("外部連携", "がいぶれんけい"),
    ("価値創造", "かちそうぞう"),
    ("課題解決", "かだいかいけつ")
  ]

  predicate DistinctKeys(table: seq<Entry>) {
    forall i, j :: 0 <= i < j < |table| ==> table[i].0 != table[j].0
  }

  /** The index of the entry whose key is `key` (the first one, searching from `i`), if any. */
  function FindKey(table: seq<Entry>, key: string, i: nat): (r: Option<nat>)
    requires i <= |table|
    ensures r.Some? ==> i <= r.value < |table|
    decreases |table| - i
  {
    if i == |table| then None
    else if table[i].0 == key then Some(i)
    else FindKey(table, key, i + 1)
  }

  /** `FindKey` finds the first entry from `i` on whose key is `key`, and only misses when there is none. */
  lemma {:induction false} FindKeySpec(table: seq<Entry>, key: string, i: nat)
    requires i <= |table|
    ensures var r := FindKey(table, key, i);
      && (r.Some? ==> table[r.value].0 == key && forall j :: i <= j < r.value ==> table[j].0 != key)
      && (r.None? ==> forall j :: i <= j < |table| ==> table[j].0 != key)
    decreases |table| - i
  {
    if i < |table| && table[i].0 != key {
      FindKeySpec(table, key, i + 1);
    }
  }

  /**
   * The index of the first entry, from `i` on, whose key occurs in `s`: the
   * key found occurs, and no entry before it (from `i` on) has a key that does.
   */
  function FirstKeyIn(table: seq<Entry>, s: string, i: nat): (r: Option<nat>)
    requires i <= |table|
    ensures r.Some? ==> i <= r.value < |table| && Contains(s, table[r.value].0)
    ensures forall j :: i <= j < |table| && (r.None? || j < r.value) ==> !Contains(s, table[j].0)
    decreases |table| - i
  {
    if i == |table| then None
    else if Contains(s, table[i].0) then Some(i)
    else FirstKeyIn(table, s, i + 1)
  }

  /** The text the resolver works on: NFKC-normalized, then trimmed. */
  function NormalizedText(conv: Converter, text: string): string {
    Trim(conv.nfkc(text))
  }

  /**
   * `getReadingWithFallback` over an arbitrary table: an exact key whose
   * reading is truthy (non-empty) gives its reading; otherwise the first key
   * in table order found in the text has its first occurrence replaced;
   * otherwise the normalized text is returned. Whatever the text, the result
   * is one of these three kinds.
   */
  function ResolveReading(conv: Converter, table: seq<Entry>, text: string): (r: string)
    ensures var n := NormalizedText(conv, text);
      || (exists i :: 0 <= i < |table| && table[i].0 == n && table[i].1 != "" && r == table[i].1)
      || (exists i :: 0 <= i < |table| && Contains(n, table[i].0) && r == ReplaceFirst(n, table[i].0, table[i].1))
      || r == n
  {
    var n := NormalizedText(conv, text);
    var exact := FindKey(table, n, 0);
    FindKeySpec(table, n, 0);
    if exact.Some? && table[exact.value].1 != "" then
      table[exact.value].1
    else
      match FirstKeyIn(table, n, 0)
      case Some(i) => ReplaceFirst(n, table[i].0, table[i].1)
      case None => n
  }

  /**
   * `getReadingWithFallback`: the resolver over the extension's own table.
   * Since no key and no reading of the table is empty, the reading is empty
   * exactly when the normalized text is.
   */
  function GetReadingWithFallback(conv: Converter, text: string): (r: string)
    ensures r == "" <==> NormalizedText(conv, text) == ""
  {
    ReadingTableNonEmpty();
    FindKeySpec(ReadingTable, NormalizedText(conv, text), 0);
    ResolveReading(conv, ReadingTable, text)
  }

  /** An exact key with a non-empty reading resolves to that reading. */
  lemma ResolveExactKey(conv: Converter, table: seq<Entry>, text: string, i: nat)
    requires DistinctKeys(table)
    requires i < |table| && NormalizedText(conv, text) == table[i].0 && table[i].1 != ""
    ensures ResolveReading(conv, table, text) == table[i].1
  {
    var exact := FindKey(table, table[i].0, 0);
    FindKeySpec(table, table[i].0, 0);
    assert exact.Some?;
    assert exact.value == i;
  }

  /**
   * When the text is not a key with a non-empty reading, the first key in
   * table order that occurs in it has its first occurrence replaced, and the
   * rest of the text is kept on both sides.
   */
  lemma ResolveFirstContainedKey(conv: Converter, table: seq<Entry>, text: string, i: nat)
    requires i < |table|
    requires var n := NormalizedText(conv, text);
      (FindKey(table, n, 0).None? || table[FindKey(table, n, 0).value].1 == "")
      && Contains(n, table[i].0)
      && forall j :: 0 <= j < i ==> !Contains(n, table[j].0)
    ensures var n := NormalizedText(conv, text);
      var key := table[i].0;
      var p := IndexOf(n, key, 0);
      && OccursAt(n, key, p)
      && (forall k :: 0 <= k < p ==> !OccursAt(n, key, k))
      && ResolveReading(conv, table, text) == n[..p] + table[i].1 + n[p + |key|..]
  {
    var n := NormalizedText(conv, text);
    IndexOfFirst(n, table[i].0, 0);
    var f := FirstKeyIn(table, n, 0);
    assert f.Some?;
    assert f.value == i;
  }

  /** A text that contains no key comes back normalized and otherwise unchanged. */
  lemma ResolveNoKey(conv: Converter, table: seq<Entry>, text: string)
    requires forall j :: 0 <= j < |table| ==> !Contains(NormalizedText(conv, text), table[j].0)
    ensures ResolveReading(conv, table, text) == NormalizedText(conv, text)
  {
    var n := NormalizedText(conv, text);
    var exact := FindKey(table, n, 0);
    FindKeySpec(table, n, 0);
    if exact.Some? {
      ContainsAt(n, table[exact.value].0, 0);
    }
  }

  /**
   * A compound listed before one of its components always wins: whenever the
   * text contains the compound, the key that gets replaced comes no later
   * than the compound, so it is never the component.
   */
  lemma CompoundBeforeComponent(conv: Converter, table: seq<Entry>, text: string, i: nat, j: nat)
    requires i < j < |table| && Contains(table[i].0, table[j].0)
    requires Contains(NormalizedText(conv, text), table[i].0)
    ensures var f := FirstKeyIn(table, NormalizedText(conv, text), 0);
      f.Some? && f.value <= i && f.value != j
  {
  }

  /** Every key and every reading in the table is non-empty. */
  lemma ReadingTableNonEmpty()
    ensures forall i :: 0 <= i < |ReadingTable| ==> ReadingTable[i].0 != "" && ReadingTable[i].1 != ""
  {
  }

  /**
   * On the extension's table the truthiness test of the exact lookup is the
   * same as key membership: any text that normalizes to a key gets that key's reading.
   */
  lemma TableExactLookup(conv: Converter, text: string, i: nat)
    requires i < |ReadingTable| && NormalizedText(conv, text) == ReadingTable[i].0
    ensures var k := FindKey(ReadingTable, NormalizedText(conv, text), 0);
      k.Some? && ReadingTable[k.value].0 == ReadingTable[i].0
      && GetReadingWithFallback(conv, text) == ReadingTable[k.value].1
  {
    ReadingTableNonEmpty();
    FindKeySpec(ReadingTable, NormalizedText(conv, text), 0);
  }

  /** `key` occurs in `phrase` at `k`, so `phrase` contains `key`. */
  lemma ContainsAt(phrase: string, key: string, k: nat)
    requires OccursAt(phrase, key, k)
    ensures Contains(phrase, key)
  {
    ContainsIff(phrase, key);
  }

  /** The keys of the table that `ReadingTableCompoundsFirst` speaks of. */
  lemma CompoundKeys()
    ensures ReadingTable[0].0 == "進路授業" && ReadingTable[7].0 == "授業"
    ensures ReadingTable[1].0 == "学問入門講座" && ReadingTable[6].0 == "講座" && ReadingTable[13].0 == "入門"
    ensures ReadingTable[3].0 == "討論対策" && ReadingTable[11].0 == "試験対策" && ReadingTable[27].0 == "対策"
  {
  }

  /** The compounds of the table are listed before the components they contain. */
  lemma ReadingTableCompoundsFirst()
    ensures Contains(ReadingTable[0].0, ReadingTable[7].0)    // 進路授業 before 授業
    ensures Contains(ReadingTable[1].0, ReadingTable[6].0)    // 学問入門講座 before 講座
    ensures Contains(ReadingTable[1].0, ReadingTable[13].0)   // 学問入門講座 before 入門
    ensures Contains(ReadingTable[3].0, ReadingTable[27].0)   // 討論対策 before 対策
    ensures Contains(ReadingTable[11].0, ReadingTable[27].0)  // 試験対策 before 対策
  {
    CompoundKeys();
    ContainsAt("進路授業", "授業", 2);
    ContainsAt("学問入門講座", "講座", 4);
    ContainsAt("学問入門講座", "入門", 2);
    ContainsAt("討論対策", "対策", 2);
    ContainsAt("試験対策", "対策", 2);
  }
}
