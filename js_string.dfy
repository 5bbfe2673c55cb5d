/**
 * The pieces of JavaScript's string library that the extension relies on,
 * written out over `string` (a sequence of UTF-16 code units for the BMP
 * characters the extension handles), and the library calls it makes into
 * code that is not modelled (wanakana, `String.normalize("NFKC")`,
 * `toLowerCase`), gathered as uninterpreted functions in `Converter`.
 */
module JsString {

  datatype Option<T> = None | Some(value: T)

  /** The library calls the search engine makes, as total functions nothing is known about. */
  datatype Converter = Converter(
    nfkc: string -> string,                  // s.normalize("NFKC")
    toLower: string -> string,               // s.toLowerCase()
    toHiragana: string -> string,            // wanakana.toHiragana(s)
    toHiraganaPassRomaji: string -> string,  // wanakana.toHiragana(s, { passRomaji: true })
    toKatakana: string -> string,            // wanakana.toKatakana(s)
    toRomaji: string -> string)              // wanakana.toRomaji(s)

  /**
   * JavaScript's `\s` class, which is also exactly what `String.prototype.trim`
   * removes: the WhiteSpace and LineTerminator code points of ECMA-262.
   */
  predicate IsJsSpace(c: char) {
    c == '\t' || c == '\n' || c == '\U{000B}' || c == '\U{000C}' || c == '\r' || c == ' '
    || c == '\U{00A0}' || c == '\U{1680}' || ('\U{2000}' <= c <= '\U{200A}')
    || c == '\U{2028}' || c == '\U{2029}' || c == '\U{202F}' || c == '\U{205F}'
    || c == '\U{3000}' || c == '\U{FEFF}'
  }

  predicate IsAsciiLetter(c: char) {
    ('a' <= c <= 'z') || ('A' <= c <= 'Z')
  }

  predicate IsAsciiDigit(c: char) {
    '0' <= c <= '9'
  }

  /** The hiragana block U+3040..U+309F. */
  predicate IsHiragana(c: char) {
    '\U{3040}' <= c <= '\U{309F}'
  }

  /**
   * The character classes the extension's regular expressions and `trim`
   * strip: `\s`, `[_＿]`, `[_＿\s]` and `[_＿\-\s]`.
   */
  datatype CharClass = Space | Underscore | Sep | EdgeSep

  predicate InClass(c: char, k: CharClass) {
    match k
    case Space => IsJsSpace(c)
    case Underscore => c == '_' || c == '＿'
    case Sep => c == '_' || c == '＿' || IsJsSpace(c)
    case EdgeSep => c == '_' || c == '＿' || c == '-' || IsJsSpace(c)
  }

  /** The longest suffix of `s` that does not start with a character of class `k`. */
  function DropWhile(s: string, k: CharClass): (r: string)
    ensures |r| <= |s|
    ensures r == [] || !InClass(r[0], k)
    ensures forall i :: 0 <= i < |s| - |r| ==> InClass(s[i], k)
  {
    if s != [] && InClass(s[0], k) then
      var r := DropWhile(s[1..], k);
      assert forall i :: 1 <= i < |s| - |r| ==> s[i] == s[1..][i - 1];
      r
    else s
  }

  /** What `DropWhile` leaves is a suffix of its input. */
  lemma {:induction false} DropWhileSuffix(s: string, k: CharClass)
    ensures DropWhile(s, k) == s[|s| - |DropWhile(s, k)|..]
    decreases |s|
  {
    if s != [] && InClass(s[0], k) {
      DropWhileSuffix(s[1..], k);
    }
  }

  /** The longest prefix of `s` that does not end with a character of class `k`. */
  function DropLastWhile(s: string, k: CharClass): (r: string)
    ensures |r| <= |s| && r == s[..|r|]
    ensures r == [] || !InClass(r[|r| - 1], k)
    ensures forall i :: |r| <= i < |s| ==> InClass(s[i], k)
  {
    if s != [] && InClass(s[|s| - 1], k) then
      var r := DropLastWhile(s[..|s| - 1], k);
      assert forall i :: |r| <= i < |s| - 1 ==> s[i] == s[..|s| - 1][i];
      r
    else s
  }

  /** `s.trim()` */
  function Trim(s: string): (r: string)
    ensures r == [] || (!IsJsSpace(r[0]) && !IsJsSpace(r[|r| - 1]))
    ensures |r| <= |s|
    ensures (s == [] || (!IsJsSpace(s[0]) && !IsJsSpace(s[|s| - 1]))) ==> r == s
  {
    DropLastWhile(DropWhile(s, Space), Space)
  }

  /** `p` occurs in `s` at index `i`. */
  predicate OccursAt(s: string, p: string, i: int) {
    0 <= i && i + |p| <= |s| && s[i..i + |p|] == p
  }

  /** `s.indexOf(p, from)`: the first index at or after `from` where `p` occurs, or -1. */
  function IndexOf(s: string, p: string, from: nat): (r: int)
    requires from <= |s|
    ensures r == -1 || (from <= r && OccursAt(s, p, r))
    decreases |s| - from
  {
    if from + |p| > |s| then -1
    else if s[from..from + |p|] == p then from
    else IndexOf(s, p, from + 1)
  }

  /** `indexOf` finds the first occurrence at or after `from`: `p` occurs nowhere before it, nor anywhere when it finds none. */
  lemma {:induction false} IndexOfFirst(s: string, p: string, from: nat)
    requires from <= |s|
    ensures var r := IndexOf(s, p, from);
      forall k :: from <= k && (r == -1 || k < r) ==> !OccursAt(s, p, k)
    decreases |s| - from
  {
    if from + |p| <= |s| && s[from..from + |p|] != p {
      IndexOfFirst(s, p, from + 1);
    }
  }

  /** `s.includes(p)` */
  predicate Contains(s: string, p: string) {
    IndexOf(s, p, 0) != -1
  }

  lemma ContainsIff(s: string, p: string)
    ensures Contains(s, p) <==> exists k :: OccursAt(s, p, k)
  {
    IndexOfFirst(s, p, 0);
    if exists k :: OccursAt(s, p, k) {
      var k :| OccursAt(s, p, k);
      assert k >= 0;
    }
  }

  /** `s.replace(key, value)` with a string pattern: only the first occurrence of `key` is replaced. */
  function ReplaceFirst(s: string, key: string, value: string): string {
    var i := IndexOf(s, key, 0);
    if i == -1 then s else s[..i] + value + s[i + |key|..]
  }

  function Min(a: int, b: int): int {
    if a <= b then a else b
  }

  /** `s.substring(a, b)` for `0 <= a <= b`: both ends are clamped to the length of `s`. */
  function Slice(s: string, a: nat, b: nat): string
    requires a <= b
  {
    s[Min(a, |s|)..Min(b, |s|)]
  }

  /** `s.substring(a)` */
  function SliceFrom(s: string, a: nat): string {
    s[Min(a, |s|)..]
  }

  /** The elements of `xs`, as a set. */
  function Elems<T>(xs: seq<T>): set<T> {
    if xs == [] then {} else Elems(xs[..|xs| - 1]) + {xs[|xs| - 1]}
  }

  /** `Elems(xs)` holds exactly the elements of `xs`. */
  lemma {:induction false} ElemsSpec<T>(xs: seq<T>)
    ensures forall x :: x in Elems(xs) <==> x in xs
  {
    if xs != [] {
      var init := xs[..|xs| - 1];
      ElemsSpec(init);
      assert xs == init + [xs[|xs| - 1]];
    }
  }

  predicate NoDup<T(==)>(xs: seq<T>) {
    forall i, j :: 0 <= i < j < |xs| ==> xs[i] != xs[j]
  }

  /** `set.add(x)` on a JavaScript `Set`, seen as its insertion-ordered list of members. */
  function AddIfAbsent<T(==)>(acc: seq<T>, x: T): seq<T> {
    if x in acc then acc else acc + [x]
  }

  /** Adding every element of `xs`, in order, to the insertion-ordered set `acc`. */
  function AddAll<T(==)>(acc: seq<T>, xs: seq<T>): seq<T>
    decreases |xs|
  {
    if xs == [] then acc else AddAll(AddIfAbsent(acc, xs[0]), xs[1..])
  }

  /**
   * Adding to an insertion-ordered set keeps what was there in place, adds
   * exactly the elements of `xs` that were missing, and never duplicates.
   */
  lemma {:induction false} AddAllSpec<T>(acc: seq<T>, xs: seq<T>)
    ensures var r := AddAll(acc, xs); |acc| <= |r| && r[..|acc|] == acc
    ensures forall x :: x in AddAll(acc, xs) <==> x in acc || x in xs
    ensures NoDup(acc) ==> NoDup(AddAll(acc, xs))
    decreases |xs|
  {
    if xs != [] {
      var acc' := AddIfAbsent(acc, xs[0]);
      AddAllSpec(acc', xs[1..]);
      assert xs == [xs[0]] + xs[1..];
      assert forall x :: x in xs <==> x == xs[0] || x in xs[1..];
    }
  }

  /** Adding `[x] + xs` is adding `x`, then `xs`. */
  lemma AddAllCons<T>(acc: seq<T>, x: T, xs: seq<T>)
    ensures AddAll(acc, [x] + xs) == AddAll(AddIfAbsent(acc, x), xs)
  {
    assert ([x] + xs)[0] == x && ([x] + xs)[1..] == xs;
  }

  lemma {:induction false} AddAllAppend<T>(acc: seq<T>, xs: seq<T>, ys: seq<T>)
    ensures AddAll(acc, xs + ys) == AddAll(AddAll(acc, xs), ys)
    decreases |xs|
  {
    if xs != [] {
      assert (xs + ys)[0] == xs[0];
      assert (xs + ys)[1..] == xs[1..] + ys;
      AddAllAppend(AddIfAbsent(acc, xs[0]), xs[1..], ys);
    } else {
      assert xs + ys == ys;
    }
  }
}
