/**
 * Usage ranking of dropdown items: a click counter per item text, and the
 * reordering of a dropdown's items by descending count, ties kept in
 * document order, through the CSS `order` property.
 */
module UsageTracker {
  import opened JsString

  /** An element with `role="option"` or `role="menuitem"`. */
  class MenuItem {
    /** `textContent`, which nothing here changes. */
    const text: string
    /** `style.order`, once set. */
    var order: Option<int>

    constructor (text: string)
      ensures this.text == text && order == None
    {
      this.text := text;
      order := None;
    }
  }

  /** A listbox or menu with its items in document order. */
  class Menu {
    const items: seq<MenuItem>
    /** `style.display == "flex"` with `style.flexDirection == "column"`. */
    var flexColumn: bool

    /** `querySelectorAll` never returns an element twice. */
    predicate Valid() {
      NoDup(items)
    }

    constructor (items: seq<MenuItem>)
      requires NoDup(items)
      ensures Valid() && this.items == items && !flexColumn
    {
      this.items := items;
      flexColumn := false;
    }
  }

  /** `getKey`: the NFKC-normalized, trimmed text content. */
  function GetKey(conv: Converter, text: string): (key: string)
    ensures key == [] || (!IsJsSpace(key[0]) && !IsJsSpace(key[|key| - 1]))
  {
    Trim(conv.nfkc(text))
  }

  /** `usage[key] || 0` */
  function Score(usage: map<string, int>, key: string): int {
    if key in usage then usage[key] else 0
  }

  /** An entry of the `scored` array of `reorderDropdown`. */
  datatype Scored = Scored(el: MenuItem, score: int, originalIndex: nat)

  /** The comparator of `reorderDropdown`: higher score first, then lower original index. */
  predicate Precedes(a: Scored, b: Scored) {
    a.score > b.score || (a.score == b.score && a.originalIndex < b.originalIndex)
  }

  /** `items.map((el, index) => ({ el, score: usage[getKey(el)] || 0, originalIndex: index }))` */
  function ScoredItems(conv: Converter, usage: map<string, int>, items: seq<MenuItem>): seq<Scored> {
    seq(|items|, i requires 0 <= i < |items| => Scored(items[i], Score(usage, GetKey(conv, items[i].text)), i))
  }

  predicate SortedStrictly(s: seq<Scored>) {
    forall i, j :: 0 <= i < j < |s| ==> Precedes(s[i], s[j])
  }

  predicate DistinctIndices(s: seq<Scored>) {
    forall i, j :: 0 <= i < j < |s| ==> s[i].originalIndex != s[j].originalIndex
  }

  /** `x` inserted in front of the first entry it precedes. */
  function Insert(x: Scored, s: seq<Scored>): seq<Scored> {
    if s == [] || Precedes(x, s[0]) then [x] + s else [s[0]] + Insert(x, s[1..])
  }

  /** `scored.sort(comparator)`: the comparator is a strict total order on entries with distinct indices, so the result is determined. */
  function SortScored(s: seq<Scored>): seq<Scored> {
    if s == [] then [] else Insert(s[0], SortScored(s[1..]))
  }

  /** An entry that precedes every entry of a sorted list can head it. */
  lemma SortedCons(h: Scored, s: seq<Scored>)
    requires SortedStrictly(s)
    requires forall k :: 0 <= k < |s| ==> Precedes(h, s[k])
    ensures SortedStrictly([h] + s)
  {
    var r := [h] + s;
    forall i, j | 0 <= i < j < |r|
      ensures Precedes(r[i], r[j])
    {
      assert r[j] == s[j - 1];
      if i > 0 {
        assert r[i] == s[i - 1];
      }
    }
  }

  lemma {:induction false} InsertSpec(x: Scored, s: seq<Scored>)
    requires SortedStrictly(s)
    requires forall k :: 0 <= k < |s| ==> s[k].originalIndex != x.originalIndex
    ensures multiset(Insert(x, s)) == multiset(s) + multiset{x}
    ensures SortedStrictly(Insert(x, s))
  {
    if s == [] || Precedes(x, s[0]) {
      if s != [] {
        SortedCons(x, s);
      }
    } else {
      var rest := s[1..];
      assert s == [s[0]] + rest;
      assert SortedStrictly(rest) by {
        forall i, j | 0 <= i < j < |rest|
          ensures Precedes(rest[i], rest[j])
        {
          assert rest[i] == s[i + 1] && rest[j] == s[j + 1];
        }
      }
      InsertSpec(x, rest);
      var ins := Insert(x, rest);
      assert Insert(x, s) == [s[0]] + ins;
      forall k | 0 <= k < |ins|
        ensures Precedes(s[0], ins[k])
      {
        var y := ins[k];
        assert y in multiset(ins);
        if y != x {
          assert y in multiset(rest);
          var m :| 0 <= m < |rest| && rest[m] == y;
          assert s[m + 1] == y;
        }
      }
      SortedCons(s[0], ins);
    }
  }

  /**
   * The sorted entries are a permutation of the input, strictly ordered by
   * the comparator: scores never increase along it, and entries with equal
   * scores keep their original relative order.
   */
  lemma {:induction false} SortScoredSpec(s: seq<Scored>)
    requires DistinctIndices(s)
    ensures multiset(SortScored(s)) == multiset(s)
    ensures |SortScored(s)| == |s|
    ensures SortedStrictly(SortScored(s))
    ensures forall i, j :: 0 <= i < j < |s| ==> SortScored(s)[i].score >= SortScored(s)[j].score
    ensures forall i, j :: 0 <= i < j < |s| && SortScored(s)[i].score == SortScored(s)[j].score ==>
      SortScored(s)[i].originalIndex < SortScored(s)[j].originalIndex
  {
    if s != [] {
      var rest := s[1..];
      assert s == [s[0]] + rest;
      assert DistinctIndices(rest);
      SortScoredSpec(rest);
      var sorted := SortScored(rest);
      forall k | 0 <= k < |sorted|
        ensures sorted[k].originalIndex != s[0].originalIndex
      {
        assert sorted[k] in multiset(rest);
        var m :| 0 <= m < |rest| && rest[m] == sorted[k];
        assert s[m + 1] == sorted[k];
      }
      InsertSpec(s[0], sorted);
    }
    assert |multiset(SortScored(s))| == |multiset(s)|;
  }

  /** Every sorted entry is the entry built from the item at its original index. */
  lemma SortedEntriesFromItems(scored: seq<Scored>)
    requires forall i :: 0 <= i < |scored| ==> scored[i].originalIndex == i
    ensures var sorted := SortScored(scored);
      && |sorted| == |scored| && SortedStrictly(sorted)
      && (forall k :: 0 <= k < |sorted| ==> sorted[k].originalIndex < |scored| && sorted[k] == scored[sorted[k].originalIndex])
      && (forall i :: 0 <= i < |scored| ==> scored[i] in sorted)
  {
    assert DistinctIndices(scored);
    SortScoredSpec(scored);
    var sorted := SortScored(scored);
    forall k | 0 <= k < |sorted|
      ensures sorted[k].originalIndex < |scored| && sorted[k] == scored[sorted[k].originalIndex]
    {
      assert sorted[k] in multiset(scored);
    }
    forall i | 0 <= i < |scored|
      ensures scored[i] in sorted
    {
      assert scored[i] in multiset(sorted);
    }
  }

  /** Sorting the entries of distinct items gives each item exactly one position. */
  lemma SortedItemsDistinct(scored: seq<Scored>, items: seq<MenuItem>)
    requires NoDup(items) && |scored| == |items|
    requires forall i :: 0 <= i < |scored| ==> scored[i].originalIndex == i && scored[i].el == items[i]
    ensures var sorted := SortScored(scored);
      && |sorted| == |items|
      && (forall i, j :: 0 <= i < j < |sorted| ==> sorted[i].el != sorted[j].el)
      && (forall k :: 0 <= k < |sorted| ==> sorted[k].el in items)
      && (forall i :: 0 <= i < |items| ==> exists k :: 0 <= k < |sorted| && sorted[k].el == items[i])
  {
    SortedEntriesFromItems(scored);
    var sorted := SortScored(scored);
    forall i, j | 0 <= i < j < |sorted|
      ensures sorted[i].el != sorted[j].el
    {
      assert Precedes(sorted[i], sorted[j]);
    }
    forall i | 0 <= i < |items|
      ensures exists k :: 0 <= k < |sorted| && sorted[k].el == items[i]
    {
      var k :| 0 <= k < |sorted| && sorted[k] == scored[i];
    }
  }

  /** `scored.some(s => s.score > 0)` */
  predicate AnyUsed(scored: seq<Scored>) {
    exists k :: 0 <= k < |scored| && scored[k].score > 0
  }

  /** The dropdown is reordered only when it has more than three items and one of them has been used. */
  predicate Reorders(scored: seq<Scored>) {
    |scored| > 3 && AnyUsed(scored)
  }

  /** The extension's usage counter. */
  class DropdownUsageTracker {
    const conv: Converter
    /** The click count per item key. */
    var usage: map<string, int>
    /** The items that have their mousedown listener. */
    var processedItems: set<MenuItem>
    /** The listeners attached, one entry per `addEventListener` call. */
    var listeners: seq<MenuItem>
    /** The dropdowns whose reordering has been scheduled. */
    var reorderedDropdowns: set<Menu>
    /** The reorderings scheduled, one entry per `setTimeout` call. */
    var scheduled: seq<Menu>

    /** No item has two listeners and no dropdown is scheduled twice. */
    ghost predicate Valid()
      reads this
    {
      && NoDup(listeners)
      && (forall k :: 0 <= k < |listeners| ==> listeners[k] in processedItems)
      && (forall it :: it in processedItems ==> it in listeners)
      && NoDup(scheduled)
      && (forall k :: 0 <= k < |scheduled| ==> scheduled[k] in reorderedDropdowns)
      && (forall m :: m in reorderedDropdowns ==> m in scheduled)
    }

    /** The counts come from storage, which is not part of this model. */
    constructor (conv: Converter, stored: map<string, int>)
      ensures Valid() && this.conv == conv && usage == stored
      ensures processedItems == {} && reorderedDropdowns == {}
    {
      this.conv := conv;
      usage := stored;
      processedItems := {};
      listeners := [];
      reorderedDropdowns := {};
      scheduled := [];
    }

    /** `incrementUsage`: an item with an empty key is not counted; otherwise its count goes up by one and no other count changes. */
    method IncrementUsage(item: MenuItem)
      modifies this`usage
      ensures var key := GetKey(conv, item.text);
        && (key == "" ==> usage == old(usage))
        && (key != "" ==>
          && key in usage && Score(usage, key) == Score(old(usage), key) + 1
          && forall k :: k != key ==> (k in usage <==> k in old(usage)) && (k in usage ==> usage[k] == old(usage)[k]))
    {
      var key := GetKey(conv, item.text);
      if key == "" {
        return;
      }
      usage := usage[key := Score(usage, key) + 1];
    }

    /** `reorderDropdown`: with more than three items of which one scores above zero, the items are ordered by the comparator. */
    method ReorderDropdown(menu: Menu)
      requires menu.Valid()
      modifies menu`flexColumn, menu.items`order
      ensures !Reorders(ScoredItems(conv, usage, menu.items)) ==> unchanged(menu) && unchanged(menu.items)
      ensures Reorders(ScoredItems(conv, usage, menu.items)) ==>
        var sorted := SortScored(ScoredItems(conv, usage, menu.items));
        && menu.flexColumn
        && |sorted| == |menu.items|
        && (forall k :: 0 <= k < |sorted| ==> sorted[k].el.order == Some(k))
        && (forall it :: it in menu.items ==> it.order.Some? && 0 <= it.order.value < |menu.items|)
    {
      var items := menu.items;
      if |items| <= 3 {
        return;
      }
      var scored := ScoredItems(conv, usage, items);
      if !AnyUsed(scored) {
        return;
      }
      ApplySortedOrder(menu, scored);
    }

    /** The reordering itself: the dropdown becomes a flex column and each item's `order` is its position after the sort. */
    static method ApplySortedOrder(menu: Menu, scored: seq<Scored>)
      requires menu.Valid() && |scored| == |menu.items|
      requires forall i :: 0 <= i < |scored| ==> scored[i].originalIndex == i && scored[i].el == menu.items[i]
      modifies menu`flexColumn, menu.items`order
      ensures var sorted := SortScored(scored);
        && menu.flexColumn
        && |sorted| == |menu.items|
        && (forall k :: 0 <= k < |sorted| ==> sorted[k].el.order == Some(k))
        && (forall it :: it in menu.items ==> it.order.Some? && 0 <= it.order.value < |menu.items|)
    {
      var items := menu.items;
      var sorted := SortScored(scored);
      SortedItemsDistinct(scored, items);
      menu.flexColumn := true;
      AssignOrders(sorted, items);
    }

    /** `scored.forEach((s, index) => { s.el.style.order = String(index); })` */
    static method AssignOrders(sorted: seq<Scored>, items: seq<MenuItem>)
      requires |sorted| == |items|
      requires forall i, j :: 0 <= i < j < |sorted| ==> sorted[i].el != sorted[j].el
      requires forall k :: 0 <= k < |sorted| ==> sorted[k].el in items
      requires forall i :: 0 <= i < |items| ==> exists k :: 0 <= k < |sorted| && sorted[k].el == items[i]
      modifies items`order
      ensures forall k :: 0 <= k < |sorted| ==> sorted[k].el.order == Some(k)
      ensures forall it :: it in items ==> it.order.Some? && 0 <= it.order.value < |items|
    {
      for index := 0 to |sorted|
        invariant forall j :: 0 <= j < index ==> sorted[j].el.order == Some(j)
      {
        sorted[index].el.order := Some(index);
      }
      forall it | it in items
        ensures it.order.Some? && 0 <= it.order.value < |items|
      {
        var i :| 0 <= i < |items| && items[i] == it;
        var k :| 0 <= k < |sorted| && sorted[k].el == items[i];
      }
    }

    /** `item.addEventListener("mousedown", …)` and `processedItems.add(item)`, for an item not processed yet. */
    method AddListener(item: MenuItem)
      requires Valid()
      modifies this`processedItems, this`listeners
      ensures Valid()
      ensures processedItems == old(processedItems) + {item}
      ensures listeners == old(listeners) + if item in old(processedItems) then [] else [item]
    {
      if item !in processedItems {
        assert item !in listeners;
        assert NoDup(listeners + [item]) by {
          forall i, j | 0 <= i < j < |listeners| + 1
            ensures (listeners + [item])[i] != (listeners + [item])[j]
          {
            if j == |listeners| {
              assert (listeners + [item])[i] == listeners[i];
            }
          }
        }
        listeners := listeners + [item];
        processedItems := processedItems + {item};
      }
    }

    /** The items that get a listener, in document order: those not processed yet, each once. */
    static function Unprocessed(items: seq<MenuItem>, processed: set<MenuItem>): (r: seq<MenuItem>)
      ensures forall k :: 0 <= k < |r| ==> r[k] in items && r[k] !in processed
      ensures forall k :: 0 <= k < |items| && items[k] !in processed ==> items[k] in r
      ensures NoDup(r)
    {
      if items == [] then []
      else
        assert forall it :: it in items[1..] ==> it in items;
        (if items[0] in processed then [] else [items[0]]) + Unprocessed(items[1..], processed + {items[0]})
    }

    /**
     * `setupDropdown`: every item without a listener gets one, and the
     * dropdown's reordering is scheduled unless it already was.
     */
    method SetupDropdown(menu: Menu)
      requires Valid() && menu.Valid()
      modifies this`processedItems, this`listeners, this`reorderedDropdowns, this`scheduled
      ensures Valid()
      ensures processedItems == old(processedItems) + Elems(menu.items)
      ensures listeners == old(listeners) + Unprocessed(menu.items, old(processedItems))
      ensures reorderedDropdowns == old(reorderedDropdowns) + {menu}
      ensures scheduled == if menu in old(reorderedDropdowns) then old(scheduled) else old(scheduled) + [menu]
    {
      AddListeners(menu.items);
      if menu !in reorderedDropdowns {
        reorderedDropdowns := reorderedDropdowns + {menu};
        scheduled := scheduled + [menu];
      }
    }

    /** The loop of `setupDropdown` over the dropdown's items. */
    method AddListeners(items: seq<MenuItem>)
      requires Valid()
      modifies this`processedItems, this`listeners
      ensures Valid()
      ensures processedItems == old(processedItems) + Elems(items)
      ensures listeners == old(listeners) + Unprocessed(items, old(processedItems))
    {
      ghost var processed0, listeners0 := processedItems, listeners;
      for k := 0 to |items|
        invariant Valid()
        invariant processedItems == processed0 + Elems(items[..k])
        invariant listeners == listeners0 + Unprocessed(items[..k], processed0)
      {
        var item := items[k];
        ghost var added := if item in processedItems then [] else [item];
        PrefixStep(items, k, processed0);
        AddListener(item);
        assert listeners == listeners0 + (Unprocessed(items[..k], processed0) + added);
      }
      assert items[..|items|] == items;
    }

    /** What one more item of the loop adds to the processed set and to the listeners. */
    static lemma PrefixStep(items: seq<MenuItem>, k: nat, processed: set<MenuItem>)
      requires k < |items|
      ensures Elems(items[..k + 1]) == Elems(items[..k]) + {items[k]}
      ensures Unprocessed(items[..k + 1], processed) == Unprocessed(items[..k], processed)
        + (if items[k] in processed + Elems(items[..k]) then [] else [items[k]])
    {
      assert items[..k + 1] == items[..k] + [items[k]];
      assert items[..k + 1][..k] == items[..k];
      ElemsSpec(items[..k]);
      UnprocessedAppend(items[..k], items[k], processed);
    }

    static lemma UnprocessedAppend(items: seq<MenuItem>, item: MenuItem, processed: set<MenuItem>)
      ensures Unprocessed(items + [item], processed)
        == Unprocessed(items, processed) + (if item in processed || item in items then [] else [item])
    {
      if items != [] {
        var t := items + [item];
        assert t[0] == items[0] && t[1..] == items[1..] + [item];
        UnprocessedAppend(items[1..], item, processed + {items[0]});
        assert item in items <==> item == items[0] || item in items[1..];
      } else {
        assert items + [item] == [item];
      }
    }
  }
}
