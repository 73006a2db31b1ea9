/**
 * The placement rule of FindBestOrder: which position among the entries
 * sorted by order a new key is given, the bounds of the order value chosen
 * for it, and that OrderedItems then shows the new key at that position.
 */
module CatalogOrder {
  import opened Wrappers
  import opened Strings
  import opened EnumerableExtensions
  import opened Locales
  import opened Items
  import opened Sorting
  import opened Catalogs
  import opened CatalogRows
  import opened CatalogWrites
  import opened CatalogQueries

  function OrderOf(e: TranslationItem): real { e.order }

  /** Orders rise strictly along `r`. */
  ghost predicate StrictlyIncreasing(r: seq<TranslationItem>) {
    forall i, j :: 0 <= i < j < |r| ==> r[i].order < r[j].order
  }

  /**
   * The position the new key is placed before: 0 for the start value, |r|
   * for the end value, otherwise the entry after the midpoint.
   */
  function Slot(r: seq<TranslationItem>, name: string): (f: nat)
    requires r != []
    ensures f <= |r|
  {
    var m := MaxMatching(r, name);
    if m == 0 then (if Compare(r[0].name, name) > 0 then 0 else |r|)
    else FirstAfter(r, name, m)
  }

  /** The value placed before index `f`: the start value, the end value or the midpoint of the neighbours. */
  function PlaceAt(r: seq<TranslationItem>, f: nat): real
    requires r != [] && f <= |r|
  {
    if f == |r| then MaxOrder(r) + 1.0
    else if f == 0 then r[0].order / 2.0
    else (r[f].order + r[f - 1].order) / 2.0
  }

  /** The value BestOrderIn returns is the one of its slot. */
  lemma BestOrderAtSlot(r: seq<TranslationItem>, name: string)
    requires r != []
    ensures BestOrderIn(r, name) == PlaceAt(r, Slot(r, name))
  {
  }

  /** A key shares no first character with an entry exactly when their match length is 0. */
  lemma MatchingZero(name: string, e: TranslationItem)
    ensures Matching(name, e) == 0 <==> name == [] || e.name == [] || name[0] != e.name[0]
  {
  }

  /** No entry shares a first character with the key: the start when the first entry sorts after it, else the end. */
  lemma SlotWithoutMatch(r: seq<TranslationItem>, name: string)
    requires r != []
    ensures MaxMatching(r, name) == 0 <==> forall i :: 0 <= i < |r| ==> name == [] || r[i].name == [] || name[0] != r[i].name[0]
    ensures MaxMatching(r, name) == 0 ==> Slot(r, name) == if Compare(r[0].name, name) > 0 then 0 else |r|
  {
    MaxMatchingSpec(r, name);
    forall i | 0 <= i < |r| ensures Matching(name, r[i]) == 0 <==> name == [] || r[i].name == [] || name[0] != r[i].name[0] {
      MatchingZero(name, r[i]);
    }
  }

  /** Among the longest matches, the first that sorts at or after the key. */
  lemma SlotAtOrAfter(r: seq<TranslationItem>, name: string, k: nat)
    requires r != [] && MaxMatching(r, name) > 0
    requires k < |r| && Matching(name, r[k]) == MaxMatching(r, name) && Compare(r[k].name, name) >= 0
    ensures var f, m := Slot(r, name), MaxMatching(r, name);
      && f <= k && Matching(name, r[f]) == m && Compare(r[f].name, name) >= 0
      && forall j :: 0 <= j < f && Matching(name, r[j]) == m ==> Compare(r[j].name, name) < 0
  {
    FirstAtOrAfterSpec(r, name, MaxMatching(r, name), 0);
  }

  /** When every longest match sorts before the key: one past the last of them. */
  lemma SlotPastLast(r: seq<TranslationItem>, name: string)
    requires r != [] && MaxMatching(r, name) > 0
    requires forall j :: 0 <= j < |r| && Matching(name, r[j]) == MaxMatching(r, name) ==> Compare(r[j].name, name) < 0
    ensures var f, m := Slot(r, name), MaxMatching(r, name);
      && 0 < f && Matching(name, r[f - 1]) == m
      && forall j :: f <= j < |r| ==> Matching(name, r[j]) != m
  {
    var m := MaxMatching(r, name);
    MaxMatchingSpec(r, name);
    FirstAtOrAfterSpec(r, name, m, 0);
    LastMatchingBeforeSpec(r, name, m, |r|);
    var k :| 0 <= k < |r| && Matching(name, r[k]) == m;
    assert FirstAtOrAfter(r, name, m, 0).None?;
    var last := LastMatchingBefore(r, name, m, |r|);
    assert last.Some? by {
      assert Matching(name, r[k]) == m;
    }
    assert Slot(r, name) == last.value + 1;
  }

  lemma SortedOrders(r: seq<TranslationItem>, i: nat, j: nat)
    requires SortedBy(r, OrderAtMost) && i <= j < |r|
    ensures r[i].order <= r[j].order
  {
    if i < j {
      assert OrderAtMost(r[i], r[j]);
    }
  }

  /**
   * Bounds of the value placed before index `f` of entries sorted by order:
   * the end value exceeds every order, the start value is below all when the
   * first order is positive, and the midpoint lies between its neighbours,
   * strictly when they differ.
   */
  lemma PlaceAtBounds(r: seq<TranslationItem>, f: nat)
    requires r != [] && f <= |r| && SortedBy(r, OrderAtMost)
    ensures var o := PlaceAt(r, f);
      && (f == |r| ==> forall i :: 0 <= i < |r| ==> r[i].order < o)
      && (f == 0 && r[0].order > 0.0 ==> forall i :: 0 <= i < |r| ==> o < r[i].order)
      && (0 < f < |r| ==>
            && (forall i :: 0 <= i < f ==> r[i].order <= o)
            && (forall i :: f <= i < |r| ==> o <= r[i].order))
      && (0 < f < |r| && r[f - 1].order < r[f].order ==>
            && (forall i :: 0 <= i < f ==> r[i].order < o)
            && (forall i :: f <= i < |r| ==> o < r[i].order))
  {
    if 0 < f < |r| {
      forall i | 0 <= i < f ensures r[i].order <= r[f - 1].order {
        SortedOrders(r, i, f - 1);
      }
      forall i | f <= i < |r| ensures r[f].order <= r[i].order {
        SortedOrders(r, f, i);
      }
    } else if f == 0 {
      forall i | 0 <= i < |r| ensures r[0].order <= r[i].order {
        SortedOrders(r, 0, i);
      }
    } else {
      MaxOrderSpec(r);
    }
  }

  /** With positive stored orders the new order is positive too. */
  lemma PlaceAtPositive(r: seq<TranslationItem>, f: nat)
    requires r != [] && f <= |r| && forall i :: 0 <= i < |r| ==> r[i].order > 0.0
    ensures PlaceAt(r, f) > 0.0
  {
    if f == |r| {
      MaxOrderSpec(r);
    }
  }

  /** With strictly rising positive orders the new order falls strictly inside its slot. */
  lemma BestOrderStrict(r: seq<TranslationItem>, name: string)
    requires r != [] && StrictlyIncreasing(r) && r[0].order > 0.0
    ensures var f, o := Slot(r, name), BestOrderIn(r, name);
      && (forall i :: 0 <= i < f ==> r[i].order < o)
      && (forall i :: f <= i < |r| ==> o < r[i].order)
  {
    BestOrderAtSlot(r, name);
    var f := Slot(r, name);
    assert SortedBy(r, OrderAtMost);
    PlaceAtBounds(r, f);
  }

  // ------------------------------------------------ the catalog-level rule

  lemma OrderAtMostPreorder()
    ensures TotalPreorder(OrderAtMost)
  {
  }

  /** The entries by order are a sorted arrangement of the entries; with distinct orders they rise strictly. */
  lemma ByOrderSpec(c: Catalog, l: LocaleInfo)
    ensures multiset(ByOrder(c, l)) == multiset(Entries(c, l))
    ensures SortedBy(ByOrder(c, l), OrderAtMost)
    ensures DistinctBy(Entries(c, l), OrderOf) ==> StrictlyIncreasing(ByOrder(c, l))
  {
    var r := ByOrder(c, l);
    OrderAtMostPreorder();
    SortBySorted(Entries(c, l), OrderAtMost);
    if DistinctBy(Entries(c, l), OrderOf) {
      SortByDistinct(Entries(c, l), OrderAtMost, OrderOf);
      forall i, j | 0 <= i < j < |r| ensures r[i].order < r[j].order {
        assert OrderOf(r[i]) != OrderOf(r[j]);
      }
    }
  }

  /**
   * FindBestOrder gives 1.0 for a locale without entries and, when every
   * stored order of the locale is positive, a positive order.
   */
  lemma FindBestOrderSpec(c: Catalog, l: LocaleInfo, name: string)
    ensures Entries(c, l) == [] ==> FindBestOrder(c, l, name) == 1.0
    ensures (forall e :: e in Entries(c, l) ==> e.order > 0.0) ==> FindBestOrder(c, l, name) > 0.0
  {
    var r := ByOrder(c, l);
    ByOrderSpec(c, l);
    if r != [] && forall e :: e in Entries(c, l) ==> e.order > 0.0 {
      forall i | 0 <= i < |r| ensures r[i].order > 0.0 {
        assert r[i] in multiset(Entries(c, l));
      }
      BestOrderAtSlot(r, name);
      PlaceAtPositive(r, Slot(r, name));
    }
  }

  // ------------------------------------------ where OrderedItems shows it

  /** Inserting an item whose order falls strictly inside slot `f` keeps the orders rising. */
  lemma InsertAtSlot(r: seq<TranslationItem>, f: nat, item: TranslationItem)
    requires f <= |r| && StrictlyIncreasing(r)
    requires forall i :: 0 <= i < f ==> r[i].order < item.order
    requires forall i :: f <= i < |r| ==> item.order < r[i].order
    ensures StrictlyIncreasing(r[..f] + [item] + r[f..])
  {
    var t := r[..f] + [item] + r[f..];
    assert forall i :: 0 <= i < f ==> t[i] == r[i];
    assert t[f] == item;
    assert forall i :: f < i < |t| ==> t[i] == r[i - 1];
  }

  lemma InsertMultiset(r: seq<TranslationItem>, f: nat, item: TranslationItem)
    requires f <= |r|
    ensures multiset(r[..f] + [item] + r[f..]) == multiset(r) + multiset{item}
  {
    assert r == r[..f] + r[f..];
  }

  /** Rising orders are sorted under the OriginalOrder key. */
  lemma StrictlySorted(t: seq<TranslationItem>)
    requires StrictlyIncreasing(t)
    ensures SortedBy(t, ItemAtMost(OriginalOrder))
  {
  }

  /** The new key is found at the slot when no earlier entry has the same name. */
  lemma FirstIndexAtSlot(t: seq<TranslationItem>, f: nat, name: string)
    requires f < |t| && t[f].name == name
    requires forall i :: 0 <= i < f ==> t[i].name != name
    ensures FirstIndexOf(t, (i: int, e: TranslationItem) => e.name == name) == f
  {
  }

  /** The item a new key receives with the auto order, and the entries of its locale afterwards. */
  lemma AutoOrderItem(c: Catalog, name: string, l: LocaleInfo, text: string)
    requires Valid(c) && name !in c.items
    requires AddOrReplaceStep(c, name, l, text, AutoOrder).result.Ok?
    ensures var w := AddOrReplaceStep(c, name, l, text, AutoOrder);
      && Valid(w.catalog)
      && w.result.value.name == name
      && w.result.value.order == FindBestOrder(c, l, name)
      && multiset(Entries(w.catalog, l)) == multiset(Entries(c, l)) + multiset{w.result.value}
  {
    AddOrReplaceStored(c, name, l, text, AutoOrder);
    AddOrReplaceValid(c, name, l, text, AutoOrder);
    AddOrReplaceEntries(c, name, l, text, AutoOrder, l);
    assert EntryAt(c.items, name, l) == [];
  }

  /**
   * Over entries with strictly rising positive orders and other names, the
   * item given BestOrderIn, put at its slot, leaves a listing sorted under
   * the OriginalOrder key in which the first item of its name is at the slot.
   */
  lemma SlotListing(r: seq<TranslationItem>, name: string, item: TranslationItem)
    requires r != [] && StrictlyIncreasing(r) && r[0].order > 0.0
    requires item.name == name && item.order == BestOrderIn(r, name)
    requires forall i :: 0 <= i < |r| ==> r[i].name != name
    ensures var f := Slot(r, name);
      var t := r[..f] + [item] + r[f..];
      && SortedBy(t, ItemAtMost(OriginalOrder))
      && multiset(t) == multiset(r) + multiset{item}
      && FirstIndexOf(t, (i: int, e: TranslationItem) => e.name == name) == f
  {
    var f := Slot(r, name);
    BestOrderStrict(r, name);
    InsertAtSlot(r, f, item);
    var t := r[..f] + [item] + r[f..];
    InsertMultiset(r, f, item);
    StrictlySorted(t);
    assert forall i :: 0 <= i < f ==> t[i] == r[i];
    FirstIndexAtSlot(t, f, name);
  }

  /**
   * The fixture's claim in general: when a new key is written with the auto
   * order to a locale whose entries have distinct positive orders, the
   * OriginalOrder listing shows it at Slot in the entries by order; in a
   * locale without entries it is the only entry, with order 1.0.
   */
  lemma AutoOrderPlacement(c: Catalog, name: string, l: LocaleInfo, text: string)
    requires Valid(c) && name !in c.items
    requires AddOrReplaceStep(c, name, l, text, AutoOrder).result.Ok?
    requires DistinctBy(Entries(c, l), OrderOf) && forall e :: e in Entries(c, l) ==> e.order > 0.0
    ensures var w := AddOrReplaceStep(c, name, l, text, AutoOrder);
      var listed := OrderedItems(w.catalog, l, OriginalOrder);
      && (Entries(c, l) == [] ==> listed == [w.result.value] && w.result.value.order == 1.0)
      && (Entries(c, l) != [] ==>
            FirstIndexOf(listed, (i: int, e: TranslationItem) => e.name == name) == Slot(ByOrder(c, l), name))
  {
    var w := AddOrReplaceStep(c, name, l, text, AutoOrder);
    var item := w.result.value;
    var r := ByOrder(c, l);
    AutoOrderItem(c, name, l, text);
    FindBestOrderSpec(c, l, name);
    if r == [] {
      OrderedItemsUnique(w.catalog, l, OriginalOrder, [item]);
    } else {
      EntriesStored(c, l);
      ByOrderSpec(c, l);
      forall i | 0 <= i < |r| ensures r[i].name != name && r[i].order > 0.0 {
        assert r[i] in multiset(Entries(c, l));
      }
      SlotListing(r, name, item);
      var f := Slot(r, name);
      OrderedItemsUnique(w.catalog, l, OriginalOrder, r[..f] + [item] + r[f..]);
    }
  }
}
