/**
 * ReadFromJson: the properties of a parsed JSON object go through
 * ProcessJson into a dictionary, the locale is validated, and the
 * dictionary's pairs are written in order with the orders 1.0, 2.0, ...,
 * so that a file read into a locale without entries is listed back in the
 * order it was read.
 */
module CatalogLoad {
  import opened Wrappers
  import opened EnumerableExtensions
  import opened Locales
  import opened Items
  import opened Sorting
  import opened Catalogs
  import opened CatalogRows
  import opened CatalogWrites
  import opened CatalogQueries
  import opened CatalogOrder
  import opened Dialects

  /** `order++`: the next order of the numbering loop. */
  function NextOrder(o: real): (r: real)
    ensures r > o
  {
    o + 1.0
  }

  /** The items the numbering loop writes from pair `from` on, numbered from `order` up by one. */
  function Numbered(l: LocaleInfo, pairs: seq<(string, string)>, from: nat, order: real): (t: seq<TranslationItem>)
    requires from <= |pairs|
    ensures |t| == |pairs| - from
    ensures forall j :: 0 <= j < |t| ==> t[j].locale == l && t[j].name == pairs[from + j].0 && t[j].text == pairs[from + j].1
    decreases |pairs| - from
  {
    if from == |pairs| then []
    else [TranslationItem(l, pairs[from].0, pairs[from].1, order)] + Numbered(l, pairs, from + 1, NextOrder(order))
  }

  /**
   * `this[key, locale, order++] = value` for the pairs from `from` on, in
   * turn; the first failure stops the loop.
   */
  function LoadNumbered(c: Catalog, l: LocaleInfo, pairs: seq<(string, string)>, from: nat, order: real): Outcome<()>
    requires from <= |pairs|
    decreases |pairs| - from
  {
    if from == |pairs| then Outcome(c, Ok(()))
    else
      var w := AddOrReplaceStep(c, pairs[from].0, l, pairs[from].1, order);
      if w.result.Err? then Outcome(w.catalog, Err(w.result.error))
      else LoadNumbered(w.catalog, l, pairs, from + 1, NextOrder(order))
  }

  /**
   * ReadFromJson(ref locale, json) over the parsed properties: the locale
   * after ProcessJson is validated (a refusal leaves the store as it was),
   * then the dictionary is numbered from 1.0 under the stored locale, which
   * is what the caller's locale becomes.
   */
  function ReadFromJsonStep(c: Catalog, dialect: Dialect, l: LocaleInfo, props: seq<(string, string)>): Outcome<LocaleInfo> {
    var loaded := LoadPairs(dialect, l, props);
    var v := ValidateStep(c, loaded.0);
    if v.result.Err? then v
    else
      var w := LoadNumbered(v.catalog, v.result.value, loaded.1, 0, 1.0);
      Outcome(w.catalog, if w.result.Err? then Err(w.result.error) else v.result)
  }

  // ------------------------------------------------------------- numbering

  /** The numbering from a pair starts with that pair's item. */
  lemma NumberedUnfold(l: LocaleInfo, pairs: seq<(string, string)>, from: nat, order: real)
    requires from < |pairs|
    ensures Numbered(l, pairs, from, order)
      == [TranslationItem(l, pairs[from].0, pairs[from].1, order)] + Numbered(l, pairs, from + 1, NextOrder(order))
  {
  }

  /** A suffix is its first element followed by the next suffix. */
  lemma SuffixUnfold<T>(s: seq<T>, i: nat)
    requires i < |s|
    ensures s[i..] == [s[i]] + s[i + 1..]
  {
  }

  /** Item `k + 1` of the numbering from a pair is item `k` of the numbering from the next. */
  lemma NumberedShift(l: LocaleInfo, pairs: seq<(string, string)>, from: nat, order: real, k: nat)
    requires from + k + 1 < |pairs|
    ensures Numbered(l, pairs, from, order)[k + 1] == Numbered(l, pairs, from + 1, NextOrder(order))[k]
  {
  }

  /** Two appends in a row are one append of the joined tail. */
  lemma AppendTwice<T>(e0: seq<T>, e1: seq<T>, e2: seq<T>, x: seq<T>, t: seq<T>)
    requires e1 == e0 + x && e2 == e1 + t
    ensures e2 == e0 + (x + t)
  {
  }

  /** One item and then a sequence added to a bag add the two joined. */
  lemma MultisetTwice<T>(e0: seq<T>, e1: seq<T>, e2: seq<T>, x: T, t: seq<T>)
    requires multiset(e1) == multiset(e0) + multiset{x} && multiset(e2) == multiset(e1) + multiset(t)
    ensures multiset(e2) == multiset(e0) + multiset([x] + t)
  {
  }

  /** Item `j` of the numbering is pair `from + j` with order `order + j`. */
  lemma {:induction false} NumberedOrders(l: LocaleInfo, pairs: seq<(string, string)>, from: nat, order: real, j: nat)
    requires from + j < |pairs|
    ensures Numbered(l, pairs, from, order)[j] == TranslationItem(l, pairs[from + j].0, pairs[from + j].1, order + j as real)
    decreases j
  {
    if j > 0 {
      NumberedOrders(l, pairs, from + 1, NextOrder(order), j - 1);
    }
  }

  /** The numbered items rise strictly in order. */
  lemma NumberedRising(l: LocaleInfo, pairs: seq<(string, string)>, from: nat, order: real)
    requires from <= |pairs|
    ensures StrictlyIncreasing(Numbered(l, pairs, from, order))
  {
    var t := Numbered(l, pairs, from, order);
    forall i, j | 0 <= i < j < |t|
      ensures t[i].order < t[j].order
    {
      NumberedOrders(l, pairs, from, order, i);
      NumberedOrders(l, pairs, from, order, j);
    }
  }

  /** Rising orders leave no ties under the order key. */
  lemma RisingNoTies(t: seq<TranslationItem>)
    requires StrictlyIncreasing(t)
    ensures SortedBy(t, OrderAtMost) && NoTies(t, OrderAtMost)
  {
    forall i, j | 0 <= i < |t| && 0 <= j < |t| && OrderAtMost(t[i], t[j]) && OrderAtMost(t[j], t[i])
      ensures t[i] == t[j]
    {
      assert !(i < j) && !(j < i);
    }
  }

  // ------------------------------------------------------------- one write

  /** Writing a pair under a stored locale with an explicit order stores exactly that item. */
  lemma WriteStored(c: Catalog, name: string, l: LocaleInfo, text: string, order: real)
    requires Valid(c) && l in c.locales && order != AutoOrder
    ensures var w := AddOrReplaceStep(c, name, l, text, order);
      && w.result == Ok(TranslationItem(l, name, text, order))
      && Valid(w.catalog) && w.catalog.locales == c.locales
  {
    ValidateStored(c, l);
    AddOrReplaceShape(c, name, l, text, order);
    AddOrReplaceValid(c, name, l, text, order);
  }

  /** The item such a write stores is what GetItem then gives back. */
  lemma WriteStoredGet(c: Catalog, name: string, l: LocaleInfo, text: string, order: real)
    requires Valid(c) && l in c.locales && order != AutoOrder
    ensures GetItem(AddOrReplaceStep(c, name, l, text, order).catalog, name, l) == Ok(TranslationItem(l, name, text, order))
  {
    WriteStored(c, name, l, text, order);
    AddOrReplaceStored(c, name, l, text, order);
  }

  /** The entry of a key for a locale is the item GetItem gives back, if any. */
  lemma EntryAtGetItem(c: Catalog, k: string, m: LocaleInfo)
    ensures EntryAt(c.items, k, m) == (if GetItem(c, k, m).Ok? then [GetItem(c, k, m).value] else [])
  {
  }

  /** Writing a key without an entry for the locale adds its item to that locale's entries. */
  lemma WriteEntries(c: Catalog, name: string, l: LocaleInfo, text: string, order: real)
    requires Valid(c) && l in c.locales && order != AutoOrder && GetItem(c, name, l).Err?
    ensures multiset(Entries(AddOrReplaceStep(c, name, l, text, order).catalog, l))
      == multiset(Entries(c, l)) + multiset{TranslationItem(l, name, text, order)}
  {
    WriteStored(c, name, l, text, order);
    EntryAtGetItem(c, name, l);
    AddOrReplaceEntries(c, name, l, text, order, l);
  }

  // ------------------------------------------------------------- the loop

  /** After a successful write of pair `from`, the loop goes on from the next pair and order. */
  lemma LoadNumberedUnfold(c: Catalog, l: LocaleInfo, pairs: seq<(string, string)>, from: nat, order: real)
    requires from < |pairs| && AddOrReplaceStep(c, pairs[from].0, l, pairs[from].1, order).result.Ok?
    ensures LoadNumbered(c, l, pairs, from, order)
      == LoadNumbered(AddOrReplaceStep(c, pairs[from].0, l, pairs[from].1, order).catalog, l, pairs, from + 1, NextOrder(order))
  {
  }

  /**
   * Under a stored locale the numbering loop never fails; it keeps the
   * store invariant and adds no locale.
   */
  lemma {:induction false} LoadNumberedValid(c: Catalog, l: LocaleInfo, pairs: seq<(string, string)>, from: nat, order: real)
    requires Valid(c) && l in c.locales && from <= |pairs| && order > AutoOrder
    ensures var r := LoadNumbered(c, l, pairs, from, order);
      r.result.Ok? && Valid(r.catalog) && r.catalog.locales == c.locales
    decreases |pairs| - from
  {
    if from < |pairs| {
      WriteStored(c, pairs[from].0, l, pairs[from].1, order);
      var w := AddOrReplaceStep(c, pairs[from].0, l, pairs[from].1, order);
      LoadNumberedValid(w.catalog, l, pairs, from + 1, NextOrder(order));
    }
  }

  /** The loop changes no pair outside its names and its locale. */
  lemma {:induction false} LoadNumberedOthers(c: Catalog, l: LocaleInfo, pairs: seq<(string, string)>, from: nat, order: real, k: string, m: LocaleInfo)
    requires Valid(c) && l in c.locales && from <= |pairs| && order > AutoOrder
    requires (forall j :: from <= j < |pairs| ==> pairs[j].0 != k) || !m.Equals(l)
    ensures GetItem(LoadNumbered(c, l, pairs, from, order).catalog, k, m) == GetItem(c, k, m)
    decreases |pairs| - from
  {
    if from < |pairs| {
      WriteStored(c, pairs[from].0, l, pairs[from].1, order);
      AddOrReplaceOthers(c, pairs[from].0, l, pairs[from].1, order, k, m);
      var w := AddOrReplaceStep(c, pairs[from].0, l, pairs[from].1, order);
      LoadNumberedOthers(w.catalog, l, pairs, from + 1, NextOrder(order), k, m);
    }
  }

  /** A name that does not come back later in the pairs is read back as its numbered item. */
  lemma {:induction false} LoadNumberedStored(c: Catalog, l: LocaleInfo, pairs: seq<(string, string)>, from: nat, order: real, i: nat)
    requires Valid(c) && l in c.locales && order > AutoOrder
    requires Distinct(KeysOf(pairs)) && from <= i < |pairs|
    ensures GetItem(LoadNumbered(c, l, pairs, from, order).catalog, pairs[i].0, l) == Ok(Numbered(l, pairs, from, order)[i - from])
    decreases |pairs| - from, 1
  {
    if i == from {
      WriteStored(c, pairs[from].0, l, pairs[from].1, order);
      LoadNumberedUnfold(c, l, pairs, from, order);
      LoadNumberedStoredHead(c, l, pairs, from, order);
    } else {
      LoadNumberedStoredLater(c, l, pairs, from, order, i);
    }
  }

  /** A name after the first is stored by the rest of the loop, with the item numbered for it. */
  lemma {:induction false} LoadNumberedStoredLater(c: Catalog, l: LocaleInfo, pairs: seq<(string, string)>, from: nat, order: real, i: nat)
    requires Valid(c) && l in c.locales && order > AutoOrder
    requires Distinct(KeysOf(pairs)) && from < i < |pairs|
    ensures GetItem(LoadNumbered(c, l, pairs, from, order).catalog, pairs[i].0, l) == Ok(Numbered(l, pairs, from, order)[i - from])
    decreases |pairs| - from, 0
  {
    WriteStored(c, pairs[from].0, l, pairs[from].1, order);
    var w := AddOrReplaceStep(c, pairs[from].0, l, pairs[from].1, order);
    LoadNumberedUnfold(c, l, pairs, from, order);
    LoadNumberedStored(w.catalog, l, pairs, from + 1, NextOrder(order), i);
    NumberedShift(l, pairs, from, order, i - from - 1);
  }

  /** The first name the loop writes keeps its item, since no later name is the same. */
  lemma LoadNumberedStoredHead(c: Catalog, l: LocaleInfo, pairs: seq<(string, string)>, from: nat, order: real)
    requires Valid(c) && l in c.locales && order > AutoOrder
    requires Distinct(KeysOf(pairs)) && from < |pairs|
    ensures var w := AddOrReplaceStep(c, pairs[from].0, l, pairs[from].1, order);
      GetItem(LoadNumbered(w.catalog, l, pairs, from + 1, NextOrder(order)).catalog, pairs[from].0, l)
        == Ok(Numbered(l, pairs, from, order)[0])
  {
    WriteStored(c, pairs[from].0, l, pairs[from].1, order);
    var w := AddOrReplaceStep(c, pairs[from].0, l, pairs[from].1, order);
    NumberedOrders(l, pairs, from, order, 0);
    WriteStoredGet(c, pairs[from].0, l, pairs[from].1, order);
    forall j | from < j < |pairs|
      ensures pairs[j].0 != pairs[from].0
    {
      assert KeysOf(pairs)[from] != KeysOf(pairs)[j];
    }
    LoadNumberedOthers(w.catalog, l, pairs, from + 1, NextOrder(order), pairs[from].0, l);
  }

  /**
   * Into a store without any of its names, the loop appends its names to the
   * key order and its numbered items to the entries of its locale.
   */
  lemma {:induction false} LoadNumberedFresh(c: Catalog, l: LocaleInfo, pairs: seq<(string, string)>, from: nat, order: real, m: LocaleInfo)
    requires Valid(c) && l in c.locales && from <= |pairs| && order > AutoOrder
    requires Distinct(KeysOf(pairs)) && forall j :: from <= j < |pairs| ==> pairs[j].0 !in c.items
    ensures var r := LoadNumbered(c, l, pairs, from, order);
      && r.catalog.names == c.names + KeysOf(pairs)[from..]
      && Entries(r.catalog, m) == Entries(c, m) + (if m.Equals(l) then Numbered(l, pairs, from, order) else [])
    decreases |pairs| - from
  {
    if from == |pairs| {
      assert KeysOf(pairs)[from..] == [];
    } else {
      var name := pairs[from].0;
      var item := TranslationItem(l, name, pairs[from].1, order);
      WriteStored(c, name, l, pairs[from].1, order);
      AddOrReplaceNewKeyEntries(c, name, l, pairs[from].1, order, m);
      var w := AddOrReplaceStep(c, name, l, pairs[from].1, order);
      forall j | from < j < |pairs|
        ensures pairs[j].0 !in w.catalog.items
      {
        assert KeysOf(pairs)[from] != KeysOf(pairs)[j];
      }
      LoadNumberedFresh(w.catalog, l, pairs, from + 1, NextOrder(order), m);
      var r := LoadNumbered(w.catalog, l, pairs, from + 1, NextOrder(order)).catalog;
      LoadNumberedUnfold(c, l, pairs, from, order);
      NumberedUnfold(l, pairs, from, order);
      SuffixUnfold(KeysOf(pairs), from);
      AppendTwice(c.names, w.catalog.names, r.names, [name], KeysOf(pairs)[from + 1..]);
      if m.Equals(l) {
        AppendTwice(Entries(c, m), Entries(w.catalog, m), Entries(r, m), [item], Numbered(l, pairs, from + 1, NextOrder(order)));
      }
    }
  }

  /**
   * Into a locale where none of its names has an entry, the loop adds its
   * numbered items to the entries of that locale, whether or not the names
   * were stored for other locales.
   */
  lemma {:induction false} LoadNumberedEntries(c: Catalog, l: LocaleInfo, pairs: seq<(string, string)>, from: nat, order: real)
    requires Valid(c) && l in c.locales && from <= |pairs| && order > AutoOrder
    requires Distinct(KeysOf(pairs)) && forall j :: from <= j < |pairs| ==> GetItem(c, pairs[j].0, l).Err?
    ensures multiset(Entries(LoadNumbered(c, l, pairs, from, order).catalog, l))
      == multiset(Entries(c, l)) + multiset(Numbered(l, pairs, from, order))
    decreases |pairs| - from
  {
    if from < |pairs| {
      var name := pairs[from].0;
      WriteStored(c, name, l, pairs[from].1, order);
      WriteEntries(c, name, l, pairs[from].1, order);
      var w := AddOrReplaceStep(c, name, l, pairs[from].1, order);
      forall j | from < j < |pairs|
        ensures GetItem(w.catalog, pairs[j].0, l).Err?
      {
        assert KeysOf(pairs)[from] != KeysOf(pairs)[j];
        AddOrReplaceOthers(c, name, l, pairs[from].1, order, pairs[j].0, l);
      }
      LoadNumberedEntries(w.catalog, l, pairs, from + 1, NextOrder(order));
      var r := LoadNumbered(w.catalog, l, pairs, from + 1, NextOrder(order)).catalog;
      LoadNumberedUnfold(c, l, pairs, from, order);
      NumberedUnfold(l, pairs, from, order);
      MultisetTwice(Entries(c, l), Entries(w.catalog, l), Entries(r, l),
        TranslationItem(l, name, pairs[from].1, order), Numbered(l, pairs, from + 1, NextOrder(order)));
    }
  }

  // ------------------------------------------------------------- load order

  /**
   * A file read into a locale without entries is listed back in the order
   * it was read: both the OriginalOrder listing and the entries by order
   * are the numbered items.
   */
  lemma LoadOrderReproduced(c: Catalog, l: LocaleInfo, pairs: seq<(string, string)>, order: real)
    requires Valid(c) && l in c.locales && order > AutoOrder
    requires Distinct(KeysOf(pairs)) && Entries(c, l) == []
    ensures var w := LoadNumbered(c, l, pairs, 0, order);
      && OrderedItems(w.catalog, l, OriginalOrder) == Numbered(l, pairs, 0, order)
      && ByOrder(w.catalog, l) == Numbered(l, pairs, 0, order)
  {
    forall j | 0 <= j < |pairs|
      ensures GetItem(c, pairs[j].0, l).Err?
    {
      var g := GetItem(c, pairs[j].0, l);
      if g.Ok? {
        EntriesByKey(c, l, g.value);
      }
    }
    var w := LoadNumbered(c, l, pairs, 0, order);
    var t := Numbered(l, pairs, 0, order);
    LoadNumberedValid(c, l, pairs, 0, order);
    LoadNumberedEntries(c, l, pairs, 0, order);
    NumberedRising(l, pairs, 0, order);
    StrictlySorted(t);
    OrderedItemsUnique(w.catalog, l, OriginalOrder, t);
    RisingNoTies(t);
    ByOrderSpec(w.catalog, l);
    SortedUnique(t, ByOrder(w.catalog, l), OrderAtMost);
  }

  // ------------------------------------------------------------- ReadFromJson

  /** What a validation tells the load: a refusal changes nothing, a success keeps the invariant and the pairs. */
  lemma ValidateFacts(c: Catalog, l: LocaleInfo)
    requires Valid(c)
    ensures var v := ValidateStep(c, l);
      && (v.result.Err? ==> v.catalog == c)
      && (v.result.Ok? ==>
            && v.result.value.Equals(l) && v.result.value in v.catalog.locales && Valid(v.catalog)
            && v.catalog.names == c.names && v.catalog.items == c.items)
  {
    ValidateStepSpec(c, l);
  }

  /** ReadFromJson is the validation followed, on success, by the numbering loop from 1.0. */
  lemma ReadFromJsonUnfold(c: Catalog, dialect: Dialect, l: LocaleInfo, props: seq<(string, string)>)
    requires Valid(c)
    ensures var loaded := LoadPairs(dialect, l, props);
      var v := ValidateStep(c, loaded.0);
      var r := ReadFromJsonStep(c, dialect, l, props);
      && (v.result.Err? ==> r == Outcome(c, v.result))
      && (v.result.Ok? ==>
            && r == Outcome(LoadNumbered(v.catalog, v.result.value, loaded.1, 0, 1.0).catalog, v.result)
            && Valid(r.catalog) && r.catalog.locales == v.catalog.locales)
  {
    var loaded := LoadPairs(dialect, l, props);
    ValidateFacts(c, loaded.0);
    var v := ValidateStep(c, loaded.0);
    if v.result.Ok? {
      LoadNumberedValid(v.catalog, v.result.value, loaded.1, 0, 1.0);
    }
  }

  /**
   * ReadFromJson refuses the locale ProcessJson leaves exactly when
   * ValidateLocale does, and then changes nothing; otherwise it gives back the
   * stored locale of that id and keeps the invariant.
   */
  lemma ReadFromJsonSpec(c: Catalog, dialect: Dialect, l: LocaleInfo, props: seq<(string, string)>)
    requires Valid(c)
    ensures var loc := LoadPairs(dialect, l, props).0;
      var r := ReadFromJsonStep(c, dialect, l, props);
      && (r.result.Err? <==> ValidateStep(c, loc).result.Err?)
      && (r.result.Err? ==> r.catalog == c && r.result.error == ValidateStep(c, loc).result.error)
      && (r.result.Ok? ==> r.result.value.Equals(loc) && r.result.value in r.catalog.locales && Valid(r.catalog))
  {
    var loc := LoadPairs(dialect, l, props).0;
    ValidateFacts(c, loc);
    ReadFromJsonUnfold(c, dialect, l, props);
  }

  /** After a successful ReadFromJson, pair `i` of the dictionary is stored with order 1.0 + i. */
  lemma ReadFromJsonStored(c: Catalog, dialect: Dialect, l: LocaleInfo, props: seq<(string, string)>, i: nat)
    requires Valid(c)
    ensures var (loc, d) := LoadPairs(dialect, l, props);
      var r := ReadFromJsonStep(c, dialect, l, props);
      r.result.Ok? && i < |d| ==>
        GetItem(r.catalog, d[i].0, loc) == Ok(TranslationItem(r.result.value, d[i].0, d[i].1, 1.0 + i as real))
  {
    var (loc, d) := LoadPairs(dialect, l, props);
    ValidateFacts(c, loc);
    ReadFromJsonUnfold(c, dialect, l, props);
    var v := ValidateStep(c, loc);
    if v.result.Ok? && i < |d| {
      LoadPairsKeys(dialect, l, props);
      LoadedStored(v.catalog, v.result.value, loc, d, i);
    }
  }

  /** Numbering a dictionary of distinct names from 1.0 stores pair `i` with order 1.0 + i. */
  lemma LoadedStored(c: Catalog, s: LocaleInfo, loc: LocaleInfo, d: seq<(string, string)>, i: nat)
    requires Valid(c) && s in c.locales && s.Id() == loc.Id()
    requires Distinct(KeysOf(d)) && i < |d|
    ensures GetItem(LoadNumbered(c, s, d, 0, 1.0).catalog, d[i].0, loc) == Ok(TranslationItem(s, d[i].0, d[i].1, 1.0 + i as real))
  {
    var w := LoadNumbered(c, s, d, 0, 1.0).catalog;
    var t := Numbered(s, d, 0, 1.0);
    LoadNumberedStored(c, s, d, 0, 1.0, i);
    assert A: GetItem(w, d[i].0, s) == Ok(t[i]);
    NumberedOrders(s, d, 0, 1.0, i);
    assert B: t[i] == TranslationItem(s, d[i].0, d[i].1, 1.0 + i as real);
    GetItemSameId(w, d[i].0, s, loc);
  }

  /** A lookup finds the same item under any locale of the same id. */
  lemma GetItemSameId(c: Catalog, k: string, s: LocaleInfo, loc: LocaleInfo)
    requires s.Id() == loc.Id()
    ensures GetItem(c, k, loc) == GetItem(c, k, s)
  {
    if k in c.items {
      RowGetSameId(c.items[k], s, loc);
    }
  }

  /**
   * Reading a file into a store that has no entries for its locale lists the
   * dictionary back in order under OriginalOrder, numbered 1.0, 2.0, ...
   */
  lemma ReadFromJsonOrder(c: Catalog, dialect: Dialect, l: LocaleInfo, props: seq<(string, string)>)
    requires Valid(c) && Entries(c, LoadPairs(dialect, l, props).0) == []
    ensures var (loc, d) := LoadPairs(dialect, l, props);
      var r := ReadFromJsonStep(c, dialect, l, props);
      r.result.Ok? ==> OrderedItems(r.catalog, loc, OriginalOrder) == Numbered(r.result.value, d, 0, 1.0)
  {
    var (loc, d) := LoadPairs(dialect, l, props);
    ValidateFacts(c, loc);
    ReadFromJsonUnfold(c, dialect, l, props);
    var v := ValidateStep(c, loc);
    if v.result.Ok? {
      var s := v.result.value;
      LoadPairsKeys(dialect, l, props);
      EntriesOfSameId(c.names, c.items, s, loc);
      LoadOrderReproduced(v.catalog, s, d, 1.0);
      var w := LoadNumbered(v.catalog, s, d, 0, 1.0).catalog;
      EntriesOfSameId(w.names, w.items, s, loc);
    }
  }
}
