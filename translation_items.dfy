/**
 * The translation store itself: TranslationItems and its Ryujinx variant as a
 * class whose fields are the known locales, the key order and the rows of the
 * items dictionary. Every method changes the fields as the matching step
 * function of the catalog model says, so what is proved about the steps
 * (validation, writes, the load numbering) holds of the object.
 */
module Store {
  import opened Wrappers
  import opened Locales
  import opened Items
  import opened Catalogs
  import opened CatalogWrites
  import opened Dialects
  import opened CatalogLoad

  /** One write of the bulk overload, the invariant it keeps, and the getter that reads the store. */
  type Write = (Catalog, TranslationItem) -> Outcome<TranslationItem>
  type Invariant = Catalog -> bool
  type Lookup = (Catalog, string, LocaleInfo) -> Result<TranslationItem>

  // ----------------------------------------- what the bulk write relies on

  /** No later item of the input writes the same (key, locale id) pair as item `i`. */
  predicate LastWriteOf(input: seq<TranslationItem>, i: nat)
    requires i < |input|
  {
    forall j :: i < j < |input| ==> input[j].name != input[i].name || !input[j].locale.Equals(input[i].locale)
  }

  /** What the bulk write of one item returned: the item's fields, under the stored locale of its id. */
  predicate WrittenAs(out: TranslationItem, x: TranslationItem) {
    && out.name == x.name && out.text == x.text
    && out.locale.Equals(x.locale) && out.locale.name == x.locale.name
    && (x.order != AutoOrder ==> out.order == x.order)
  }

  /** A write keeps the store invariant. */
  ghost predicate KeepsValid(write: Write, inv: Invariant) {
    forall c: Catalog, x: TranslationItem :: inv(c) ==> inv(write(c, x).catalog)
  }

  /** A write with an invalid locale fails. */
  ghost predicate RefusesInvalid(write: Write) {
    forall c: Catalog, x: TranslationItem :: !x.locale.Valid() ==> write(c, x).result.Err?
  }

  /** A successful write returns the item as asked and stores it under its pair. */
  ghost predicate StoresAsAsked(write: Write, inv: Invariant, get: Lookup) {
    forall c: Catalog, x: TranslationItem :: inv(c) && write(c, x).result.Ok? ==>
      WrittenAs(write(c, x).result.value, x) && get(write(c, x).catalog, x.name, x.locale) == Ok(write(c, x).result.value)
  }

  /** A write changes no other (key, locale) pair. */
  ghost predicate KeepsOthers(write: Write, inv: Invariant, get: Lookup) {
    forall c: Catalog, x: TranslationItem, k: string, m: LocaleInfo :: inv(c) && (k != x.name || !m.Equals(x.locale)) ==> get(write(c, x).catalog, k, m) == get(c, k, m)
  }

  lemma WriteItemKeepsValid()
    ensures KeepsValid(WriteItem, Valid)
  {
    forall c: Catalog, x: TranslationItem | Valid(c) ensures Valid(WriteItem(c, x).catalog) {
      AddOrReplaceValid(c, x.name, x.locale, x.text, x.order);
    }
  }

  lemma WriteItemStoresAsAsked()
    ensures StoresAsAsked(WriteItem, Valid, GetItem)
  {
    forall c: Catalog, x: TranslationItem | Valid(c) && WriteItem(c, x).result.Ok?
      ensures WrittenAs(WriteItem(c, x).result.value, x) && GetItem(WriteItem(c, x).catalog, x.name, x.locale) == Ok(WriteItem(c, x).result.value)
    {
      AddOrReplaceStored(c, x.name, x.locale, x.text, x.order);
    }
  }

  lemma WriteItemKeepsOthers()
    ensures KeepsOthers(WriteItem, Valid, GetItem)
  {
    forall c: Catalog, x: TranslationItem, k: string, m: LocaleInfo | Valid(c) && (k != x.name || !m.Equals(x.locale))
      ensures GetItem(WriteItem(c, x).catalog, k, m) == GetItem(c, k, m)
    {
      AddOrReplaceOthers(c, x.name, x.locale, x.text, x.order, k, m);
    }
  }

  lemma WriteItemRefusesInvalid()
    ensures RefusesInvalid(WriteItem)
  {
    forall c: Catalog, x: TranslationItem | !x.locale.Valid() ensures WriteItem(c, x).result.Err? {
      assert ValidateStep(c, x.locale).result.Err?;
    }
  }

  // -------------------------------------------------- one write after another

  /** The bulk write over one more item: the writes so far, then the write of that item. */
  lemma WriteEachUnfold(c: Catalog, input: seq<TranslationItem>, i: nat, write: Write)
    requires i < |input|
    ensures var prev := WriteEach(c, input[..i], write);
      var w := write(prev.catalog, input[i]);
      WriteEach(c, input[..i + 1], write) ==
        if prev.result.Err? then prev
        else if w.result.Err? then Outcome(w.catalog, Err(w.result.error))
        else Outcome(w.catalog, Ok(prev.result.value + [w.result.value]))
  {
    assert input[..i + 1][..i] == input[..i];
  }

  /** Once a write fails, the later items are not written. */
  lemma {:induction false} WriteEachStops(c: Catalog, input: seq<TranslationItem>, i: nat, write: Write)
    requires i <= |input| && WriteEach(c, input[..i], write).result.Err?
    ensures WriteEach(c, input, write) == WriteEach(c, input[..i], write)
    decreases |input| - i
  {
    if i < |input| {
      WriteEachUnfold(c, input, i, write);
      WriteEachStops(c, input, i + 1, write);
    } else {
      assert input[..i] == input;
    }
  }

  /** A successful bulk write is a successful bulk write of all but the last item, then the last write. */
  lemma WriteEachOk(c: Catalog, input: seq<TranslationItem>, write: Write)
    requires input != []
    ensures var r := WriteEach(c, input, write);
      var prev := WriteEach(c, input[..|input| - 1], write);
      var w := write(prev.catalog, input[|input| - 1]);
      r.result.Ok? ==> prev.result.Ok? && w.result.Ok? && r == Outcome(w.catalog, Ok(prev.result.value + [w.result.value]))
  {
  }

  lemma {:induction false} WriteEachValid(c: Catalog, input: seq<TranslationItem>, write: Write, inv: Invariant)
    requires inv(c) && KeepsValid(write, inv)
    ensures inv(WriteEach(c, input, write).catalog)
    decreases |input|
  {
    if input != [] {
      WriteEachValid(c, input[..|input| - 1], write, inv);
    }
  }

  lemma {:induction false} WriteEachInvalid(c: Catalog, input: seq<TranslationItem>, i: nat, write: Write)
    requires RefusesInvalid(write) && i < |input| && !input[i].locale.Valid()
    ensures WriteEach(c, input, write).result.Err?
    decreases |input|
  {
    var n := |input| - 1;
    WriteEachOk(c, input, write);
    if i < n {
      WriteEachInvalid(c, input[..n], i, write);
    }
  }

  lemma {:induction false} WriteEachItems(c: Catalog, input: seq<TranslationItem>, write: Write, inv: Invariant, get: Lookup)
    requires inv(c) && KeepsValid(write, inv) && StoresAsAsked(write, inv, get)
    ensures var r := WriteEach(c, input, write);
      r.result.Ok? ==>
        && |r.result.value| == |input|
        && forall i :: 0 <= i < |input| ==> WrittenAs(r.result.value[i], input[i])
    decreases |input|
  {
    if input != [] {
      var n := |input| - 1;
      var pre := input[..n];
      var prev := WriteEach(c, pre, write);
      WriteEachItems(c, pre, write, inv, get);
      WriteEachValid(c, pre, write, inv);
      WriteEachOk(c, input, write);
      var r := WriteEach(c, input, write);
      if r.result.Ok? {
        var w := write(prev.catalog, input[n]);
        var out := r.result.value;
        forall i | 0 <= i < |input| ensures WrittenAs(out[i], input[i]) {
          if i < n {
            assert out[i] == prev.result.value[i] && pre[i] == input[i];
          } else {
            assert out[i] == w.result.value;
          }
        }
      }
    }
  }

  /** A successful bulk write returns one item per input item. */
  lemma {:induction false} WriteEachLength(c: Catalog, input: seq<TranslationItem>, write: Write)
    ensures var r := WriteEach(c, input, write);
      r.result.Ok? ==> |r.result.value| == |input|
    decreases |input|
  {
    if input != [] {
      WriteEachLength(c, input[..|input| - 1], write);
    }
  }

  lemma StoredBy(write: Write, inv: Invariant, get: Lookup, c: Catalog, x: TranslationItem)
    requires StoresAsAsked(write, inv, get) && inv(c) && write(c, x).result.Ok?
    ensures get(write(c, x).catalog, x.name, x.locale) == Ok(write(c, x).result.value)
  {
  }

  lemma KeptBy(write: Write, inv: Invariant, get: Lookup, c: Catalog, x: TranslationItem, k: string, m: LocaleInfo)
    requires KeepsOthers(write, inv, get) && inv(c) && (k != x.name || !m.Equals(x.locale))
    ensures get(write(c, x).catalog, k, m) == get(c, k, m)
  {
  }

  lemma {:induction false} WriteEachLast(c: Catalog, input: seq<TranslationItem>, i: nat, write: Write, inv: Invariant, get: Lookup)
    requires inv(c) && KeepsValid(write, inv) && StoresAsAsked(write, inv, get) && KeepsOthers(write, inv, get)
    requires i < |input| && LastWriteOf(input, i)
    ensures var r := WriteEach(c, input, write);
      r.result.Ok? ==> |r.result.value| == |input| && get(r.catalog, input[i].name, input[i].locale) == Ok(r.result.value[i])
    decreases |input|
  {
    var n := |input| - 1;
    var pre := input[..n];
    var prev := WriteEach(c, pre, write);
    WriteEachValid(c, pre, write, inv);
    WriteEachLength(c, pre, write);
    WriteEachOk(c, input, write);
    var r := WriteEach(c, input, write);
    if r.result.Ok? {
      var x := input[n];
      assert r.catalog == write(prev.catalog, x).catalog;
      if i < n {
        assert pre[i] == input[i];
        assert LastWriteOf(pre, i);
        WriteEachLast(c, pre, i, write, inv, get);
        KeptBy(write, inv, get, prev.catalog, x, input[i].name, input[i].locale);
        assert r.result.value[i] == prev.result.value[i];
      } else {
        StoredBy(write, inv, get, prev.catalog, x);
        assert r.result.value[n] == write(prev.catalog, x).result.value;
      }
    }
  }

  // ------------------------------------------------------ AddOrReplace(items)

  /** The bulk AddOrReplace over one more item: the writes so far, then AddOrReplace of that item. */
  lemma AddOrReplaceAllUnfold(c: Catalog, input: seq<TranslationItem>, i: nat)
    requires i < |input|
    ensures var prev := AddOrReplaceAllStep(c, input[..i]);
      var w := AddOrReplaceStep(prev.catalog, input[i].name, input[i].locale, input[i].text, input[i].order);
      AddOrReplaceAllStep(c, input[..i + 1]) ==
        if prev.result.Err? then prev
        else if w.result.Err? then Outcome(w.catalog, Err(w.result.error))
        else Outcome(w.catalog, Ok(prev.result.value + [w.result.value]))
  {
    WriteEachUnfold(c, input, i, WriteItem);
  }

  /** Once a write of the bulk overload fails, the later items are not written. */
  lemma AddOrReplaceAllStops(c: Catalog, input: seq<TranslationItem>, i: nat)
    requires i <= |input| && AddOrReplaceAllStep(c, input[..i]).result.Err?
    ensures AddOrReplaceAllStep(c, input) == AddOrReplaceAllStep(c, input[..i])
  {
    WriteEachStops(c, input, i, WriteItem);
  }

  /** The bulk AddOrReplace keeps the invariant, whether it succeeds or stops at a failure. */
  lemma AddOrReplaceAllValid(c: Catalog, input: seq<TranslationItem>)
    requires Valid(c)
    ensures Valid(AddOrReplaceAllStep(c, input).catalog)
  {
    WriteItemKeepsValid();
    WriteEachValid(c, input, WriteItem, Valid);
  }

  /** An input item with an invalid locale makes the bulk AddOrReplace fail. */
  lemma AddOrReplaceAllInvalid(c: Catalog, input: seq<TranslationItem>, i: nat)
    requires i < |input| && !input[i].locale.Valid()
    ensures AddOrReplaceAllStep(c, input).result.Err?
  {
    WriteItemRefusesInvalid();
    WriteEachInvalid(c, input, i, WriteItem);
  }

  /**
   * When the bulk AddOrReplace succeeds it returns one item per input item,
   * in input order, each written as its input asked.
   */
  lemma AddOrReplaceAllItems(c: Catalog, input: seq<TranslationItem>)
    requires Valid(c)
    ensures var r := AddOrReplaceAllStep(c, input);
      r.result.Ok? ==>
        && |r.result.value| == |input|
        && forall i :: 0 <= i < |input| ==> WrittenAs(r.result.value[i], input[i])
  {
    WriteItemKeepsValid();
    WriteItemStoresAsAsked();
    WriteEachItems(c, input, WriteItem, Valid, GetItem);
  }

  /** After a successful bulk AddOrReplace the store holds the last write of every pair. */
  lemma AddOrReplaceAllLast(c: Catalog, input: seq<TranslationItem>, i: nat)
    requires Valid(c) && i < |input| && LastWriteOf(input, i)
    ensures var r := AddOrReplaceAllStep(c, input);
      r.result.Ok? ==> |r.result.value| == |input| && GetItem(r.catalog, input[i].name, input[i].locale) == Ok(r.result.value[i])
  {
    WriteItemKeepsValid();
    WriteItemStoresAsAsked();
    WriteItemKeepsOthers();
    WriteEachLast(c, input, i, WriteItem, Valid, GetItem);
  }

  class TranslationItems {
    /** Whether this is the base class or RyujinxTranslationItems. */
    const dialect: Dialect
    /** `_locales`: the known locales, in the order they were added. */
    var locales: seq<LocaleInfo>
    /** The key order of `_items`. */
    var names: seq<string>
    /** `_items`: each key's row of entries, one per locale. */
    var items: map<string, seq<TranslationItem>>
    /** `_defaultFileSortOption`. */
    var defaultFileSortOption: SortOption

    /** The store as a catalog value. */
    function Snapshot(): Catalog
      reads this
    {
      Catalog(locales, names, items)
    }

    ghost predicate Valid()
      reads this
    {
      Catalogs.Valid(Snapshot())
    }

    /**
     * A new store is empty and sorts its files in original order; the
     * Ryujinx constructor sets that option again, so both variants agree.
     */
    constructor (dialect: Dialect)
      ensures this.dialect == dialect
      ensures Snapshot() == Catalog([], [], map[])
      ensures defaultFileSortOption == OriginalOrder
      ensures Valid()
    {
      this.dialect := dialect;
      locales := [];
      names := [];
      items := map[];
      defaultFileSortOption := OriginalOrder;
    }

    /** ValidateLocale: refuse, or give back the stored locale of the id, registering a new one. */
    method ValidateLocale(l: LocaleInfo) returns (r: Result<LocaleInfo>)
      modifies this
      ensures Snapshot() == ValidateStep(old(Snapshot()), l).catalog
      ensures r == ValidateStep(old(Snapshot()), l).result
      ensures defaultFileSortOption == old(defaultFileSortOption)
      ensures old(Valid()) ==> Valid()
    {
      ghost var c := Snapshot();
      if !l.Valid() {
        return Err(InvalidLocale);
      }
      match IndexOfLocale(locales, l)
      case Some(i) =>
        if locales[i].name != l.name {
          return Err(LocaleMismatch);
        }
        r := Ok(locales[i]);
      case None =>
        locales := locales + [l];
        r := Ok(l);
      if Catalogs.Valid(c) {
        ValidateStepSpec(c, l);
      }
    }

    /** AddOrReplace(name, locale, text, order): validate, register the key, resolve an automatic order, store. */
    method AddOrReplace(name: string, l: LocaleInfo, text: string, order: real) returns (r: Result<TranslationItem>)
      modifies this
      ensures Snapshot() == AddOrReplaceStep(old(Snapshot()), name, l, text, order).catalog
      ensures r == AddOrReplaceStep(old(Snapshot()), name, l, text, order).result
      ensures defaultFileSortOption == old(defaultFileSortOption)
      ensures old(Valid()) ==> Valid()
    {
      ghost var c := Snapshot();
      var v := ValidateLocale(l);
      if v.Err? {
        return Err(v.error);
      }
      var stored := v.value;
      AddOrReplaceShape(c, name, l, text, order);
      if name !in items {
        names := names + [name];
        items := items[name := []];
      }
      var o := order;
      if order == AutoOrder {
        o := FindBestOrder(Snapshot(), stored, name);
      }
      var item := TranslationItem(stored, name, text, o);
      items := items[name := RowPut(items[name], item)];
      r := Ok(item);
      if Catalogs.Valid(c) {
        AddOrReplaceValid(c, name, l, text, order);
      }
    }

    /** AddOrReplace(item): the same write with the item's own fields. */
    method AddOrReplaceItem(item: TranslationItem) returns (r: Result<TranslationItem>)
      modifies this
      ensures Snapshot() == AddOrReplaceStep(old(Snapshot()), item.name, item.locale, item.text, item.order).catalog
      ensures r == AddOrReplaceStep(old(Snapshot()), item.name, item.locale, item.text, item.order).result
      ensures defaultFileSortOption == old(defaultFileSortOption)
      ensures old(Valid()) ==> Valid()
    {
      r := AddOrReplace(item.name, item.locale, item.text, item.order);
    }

    /** AddOrReplace(items): one write per item in order, collecting what was stored; the first failure ends it. */
    method AddOrReplaceAll(input: seq<TranslationItem>) returns (r: Result<seq<TranslationItem>>)
      modifies this
      ensures Snapshot() == AddOrReplaceAllStep(old(Snapshot()), input).catalog
      ensures r == AddOrReplaceAllStep(old(Snapshot()), input).result
      ensures defaultFileSortOption == old(defaultFileSortOption)
      ensures old(Valid()) ==> Valid()
    {
      ghost var c := Snapshot();
      var result: seq<TranslationItem> := [];
      var i := 0;
      while i < |input|
        invariant 0 <= i <= |input|
        invariant Snapshot() == AddOrReplaceAllStep(c, input[..i]).catalog
        invariant AddOrReplaceAllStep(c, input[..i]).result == Ok(result)
        invariant defaultFileSortOption == old(defaultFileSortOption)
        invariant Catalogs.Valid(c) ==> Valid()
      {
        AddOrReplaceAllUnfold(c, input, i);
        var item := input[i];
        var stored := AddOrReplace(item.name, item.locale, item.text, item.order);
        if stored.Err? {
          AddOrReplaceAllStops(c, input, i + 1);
          return Err(stored.error);
        }
        result := result + [stored.value];
        i := i + 1;
      }
      assert input[..i] == input;
      r := Ok(result);
    }

    /** The setter `this[name, locale, order] = text`. */
    method SetText(name: string, l: LocaleInfo, order: real, text: string) returns (r: Result<()>)
      modifies this
      ensures Snapshot() == AddOrReplaceStep(old(Snapshot()), name, l, text, order).catalog
      ensures r.Ok? <==> AddOrReplaceStep(old(Snapshot()), name, l, text, order).result.Ok?
      ensures defaultFileSortOption == old(defaultFileSortOption)
      ensures old(Valid()) ==> Valid()
    {
      var w := AddOrReplace(name, l, text, order);
      r := if w.Ok? then Ok(()) else Err(w.error);
    }

    /** The setter `this[name, locale] = text`: the write takes the default order, double.MaxValue. */
    method SetTextUnordered(name: string, l: LocaleInfo, text: string) returns (r: Result<()>)
      modifies this
      ensures Snapshot() == AddOrReplaceStep(old(Snapshot()), name, l, text, MaxDoubleOrder).catalog
      ensures r.Ok? <==> AddOrReplaceStep(old(Snapshot()), name, l, text, MaxDoubleOrder).result.Ok?
      ensures defaultFileSortOption == old(defaultFileSortOption)
      ensures old(Valid()) ==> Valid()
    {
      r := SetText(name, l, MaxDoubleOrder, text);
    }

    /** The getter `this[name, locale]`: the stored text, or NotFound for a pair never stored. */
    method GetText(name: string, l: LocaleInfo) returns (r: Result<string>)
      ensures r.Ok? <==> name in items && HasLocale(items[name], l)
      ensures r.Ok? ==> r.value == GetItem(Snapshot(), name, l).value.text
    {
      if name !in items {
        return Err(NotFound);
      }
      match RowGet(items[name], l)
      case Some(e) => r := Ok(e.text);
      case None => r := Err(NotFound);
    }

    /** ClearTranslations: every key goes, the locales stay. */
    method ClearTranslations()
      modifies this
      ensures locales == old(locales) && names == [] && items == map[]
      ensures defaultFileSortOption == old(defaultFileSortOption)
      ensures old(Valid()) ==> Valid()
    {
      names := [];
      items := map[];
    }

    /** Clear: every key and every locale goes. */
    method Clear()
      modifies this
      ensures Snapshot() == Catalog([], [], map[])
      ensures defaultFileSortOption == old(defaultFileSortOption)
      ensures Valid()
    {
      ClearTranslations();
      locales := [];
    }

    /**
     * ReadFromJson on an already parsed object: build the dictionary, validate
     * the locale it leaves, then store the pairs in order with orders 1.0,
     * 2.0, ... The returned locale is what `localeInfo` holds afterwards.
     */
    method ReadFromJson(l: LocaleInfo, props: seq<(string, string)>) returns (r: Result<LocaleInfo>)
      modifies this
      ensures Snapshot() == ReadFromJsonStep(old(Snapshot()), dialect, l, props).catalog
      ensures r == ReadFromJsonStep(old(Snapshot()), dialect, l, props).result
      ensures defaultFileSortOption == old(defaultFileSortOption)
      ensures old(Valid()) ==> Valid()
    {
      ghost var c := Snapshot();
      var loaded, d := LoadFromJson(dialect, l, props);
      var v := ValidateLocale(loaded);
      if v.Err? {
        return v;
      }
      var s := v.value;
      ghost var goal := LoadNumbered(Snapshot(), s, d, 0, 1.0);
      var order := 1.0;
      var i := 0;
      while i < |d|
        invariant 0 <= i <= |d|
        invariant LoadNumbered(Snapshot(), s, d, i, order) == goal
        invariant defaultFileSortOption == old(defaultFileSortOption)
        invariant Catalogs.Valid(c) ==> Valid()
      {
        var w := AddOrReplace(d[i].0, s, d[i].1, order);
        if w.Err? {
          return Err(w.error);
        }
        order := NextOrder(order);
        i := i + 1;
      }
      r := v;
    }
  }
}
