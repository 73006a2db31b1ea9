/**
 * What ValidateLocale and AddOrReplace do to the store: the refusals leave it
 * untouched, a write stores exactly the requested entry and nothing else
 * changes, the invariant is kept, and the per-locale entries gain or swap one item.
 */
module CatalogWrites {
  import opened Wrappers
  import opened EnumerableExtensions
  import opened Strings
  import opened Locales
  import opened Items
  import opened Catalogs
  import opened CatalogRows

  /** A locale is known when a locale of the same id is stored. */
  predicate Known(c: Catalog, l: LocaleInfo) {
    exists i :: 0 <= i < |c.locales| && c.locales[i].Equals(l)
  }

  /** Validating a stored locale gives it back and changes nothing. */
  lemma ValidateStored(c: Catalog, s: LocaleInfo)
    requires Valid(c) && s in c.locales
    ensures ValidateStep(c, s) == Outcome(c, Ok(s))
  {
    var j :| 0 <= j < |c.locales| && c.locales[j] == s;
    match IndexOfLocale(c.locales, s)
    case Some(i) =>
      assert !(i < j) && !(j < i);
    case None =>
  }

  /**
   * ValidateLocale refuses an invalid locale, and a known id under another
   * display name, without changing anything; otherwise it gives back the
   * stored locale of that id, registering the locale when the id is new.
   */
  lemma ValidateStepSpec(c: Catalog, l: LocaleInfo)
    requires Valid(c)
    ensures var v := ValidateStep(c, l);
      && (v.result == Err(InvalidLocale) <==> !l.Valid())
      && (v.result == Err(LocaleMismatch) <==>
            l.Valid() && exists i :: 0 <= i < |c.locales| && c.locales[i].Equals(l) && c.locales[i].name != l.name)
      && (v.result.Err? ==> v.catalog == c)
      && (v.result.Ok? ==> v.result.value.Equals(l) && v.result.value.name == l.name && v.result.value in v.catalog.locales)
      && (v.result.Ok? && Known(c, l) ==> v.catalog == c)
      && (v.result.Ok? && !Known(c, l) ==> v.catalog == c.(locales := c.locales + [l]) && v.result.value == l)
      && v.catalog.names == c.names && v.catalog.items == c.items
      && Valid(v.catalog)
  {
    var v := ValidateStep(c, l);
    if l.Valid() {
      match IndexOfLocale(c.locales, l)
      case Some(i) =>
        forall j | 0 <= j < |c.locales| && c.locales[j].Equals(l) ensures j == i {
          assert !(j < i);
        }
      case None =>
        var ls := c.locales + [l];
        assert forall j :: 0 <= j < |c.locales| ==> ls[j] == c.locales[j];
        forall k | k in c.items ensures RowValid(ls, k, c.items[k]) {
          assert RowValid(c.locales, k, c.items[k]);
        }
    }
  }

  /** The entries of every locale are untouched by validation and by reserving a key. */
  lemma EntriesBeforePut(c: Catalog, l: LocaleInfo, name: string, m: LocaleInfo)
    requires Valid(c)
    ensures Entries(Reserve(ValidateStep(c, l).catalog, name), m) == Entries(c, m)
  {
    ValidateStepSpec(c, l);
    var v := ValidateStep(c, l).catalog;
    if name !in v.items {
      EntriesOfUnlisted(v.names, v.items, name, [], m);
      EntriesOfLast(v.names + [name], v.items[name := []], m);
      assert (v.names + [name])[..|v.names|] == v.names;
    }
  }

  /** An automatic order is FindBestOrder computed on the store as it was before the write. */
  lemma BestOrderBeforePut(c: Catalog, l: LocaleInfo, s: LocaleInfo, name: string)
    requires Valid(c) && s.Id() == l.Id()
    ensures FindBestOrder(Reserve(ValidateStep(c, l).catalog, name), s, name) == FindBestOrder(c, l, name)
  {
    EntriesBeforePut(c, l, name, s);
    EntriesOfSameId(c.names, c.items, s, l);
  }

  /** A refused write leaves the store as it was and reports the validation error. */
  lemma AddOrReplaceRefused(c: Catalog, name: string, l: LocaleInfo, text: string, order: real)
    requires Valid(c)
    ensures var w := AddOrReplaceStep(c, name, l, text, order);
      && (w.result.Err? <==> !l.Valid() || exists i :: 0 <= i < |c.locales| && c.locales[i].Equals(l) && c.locales[i].name != l.name)
      && (w.result.Err? ==> w.catalog == c && w.result.error == ValidateStep(c, l).result.error)
  {
    ValidateStepSpec(c, l);
  }

  /** The row a write goes into: the key's row, or a fresh empty one; it has one item per id. */
  lemma ReservedRow(c: Catalog, l: LocaleInfo, name: string)
    requires Valid(c)
    ensures var c1 := Reserve(ValidateStep(c, l).catalog, name);
      && UniqueIds(LocalesOf(c1.items[name]))
      && c1.items[name] == (if name in c.items then c.items[name] else [])
      && (forall k :: k != name && k in c1.items ==> k in c.items && c1.items[k] == c.items[k])
      && (forall k :: k in c.items ==> k in c1.items)
  {
    ValidateStepSpec(c, l);
    if name in c.items {
      assert RowValid(c.locales, name, c.items[name]);
    }
  }

  /** The outcome of a validated write: the entry put into the reserved row. */
  lemma AddOrReplaceShape(c: Catalog, name: string, l: LocaleInfo, text: string, order: real)
    requires ValidateStep(c, l).result.Ok?
    ensures var v := ValidateStep(c, l);
      var c1 := Reserve(v.catalog, name);
      var item := TranslationItem(v.result.value, name, text,
        if order == AutoOrder then FindBestOrder(c1, v.result.value, name) else order);
      AddOrReplaceStep(c, name, l, text, order) == Outcome(Put(c1, item), Ok(item))
  {
  }

  lemma PutGet(c1: Catalog, item: TranslationItem, k: string, m: LocaleInfo)
    requires item.name in c1.items && UniqueIds(LocalesOf(c1.items[item.name]))
    ensures GetItem(Put(c1, item), k, m) ==
      if k == item.name && m.Id() == item.locale.Id() then Ok(item) else GetItem(c1, k, m)
  {
    if k == item.name {
      RowPutGet(c1.items[k], item, m);
    }
  }

  /**
   * A write stores an entry under the key, for the stored locale of that id,
   * with the text and with the given order, or FindBestOrder's when the order
   * is automatic; reading the pair back gives that entry and its text.
   */
  lemma AddOrReplaceStored(c: Catalog, name: string, l: LocaleInfo, text: string, order: real)
    requires Valid(c)
    ensures var w := AddOrReplaceStep(c, name, l, text, order);
      w.result.Ok? ==>
        var item := w.result.value;
        && item.name == name && item.text == text
        && item.locale.Equals(l) && item.locale.name == l.name && item.locale in w.catalog.locales
        && (order != AutoOrder ==> item.order == order)
        && (order == AutoOrder ==> item.order == FindBestOrder(c, l, name))
        && GetItem(w.catalog, name, l) == Ok(item)
        && GetText(w.catalog, name, l) == Ok(text)
  {
    ValidateStepSpec(c, l);
    var v := ValidateStep(c, l);
    if v.result.Ok? {
      var s := v.result.value;
      var c1 := Reserve(v.catalog, name);
      AddOrReplaceShape(c, name, l, text, order);
      BestOrderBeforePut(c, l, s, name);
      ReservedRow(c, l, name);
      var item := AddOrReplaceStep(c, name, l, text, order).result.value;
      PutGet(c1, item, name, l);
    }
  }

  /** A write changes no other (key, locale) pair. */
  lemma AddOrReplaceOthers(c: Catalog, name: string, l: LocaleInfo, text: string, order: real, k: string, m: LocaleInfo)
    requires Valid(c) && (k != name || !m.Equals(l))
    ensures var w := AddOrReplaceStep(c, name, l, text, order);
      GetItem(w.catalog, k, m) == GetItem(c, k, m)
  {
    ValidateStepSpec(c, l);
    var v := ValidateStep(c, l);
    if v.result.Ok? {
      var c1 := Reserve(v.catalog, name);
      AddOrReplaceShape(c, name, l, text, order);
      ReservedRow(c, l, name);
      var item := AddOrReplaceStep(c, name, l, text, order).result.value;
      PutGet(c1, item, k, m);
    }
  }

  /** Reserving a key keeps the key order a list of the keys, each once. */
  lemma ReserveNames(vc: Catalog, name: string)
    requires Distinct(vc.names) && (forall k :: k in vc.items <==> k in vc.names)
    ensures var c1 := Reserve(vc, name);
      Distinct(c1.names) && (forall k :: k in c1.items <==> k in c1.names) && name in c1.names
  {
    if name !in vc.items {
      var c1 := Reserve(vc, name);
      assert forall i :: 0 <= i < |vc.names| ==> c1.names[i] == vc.names[i];
      assert c1.names[|vc.names|] == name;
    }
  }

  /** Putting an entry with a known locale into a reserved row keeps the store invariant. */
  lemma PutValid(vc: Catalog, item: TranslationItem)
    requires Valid(vc) && item.locale in vc.locales
    ensures Valid(Put(Reserve(vc, item.name), item))
  {
    var name := item.name;
    var c1 := Reserve(vc, name);
    ReserveNames(vc, name);
    var row := c1.items[name];
    var row' := RowPut(row, item);
    assert UniqueIds(LocalesOf(row)) && (name in vc.items ==> |row| > 0)
      && (forall i :: 0 <= i < |row| ==> row[i].name == name && row[i].locale in vc.locales) by {
      if name in vc.items {
        assert RowValid(vc.locales, name, vc.items[name]);
      }
    }
    RowPutUnique(row, item);
    assert forall i :: 0 <= i < |row'| ==> row'[i] == item || row'[i] in row;
    assert RowValid(vc.locales, name, row');
  }

  /** A write keeps the store invariant. */
  lemma AddOrReplaceValid(c: Catalog, name: string, l: LocaleInfo, text: string, order: real)
    requires Valid(c)
    ensures Valid(AddOrReplaceStep(c, name, l, text, order).catalog)
  {
    ValidateStepSpec(c, l);
    var v := ValidateStep(c, l);
    if v.result.Ok? {
      AddOrReplaceShape(c, name, l, text, order);
      PutValid(v.catalog, AddOrReplaceStep(c, name, l, text, order).result.value);
    }
  }

  /** Putting an entry into a reserved row changes the entries of its locale only, by one item. */
  lemma PutEntries(c1: Catalog, item: TranslationItem, m: LocaleInfo)
    requires Distinct(c1.names) && item.name in c1.names && item.name in c1.items
    requires UniqueIds(LocalesOf(c1.items[item.name]))
    ensures m.Id() == item.locale.Id() ==>
      multiset(Entries(Put(c1, item), m)) + multiset(EntryAt(c1.items, item.name, m))
        == multiset(Entries(c1, m)) + multiset{item}
    ensures m.Id() != item.locale.Id() ==> Entries(Put(c1, item), m) == Entries(c1, m)
  {
    var row := c1.items[item.name];
    var items' := c1.items[item.name := RowPut(row, item)];
    RowPutGet(row, item, m);
    EntriesOfUpdate(c1.names, c1.items, item.name, RowPut(row, item), m);
    if m.Id() != item.locale.Id() {
      EntriesOfAgree(c1.names, c1.items, items', m);
    }
  }

  /** The part of a successful write the entry lemmas need: the reserved catalog and the Put into it. */
  lemma AddOrReplacePut(c: Catalog, name: string, l: LocaleInfo, text: string, order: real, m: LocaleInfo)
    requires Valid(c) && AddOrReplaceStep(c, name, l, text, order).result.Ok?
    ensures var v := ValidateStep(c, l);
      var w := AddOrReplaceStep(c, name, l, text, order);
      var c1 := Reserve(v.catalog, name);
      && v.result.Ok?
      && w.catalog == Put(c1, w.result.value)
      && w.result.value.name == name && w.result.value.locale.Id() == l.Id()
      && Distinct(c1.names) && name in c1.names && name in c1.items
      && UniqueIds(LocalesOf(c1.items[name]))
      && Entries(c1, m) == Entries(c, m)
      && EntryAt(c1.items, name, m) == EntryAt(c.items, name, m)
  {
    ValidateStepSpec(c, l);
    var v := ValidateStep(c, l);
    var c1 := Reserve(v.catalog, name);
    AddOrReplaceShape(c, name, l, text, order);
    ReservedRow(c, l, name);
    ReserveNames(v.catalog, name);
    EntriesBeforePut(c, l, name, m);
  }

  /**
   * The entries of the written locale gain the new item in place of the
   * key's previous entry, if any; the entries of other locales do not change.
   */
  lemma AddOrReplaceEntries(c: Catalog, name: string, l: LocaleInfo, text: string, order: real, m: LocaleInfo)
    requires Valid(c)
    ensures var w := AddOrReplaceStep(c, name, l, text, order);
      && (w.result.Ok? && m.Equals(l) ==>
            multiset(Entries(w.catalog, m)) + multiset(EntryAt(c.items, name, m))
              == multiset(Entries(c, m)) + multiset{w.result.value})
      && (w.result.Ok? && !m.Equals(l) ==> Entries(w.catalog, m) == Entries(c, m))
  {
    var w := AddOrReplaceStep(c, name, l, text, order);
    if w.result.Ok? {
      AddOrReplacePut(c, name, l, text, order, m);
      PutEntries(Reserve(ValidateStep(c, l).catalog, name), w.result.value, m);
    }
  }

  /**
   * Writing a key the store does not have appends the key to the key order,
   * so the new item comes last among the entries of its locale.
   */
  lemma AddOrReplaceNewKeyEntries(c: Catalog, name: string, l: LocaleInfo, text: string, order: real, m: LocaleInfo)
    requires Valid(c) && name !in c.items
    requires AddOrReplaceStep(c, name, l, text, order).result.Ok?
    ensures var w := AddOrReplaceStep(c, name, l, text, order);
      && w.catalog.names == c.names + [name]
      && Entries(w.catalog, m) == Entries(c, m) + (if m.Equals(l) then [w.result.value] else [])
  {
    ValidateStepSpec(c, l);
    var v := ValidateStep(c, l);
    var w := AddOrReplaceStep(c, name, l, text, order);
    var item := w.result.value;
    AddOrReplaceShape(c, name, l, text, order);
    assert LocalesOf([]) == [];
    assert RowPut([], item) == [item];
    assert w.catalog.items == c.items[name := [item]];
    EntriesOfAppended(c.names, c.items, name, item, m);
  }

  /** The entries of a locale are the entries its keys have for it. */
  lemma EntriesByKey(c: Catalog, m: LocaleInfo, e: TranslationItem)
    requires Valid(c)
    ensures e in Entries(c, m) <==> exists k :: k in c.items && GetItem(c, k, m) == Ok(e)
  {
    EntriesOfMember(c.names, c.items, m, e);
    if e in Entries(c, m) {
      var k :| k in c.names && EntryAt(c.items, k, m) == [e];
      assert GetItem(c, k, m) == Ok(e);
    }
    if exists k :: k in c.items && GetItem(c, k, m) == Ok(e) {
      var k :| k in c.items && GetItem(c, k, m) == Ok(e);
      assert k in c.names && EntryAt(c.items, k, m) == [e];
    }
  }

  /**
   * Writing an existing (key, locale) pair keeps the number of entries of
   * every locale; writing a new pair adds one to the entries of that locale.
   */
  lemma AddOrReplaceCount(c: Catalog, name: string, l: LocaleInfo, text: string, order: real, m: LocaleInfo)
    requires Valid(c)
    ensures var w := AddOrReplaceStep(c, name, l, text, order);
      w.result.Ok? ==>
        |Entries(w.catalog, m)| == |Entries(c, m)| + (if m.Equals(l) && GetItem(c, name, l).Err? then 1 else 0)
  {
    AddOrReplaceEntries(c, name, l, text, order, m);
    var w := AddOrReplaceStep(c, name, l, text, order);
    if w.result.Ok? && m.Equals(l) {
      RowGetSameId(if name in c.items then c.items[name] else [], l, m);
      var x := EntryAt(c.items, name, m);
      assert |multiset(Entries(w.catalog, m)) + multiset(x)| == |multiset(Entries(c, m)) + multiset{w.result.value}|;
      assert |x| == (if GetItem(c, name, l).Err? then 0 else 1);
    }
  }
}
