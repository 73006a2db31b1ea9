/**
 * The queries of the store: OrderedItems gives each stored entry of a locale
 * once, in (order, name) or name order; FoundTranslations and
 * NeededTranslations split the known locales of every key; RequiredTranslations
 * asks for each missing pair once, from the preferred source;
 * TestableTranslations pairs every other locale with a usable sample entry.
 */
module CatalogQueries {
  import opened Wrappers
  import opened EnumerableExtensions
  import opened Strings
  import opened Locales
  import opened Items
  import opened Sorting
  import opened Catalogs
  import opened CatalogRows
  import opened CatalogWrites

  function NameOf(e: TranslationItem): string { e.name }

  // --------------------------------------------------------------- entries

  lemma {:induction false} EntriesOfNames(names: seq<string>, items: map<string, seq<TranslationItem>>, m: LocaleInfo)
    requires Distinct(names)
    requires forall k :: k in items ==> forall e :: e in items[k] ==> e.name == k
    ensures forall e :: e in EntriesOf(names, items, m) ==> e.name in names
    ensures DistinctBy(EntriesOf(names, items, m), NameOf)
    decreases |names|
  {
    if names != [] {
      var init, last := names[..|names| - 1], names[|names| - 1];
      LastNotEarlier(names);
      EntriesOfNames(init, items, m);
      EntriesOfLast(names, items, m);
      var p, x := EntriesOf(init, items, m), EntryAt(items, last, m);
      assert forall e :: e in x ==> e.name == last;
      assert forall i :: 0 <= i < |p| ==> p[i].name in init;
      assert forall k :: k in init ==> k in names;
      forall i, j | 0 <= i < j < |p + x| ensures NameOf((p + x)[i]) != NameOf((p + x)[j]) {
        if j >= |p| && i < |p| {
          assert (p + x)[j] == x[j - |p|];
          assert (p + x)[i] == p[i];
        } else if j < |p| {
          assert (p + x)[i] == p[i] && (p + x)[j] == p[j];
        }
      }
    }
  }

  /**
   * The entries of a locale are the stored entries of that locale, one per key
   * that has one: each is what GetItem gives for its own key.
   */
  lemma EntriesSpec(c: Catalog, m: LocaleInfo)
    requires Valid(c)
    ensures forall e :: e in Entries(c, m) <==> exists k :: k in c.items && GetItem(c, k, m) == Ok(e)
    ensures forall e :: e in Entries(c, m) ==> e.name in c.items && GetItem(c, e.name, m) == Ok(e)
    ensures DistinctBy(Entries(c, m), NameOf)
  {
    EntriesStored(c, m);
    forall e ensures e in Entries(c, m) <==> exists k :: k in c.items && GetItem(c, k, m) == Ok(e) {
      EntriesByKey(c, m, e);
    }
  }

  /** Each entry of a locale is stored under its own name, no name twice, and none is the default item. */
  lemma EntriesStored(c: Catalog, m: LocaleInfo)
    requires Valid(c)
    ensures forall e :: e in Entries(c, m) ==> e.name in c.items && GetItem(c, e.name, m) == Ok(e) && e != DefaultItem
    ensures DistinctBy(Entries(c, m), NameOf)
  {
    forall k | k in c.items ensures forall e :: e in c.items[k] ==> e.name == k {
      assert RowValid(c.locales, k, c.items[k]);
    }
    EntriesOfNames(c.names, c.items, m);
    forall e | e in Entries(c, m) ensures e.name in c.items && GetItem(c, e.name, m) == Ok(e) && e != DefaultItem {
      EntriesByKey(c, m, e);
      var k :| k in c.items && GetItem(c, k, m) == Ok(e);
      assert RowValid(c.locales, k, c.items[k]);
    }
  }

  // ------------------------------------------------------------ ordered items

  lemma ItemAtMostPreorder(option: SortOption)
    ensures TotalPreorder(ItemAtMost(option))
  {
    var le := ItemAtMost(option);
    forall a, b ensures le(a, b) || le(b, a) {
      CompareTotal(a.name, b.name);
    }
    forall a, b, d | le(a, b) && le(b, d) ensures le(a, d) {
      if Compare(a.name, b.name) <= 0 && Compare(b.name, d.name) <= 0 {
        CompareTransitive(a.name, b.name, d.name);
      }
    }
  }

  /** Two items tie under the OrderedItems key only when they have the same name (and order key). */
  lemma ItemTiesShareName(option: SortOption, a: TranslationItem, b: TranslationItem)
    requires ItemAtMost(option)(a, b) && ItemAtMost(option)(b, a)
    ensures a.name == b.name
  {
    CompareAntisymmetric(a.name, b.name);
  }

  lemma NoTiesByName(s: seq<TranslationItem>, option: SortOption)
    requires DistinctBy(s, NameOf)
    ensures NoTies(s, ItemAtMost(option))
  {
    forall i, j | 0 <= i < |s| && 0 <= j < |s| && ItemAtMost(option)(s[i], s[j]) && ItemAtMost(option)(s[j], s[i])
      ensures s[i] == s[j]
    {
      ItemTiesShareName(option, s[i], s[j]);
    }
  }

  lemma OrderedItemsMembers(c: Catalog, l: LocaleInfo, option: SortOption)
    requires Valid(c)
    ensures forall e :: e in OrderedItems(c, l, option) <==> exists k :: k in c.items && GetItem(c, k, l) == Ok(e)
  {
    forall e ensures e in OrderedItems(c, l, option) <==> exists k :: k in c.items && GetItem(c, k, l) == Ok(e) {
      SortByMember(Entries(c, l), ItemAtMost(option), e);
      EntriesByKey(c, l, e);
    }
  }

  /**
   * OrderedItems(l, option) holds exactly the stored entries of `l`, each key
   * once, sorted by (order, name) under OriginalOrder and by name under
   * AlphabeticalOrder.
   */
  lemma OrderedItemsSpec(c: Catalog, l: LocaleInfo, option: SortOption)
    requires Valid(c)
    ensures var r := OrderedItems(c, l, option);
      && multiset(r) == multiset(Entries(c, l))
      && (forall e :: e in r <==> exists k :: k in c.items && GetItem(c, k, l) == Ok(e))
      && DistinctBy(r, NameOf)
      && SortedBy(r, ItemAtMost(option))
  {
    OrderedItemsMembers(c, l, option);
    EntriesSpec(c, l);
    SortByDistinct(Entries(c, l), ItemAtMost(option), NameOf);
    ItemAtMostPreorder(option);
    SortBySorted(Entries(c, l), ItemAtMost(option));
  }

  /** OrderedItems is the only sorted arrangement of the entries: the key leaves no ties. */
  lemma OrderedItemsUnique(c: Catalog, l: LocaleInfo, option: SortOption, t: seq<TranslationItem>)
    requires Valid(c)
    requires SortedBy(t, ItemAtMost(option)) && multiset(t) == multiset(Entries(c, l))
    ensures t == OrderedItems(c, l, option)
  {
    var r := OrderedItems(c, l, option);
    OrderedItemsSpec(c, l, option);
    NoTiesByName(r, option);
    SortedUnique(r, t, ItemAtMost(option));
  }

  /** Writing a pair that is already stored keeps the length of every OrderedItems. */
  lemma OrderedItemsLengthOnReplace(c: Catalog, name: string, l: LocaleInfo, text: string, order: real, m: LocaleInfo, option: SortOption)
    requires Valid(c) && GetItem(c, name, l).Ok?
    ensures var w := AddOrReplaceStep(c, name, l, text, order);
      |OrderedItems(w.catalog, m, option)| == |OrderedItems(c, m, option)|
  {
    ValidateStepSpec(c, l);
    AddOrReplaceCount(c, name, l, text, order, m);
  }

  // ---------------------------------------------------- found and needed

  /**
   * For every key, the locales it was found in and the locales it needs are
   * disjoint and together are exactly the known locales.
   */
  lemma FoundNeededPartition(c: Catalog, k: string)
    requires Valid(c) && k in c.items
    ensures k in FoundTranslations(c)
    ensures forall x :: x in FoundTranslations(c)[k] ==> x in c.locales
    ensures k in NeededTranslations(c) ==>
      forall x :: x in NeededTranslations(c)[k] ==> x in c.locales && x !in FoundTranslations(c)[k]
    ensures forall x :: x in c.locales ==>
      x in FoundTranslations(c)[k] || (k in NeededTranslations(c) && x in NeededTranslations(c)[k])
  {
    var row := c.items[k];
    assert RowValid(c.locales, k, row);
    var found := LocalesOf(row);
    forall x | x in found ensures HasLocale(row, x) {
      var i :| 0 <= i < |found| && found[i] == x;
      RowGetSpec(row, x);
    }
    forall x | x in c.locales && HasLocale(row, x) ensures x in found {
      RowGetSpec(row, x);
      var i :| 0 <= i < |row| && row[i].locale.Id() == x.Id();
      var a :| 0 <= a < |c.locales| && c.locales[a] == x;
      var b :| 0 <= b < |c.locales| && c.locales[b] == row[i].locale;
      assert !(a < b) && !(b < a);
      assert found[i] == x;
    }
  }

  /** A key has no needed entry exactly when it has an entry for every known locale. */
  lemma NeededIffMissing(c: Catalog, k: string)
    requires Valid(c) && k in c.items
    ensures k !in NeededTranslations(c) <==> forall x :: x in c.locales ==> HasLocale(c.items[k], x)
    ensures k !in NeededTranslations(c) <==> forall x :: x in c.locales ==> x in FoundTranslations(c)[k]
  {
    FoundNeededPartition(c, k);
    var missing := MissingFrom(c.locales, c.items[k]);
    if missing != [] {
      assert missing[0] in missing;
    }
  }

  /** Only stored keys are needed. */
  lemma NeededKeysStored(c: Catalog)
    ensures forall k :: k in NeededTranslations(c) ==> k in c.items && NeededTranslations(c)[k] != []
  {
  }

  // ------------------------------------------------- required translations

  /** The source entry of a key: the entry of the first preferred locale it has, or of its first locale. */
  lemma SourceItemSpec(c: Catalog, k: string, pref: seq<LocaleInfo>)
    requires Valid(c) && k in c.items
    ensures c.items[k] != []
    ensures var s := SourceItem(c, k, pref);
      && s.name == k && s in c.items[k]
      && (FirstPreferred(pref, c.items[k]).Some? ==> GetItem(c, k, FirstPreferred(pref, c.items[k]).value) == Ok(s))
      && (FirstPreferred(pref, c.items[k]).None? ==> s == c.items[k][0])
  {
    var row := c.items[k];
    assert RowValid(c.locales, k, row);
    if FirstPreferred(pref, row).None? {
      RowGetSpec(row, row[0].locale);
    }
  }

  /** Every request of one key is the key's source entry towards one of the locales it lacks, each once. */
  lemma RequiredForSpec(c: Catalog, k: string, pref: seq<LocaleInfo>)
    requires Valid(c) && k in c.items
    ensures c.items[k] != []
    ensures var r := RequiredFor(c, k, pref);
      && (forall t :: t in r ==> t.from == SourceItem(c, k, pref) && t.from.name == k && t.toLocale in c.locales && !HasLocale(c.items[k], t.toLocale))
      && (forall d :: d in c.locales && !HasLocale(c.items[k], d) ==> Translation(SourceItem(c, k, pref), d) in r)
      && Distinct(r)
  {
    assert RowValid(c.locales, k, c.items[k]);
    SourceItemSpec(c, k, pref);
    var dests := MissingFrom(c.locales, c.items[k]);
    MissingDistinct(c.locales, c.items[k]);
    var r := RequiredFor(c, k, pref);
    forall d | d in c.locales && !HasLocale(c.items[k], d) ensures Translation(SourceItem(c, k, pref), d) in r {
      var i :| 0 <= i < |dests| && dests[i] == d;
      assert r[i] == Translation(SourceItem(c, k, pref), d);
    }
  }

  lemma {:induction false} MissingDistinct(ls: seq<LocaleInfo>, row: seq<TranslationItem>)
    requires UniqueIds(ls)
    ensures Distinct(MissingFrom(ls, row))
    decreases |ls|
  {
    if ls != [] {
      var init, last := ls[..|ls| - 1], ls[|ls| - 1];
      assert UniqueIds(init);
      MissingDistinct(init, row);
      var p := MissingFrom(init, row);
      assert forall x :: x in p ==> x in init;
      assert forall a :: 0 <= a < |init| ==> init[a] == ls[a] && ls[a].Id() != last.Id();
    }
  }

  lemma RowsNonEmpty(c: Catalog)
    requires Valid(c)
    ensures forall k :: k in c.items ==> c.items[k] != []
  {
    forall k | k in c.items ensures c.items[k] != [] {
      assert RowValid(c.locales, k, c.items[k]);
    }
  }

  /** The requests of the listed keys are the requests of each of them. */
  lemma {:induction false} RequiredOfMember(c: Catalog, names: seq<string>, pref: seq<LocaleInfo>, t: Translation)
    requires forall k :: k in names ==> k in c.items && c.items[k] != []
    ensures t in RequiredOf(c, names, pref) <==> exists k :: k in names && t in RequiredFor(c, k, pref)
    decreases |names|
  {
    if names != [] {
      var init, last := names[..|names| - 1], names[|names| - 1];
      assert names == init + [last];
      assert forall k :: k in names <==> k in init || k == last;
      RequiredOfMember(c, init, pref, t);
    }
  }

  /** Without a repeated key, and with each key's requests naming that key, no request repeats. */
  lemma {:induction false} RequiredOfDistinct(c: Catalog, names: seq<string>, pref: seq<LocaleInfo>)
    requires Distinct(names) && forall k :: k in names ==> k in c.items && c.items[k] != []
    requires forall k :: k in names ==> Distinct(RequiredFor(c, k, pref))
    requires forall k, t :: k in names && t in RequiredFor(c, k, pref) ==> t.from.name == k
    ensures Distinct(RequiredOf(c, names, pref))
    decreases |names|
  {
    if names != [] {
      var init, last := names[..|names| - 1], names[|names| - 1];
      LastNotEarlier(names);
      assert forall k :: k in init ==> k in names;
      RequiredOfDistinct(c, init, pref);
      var p, q := RequiredOf(c, init, pref), RequiredFor(c, last, pref);
      assert RequiredOf(c, names, pref) == p + q;
      forall t | t in p ensures t !in q {
        RequiredOfMember(c, init, pref, t);
      }
      DistinctAppend(p, q);
    }
  }

  lemma DistinctAppend<T>(p: seq<T>, q: seq<T>)
    requires Distinct(p) && Distinct(q) && forall t :: t in p ==> t !in q
    ensures Distinct(p + q)
  {
    var r := p + q;
    forall i, j | 0 <= i < j < |r| ensures r[i] != r[j] {
      if j < |p| {
        assert r[i] == p[i] && r[j] == p[j];
      } else if i >= |p| {
        assert r[i] == q[i - |p|] && r[j] == q[j - |p|];
      } else {
        assert r[i] == p[i] && r[j] == q[j - |p|];
        assert p[i] in p;
      }
    }
  }

  /**
   * RequiredTranslations(pref) holds one request per (key, missing locale)
   * pair and no other: each goes from the key's source entry (the entry of
   * the first preferred locale the key has, else of its first locale) to
   * the missing locale, so the source locale is never a destination.
   */
  lemma RequiredTranslationsSpec(c: Catalog, pref: seq<LocaleInfo>)
    requires Valid(c)
    ensures var r := RequiredTranslations(c, pref);
      && (forall t :: t in r ==>
            && t.from.name in NeededTranslations(c)
            && t.toLocale in NeededTranslations(c)[t.from.name]
            && t.from == SourceItem(c, t.from.name, pref)
            && !t.from.locale.Equals(t.toLocale))
      && (forall k, d :: k in NeededTranslations(c) && d in NeededTranslations(c)[k] ==>
            Translation(SourceItem(c, k, pref), d) in r)
      && (forall i, j :: 0 <= i < j < |r| ==> r[i].from.name != r[j].from.name || r[i].toLocale != r[j].toLocale)
  {
    RowsNonEmpty(c);
    var r := RequiredTranslations(c, pref);
    forall k | k in c.names ensures Distinct(RequiredFor(c, k, pref)) && forall t :: t in RequiredFor(c, k, pref) ==> t.from.name == k {
      RequiredForSpec(c, k, pref);
    }
    forall t | t in r
      ensures t.from.name in NeededTranslations(c) && t.toLocale in NeededTranslations(c)[t.from.name]
      ensures t.from == SourceItem(c, t.from.name, pref) && !t.from.locale.Equals(t.toLocale)
    {
      RequiredOfMember(c, c.names, pref, t);
      var k :| k in c.names && t in RequiredFor(c, k, pref);
      RequiredForSpec(c, k, pref);
      SourceItemSpec(c, k, pref);
      RowGetSpec(c.items[k], t.toLocale);
      var a :| 0 <= a < |c.items[k]| && c.items[k][a] == t.from;
    }
    forall k, d | k in NeededTranslations(c) && d in NeededTranslations(c)[k]
      ensures Translation(SourceItem(c, k, pref), d) in r
    {
      RequiredForSpec(c, k, pref);
      RequiredOfMember(c, c.names, pref, Translation(SourceItem(c, k, pref), d));
    }
    RequiredOfDistinct(c, c.names, pref);
    forall i, j | 0 <= i < j < |r| ensures r[i].from.name != r[j].from.name || r[i].toLocale != r[j].toLocale {
      assert r[i] in r && r[j] in r;
    }
  }

  // ------------------------------------------------- testable translations

  /**
   * The check of one destination: the default item exactly when no source
   * entry can serve; otherwise the first source entry, in entry order, that
   * is testable and whose key the destination also has.
   */
  lemma TestForSpec(c: Catalog, source: LocaleInfo, dest: LocaleInfo, isTestable: TranslationItem -> bool)
    requires Valid(c)
    ensures var t := TestFor(c, source, dest, isTestable);
      var es := Entries(c, source);
      && t.toLocale == dest
      && (t.from == DefaultItem <==> forall e :: e in es ==> !CanTest(c, e, dest, isTestable))
      && (t.from != DefaultItem ==>
            && GetItem(c, t.from.name, source) == Ok(t.from)
            && isTestable(t.from)
            && HasLocale(c.items[t.from.name], dest)
            && exists i :: 0 <= i < |es| && es[i] == t.from && forall j :: 0 <= j < i ==> !CanTest(c, es[j], dest, isTestable))
  {
    var es := Entries(c, source);
    EntriesStored(c, source);
    var i := FirstTestableIndex(c, es, dest, isTestable);
    if i < |es| {
      assert es[i] in es;
    } else {
      forall e | e in es ensures !CanTest(c, e, dest, isTestable) {
        var j :| 0 <= j < |es| && es[j] == e;
      }
    }
  }

  /**
   * TestableTranslations(source, isTestable) pairs each known locale other
   * than the source with the first source entry that is testable and whose
   * key that locale also has, or with the default item when there is none.
   */
  lemma TestableTranslationsSpec(c: Catalog, source: LocaleInfo, isTestable: TranslationItem -> bool)
    requires Valid(c)
    ensures var r := TestableTranslations(c, source, isTestable);
      && (forall i :: 0 <= i < |r| ==> r[i].toLocale in c.locales && !r[i].toLocale.Equals(source))
      && (forall d :: d in c.locales && !d.Equals(source) ==> exists i :: 0 <= i < |r| && r[i].toLocale == d)
      && (forall i :: 0 <= i < |r| ==> r[i] == TestFor(c, source, r[i].toLocale, isTestable))
  {
    var r := TestableTranslations(c, source, isTestable);
    var dests := OtherLocales(c.locales, source);
    forall d | d in c.locales && !d.Equals(source) ensures exists i :: 0 <= i < |r| && r[i].toLocale == d {
      var i :| 0 <= i < |dests| && dests[i] == d;
      assert r[i] == TestFor(c, source, d, isTestable);
    }
  }
}
