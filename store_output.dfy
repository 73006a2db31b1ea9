/**
 * What the store writes and offers for trial translations: the name/value
 * pairs SerialiseJson hands to the serialiser (the header pairs, then the
 * ordered items of the locale, gathered into one dictionary), and the Ryujinx
 * TestableTranslations, which tries only sample texts without placeholders.
 */
module StoreOutput {
  import opened Wrappers
  import opened EnumerableExtensions
  import opened Strings
  import opened Locales
  import opened Items
  import opened Sorting
  import opened Catalogs
  import opened CatalogWrites
  import opened CatalogQueries
  import opened Dialects

  /** `Select(item => new NameValue { Name = item.Name, Value = item.Text })`. */
  function ItemPairs(t: seq<TranslationItem>): (ps: seq<(string, string)>)
    ensures |ps| == |t|
    ensures forall i :: 0 <= i < |t| ==> ps[i] == (t[i].name, t[i].text)
  {
    seq(|t|, i requires 0 <= i < |t| => (t[i].name, t[i].text))
  }

  /**
   * The dictionary SerialiseJson writes for a locale: the header pairs and
   * then the ordered items; ToDictionary throws on a name given twice.
   */
  function SerialisedPairs(c: Catalog, dialect: Dialect, l: LocaleInfo, option: SortOption): Result<seq<(string, string)>> {
    var ps := HeaderValues(dialect, l) + ItemPairs(OrderedItems(c, l, option));
    if Distinct(KeysOf(ps)) then Ok(ps) else Err(DuplicateName)
  }

  /** The names of the item pairs are the item names, distinct when the items have distinct names. */
  lemma PairNames(t: seq<TranslationItem>)
    requires DistinctBy(t, NameOf)
    ensures var ks := KeysOf(ItemPairs(t));
      && Distinct(ks)
      && forall k :: k in ks <==> exists i :: 0 <= i < |t| && t[i].name == k
  {
    var ks := KeysOf(ItemPairs(t));
    forall i, j | 0 <= i < j < |ks| ensures ks[i] != ks[j] {
      assert NameOf(t[i]) != NameOf(t[j]);
    }
    forall k | exists i :: 0 <= i < |t| && t[i].name == k ensures k in ks {
      var i :| 0 <= i < |t| && t[i].name == k;
      assert ks[i] == k;
    }
  }

  /** Items holding exactly the stored entries of a locale carry exactly the names stored for it. */
  lemma NamesStored(c: Catalog, l: LocaleInfo, t: seq<TranslationItem>)
    requires Valid(c)
    requires multiset(t) == multiset(Entries(c, l))
    requires forall e :: e in t <==> exists k :: k in c.items && GetItem(c, k, l) == Ok(e)
    ensures forall k :: (exists i :: 0 <= i < |t| && t[i].name == k) <==> GetItem(c, k, l).Ok?
  {
    EntriesStored(c, l);
    forall e | e in t ensures GetItem(c, e.name, l) == Ok(e) {
      assert e in multiset(Entries(c, l));
    }
    forall k | GetItem(c, k, l).Ok? ensures GetItem(c, k, l).value.name == k {
      assert RowValid(c.locales, k, c.items[k]);
    }
    NamesOfFound(c, l, t);
  }

  /** The names of items each stored under its own name are the keys they are found under. */
  lemma NamesOfFound(c: Catalog, l: LocaleInfo, t: seq<TranslationItem>)
    requires forall e :: e in t <==> exists k :: k in c.items && GetItem(c, k, l) == Ok(e)
    requires forall e :: e in t ==> GetItem(c, e.name, l) == Ok(e)
    requires forall k :: GetItem(c, k, l).Ok? ==> GetItem(c, k, l).value.name == k
    ensures forall k :: (exists i :: 0 <= i < |t| && t[i].name == k) <==> GetItem(c, k, l).Ok?
  {
    forall k | GetItem(c, k, l).Ok? ensures exists i :: 0 <= i < |t| && t[i].name == k {
      var e := GetItem(c, k, l).value;
      assert e in t;
      var i :| 0 <= i < |t| && t[i] == e;
    }
  }

  /** The names of the item pairs are distinct, and are the names of the stored entries of the locale. */
  lemma ItemPairNames(c: Catalog, l: LocaleInfo, option: SortOption)
    requires Valid(c)
    ensures var ks := KeysOf(ItemPairs(OrderedItems(c, l, option)));
      && Distinct(ks)
      && forall k :: k in ks <==> GetItem(c, k, l).Ok?
  {
    var t := OrderedItems(c, l, option);
    OrderedItemsSpec(c, l, option);
    PairNames(t);
    NamesStored(c, l, t);
  }

  /** A pair put in front of pairs with distinct names keeps them distinct exactly when its name is new. */
  lemma HeadPairDistinct(h: (string, string), ps: seq<(string, string)>)
    requires Distinct(KeysOf(ps))
    ensures Distinct(KeysOf([h] + ps)) <==> h.0 !in KeysOf(ps)
  {
    var ks := KeysOf([h] + ps);
    assert forall i :: 1 <= i < |ks| ==> ks[i] == KeysOf(ps)[i - 1];
    if h.0 in KeysOf(ps) {
      var i :| 0 <= i < |KeysOf(ps)| && KeysOf(ps)[i] == h.0;
      assert ks[0] == ks[i + 1];
    } else {
      forall i, j | 0 <= i < j < |ks| ensures ks[i] != ks[j] {
        if i == 0 {
          assert ks[j] in KeysOf(ps);
        }
      }
    }
  }

  /** The base class always writes exactly the ordered items of the locale. */
  lemma SerialisedStandard(c: Catalog, l: LocaleInfo, option: SortOption)
    requires Valid(c)
    ensures SerialisedPairs(c, Standard, l, option) == Ok(ItemPairs(OrderedItems(c, l, option)))
  {
    ItemPairNames(c, l, option);
    assert HeaderValues(Standard, l) + ItemPairs(OrderedItems(c, l, option)) == ItemPairs(OrderedItems(c, l, option));
  }

  /**
   * The Ryujinx variant writes the `Language` pair first and the ordered
   * items after it; it fails exactly when the locale has an entry named
   * `Language` itself.
   */
  lemma SerialisedRyujinx(c: Catalog, l: LocaleInfo, option: SortOption)
    requires Valid(c)
    ensures var r := SerialisedPairs(c, Ryujinx, l, option);
      && (r.Err? <==> GetItem(c, LanguageName, l).Ok?)
      && (r.Ok? ==> |r.value| > 0 && r.value[0] == (LanguageName, l.name) && r.value[1..] == ItemPairs(OrderedItems(c, l, option)))
  {
    var items := ItemPairs(OrderedItems(c, l, option));
    ItemPairNames(c, l, option);
    HeadPairDistinct((LanguageName, l.name), items);
    assert ([(LanguageName, l.name)] + items)[1..] == items;
  }

  /** RyujinxTranslationItems.TestableTranslations(source): the base query with the Ryujinx sample test. */
  function RyujinxTestableTranslations(c: Catalog, source: LocaleInfo): seq<Translation> {
    TestableTranslations(c, source, RyujinxTestable)
  }

  /**
   * Every sample the Ryujinx query finds is a stored entry of the source
   * locale with no `{` and at least two spaces, and the destination has the
   * same key; every other known locale is asked for.
   */
  lemma RyujinxSamples(c: Catalog, source: LocaleInfo)
    requires Valid(c)
    ensures var r := RyujinxTestableTranslations(c, source);
      && (forall d :: d in c.locales && !d.Equals(source) ==> exists i :: 0 <= i < |r| && r[i].toLocale == d)
      && forall i :: 0 <= i < |r| && r[i].from != DefaultItem ==>
           && '{' !in r[i].from.text && Occurrences(r[i].from.text, ' ') >= 2
           && GetItem(c, r[i].from.name, source) == Ok(r[i].from)
           && HasLocale(c.items[r[i].from.name], r[i].toLocale)
  {
    var r := RyujinxTestableTranslations(c, source);
    TestableTranslationsSpec(c, source, RyujinxTestable);
    forall i | 0 <= i < |r| && r[i].from != DefaultItem
      ensures '{' !in r[i].from.text && Occurrences(r[i].from.text, ' ') >= 2
      ensures GetItem(c, r[i].from.name, source) == Ok(r[i].from)
      ensures HasLocale(c.items[r[i].from.name], r[i].toLocale)
    {
      TestForSpec(c, source, r[i].toLocale, RyujinxTestable);
    }
  }
}
