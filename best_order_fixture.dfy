/**
 * The best-order fixture of the unit tests: six keys are read into en_US
 * (orders 1.0 to 6.0), then one new key is written with the automatic order,
 * and its position in the OriginalOrder listing is the expected one.
 */
module BestOrderFixture {
  import opened Wrappers
  import opened Strings
  import opened EnumerableExtensions
  import opened Locales
  import opened Items
  import opened Sorting
  import opened Catalogs
  import opened CatalogWrites
  import opened CatalogQueries
  import opened CatalogOrder
  import opened Dialects
  import opened CatalogLoad

  /** The locale of the fixture. */
  const Locale: LocaleInfo := LocaleInfo("English (US)", "en", "US")

  /** The JSON object the fixture reads, as its properties in document order. */
  const Pairs: seq<(string, string)> := [
    ("AppleOrange1", "Apple Orange 1"),
    ("AppleOrange2", "Apple Orange 2"),
    ("AppleOrange3", "Apple Orange 3"),
    ("AppleLime1", "Apple Lime 1"),
    ("AppleLime3", "Apple Lime 3"),
    ("AppleZingzang1", "Apple Zingzang 1")
  ]

  /** The entries of the locale by order once the object is read. */
  function Row(): seq<TranslationItem> {
    [ TranslationItem(Locale, "AppleOrange1", "Apple Orange 1", 1.0),
      TranslationItem(Locale, "AppleOrange2", "Apple Orange 2", 2.0),
      TranslationItem(Locale, "AppleOrange3", "Apple Orange 3", 3.0),
      TranslationItem(Locale, "AppleLime1", "Apple Lime 1", 4.0),
      TranslationItem(Locale, "AppleLime3", "Apple Lime 3", 5.0),
      TranslationItem(Locale, "AppleZingzang1", "Apple Zingzang 1", 6.0) ]
  }

  /** The eight test cases: the new key and the index it is expected at. */
  predicate Case(name: string, expected: nat) {
    || (name, expected) == ("0AppleOrange", 0)
    || (name, expected) == ("AppleOrange", 0)
    || (name, expected) == ("ZapleOrange", 6)
    || (name, expected) == ("AppleZingzang2", 6)
    || (name, expected) == ("AppleOrange2.5", 2)
    || (name, expected) == ("AppleLime0", 3)
    || (name, expected) == ("AppleLime2", 4)
    || (name, expected) == ("AppleLime4", 5)
  }

  /** Two strings that agree on their first `n` characters and differ right after share a prefix of length `n`. */
  lemma {:induction false} PrefixLength(a: string, b: string, n: nat)
    requires n <= |a| && n <= |b| && a[..n] == b[..n]
    requires n < |a| && n < |b| ==> a[n] != b[n]
    ensures CommonPrefix(a, b) == n
    decreases n
  {
    if n > 0 {
      assert a[0] == a[..n][0] && b[0] == b[..n][0];
      assert a[1..][..n - 1] == a[..n][1..] && b[1..][..n - 1] == b[..n][1..];
      PrefixLength(a[1..], b[1..], n - 1);
    }
  }

  /** Strings that agree on their first `n` characters compare as the strings from position `n` on begin. */
  lemma {:induction false} CompareAfter(a: string, b: string, n: nat)
    requires n <= |a| && n <= |b| && a[..n] == b[..n]
    requires n < |a| && n < |b| ==> a[n] != b[n]
    ensures Compare(a, b) ==
      if n == |a| && n == |b| then 0 else if n == |a| then -1 else if n == |b| then 1 else if a[n] < b[n] then -1 else 1
    decreases n
  {
    if n > 0 {
      assert a[0] == a[..n][0] && b[0] == b[..n][0];
      assert a[1..][..n - 1] == a[..n][1..] && b[1..][..n - 1] == b[..n][1..];
      CompareAfter(a[1..], b[1..], n - 1);
    }
  }

  /** The matching lengths of a key against the six entries, and their largest. */
  lemma Matchings(r: seq<TranslationItem>, name: string, ms: seq<nat>, m: nat)
    requires |r| == |ms| == 6
    requires Matching(name, r[0]) == ms[0] && Matching(name, r[1]) == ms[1] && Matching(name, r[2]) == ms[2]
    requires Matching(name, r[3]) == ms[3] && Matching(name, r[4]) == ms[4] && Matching(name, r[5]) == ms[5]
    requires (forall i :: 0 <= i < 6 ==> ms[i] <= m) && (exists i :: 0 <= i < 6 && ms[i] == m)
    ensures MaxMatching(r, name) == m
  {
    MaxMatchingSpec(r, name);
  }

  /** The prefix lengths and comparisons the placement of "0AppleOrange" depends on. */
  lemma TopNoMatchFacts(name: string)
    requires name == "0AppleOrange"
    ensures CommonPrefix(name, "AppleOrange1") == 0
    ensures CommonPrefix(name, "AppleOrange2") == 0
    ensures CommonPrefix(name, "AppleOrange3") == 0
    ensures CommonPrefix(name, "AppleLime1") == 0
    ensures CommonPrefix(name, "AppleLime3") == 0
    ensures CommonPrefix(name, "AppleZingzang1") == 0
    ensures Compare("AppleOrange1", name) == 1
  {
    PrefixLength(name, "AppleOrange1", 0);
    PrefixLength(name, "AppleOrange2", 0);
    PrefixLength(name, "AppleOrange3", 0);
    PrefixLength(name, "AppleLime1", 0);
    PrefixLength(name, "AppleLime3", 0);
    PrefixLength(name, "AppleZingzang1", 0);
    CompareAfter("AppleOrange1", name, 0);
  }

  lemma SlotTopNoMatch(r: seq<TranslationItem>, name: string)
    requires r == Row() && name == "0AppleOrange"
    ensures Slot(r, name) == 0
  {
    TopNoMatchFacts(name);
    SlotWithoutMatch(r, name);
  }

  /** The prefix lengths and comparisons the placement of "AppleOrange" depends on. */
  lemma TopPartialFacts(name: string)
    requires name == "AppleOrange"
    ensures CommonPrefix(name, "AppleOrange1") == 11
    ensures CommonPrefix(name, "AppleOrange2") == 11
    ensures CommonPrefix(name, "AppleOrange3") == 11
    ensures CommonPrefix(name, "AppleLime1") == 5
    ensures CommonPrefix(name, "AppleLime3") == 5
    ensures CommonPrefix(name, "AppleZingzang1") == 5
    ensures Compare("AppleOrange1", name) == 1
  {
    PrefixLength(name, "AppleOrange1", 11);
    PrefixLength(name, "AppleOrange2", 11);
    PrefixLength(name, "AppleOrange3", 11);
    PrefixLength(name, "AppleLime1", 5);
    PrefixLength(name, "AppleLime3", 5);
    PrefixLength(name, "AppleZingzang1", 5);
    CompareAfter("AppleOrange1", name, 11);
  }

  lemma SlotTopPartial(r: seq<TranslationItem>, name: string)
    requires r == Row() && name == "AppleOrange"
    ensures Slot(r, name) == 0
  {
    TopPartialFacts(name);
    Matchings(r, name, [11, 11, 11, 5, 5, 5], 11);
    SlotAtOrAfter(r, name, 0);
  }

  /** The prefix lengths and comparisons the placement of "ZapleOrange" depends on. */
  lemma BottomNoMatchFacts(name: string)
    requires name == "ZapleOrange"
    ensures CommonPrefix(name, "AppleOrange1") == 0
    ensures CommonPrefix(name, "AppleOrange2") == 0
    ensures CommonPrefix(name, "AppleOrange3") == 0
    ensures CommonPrefix(name, "AppleLime1") == 0
    ensures CommonPrefix(name, "AppleLime3") == 0
    ensures CommonPrefix(name, "AppleZingzang1") == 0
    ensures Compare("AppleOrange1", name) == -1
  {
    PrefixLength(name, "AppleOrange1", 0);
    PrefixLength(name, "AppleOrange2", 0);
    PrefixLength(name, "AppleOrange3", 0);
    PrefixLength(name, "AppleLime1", 0);
    PrefixLength(name, "AppleLime3", 0);
    PrefixLength(name, "AppleZingzang1", 0);
    CompareAfter("AppleOrange1", name, 0);
  }

  lemma SlotBottomNoMatch(r: seq<TranslationItem>, name: string)
    requires r == Row() && name == "ZapleOrange"
    ensures Slot(r, name) == 6
  {
    BottomNoMatchFacts(name);
    SlotWithoutMatch(r, name);
  }

  /** The prefix lengths and comparisons the placement of "AppleZingzang2" depends on. */
  lemma BottomPartialFacts(name: string)
    requires name == "AppleZingzang2"
    ensures CommonPrefix(name, "AppleOrange1") == 5
    ensures CommonPrefix(name, "AppleOrange2") == 5
    ensures CommonPrefix(name, "AppleOrange3") == 5
    ensures CommonPrefix(name, "AppleLime1") == 5
    ensures CommonPrefix(name, "AppleLime3") == 5
    ensures CommonPrefix(name, "AppleZingzang1") == 13
    ensures Compare("AppleZingzang1", name) == -1
  {
    PrefixLength(name, "AppleOrange1", 5);
    PrefixLength(name, "AppleOrange2", 5);
    PrefixLength(name, "AppleOrange3", 5);
    PrefixLength(name, "AppleLime1", 5);
    PrefixLength(name, "AppleLime3", 5);
    PrefixLength(name, "AppleZingzang1", 13);
    CompareAfter("AppleZingzang1", name, 13);
  }

  lemma SlotBottomPartial(r: seq<TranslationItem>, name: string)
    requires r == Row() && name == "AppleZingzang2"
    ensures Slot(r, name) == 6
  {
    BottomPartialFacts(name);
    Matchings(r, name, [5, 5, 5, 5, 5, 13], 13);
    SlotPastLast(r, name);
  }

  /** The prefix lengths and comparisons the placement of "AppleOrange2.5" depends on. */
  lemma MiddleEndFacts(name: string)
    requires name == "AppleOrange2.5"
    ensures CommonPrefix(name, "AppleOrange1") == 11
    ensures CommonPrefix(name, "AppleOrange2") == 12
    ensures CommonPrefix(name, "AppleOrange3") == 11
    ensures CommonPrefix(name, "AppleLime1") == 5
    ensures CommonPrefix(name, "AppleLime3") == 5
    ensures CommonPrefix(name, "AppleZingzang1") == 5
    ensures Compare("AppleOrange2", name) == -1
  {
    PrefixLength(name, "AppleOrange1", 11);
    PrefixLength(name, "AppleOrange2", 12);
    PrefixLength(name, "AppleOrange3", 11);
    PrefixLength(name, "AppleLime1", 5);
    PrefixLength(name, "AppleLime3", 5);
    PrefixLength(name, "AppleZingzang1", 5);
    CompareAfter("AppleOrange2", name, 12);
  }

  lemma SlotMiddleEnd(r: seq<TranslationItem>, name: string)
    requires r == Row() && name == "AppleOrange2.5"
    ensures Slot(r, name) == 2
  {
    MiddleEndFacts(name);
    Matchings(r, name, [11, 12, 11, 5, 5, 5], 12);
    SlotPastLast(r, name);
  }

  /** The prefix lengths and comparisons the placement of "AppleLime0" depends on. */
  lemma MiddleTopFacts(name: string)
    requires name == "AppleLime0"
    ensures CommonPrefix(name, "AppleOrange1") == 5
    ensures CommonPrefix(name, "AppleOrange2") == 5
    ensures CommonPrefix(name, "AppleOrange3") == 5
    ensures CommonPrefix(name, "AppleLime1") == 9
    ensures CommonPrefix(name, "AppleLime3") == 9
    ensures CommonPrefix(name, "AppleZingzang1") == 5
    ensures Compare("AppleLime1", name) == 1
  {
    PrefixLength(name, "AppleOrange1", 5);
    PrefixLength(name, "AppleOrange2", 5);
    PrefixLength(name, "AppleOrange3", 5);
    PrefixLength(name, "AppleLime1", 9);
    PrefixLength(name, "AppleLime3", 9);
    PrefixLength(name, "AppleZingzang1", 5);
    CompareAfter("AppleLime1", name, 9);
  }

  lemma SlotMiddleTop(r: seq<TranslationItem>, name: string)
    requires r == Row() && name == "AppleLime0"
    ensures Slot(r, name) == 3
  {
    MiddleTopFacts(name);
    Matchings(r, name, [5, 5, 5, 9, 9, 5], 9);
    SlotAtOrAfter(r, name, 3);
  }

  /** The prefix lengths and comparisons the placement of "AppleLime2" depends on. */
  lemma MiddleMiddleFacts(name: string)
    requires name == "AppleLime2"
    ensures CommonPrefix(name, "AppleOrange1") == 5
    ensures CommonPrefix(name, "AppleOrange2") == 5
    ensures CommonPrefix(name, "AppleOrange3") == 5
    ensures CommonPrefix(name, "AppleLime1") == 9
    ensures CommonPrefix(name, "AppleLime3") == 9
    ensures CommonPrefix(name, "AppleZingzang1") == 5
    ensures Compare("AppleLime1", name) == -1
    ensures Compare("AppleLime3", name) == 1
  {
    PrefixLength(name, "AppleOrange1", 5);
    PrefixLength(name, "AppleOrange2", 5);
    PrefixLength(name, "AppleOrange3", 5);
    PrefixLength(name, "AppleLime1", 9);
    PrefixLength(name, "AppleLime3", 9);
    PrefixLength(name, "AppleZingzang1", 5);
    CompareAfter("AppleLime1", name, 9);
    CompareAfter("AppleLime3", name, 9);
  }

  lemma SlotMiddleMiddle(r: seq<TranslationItem>, name: string)
    requires r == Row() && name == "AppleLime2"
    ensures Slot(r, name) == 4
  {
    MiddleMiddleFacts(name);
    Matchings(r, name, [5, 5, 5, 9, 9, 5], 9);
    SlotAtOrAfter(r, name, 4);
  }

  /** The prefix lengths and comparisons the placement of "AppleLime4" depends on. */
  lemma MiddleBottomFacts(name: string)
    requires name == "AppleLime4"
    ensures CommonPrefix(name, "AppleOrange1") == 5
    ensures CommonPrefix(name, "AppleOrange2") == 5
    ensures CommonPrefix(name, "AppleOrange3") == 5
    ensures CommonPrefix(name, "AppleLime1") == 9
    ensures CommonPrefix(name, "AppleLime3") == 9
    ensures CommonPrefix(name, "AppleZingzang1") == 5
    ensures Compare("AppleLime1", name) == -1
    ensures Compare("AppleLime3", name) == -1
  {
    PrefixLength(name, "AppleOrange1", 5);
    PrefixLength(name, "AppleOrange2", 5);
    PrefixLength(name, "AppleOrange3", 5);
    PrefixLength(name, "AppleLime1", 9);
    PrefixLength(name, "AppleLime3", 9);
    PrefixLength(name, "AppleZingzang1", 5);
    CompareAfter("AppleLime1", name, 9);
    CompareAfter("AppleLime3", name, 9);
  }

  lemma SlotMiddleBottom(r: seq<TranslationItem>, name: string)
    requires r == Row() && name == "AppleLime4"
    ensures Slot(r, name) == 5
  {
    MiddleBottomFacts(name);
    Matchings(r, name, [5, 5, 5, 9, 9, 5], 9);
    SlotPastLast(r, name);
  }

  /** The slot of each test key among the fixture's entries is its expected index. */
  lemma RowSlots(name: string, expected: nat)
    requires Case(name, expected)
    ensures Slot(Row(), name) == expected
  {
    var r := Row();
    if name == "0AppleOrange" { SlotTopNoMatch(r, name); }
    else if name == "AppleOrange" { SlotTopPartial(r, name); }
    else if name == "ZapleOrange" { SlotBottomNoMatch(r, name); }
    else if name == "AppleZingzang2" { SlotBottomPartial(r, name); }
    else if name == "AppleOrange2.5" { SlotMiddleEnd(r, name); }
    else if name == "AppleLime0" { SlotMiddleTop(r, name); }
    else if name == "AppleLime2" { SlotMiddleMiddle(r, name); }
    else { SlotMiddleBottom(r, name); }
  }

  // ------------------------------------------------------- through the store

  /**
   * Reading a dictionary of distinct names into an empty store registers its
   * locale and numbers the pairs in dictionary order from 1.0.
   */
  lemma FreshRead(c0: Catalog, l: LocaleInfo, props: seq<(string, string)>)
    requires Valid(c0) && c0.locales == [] && c0.names == [] && l.Valid() && Distinct(KeysOf(props))
    ensures var r := ReadFromJsonStep(c0, Standard, l, props);
      && r.result == Ok(l)
      && Valid(r.catalog) && r.catalog.locales == [l]
      && r.catalog.names == KeysOf(props)
      && Entries(r.catalog, l) == Numbered(l, props, 0, 1.0)
      && ByOrder(r.catalog, l) == Numbered(l, props, 0, 1.0)
  {
    LoadPairsDistinct(l, props);
    ValidateStepSpec(c0, l);
    var c1 := c0.(locales := [l]);
    assert ValidateStep(c0, l) == Outcome(c1, Ok(l));
    assert Entries(c1, l) == [];
    LoadNumberedValid(c1, l, props, 0, 1.0);
    LoadNumberedFresh(c1, l, props, 0, 1.0, l);
    LoadOrderReproduced(c1, l, props, 1.0);
  }

  /** The fixture's pairs have distinct names, and number into the fixture's row. */
  lemma FixtureRow(l: LocaleInfo, props: seq<(string, string)>)
    requires l == Locale && props == Pairs
    ensures l.Valid() && Distinct(KeysOf(props))
    ensures Numbered(l, props, 0, 1.0) == Row()
  {
    PairsDistinct(props);
    var t := Numbered(l, props, 0, 1.0);
    forall j | 0 <= j < 6 ensures t[j] == Row()[j] {
      NumberedOrders(l, props, 0, 1.0, j);
    }
  }

  /** The six names of the fixture differ pairwise. */
  lemma PairsDistinct(props: seq<(string, string)>)
    requires props == Pairs
    ensures Distinct(KeysOf(props))
  {
    var ks := KeysOf(props);
    assert |ks[0]| == |ks[1]| == |ks[2]| == 12 && |ks[3]| == |ks[4]| == 10 && |ks[5]| == 14;
    assert ks[0][11] == '1' && ks[1][11] == '2' && ks[2][11] == '3';
    assert ks[3][9] == '1' && ks[4][9] == '3';
  }

  /** The orders of the fixture's row are 1.0 to 6.0: distinct and positive. */
  lemma RowOrders(r: seq<TranslationItem>)
    requires r == Row()
    ensures DistinctBy(r, OrderOf) && forall e :: e in r ==> e.order > 0.0
  {
    assert forall i :: 0 <= i < |r| ==> r[i].order == (i + 1) as real;
  }

  /** None of the test keys is among the fixture's names. */
  lemma CaseIsNew(name: string, expected: nat, props: seq<(string, string)>)
    requires Case(name, expected) && props == Pairs
    ensures name !in KeysOf(props)
  {
  }

  /**
   * Writing a test key with the automatic order into a store holding only the
   * fixture's row succeeds and lists the key at the expected index.
   */
  lemma PlacedInFixture(c: Catalog, l: LocaleInfo, name: string, expected: nat)
    requires Valid(c) && c.locales == [l] && l.Valid() && name !in c.items
    requires Entries(c, l) == Row() && ByOrder(c, l) == Row()
    requires Case(name, expected)
    ensures var w := AddOrReplaceStep(c, name, l, name, AutoOrder);
      && w.result.Ok?
      && FirstIndexOf(OrderedItems(w.catalog, l, OriginalOrder), (i: int, e: TranslationItem) => e.name == name) == expected
  {
    RowOrders(Entries(c, l));
    AddOrReplaceRefused(c, name, l, name, AutoOrder);
    AutoOrderPlacement(c, name, l, name);
    RowSlots(name, expected);
  }

  /**
   * The test itself: after the fixture is read into an empty store, writing a
   * test key with the automatic order succeeds, and the OriginalOrder listing
   * shows the key at the expected index.
   */
  lemma CorrectBestOrder(c0: Catalog, l: LocaleInfo, props: seq<(string, string)>, name: string, expected: nat)
    requires c0 == Catalog([], [], map[]) && l == Locale && props == Pairs
    requires Case(name, expected)
    ensures var c := ReadFromJsonStep(c0, Standard, l, props).catalog;
      var w := AddOrReplaceStep(c, name, l, name, AutoOrder);
      && w.result.Ok?
      && FirstIndexOf(OrderedItems(w.catalog, l, OriginalOrder), (i: int, e: TranslationItem) => e.name == name) == expected
  {
    FixtureRow(l, props);
    FreshRead(c0, l, props);
    CaseIsNew(name, expected, props);
    PlacedInFixture(ReadFromJsonStep(c0, Standard, l, props).catalog, l, name, expected);
  }

  /**
   * The empty-store test: once the entries are cleared, the one key written
   * with the automatic order is listed alone, with order 1.0.
   */
  lemma PlacedAlone(c: Catalog, l: LocaleInfo, name: string, text: string)
    requires Valid(c) && c.names == [] && c.locales == [l] && l.Valid()
    ensures var w := AddOrReplaceStep(c, name, l, text, AutoOrder);
      && w.result.Ok?
      && OrderedItems(w.catalog, l, OriginalOrder) == [w.result.value]
      && w.result.value.order == 1.0
      && FirstIndexOf(OrderedItems(w.catalog, l, OriginalOrder), (i: int, e: TranslationItem) => e.name == name) == 0
  {
    assert Entries(c, l) == [];
    AddOrReplaceRefused(c, name, l, text, AutoOrder);
    AutoOrderPlacement(c, name, l, text);
    AddOrReplaceStored(c, name, l, text, AutoOrder);
  }

  /**
   * NoItems, for any dictionary of distinct names read into an empty store
   * (the fixture is one, by FixtureRow): once the entries are cleared, the
   * key "AppleLime0" written with the automatic order is listed alone, with
   * order 1.0.
   */
  lemma NoItems(c0: Catalog, l: LocaleInfo, props: seq<(string, string)>)
    requires Valid(c0) && c0.locales == [] && c0.names == [] && l.Valid() && Distinct(KeysOf(props))
    ensures var cleared := ReadFromJsonStep(c0, Standard, l, props).catalog.(names := [], items := map[]);
      var w := AddOrReplaceStep(cleared, "AppleLime0", l, "Apple Lime Zero", AutoOrder);
      && w.result.Ok?
      && OrderedItems(w.catalog, l, OriginalOrder) == [w.result.value]
      && w.result.value.order == 1.0
  {
    FreshRead(c0, l, props);
    var cleared := ReadFromJsonStep(c0, Standard, l, props).catalog.(names := [], items := map[]);
    PlacedAlone(cleared, l, "AppleLime0", "Apple Lime Zero");
  }
}
