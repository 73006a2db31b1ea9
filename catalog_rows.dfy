/**
 * Facts about one row (the inner locale -> item dictionary) and about the
 * entries of one locale across the rows: what a lookup finds, what a write
 * changes, and how the per-locale entries change with one row.
 */
module CatalogRows {
  import opened Wrappers
  import opened EnumerableExtensions
  import opened Locales
  import opened Items
  import opened Catalogs

  /** The locale lookup only looks at ids. */
  lemma {:induction false} IndexOfLocaleById(ls: seq<LocaleInfo>, ms: seq<LocaleInfo>, l: LocaleInfo, m: LocaleInfo)
    requires |ls| == |ms| && l.Id() == m.Id()
    requires forall i :: 0 <= i < |ls| ==> ls[i].Id() == ms[i].Id()
    ensures IndexOfLocale(ls, l) == IndexOfLocale(ms, m)
    decreases |ls|
  {
    if ls != [] && ls[0].Id() != l.Id() {
      assert forall i :: 0 <= i < |ls| - 1 ==> ls[1..][i] == ls[i + 1] && ms[1..][i] == ms[i + 1];
      IndexOfLocaleById(ls[1..], ms[1..], l, m);
    }
  }

  /** With one item per locale id, a row lookup finds exactly the item of that id. */
  lemma RowGetSpec(row: seq<TranslationItem>, l: LocaleInfo)
    requires UniqueIds(LocalesOf(row))
    ensures RowGet(row, l).Some? <==> exists i :: 0 <= i < |row| && row[i].locale.Id() == l.Id()
    ensures forall i :: 0 <= i < |row| && row[i].locale.Id() == l.Id() ==> RowGet(row, l) == Some(row[i])
  {
    var ls := LocalesOf(row);
    match IndexOfLocale(ls, l)
    case None =>
    case Some(k) =>
      forall i | 0 <= i < |row| && row[i].locale.Id() == l.Id() ensures i == k {
      }
  }

  /** `forName[locale] = item` keeps one item per locale id. */
  lemma RowPutUnique(row: seq<TranslationItem>, item: TranslationItem)
    requires UniqueIds(LocalesOf(row))
    ensures UniqueIds(LocalesOf(RowPut(row, item)))
    ensures |RowPut(row, item)| == |row| + (if HasLocale(row, item.locale) then 0 else 1)
  {
    var ls, ls' := LocalesOf(row), LocalesOf(RowPut(row, item));
    match RowIndex(row, item.locale)
    case Some(k) =>
      assert forall i :: 0 <= i < |row| ==> ls'[i].Id() == ls[i].Id();
    case None =>
      assert forall i :: 0 <= i < |row| ==> ls'[i] == ls[i];
      assert ls'[|row|] == item.locale;
  }

  lemma RowPutGetReplace(row: seq<TranslationItem>, item: TranslationItem, l: LocaleInfo, k: nat)
    requires UniqueIds(LocalesOf(row)) && RowIndex(row, item.locale) == Some(k)
    ensures RowGet(RowPut(row, item), l) == if l.Id() == item.locale.Id() then Some(item) else RowGet(row, l)
  {
    var row' := row[k := item];
    assert RowPut(row, item) == row';
    assert forall i :: 0 <= i < |row| ==> LocalesOf(row')[i].Id() == LocalesOf(row)[i].Id();
    IndexOfLocaleById(LocalesOf(row'), LocalesOf(row), l, l);
  }

  lemma RowPutGetAppend(row: seq<TranslationItem>, item: TranslationItem, l: LocaleInfo)
    requires UniqueIds(LocalesOf(row)) && RowIndex(row, item.locale).None?
    ensures RowGet(RowPut(row, item), l) == if l.Id() == item.locale.Id() then Some(item) else RowGet(row, l)
  {
    var row' := row + [item];
    assert RowPut(row, item) == row';
    RowPutUnique(row, item);
    RowGetSpec(row, l);
    RowGetSpec(row', l);
    assert row'[|row|] == item;
    assert forall i :: 0 <= i < |row| ==> row'[i] == row[i];
  }

  /** After `forName[locale] = item` the row gives `item` for that id and the old entry for any other. */
  lemma RowPutGet(row: seq<TranslationItem>, item: TranslationItem, l: LocaleInfo)
    requires UniqueIds(LocalesOf(row))
    ensures RowGet(RowPut(row, item), l) == if l.Id() == item.locale.Id() then Some(item) else RowGet(row, l)
  {
    match RowIndex(row, item.locale)
    case Some(k) => RowPutGetReplace(row, item, l, k);
    case None => RowPutGetAppend(row, item, l);
  }

  /** A row whose entries all agree with a locale of the same id finds the same entry. */
  lemma RowGetSameId(row: seq<TranslationItem>, l: LocaleInfo, m: LocaleInfo)
    requires l.Id() == m.Id()
    ensures RowGet(row, l) == RowGet(row, m)
  {
    IndexOfLocaleById(LocalesOf(row), LocalesOf(row), l, m);
  }

  // ------------------------------------------------------- entries of a locale

  lemma {:induction false} EntriesOfSameId(names: seq<string>, items: map<string, seq<TranslationItem>>, l: LocaleInfo, m: LocaleInfo)
    requires l.Id() == m.Id()
    ensures EntriesOf(names, items, l) == EntriesOf(names, items, m)
    decreases |names|
  {
    if names != [] {
      EntriesOfSameId(names[..|names| - 1], items, l, m);
      var k := names[|names| - 1];
      if k in items {
        RowGetSameId(items[k], l, m);
      }
    }
  }

  /** The entries of a locale depend only on the entries of its own keys. */
  lemma {:induction false} EntriesOfAgree(names: seq<string>, items: map<string, seq<TranslationItem>>, items': map<string, seq<TranslationItem>>, l: LocaleInfo)
    requires forall k :: k in names ==> EntryAt(items, k, l) == EntryAt(items', k, l)
    ensures EntriesOf(names, items, l) == EntriesOf(names, items', l)
    decreases |names|
  {
    if names != [] {
      EntriesOfAgree(names[..|names| - 1], items, items', l);
    }
  }

  lemma LastNotEarlier(names: seq<string>)
    requires Distinct(names) && names != []
    ensures names[|names| - 1] !in names[..|names| - 1]
    ensures Distinct(names[..|names| - 1])
  {
  }

  lemma EntriesOfLast(names: seq<string>, items: map<string, seq<TranslationItem>>, l: LocaleInfo)
    requires names != []
    ensures EntriesOf(names, items, l) == EntriesOf(names[..|names| - 1], items, l) + EntryAt(items, names[|names| - 1], l)
  {
  }

  lemma MultisetAppendBoth(a: seq<TranslationItem>, b: seq<TranslationItem>, x: seq<TranslationItem>, e: seq<TranslationItem>, e': seq<TranslationItem>)
    requires multiset(a) + multiset(e) == multiset(b) + multiset(e')
    ensures multiset(a + x) + multiset(e) == multiset(b + x) + multiset(e')
  {
    assert multiset(a + x) == multiset(a) + multiset(x);
    assert multiset(b + x) == multiset(b) + multiset(x);
    forall t ensures (multiset(a + x) + multiset(e))[t] == (multiset(b + x) + multiset(e'))[t] {
      assert (multiset(a) + multiset(e))[t] == (multiset(b) + multiset(e'))[t];
    }
  }

  lemma MultisetSwapLast(m: seq<TranslationItem>, x: seq<TranslationItem>, x': seq<TranslationItem>)
    ensures multiset(m + x') + multiset(x) == multiset(m + x) + multiset(x')
  {
    assert multiset(m + x') == multiset(m) + multiset(x');
    assert multiset(m + x) == multiset(m) + multiset(x);
  }

  lemma EntriesOfUpdateAtLast(names: seq<string>, items: map<string, seq<TranslationItem>>, k: string, row: seq<TranslationItem>, l: LocaleInfo)
    requires names != [] && names[|names| - 1] == k && k !in names[..|names| - 1]
    ensures multiset(EntriesOf(names, items[k := row], l)) + multiset(EntryAt(items, k, l))
         == multiset(EntriesOf(names, items, l)) + multiset(EntryAt(items[k := row], k, l))
  {
    var init := names[..|names| - 1];
    EntriesOfLast(names, items, l);
    EntriesOfLast(names, items[k := row], l);
    EntriesOfAgree(init, items, items[k := row], l);
    MultisetSwapLast(EntriesOf(init, items, l), EntryAt(items, k, l), EntryAt(items[k := row], k, l));
  }

  lemma EntriesOfUpdateBeforeLast(names: seq<string>, items: map<string, seq<TranslationItem>>, k: string, row: seq<TranslationItem>, l: LocaleInfo)
    requires names != [] && names[|names| - 1] != k
    requires multiset(EntriesOf(names[..|names| - 1], items[k := row], l)) + multiset(EntryAt(items, k, l))
          == multiset(EntriesOf(names[..|names| - 1], items, l)) + multiset(EntryAt(items[k := row], k, l))
    ensures multiset(EntriesOf(names, items[k := row], l)) + multiset(EntryAt(items, k, l))
         == multiset(EntriesOf(names, items, l)) + multiset(EntryAt(items[k := row], k, l))
  {
    var init, last := names[..|names| - 1], names[|names| - 1];
    EntriesOfLast(names, items, l);
    EntriesOfLast(names, items[k := row], l);
    assert EntryAt(items[k := row], last, l) == EntryAt(items, last, l);
    MultisetAppendBoth(EntriesOf(init, items[k := row], l), EntriesOf(init, items, l), EntryAt(items, last, l), EntryAt(items, k, l), EntryAt(items[k := row], k, l));
  }

  /** Replacing the row of one listed key trades its entry for the new one. */
  lemma {:induction false} EntriesOfUpdate(names: seq<string>, items: map<string, seq<TranslationItem>>, k: string, row: seq<TranslationItem>, l: LocaleInfo)
    requires Distinct(names) && k in names
    ensures multiset(EntriesOf(names, items[k := row], l)) + multiset(EntryAt(items, k, l))
         == multiset(EntriesOf(names, items, l)) + multiset(EntryAt(items[k := row], k, l))
    decreases |names|
  {
    var init, last := names[..|names| - 1], names[|names| - 1];
    LastNotEarlier(names);
    if last == k {
      EntriesOfUpdateAtLast(names, items, k, row, l);
    } else {
      assert names == init + [last];
      assert k in init;
      EntriesOfUpdate(init, items, k, row, l);
      EntriesOfUpdateBeforeLast(names, items, k, row, l);
    }
  }

  /** A key not listed takes no part in the entries. */
  lemma EntriesOfUnlisted(names: seq<string>, items: map<string, seq<TranslationItem>>, k: string, row: seq<TranslationItem>, l: LocaleInfo)
    requires k !in names
    ensures EntriesOf(names, items[k := row], l) == EntriesOf(names, items, l)
  {
    EntriesOfAgree(names, items, items[k := row], l);
  }

  /** A new last key whose row holds one item adds that item at the end of the entries of its locale. */
  lemma EntriesOfAppended(names: seq<string>, items: map<string, seq<TranslationItem>>, k: string, item: TranslationItem, l: LocaleInfo)
    requires k !in names
    ensures EntriesOf(names + [k], items[k := [item]], l)
         == EntriesOf(names, items, l) + (if l.Id() == item.locale.Id() then [item] else [])
  {
    assert LocalesOf([item]) == [item.locale];
    EntriesOfUnlisted(names, items, k, [item], l);
    EntriesOfLast(names + [k], items[k := [item]], l);
    assert (names + [k])[..|names|] == names;
  }

  /** Each listed key contributes its entry, if any; a key not in the table contributes nothing. */
  lemma {:induction false} EntriesOfMember(names: seq<string>, items: map<string, seq<TranslationItem>>, l: LocaleInfo, e: TranslationItem)
    ensures e in EntriesOf(names, items, l) <==> exists k :: k in names && EntryAt(items, k, l) == [e]
    decreases |names|
  {
    if names != [] {
      var init, last := names[..|names| - 1], names[|names| - 1];
      EntriesOfMember(init, items, l, e);
      assert names == init + [last];
      assert forall k :: k in names <==> k in init || k == last;
      assert EntryAt(items, last, l) == [] || |EntryAt(items, last, l)| == 1;
    }
  }

  /** The length of the entries is the number of listed keys that have one. */
  lemma {:induction false} EntriesOfCount(names: seq<string>, items: map<string, seq<TranslationItem>>, items': map<string, seq<TranslationItem>>, l: LocaleInfo)
    requires forall k :: k in names ==> |EntryAt(items, k, l)| == |EntryAt(items', k, l)|
    ensures |EntriesOf(names, items, l)| == |EntriesOf(names, items', l)|
    decreases |names|
  {
    if names != [] {
      EntriesOfCount(names[..|names| - 1], items, items', l);
    }
  }
}
