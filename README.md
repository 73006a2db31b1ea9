# LanguageLocaliser in Dafny

A Dafny model of the LanguageLocaliser translation store, with proofs about it. The store holds the translations of an application in several locales. It reads them from one JSON dictionary per locale and keeps, for every key, one entry per locale that has it. It reports which keys are still missing in which locales and picks the source text each missing translation should come from. It writes each locale back in its original order. A key added later is slotted in next to the keys whose names it shares the longest prefix with.

## Layout

The modules follow the C# files:

- `LocaleInfo` and `TranslationItem` become datatypes (`locale_info.dfy`, `translation_item.dfy`).
- The `LocaleId` enumeration and its attribute table live in `locale_id.dfy`.
- The LINQ helpers of `IEnumerableExtensions` are in `enumerable_extensions.dfy`, beside the `Distinct`/`Where` grouping that `GoogleTranslator` relies on.
- `String.Compare`, `Split` and `Replace` are in `strings.dfy`.
- `OrderBy` becomes an insertion sort (`sorting.dfy`).

The store `TranslationItems` is a class (`translation_items.dfy`) with these fields:

- `locales`, for `_locales`;
- `names`, the key order of `_items`;
- `items`, the `_items` table: each key maps to its row, one entry per locale;
- `defaultFileSortOption`;
- `dialect`, which tells the base class from `RyujinxTranslationItems`.

Every method of the class is proved against a function on the `Catalog` value that `Snapshot()` gives. The functions and lemmas about that value are split by concern:

- `catalog.dfy`: the state, the validity invariant, the write step, `FindBestOrder`, the queries.
- `catalog_rows.dfy`: entries of one row.
- `catalog_writes.dfy`: `ValidateLocale` and `AddOrReplace`.
- `catalog_queries.dfy`: `OrderedItems`, found/needed, `RequiredTranslations`, `TestableTranslations`.
- `catalog_order.dfy`: the placement rule.
- `dialects.dfy`: the Ryujinx hooks and the JSON dictionary.
- `catalog_load.dfy`: the numbering loop of `ReadFromJson`.
- `store_output.dfy`: the pair list `SerialiseJson` writes.

The rest:

- `TextFile` is in `text_file.dfy`.
- The batching loops of `GoogleTranslator.TranslateAsync` are in `google_translator.dfy`. The HTTP call is passed in as a `Service` function.
- `best_order_fixture.dfy` restates the eight placement cases and the empty-store case of the best-order unit tests, and proves them.

Errors the C# code throws become `Err` values of `Wrappers.Result`. A failing call leaves the store as it was wherever the C# code validates before it mutates.

## Model

| member | source | states |
|---|---|---|
| Strings.Compare | LanguageLocaliser/TranslationItems.cs:292-311 | The string comparison gives -1, 0 or 1, and 0 exactly when the strings are equal. |
| Strings.CompareAntisymmetric | LanguageLocaliser/TranslationItems.cs:563-564 | Swapping the arguments negates the result. |
| Strings.CompareTransitive | LanguageLocaliser/TranslationItems.cs:563-564 | "At most" is transitive. |
| Strings.CompareStrictTransitive | LanguageLocaliser/TranslationItems.cs:563-564 | Strictly before and then at most gives strictly before. |
| Strings.CompareTotal | LanguageLocaliser/TranslationItems.cs:563-564 | Any two strings are ordered one way or the other. |
| Strings.Split | LanguageLocaliser/LocaleInfo.cs:83 | There is one more part than there are separators. No part holds the separator. Joining the parts gives back the string. |
| Strings.SplitJoin | LanguageLocaliser/LocaleInfo.cs:83-86 | Splitting the join of separator-free parts gives back exactly those parts. |
| Strings.SplitNoSeparator | LanguageLocaliser/TranslationItems.cs:213-215 | A string without the separator splits into itself alone. |
| Strings.ReplaceLeavesNoOccurrence | LanguageLocaliser/RyujinxTranslationItems.cs:91-94 | Replacing a pattern by a character that is not in it leaves no occurrence of the pattern. |
| Strings.ReplaceRoundTrip | LanguageLocaliser/RyujinxTranslationItems.cs:91-94 | Replacing a pattern by a fresh character and back restores the text. |
| EnumerableExtensions.CountMatching | LanguageLocaliser/IEnumerableExtensions.cs:29-49 | For start >= 0 the count is at most max(min(len a, len b) - start, 0), the elements agree throughout the run, and the run is maximal: the next pair differs unless a sequence ended. |
| EnumerableExtensions.CountMatchingSymmetric | LanguageLocaliser/IEnumerableExtensions.cs:29-49 | Swapping the sequences does not change the count. |
| EnumerableExtensions.CountMatchingRun | LanguageLocaliser/IEnumerableExtensions.cs:29-49 | Any agreeing run from start that ends at a mismatch or at the end of a sequence is the count. |
| EnumerableExtensions.CountMatchingIsCommonPrefix | LanguageLocaliser/IEnumerableExtensions.cs:29-49 | From index 0 the count is the length of the common prefix. |
| EnumerableExtensions.CountMatchingExamples | LanguageLocaliserTests/CountMatchingTests.cs:18-25 | The eight tested inputs give 5, 6, 0, 9, 0, 0, 0 and 5. |
| EnumerableExtensions.FirstIndexOf | LanguageLocaliser/IEnumerableExtensions.cs:12-19 | -1 exactly when no element matches. Otherwise a matching index with no match before it. |
| EnumerableExtensions.DedupMembers | LanguageLocaliser/GoogleTranslator.cs:82 | Distinct() keeps exactly the elements of its input. |
| EnumerableExtensions.DedupOrder | LanguageLocaliser/GoogleTranslator.cs:82-84 | Distinct() lists elements in order of first appearance: every occurrence of a later element comes after an occurrence of each earlier one. |
| EnumerableExtensions.DedupNoRepeats | LanguageLocaliser/GoogleTranslator.cs:82-84 | Distinct() gives no element twice. |
| EnumerableExtensions.GroupOfMembers | LanguageLocaliser/GoogleTranslator.cs:86 | A Where-by-key group holds exactly the inputs with that key. |
| EnumerableExtensions.GroupsPartition | LanguageLocaliser/GoogleTranslator.cs:82-87 | For distinct keys that cover every element, the groups together hold each element exactly once. |
| EnumerableExtensions.PairsUpToMembers | LanguageLocaliser/GoogleTranslator.cs:82-84 | The nested loops visit (s, t) exactly when s is a source and t one of its targets. |
| EnumerableExtensions.PairsUpToDistinct | LanguageLocaliser/GoogleTranslator.cs:82-84 | With distinct sources and distinct targets per source, no pair is visited twice. |
| Locales.IdParts | LanguageLocaliser/LocaleInfo.cs:39-45 | The Id is the language, '_' and the region, in that order. |
| Locales.OpEquals | LanguageLocaliser/LocaleInfo.cs:107-110 | == holds exactly when the Ids are equal. |
| Locales.OpNotEquals | LanguageLocaliser/LocaleInfo.cs:118-121 | != is the negation of Equals. |
| Locales.EqualsIsEquivalence | LanguageLocaliser/LocaleInfo.cs:52-55 | Equals is reflexive, symmetric and transitive, and ignores the display name. |
| Locales.EqualsIffSameCodes | LanguageLocaliser/LocaleInfo.cs:52-55 | For codes without '_', Equals holds exactly when language and region agree. |
| Locales.Create | LanguageLocaliser/LocaleInfo.cs:81-89 | A locale exactly when the id has exactly one '_'. It carries the given name and has that Id, with separator-free codes. |
| Locales.CreateUnnamed | LanguageLocaliser/LocaleInfo.cs:81-89 | Create without a name never gives a valid locale. |
| Locales.CreateFromId | LanguageLocaliser/LocaleInfo.cs:81-89 | Create inverts Id for separator-free codes. |
| LocaleIds.IdStringParts | LanguageLocaliser/LocaleId.cs:60-98 | Every member name is five characters and splits on '_' into two halves. |
| LocaleIds.ToLocale | LanguageLocaliser/LocaleId.cs:51-54 | The locale's Id is the member name, its language and region are the halves, and its name is the native name. |
| LocaleIds.ToLocaleValid | LanguageLocaliser/LocaleId.cs:51-54 | Every predefined locale is valid. |
| LocaleIds.MemberByCodesInverse | LanguageLocaliser/LocaleId.cs:60-98 | A member is recovered from its name. |
| LocaleIds.ToLocaleInjective | LanguageLocaliser/LocaleId.cs:60-98 | Distinct members give locales that are not Equals. |
| Items.NewItem | LanguageLocaliser/TranslationItem.cs:26-38 | A new item has order -1 and the given fields. It is valid exactly when the locale is valid and name and text are non-empty. |
| Items.DefaultItemInvalid | LanguageLocaliser/TranslationItems.cs:622-626 | The default item that FirstOrDefault yields is not valid. |
| Sorting.SortBy | LanguageLocaliser/TranslationItems.cs:558-566 | OrderBy returns a permutation of its input. |
| Sorting.SortByMember | LanguageLocaliser/TranslationItems.cs:558-566 | OrderBy neither drops nor invents elements. |
| Sorting.SortByStable | LanguageLocaliser/TranslationItems.cs:563-564 | OrderBy is stable: under a total preorder, the elements that tie with any given element keep their input order. |
| Sorting.SortBySorted | LanguageLocaliser/TranslationItems.cs:563-564 | Under a total preorder the result is sorted. |
| Sorting.SortedUnique | LanguageLocaliser/TranslationItems.cs:563-564 | Two sorted permutations of the same elements without ties are equal. |
| Sorting.SortBySortedInput | LanguageLocaliser/TranslationItems.cs:273-278 | A sorted input without ties comes back unchanged. |
| Sorting.SortByDistinct | LanguageLocaliser/TranslationItems.cs:558-566 | Sorting keeps a field distinct that was distinct before. |
| Catalogs.IndexOfLocale | LanguageLocaliser/TranslationItems.cs:135 | The first locale with the same Id, or None exactly when no locale has that Id. |
| Catalogs.LocalesOf | LanguageLocaliser/TranslationItems.cs:599 | The locales of a row, entry by entry. |
| Catalogs.RowGet | LanguageLocaliser/TranslationItems.cs:121 | A found entry belongs to the row and has the asked-for Id. |
| Catalogs.GetItem | LanguageLocaliser/TranslationItems.cs:119-122 | Ok exactly when the key exists and its row has the locale. The entry found is that row's entry for the locale. |
| Catalogs.GetText | LanguageLocaliser/TranslationItems.cs:584-586 | The getter succeeds exactly when GetItem does, and gives that entry's text. |
| Catalogs.Reserve | LanguageLocaliser/TranslationItems.cs:160-164 | After reserving, the key has a row. |
| Catalogs.ReserveSpec | LanguageLocaliser/TranslationItems.cs:160-164 | An existing key leaves the store as it was. A new key gets an empty row and is appended to the key order. Every other key keeps its row, and the locales are unchanged. |
| Catalogs.MaxOrderSpec | LanguageLocaliser/TranslationItems.cs:283 | Max is an upper bound that some entry attains. |
| Catalogs.MaxMatchingSpec | LanguageLocaliser/TranslationItems.cs:286-290 | The best prefix match is an upper bound that some entry attains. |
| Catalogs.FirstAtOrAfterSpec | LanguageLocaliser/TranslationItems.cs:303-313 | SkipWhile finds the first best-matching entry whose name is not before the new key, or reports that there is none. |
| Catalogs.LastMatchingBeforeSpec | LanguageLocaliser/TranslationItems.cs:313 | The last best-matching entry, or none at all. |
| Catalogs.MissingFrom | LanguageLocaliser/TranslationItems.cs:639-641 | The known locales that a row lacks, exactly. |
| Catalogs.FirstPreferredIndex | LanguageLocaliser/TranslationItems.cs:547 | The first preferred locale that the row has, none before it. |
| Catalogs.FirstPreferred | LanguageLocaliser/TranslationItems.cs:547 | The first preferred locale present, or None exactly when no preferred locale is present. |
| Catalogs.SourceLocale | LanguageLocaliser/TranslationItems.cs:547 | The chosen source locale is present in the row. |
| Catalogs.FirstTestableIndex | LanguageLocaliser/TranslationItems.cs:622-626 | The first candidate that is testable and whose key the destination has, none before it. |
| Catalogs.OtherLocales | LanguageLocaliser/TranslationItems.cs:617-618 | Exactly the known locales that differ from the source. |
| CatalogRows.RowGetSpec | LanguageLocaliser/TranslationItems.cs:121 | On a row with unique Ids, the lookup finds an entry exactly when one has the Id, and it is that entry. |
| CatalogRows.RowPutUnique | LanguageLocaliser/TranslationItems.cs:170 | The dictionary store keeps Ids unique, and grows only for a new locale. |
| CatalogRows.RowPutGet | LanguageLocaliser/TranslationItems.cs:170 | After the store, the locale gives the new item and the other locales are unchanged. |
| CatalogWrites.ValidateStored | LanguageLocaliser/TranslationItems.cs:135-146 | A stored locale validates to itself and changes nothing. |
| CatalogWrites.ValidateStepSpec | LanguageLocaliser/TranslationItems.cs:130-147 | Several facts: an invalid locale is refused; a known Id under another name is a mismatch; a refusal changes nothing; a known locale is returned as stored; a new one is appended; items stay the same and validity is kept. |
| CatalogWrites.AddOrReplaceRefused | LanguageLocaliser/TranslationItems.cs:157-159 | The write fails exactly on an invalid or mismatched locale, with validation's error, and leaves the store untouched. |
| CatalogWrites.AddOrReplaceStored | LanguageLocaliser/TranslationItems.cs:157-172 | The written item has the given name and text. Its locale is the stored one. Its order is the given one, or FindBestOrder's when -1 is given. A lookup then gives it and its text. |
| CatalogWrites.AddOrReplaceOthers | LanguageLocaliser/TranslationItems.cs:157-172 | Every other (key, locale) entry is unchanged by a write. |
| CatalogWrites.AddOrReplaceValid | LanguageLocaliser/TranslationItems.cs:157-172 | A write keeps the store invariant. That invariant covers: unique locale Ids, valid locales, keys listed once, a nonempty row per key, each entry under its own key, and each entry's locale among the stored ones. |
| CatalogWrites.BestOrderBeforePut | LanguageLocaliser/TranslationItems.cs:160-167 | The automatic order is computed on the entries as they were before the write, the key's old entry included. |
| CatalogWrites.AddOrReplaceEntries | LanguageLocaliser/TranslationItems.cs:160-170 | The locale's entries change only by swapping the key's old entry for the new item. Other locales' entries are unchanged. |
| CatalogWrites.AddOrReplaceNewKeyEntries | LanguageLocaliser/TranslationItems.cs:160-170 | A new key is appended to the key order, and its item is appended to the locale's entries. |
| CatalogWrites.EntriesByKey | LanguageLocaliser/TranslationItems.cs:611-613 | An entry is listed for a locale exactly when some key's lookup in that locale gives it. |
| CatalogWrites.AddOrReplaceCount | LanguageLocaliser/TranslationItems.cs:160-170 | A locale gains exactly one entry when a missing key is written into it, and none otherwise. |
| CatalogQueries.EntriesSpec | LanguageLocaliser/TranslationItems.cs:561-565 | The entries of a locale are exactly the stored ones, each under its own name and at most once per name. |
| CatalogQueries.EntriesStored | LanguageLocaliser/TranslationItems.cs:611-613 | Every entry listed for a locale is a real stored entry, never the default item. |
| CatalogQueries.RowsNonEmpty | LanguageLocaliser/TranslationItems.cs:160-170 | Every key of a valid store has at least one entry. |
| CatalogQueries.ItemAtMostPreorder | LanguageLocaliser/TranslationItems.cs:563-564 | Ordering by Order then Name, or by Name alone, is a total preorder. |
| CatalogQueries.OrderedItemsSpec | LanguageLocaliser/TranslationItems.cs:558-566 | The listing holds exactly the stored entries of the locale, each once, sorted by Order then Name (or by Name alone). |
| CatalogQueries.OrderedItemsUnique | LanguageLocaliser/TranslationItems.cs:558-566 | Any sorted arrangement of those entries is the listing. |
| CatalogQueries.OrderedItemsLengthOnReplace | LanguageLocaliser/TranslationItems.cs:558-566 | Rewriting an existing key does not change the length of any listing. |
| CatalogQueries.FoundNeededPartition | LanguageLocaliser/TranslationItems.cs:593-645 | For each key, found and needed locales are disjoint and together cover the known locales. |
| CatalogQueries.NeededIffMissing | LanguageLocaliser/TranslationItems.cs:634-645 | A key has no needed entry exactly when every known locale has it. |
| CatalogQueries.NeededKeysStored | LanguageLocaliser/TranslationItems.cs:634-645 | Needed keys are stored keys, with at least one missing locale. |
| CatalogQueries.SourceItemSpec | LanguageLocaliser/TranslationItems.cs:547 | The source is the entry in the first preferred locale having the key, or the key's first-inserted entry. |
| CatalogQueries.RequiredForSpec | LanguageLocaliser/TranslationItems.cs:544-549 | Per key: one request per missing locale, all from the source entry, without repeats. |
| CatalogQueries.RequiredTranslationsSpec | LanguageLocaliser/TranslationItems.cs:536-550 | Exactly one request per needed (key, destination) pair, from the chosen source entry. The source locale is never the destination. |
| CatalogQueries.TestForSpec | LanguageLocaliser/TranslationItems.cs:619-627 | The sample is the first testable source entry whose key the destination has, or the default item exactly when there is none. |
| CatalogQueries.TestableTranslationsSpec | LanguageLocaliser/TranslationItems.cs:608-629 | One request for every known locale other than the source, and none for the source. |
| CatalogOrder.BestOrderAtSlot | LanguageLocaliser/TranslationItems.cs:271-324 | The best order is the placement value of the slot the rule picks. |
| CatalogOrder.MatchingZero | LanguageLocaliser/TranslationItems.cs:286-292 | A zero match means an empty name or different first characters. |
| CatalogOrder.SlotWithoutMatch | LanguageLocaliser/TranslationItems.cs:290-301 | With no shared first character anywhere, the slot is the top when the first entry compares greater, and the end otherwise. |
| CatalogOrder.SlotAtOrAfter | LanguageLocaliser/TranslationItems.cs:303-313 | The slot is the first best-matching entry not before the new key. |
| CatalogOrder.SlotPastLast | LanguageLocaliser/TranslationItems.cs:313 | When every best match sorts before the key, the slot is just past the last best match. |
| CatalogOrder.PlaceAtBounds | LanguageLocaliser/TranslationItems.cs:315-323 | The end value exceeds every order. The start value is below all when the first order is positive. The midpoint lies between its neighbours, strictly when they differ. |
| CatalogOrder.PlaceAtPositive | LanguageLocaliser/TranslationItems.cs:283-323 | With positive orders the placement value is positive. |
| CatalogOrder.BestOrderStrict | LanguageLocaliser/TranslationItems.cs:315-323 | With strictly rising positive orders, the result is above every entry before the slot and below every entry from it. |
| CatalogOrder.OrderAtMostPreorder | LanguageLocaliser/TranslationItems.cs:277 | Ordering by Order alone is a total preorder. |
| CatalogOrder.ByOrderSpec | LanguageLocaliser/TranslationItems.cs:273-278 | The entries sorted by order are a permutation, sorted, and strictly rising when orders are distinct. |
| CatalogOrder.FindBestOrderSpec | LanguageLocaliser/TranslationItems.cs:280-281 | 1.0 for a locale without entries. Positive whenever all stored orders are positive. |
| CatalogOrder.AutoOrderItem | LanguageLocaliser/TranslationItems.cs:166-167 | An automatic write of a new key stores FindBestOrder's value and adds exactly that item to the locale. |
| CatalogOrder.SlotListing | LanguageLocaliser/TranslationItems.cs:558-566 | Inserting the item at its slot gives a sorted listing in which the item is found at the slot. |
| CatalogOrder.AutoOrderPlacement | LanguageLocaliser/TranslationItems.cs:157-172 | After an automatic write of a new key, the OriginalOrder listing shows it at the chosen slot. It is alone with order 1.0 in an empty locale. |
| Dialects.IndexOfKey | LanguageLocaliser/TranslationItems.cs:261 | The position of a name in the dictionary, or none exactly when absent. |
| Dialects.DictSetSpec | LanguageLocaliser/TranslationItems.cs:261 | `items[name] = value` overwrites a present name in place, or else appends it. The name now maps to that value and other names are unchanged. |
| Dialects.LoadFromJson | LanguageLocaliser/TranslationItems.cs:101-111 | The property loop computes the locale and dictionary that LoadPairs defines. |
| Dialects.LoadPairsKeys | LanguageLocaliser/TranslationItems.cs:101-111 | The dictionary's names are the stored property names in order of first appearance, each once. |
| Dialects.LoadPairsValue | LanguageLocaliser/RyujinxTranslationItems.cs:49-59 | Each stored name holds the value of its last occurrence. The Ryujinx "Language" property is never stored. |
| Dialects.LoadPairsLocale | LanguageLocaliser/RyujinxTranslationItems.cs:51-54 | Loading keeps the locale's codes. Ryujinx takes its name from the last "Language" property. |
| Dialects.LoadPairsDistinct | LanguageLocaliser/TranslationItems.cs:259-262 | Distinct base-class properties load unchanged. |
| Dialects.UpdateLocaleForStem | LanguageLocaliser/TranslationItems.cs:211-220 | A stem with exactly one '_' sets the Id to the stem. Any other stem leaves the locale as it was. The name is kept. |
| Dialects.UpdateLocaleIsCreate | LanguageLocaliser/TranslationItems.cs:211-220 | The file-stem update agrees with Create. |
| Dialects.HeaderNames | LanguageLocaliser/RyujinxTranslationItems.cs:36-41 | The header is empty for the base class, and exactly "Language" for Ryujinx. |
| Dialects.FilterJson | LanguageLocaliser/RyujinxTranslationItems.cs:87-95 | The base class leaves the JSON alone. Ryujinx output ends with the option's line ending, or else the environment's. No `\u00A0` escape is left in the text before that ending. |
| Dialects.FilterJsonUndone | LanguageLocaliser/RyujinxTranslationItems.cs:91-94 | Dropping the ending and re-escaping the no-break space restores the JSON. |
| CatalogLoad.NextOrder | LanguageLocaliser/TranslationItems.cs:386 | `order++` increases the order. |
| CatalogLoad.Numbered | LanguageLocaliser/TranslationItems.cs:384-386 | One item per pair, in the locale, with the pair's name and text. |
| CatalogLoad.NumberedOrders | LanguageLocaliser/TranslationItems.cs:384-386 | The j-th item has order start + j. |
| CatalogLoad.NumberedRising | LanguageLocaliser/TranslationItems.cs:384-386 | The orders rise strictly. |
| CatalogLoad.LoadNumberedValid | LanguageLocaliser/TranslationItems.cs:384-386 | The numbering loop never fails and keeps the store valid and its locales the same. |
| CatalogLoad.LoadNumberedOthers | LanguageLocaliser/TranslationItems.cs:384-386 | Entries for other keys or other locales are untouched. |
| CatalogLoad.LoadNumberedStored | LanguageLocaliser/TranslationItems.cs:384-386 | Each loaded name is then stored with its numbered item. |
| CatalogLoad.LoadNumberedFresh | LanguageLocaliser/TranslationItems.cs:384-386 | Loading new keys appends them to the key order, and their items to the locale's entries. |
| CatalogLoad.LoadNumberedEntries | LanguageLocaliser/TranslationItems.cs:384-386 | Loading names missing from the locale adds exactly the numbered items. |
| CatalogLoad.LoadOrderReproduced | LanguageLocaliser/TranslationItems.cs:384-386 | After loading into an empty locale, the OriginalOrder listing is the load order. |
| CatalogLoad.ReadFromJsonSpec | LanguageLocaliser/TranslationItems.cs:378-387 | The read fails exactly when the loaded locale fails validation, and then changes nothing. Otherwise it returns the stored locale. |
| CatalogLoad.ReadFromJsonStored | LanguageLocaliser/TranslationItems.cs:378-387 | The i-th loaded name is stored with order 1.0 + i in the stored locale. |
| CatalogLoad.ReadFromJsonOrder | LanguageLocaliser/TranslationItems.cs:378-387 | Read into an empty locale, the listing reproduces the file's order. |
| CatalogLoad.WriteStored | LanguageLocaliser/TranslationItems.cs:573-576 | An explicit-order write in a stored locale succeeds with exactly that item. |
| Store.WriteItemKeepsValid | LanguageLocaliser/TranslationItems.cs:512-515 | Writing an item keeps the invariant. |
| Store.WriteItemStoresAsAsked | LanguageLocaliser/TranslationItems.cs:512-515 | A successful item write returns and stores an item with the asked-for fields. |
| Store.WriteItemKeepsOthers | LanguageLocaliser/TranslationItems.cs:512-515 | An item write leaves every other entry alone. |
| Store.WriteItemRefusesInvalid | LanguageLocaliser/TranslationItems.cs:512-515 | An item with an invalid locale is refused. |
| Store.AddOrReplaceAllStops | LanguageLocaliser/TranslationItems.cs:522-529 | The first refused item ends the bulk write; later items are not written. |
| Store.AddOrReplaceAllValid | LanguageLocaliser/TranslationItems.cs:522-529 | The bulk write keeps the invariant. |
| Store.AddOrReplaceAllInvalid | LanguageLocaliser/TranslationItems.cs:522-529 | Any item with an invalid locale makes the bulk write fail. |
| Store.AddOrReplaceAllItems | LanguageLocaliser/TranslationItems.cs:522-529 | One result per input, in input order, each written as asked. |
| Store.AddOrReplaceAllLast | LanguageLocaliser/TranslationItems.cs:522-529 | The last write of a (key, locale) pair is what the store then holds. |
| Store.TranslationItems.constructor | LanguageLocaliser/RyujinxTranslationItems.cs:22-29 | A new store is empty and valid, and sorts its files in original order. |
| Store.TranslationItems.ValidateLocale | LanguageLocaliser/TranslationItems.cs:130-147 | The new state and result are those of the validation step, and validity is kept. |
| Store.TranslationItems.AddOrReplace | LanguageLocaliser/TranslationItems.cs:157-172 | The new state and result are those of the write step, and validity is kept. |
| Store.TranslationItems.AddOrReplaceItem | LanguageLocaliser/TranslationItems.cs:512-515 | The item overload writes the item's fields, order included. |
| Store.TranslationItems.AddOrReplaceAll | LanguageLocaliser/TranslationItems.cs:522-529 | The loop computes the bulk write step. |
| Store.TranslationItems.SetText | LanguageLocaliser/TranslationItems.cs:573-576 | The three-argument indexer setter writes with the given order. |
| Store.TranslationItems.SetTextUnordered | LanguageLocaliser/TranslationItems.cs:584-588 | The two-argument setter writes with order double.MaxValue. |
| Store.TranslationItems.GetText | LanguageLocaliser/TranslationItems.cs:584-586 | The getter succeeds exactly when the key has the locale, and gives the stored text. |
| Store.TranslationItems.ClearTranslations | LanguageLocaliser/TranslationItems.cs:423-426 | Empties the items and keeps the locales. |
| Store.TranslationItems.Clear | LanguageLocaliser/TranslationItems.cs:414-418 | Empties both items and locales. |
| Store.TranslationItems.ReadFromJson | LanguageLocaliser/TranslationItems.cs:378-387 | The new state and result are those of the read step, and validity is kept. |
| StoreOutput.ItemPairs | LanguageLocaliser/TranslationItems.cs:464-466 | One (name, text) pair per item, in order. |
| StoreOutput.PairNames | LanguageLocaliser/TranslationItems.cs:464-467 | Items with distinct names give distinct pair names, which are exactly the item names. |
| StoreOutput.ItemPairNames | LanguageLocaliser/TranslationItems.cs:462-467 | The item pairs of a locale have distinct names: exactly the keys stored for it. |
| StoreOutput.HeadPairDistinct | LanguageLocaliser/TranslationItems.cs:467 | A head pair keeps the names distinct exactly when its name is new. |
| StoreOutput.SerialisedStandard | LanguageLocaliser/TranslationItems.cs:458-473 | The base class writes exactly the ordered items of the locale. |
| StoreOutput.SerialisedRyujinx | LanguageLocaliser/TranslationItems.cs:460-467 | Ryujinx writes the Language pair first and then the items. ToDictionary fails exactly when the locale has its own "Language" entry. |
| StoreOutput.RyujinxSamples | LanguageLocaliser/RyujinxTranslationItems.cs:97-100 | Each sample found has no '{' and at least two spaces, and is a stored source entry whose key the destination has. Every other locale is asked for. |
| GoogleTranslation.LanguageForId | LanguageLocaliser/GoogleTranslator.cs:68-71 | The language tag is the Id with '-' in place of '_'. |
| GoogleTranslation.Sources | LanguageLocaliser/GoogleTranslator.cs:82 | The source language of each request, in order. |
| GoogleTranslation.BatchOutput | LanguageLocaliser/GoogleTranslator.cs:88-93 | Ok exactly when the answer has at least as many strings as the batch. Item idx is then the new item for request idx, with the idx-th string and order -1. |
| GoogleTranslation.CollectStops | LanguageLocaliser/GoogleTranslator.cs:82-93 | A failed batch ends the translation with that failure. |
| GoogleTranslation.CollectNext | LanguageLocaliser/GoogleTranslator.cs:82-93 | Running the next batch either fails the whole call or extends the results by that batch's items. |
| GoogleTranslation.TranslateIsCollect | LanguageLocaliser/GoogleTranslator.cs:78-98 | Translation runs the batches in the order of the nested loops. |
| GoogleTranslation.TranslateTargets | LanguageLocaliser/GoogleTranslator.cs:84-94 | The inner loop runs one source's target batches in order, or reports the failure of the whole call. |
| GoogleTranslation.TranslateAsync | LanguageLocaliser/GoogleTranslator.cs:78-98 | The nested loops compute Translate. |
| GoogleTranslation.TargetsFromMembers | LanguageLocaliser/GoogleTranslator.cs:84 | A source's targets are exactly the targets of its requests. |
| GoogleTranslation.BatchKeysSpec | LanguageLocaliser/GoogleTranslator.cs:82-84 | The (source, target) pairs visited are distinct, and are exactly those of some request. |
| GoogleTranslation.BatchMembers | LanguageLocaliser/GoogleTranslator.cs:86 | A batch holds exactly the requests with its pair. |
| GoogleTranslation.GroupsPartitionRequests | LanguageLocaliser/GoogleTranslator.cs:82-87 | Every request is in exactly one batch. |
| GoogleTranslation.CollectOk | LanguageLocaliser/GoogleTranslator.cs:82-93 | The batches succeed exactly when each service answer is long enough. |
| GoogleTranslation.CollectShape | LanguageLocaliser/GoogleTranslator.cs:88-93 | One result per batched request. Result j has the locale and name of the j-th batched request, with order -1. |
| GoogleTranslation.CollectTexts | LanguageLocaliser/GoogleTranslator.cs:86-93 | After a successful run of the batches, the p-th request of batch i sits at that batch's offset plus p. Its text is the service's p-th answer for that batch. |
| GoogleTranslation.TranslateOk | LanguageLocaliser/GoogleTranslator.cs:78-98 | Translation succeeds exactly when each request's batch is answered in full. |
| GoogleTranslation.TranslateShape | LanguageLocaliser/GoogleTranslator.cs:78-98 | On success there is exactly one item per request, with the request's destination and name and order -1. Its text is the service's answer at the request's position in its batch. |
| TextFiles.NewlineMatches | LanguageLocaliser/TextFile.cs:22 | The "\n" match count is the number of line feeds. |
| TextFiles.CrLfMatches | LanguageLocaliser/TextFile.cs:21 | The "\r\n" match count is the number of line feeds after a carriage return. |
| TextFiles.LineFeedsExist | LanguageLocaliser/TextFile.cs:21-22 | A count is positive exactly when such a line feed exists. |
| TextFiles.LineEndingCounts | LanguageLocaliser/TextFile.cs:21-22 | The CR-LF count and the bare-LF count (total minus CR-LF) are positive exactly when each kind occurs. |
| TextFiles.DetectLineEndingSpec | LanguageLocaliser/TextFile.cs:17-32 | The four cases: "\r\n" when only CR-LF occurs; "\n" when only bare LF occurs; mixed is an error; none (lone CR included) is an error. |
| TextFiles.NoLineFeed | LanguageLocaliser/TextFile.cs:22-31 | Text without a line feed has no line ending. |
| TextFiles.EncodingHasMark | LanguageLocaliser/TextFile.cs:63-86 | A detected encoding's mark starts the file. UTF-16LE means the mark is not followed by two zeros. |
| TextFiles.EncodingFound | LanguageLocaliser/TextFile.cs:63-86 | A file of four or more bytes gets an encoding exactly when some mark starts it. |
| TextFiles.MarkRecognised | LanguageLocaliser/TextFile.cs:75-82 | A file starting with a mark is recognised as that encoding (the UTF-32LE overlap excepted). |
| TextFiles.LeadingNulReadsAsUtf32 | LanguageLocaliser/TextFile.cs:79-80 | FF FE 00 00 reads as UTF-32LE, because that test comes first. |
| TextFiles.BareMarkUnrecognised | LanguageLocaliser/TextFile.cs:69-70 | Fewer than four bytes give no encoding. |
| BestOrderFixture.FixtureRow | LanguageLocaliserTests/TranslationItemsBestOrderUnitTests.cs:13-25 | The six fixture pairs, numbered by the load loop, are the expected row with orders 1 to 6. |
| BestOrderFixture.FreshRead | LanguageLocaliserTests/TranslationItemsBestOrderUnitTests.cs:13-25 | Reading distinct pairs into an empty store registers the locale and lists the entries in load order. |
| BestOrderFixture.SlotTopNoMatch | LanguageLocaliserTests/TranslationItemsBestOrderUnitTests.cs:29 | "0AppleOrange" goes to slot 0. |
| BestOrderFixture.SlotTopPartial | LanguageLocaliserTests/TranslationItemsBestOrderUnitTests.cs:30 | "AppleOrange" goes to slot 0. |
| BestOrderFixture.SlotBottomNoMatch | LanguageLocaliserTests/TranslationItemsBestOrderUnitTests.cs:31 | "ZapleOrange" goes to slot 6. |
| BestOrderFixture.SlotBottomPartial | LanguageLocaliserTests/TranslationItemsBestOrderUnitTests.cs:32 | "AppleZingzang2" goes to slot 6. |
| BestOrderFixture.SlotMiddleEnd | LanguageLocaliserTests/TranslationItemsBestOrderUnitTests.cs:33 | "AppleOrange2.5" goes to slot 2. |
| BestOrderFixture.SlotMiddleTop | LanguageLocaliserTests/TranslationItemsBestOrderUnitTests.cs:34 | "AppleLime0" goes to slot 3. |
| BestOrderFixture.SlotMiddleMiddle | LanguageLocaliserTests/TranslationItemsBestOrderUnitTests.cs:35 | "AppleLime2" goes to slot 4. |
| BestOrderFixture.SlotMiddleBottom | LanguageLocaliserTests/TranslationItemsBestOrderUnitTests.cs:36 | "AppleLime4" goes to slot 5. |
| BestOrderFixture.RowSlots | LanguageLocaliserTests/TranslationItemsBestOrderUnitTests.cs:28-36 | Each of the eight cases gets its expected slot. |
| BestOrderFixture.PlacedInFixture | LanguageLocaliserTests/TranslationItemsBestOrderUnitTests.cs:37-46 | In a store holding the fixture row, an automatic write of a test key lists it at the expected index. |
| BestOrderFixture.CorrectBestOrder | LanguageLocaliserTests/TranslationItemsBestOrderUnitTests.cs:28-46 | The tested sequence for every case: read the fixture into a new store, add the key with order -1, and find it at the expected index. |
| BestOrderFixture.PlacedAlone | LanguageLocaliserTests/TranslationItemsBestOrderUnitTests.cs:48-73 | In a locale without entries, an automatic write is listed alone at index 0 with order 1.0. |
| BestOrderFixture.NoItems | LanguageLocaliserTests/TranslationItemsBestOrderUnitTests.cs:48-73 | After reading and ClearTranslations, adding "AppleLime0" gives index 0 and order 1.0. |

## Notes on the code

- **The two-argument indexer.** The two-argument indexer setter writes with `AddOrReplace`'s default order `double.MaxValue` (TranslationItems.cs:157, 587). Only an explicit order of -1 goes through `FindBestOrder`. The model does the same (`SetTextUnordered`, `Items.MaxDoubleOrder`).
- **The translation service's answer.** `translation[idx]` (GoogleTranslator.cs:91) reads one answer per request of the batch. Extra answers are never read. Too few answers make the indexing throw, and the model gives `Err` (`BatchOutput`).
- **A negative `start` in `CountMatching`.** `Skip` with a negative count skips nothing, and the fallback length `Min(...) - start` grows (IEnumerableExtensions.cs:29-49). The function computes exactly that; its bounds are stated for `start >= 0`.
- **Readonly locale fields.** `UpdateLocaleForFilename` (TranslationItems.cs:211-220) assigns `Language` and `Region`, which `LocaleInfo` declares `readonly` (LocaleInfo.cs:18, 23). The model gives a locale with the stem's two halves and the old name.

## Left out

- File and folder I/O are left out: `ReadFromFolder*`, `ReadFromFile*`, `WriteToFolder*`, `WriteToFile*`, `GetFolderFilesToProcess`, `GetFilenameForLocale`, `EncodingCompatibleStreamWriter`, and the file probing in the Ryujinx `SetupWriteForFilename`. The async/`Wait` wrappers go with them. `TextFile` is modelled on text and bytes already read. `GetEncoding` gets the file's leading bytes, and a short read is modelled as fewer than four bytes.
- JSON parsing and serialisation belong to a foreign library. A document is a sequence of (name, value) pairs, and the written file is the pair list handed to the serialiser. `JsonSerializerOptions` and `SetupLocaleForJson` are left out. `FilterJsonBeforeWrite` receives the option's line ending as an `Option`.
- `GoogleTranslator.TranslateTextsAsync` is HTTP and response parsing. It is the `Service` parameter, a function from (source, target, texts) to strings or an error. `Translate`'s `Wait` is not modelled separately.
- Culture-sensitive `String.Compare` and the default string comparer are one ordinal lexicographic order on characters.
- Orders are reals. Adding 1.0 to `double.MaxValue` does not saturate. Repeated halving loses no precision.
- Hash-set and dictionary enumeration order is taken to be insertion order, and `ImmutableDictionary` order likewise. The properties proved about `RequiredTranslations`, `FoundTranslations` and `NeededTranslations` do not depend on that order. `GetHashCode` and hashing internals are left out.
- LINQ laziness and the live `Keys` views of `FoundTranslations` are left out. Queries are evaluated on the state at call time.
- `Path.GetFileNameWithoutExtension` is left out: `UpdateLocaleForStem` takes the file stem.
- Reflection over the `LocaleIdNames` attribute is a table of the attribute arguments.
- `Program.cs`, the loggers, the `ITranslator` interface and every `ToString` are wiring or display. The `Translation` record is reused as the request type.
- Null strings are modelled as the empty string. Where the code tests a string with `IsNullOrEmpty` or interpolates it, the two behave alike. On two paths they do not, and the model keeps the empty-string behaviour:
  - `Store.TranslationItems.AddOrReplaceItem` with a null `Name`: in the C# code, `ValidateLocale` first registers a new locale (TranslationItems.cs:141-143). Then `_items.TryGetValue(null, ...)` (:160) throws, so the locale stays registered and no item is written. The model stores the item under the key "".
  - `StoreOutput.RyujinxSamples` with a stored entry whose `Text` is null: `item.Text.Contains('{')` (RyujinxTranslationItems.cs:99) throws. In the model the empty text simply fails the testability filter.
- Class inheritance is left out: `RyujinxTranslationItems` is the `Ryujinx` dialect of one store class. Its virtual hooks dispatch on that tag.
- `CatalogOrder.Slot`, `Catalogs.FirstAfter`: their own contracts bound the slot only. What the slot means is stated by `SlotAtOrAfter`, `SlotPastLast` and `SlotWithoutMatch`.
- `Store.TranslationItems.SetText`: like the C# setters, it returns no item. Its result says only whether the write succeeded.
