/**
 * TranslationItem: one text of one key in one locale, with the order value that
 * keeps the catalog file in its original line order; and Translation, the
 * request to translate one item into another locale.
 */
module Items {
  import opened Locales

  /** The order value meaning "not placed yet: find the best place". */
  const AutoOrder: real := -1.0

  /** double.MaxValue, the order AddOrReplace takes when its caller gives none. */
  const MaxDoubleOrder: real := 179769313486231570814527423731704356798070567525844996598917476803157260780028538760589558632766878171540458953514382464234321326889464182768467546703537516986049910576551282076245490090389328944075868508455133942304583236903222948165808559332123348274797826204144723168738177180919299881250404026184124858368.0

  datatype TranslationItem = TranslationItem(locale: LocaleInfo, name: string, text: string, order: real) {

    /** Complete: a valid locale, a name and a text. */
    predicate Valid() {
      locale.Valid() && name != [] && text != []
    }
  }

  /** `new TranslationItem() { Locale = l, Name = n, Text = t }`: the order is left at its default. */
  function NewItem(locale: LocaleInfo, name: string, text: string): (item: TranslationItem)
    ensures item.order == AutoOrder
    ensures item.locale == locale && item.name == name && item.text == text
    ensures item.Valid() <==> locale.Valid() && name != [] && text != []
  {
    TranslationItem(locale, name, text, AutoOrder)
  }

  /** `default(TranslationItem)`: every field zeroed, so no locale and order 0. */
  const DefaultItem: TranslationItem := TranslationItem(LocaleInfo("", "", ""), "", "", 0.0)

  lemma DefaultItemInvalid()
    ensures !DefaultItem.Valid() && !DefaultItem.locale.Valid()
  {
  }

  /** ITranslator.Translation: an item to translate and the locale to translate it into. */
  datatype Translation = Translation(from: TranslationItem, toLocale: LocaleInfo) {
    predicate Valid() {
      toLocale.Valid() && from.Valid()
    }
  }
}
