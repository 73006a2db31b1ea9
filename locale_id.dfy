/**
 * LocaleId: the fixed catalogue of known locales. Each member is named after
 * its id and carries an English name and a name in its own language; the
 * attribute lookup of the original becomes a table.
 */
module LocaleIds {
  import opened Wrappers
  import opened Strings
  import opened Locales

  datatype LocaleId =
    | ar_SA | de_DE | el_GR | en_US | es_ES | fr_FR | he_IL | it_IT | ja_JP
    | ko_KR | pl_PL | pt_BR | ru_RU | th_TH | tr_TR | uk_UA | zh_CN | zh_TW

  /** Every member, in declaration order. */
  const AllLocaleIds: seq<LocaleId> :=
    [ar_SA, de_DE, el_GR, en_US, es_ES, fr_FR, he_IL, it_IT, ja_JP,
     ko_KR, pl_PL, pt_BR, ru_RU, th_TH, tr_TR, uk_UA, zh_CN, zh_TW]

  /** The member's own name, as ToString() gives it. */
  function IdString(m: LocaleId): string {
    match m
    case ar_SA => "ar_SA" case de_DE => "de_DE" case el_GR => "el_GR"
    case en_US => "en_US" case es_ES => "es_ES" case fr_FR => "fr_FR"
    case he_IL => "he_IL" case it_IT => "it_IT" case ja_JP => "ja_JP"
    case ko_KR => "ko_KR" case pl_PL => "pl_PL" case pt_BR => "pt_BR"
    case ru_RU => "ru_RU" case th_TH => "th_TH" case tr_TR => "tr_TR"
    case uk_UA => "uk_UA" case zh_CN => "zh_CN" case zh_TW => "zh_TW"
  }

  /** The names attribute of a member: (English name, name in its own language). */
  function Names(m: LocaleId): (string, string) {
    match m
    case ar_SA => ("Arabic", "اَلْعَرَبِيَّةُ")
    case de_DE => ("Dutch", "Deutsch")
    case el_GR => ("Greek", "Greek")
    case en_US => ("English (US)", "English (US)")
    case es_ES => ("Spanish", "Español (ES)")
    case fr_FR => ("French", "Français")
    case he_IL => ("Hebrew (Israel)", "עִברִית")
    case it_IT => ("Italian", "Italiano")
    case ja_JP => ("Japanese", "日本語")
    case ko_KR => ("Korean", "한국어")
    case pl_PL => ("Polish", "Polski")
    case pt_BR => ("Portuguese (Brazil)", "Português (BR)")
    case ru_RU => ("Russian", "Русский (RU)")
    case th_TH => ("Thai", "ภาษาไทย")
    case tr_TR => ("Turkish", "Türkçe")
    case uk_UA => ("Ukranian", "Українська")
    case zh_CN => ("Chinese (Simplified)", "简体中文")
    case zh_TW => ("Traditional Chinese (Taiwan)", "简体中文")
  }

  /** The locale's name in its own language: the second attribute argument. */
  function Name(m: LocaleId): string {
    Names(m).1
  }

  /** The locale's name in English: the first attribute argument. */
  function EnglishName(m: LocaleId): string {
    Names(m).0
  }

  /** Every member name is `language_region` with two separator-free codes. */
  lemma IdStringParts(m: LocaleId)
    ensures |IdString(m)| == 5
    ensures Split(IdString(m), Separator) == [IdString(m)[..2], IdString(m)[3..]]
  {
    var id := IdString(m);
    var a, b := id[..2], id[3..];
    assert id == a + [Separator] + b;
    SplitJoin([a, b], Separator);
  }

  /** LocaleId.ToLocale: Create(member name, Name(member)), which always succeeds. */
  function ToLocale(m: LocaleId): (l: LocaleInfo)
    ensures l.Id() == IdString(m)
    ensures l.name == Name(m)
    ensures l.language == IdString(m)[..2] && l.region == IdString(m)[3..]
  {
    IdStringParts(m);
    Create(IdString(m), Name(m)).value
  }

  /** Every predefined locale is complete. */
  lemma ToLocaleValid(m: LocaleId)
    ensures ToLocale(m).Valid()
  {
  }

  /**
   * The member whose name starts with the language code of `s` and whose
   * region code starts like that of `s`: a left inverse of IdString, used to
   * tell members apart by their names.
   */
  function MemberByCodes(s: string): Option<LocaleId> {
    if |s| < 5 then None
    else
      var a, b, c := s[0], s[1], s[3];
      if a == 'a' then Some(ar_SA) else if a == 'd' then Some(de_DE)
      else if a == 'e' then (if b == 'l' then Some(el_GR) else if b == 'n' then Some(en_US) else Some(es_ES))
      else if a == 'f' then Some(fr_FR) else if a == 'h' then Some(he_IL)
      else if a == 'i' then Some(it_IT) else if a == 'j' then Some(ja_JP)
      else if a == 'k' then Some(ko_KR)
      else if a == 'p' then (if b == 'l' then Some(pl_PL) else Some(pt_BR))
      else if a == 'r' then Some(ru_RU)
      else if a == 't' then (if b == 'h' then Some(th_TH) else Some(tr_TR))
      else if a == 'u' then Some(uk_UA)
      else if a == 'z' then (if c == 'C' then Some(zh_CN) else Some(zh_TW))
      else None
  }

  lemma MemberByCodesInverse(m: LocaleId)
    ensures MemberByCodes(IdString(m)) == Some(m)
  {
  }

  /** Distinct members give locales that are not Equals. */
  lemma ToLocaleInjective(m1: LocaleId, m2: LocaleId)
    requires m1 != m2
    ensures !ToLocale(m1).Equals(ToLocale(m2))
  {
    MemberByCodesInverse(m1);
    MemberByCodesInverse(m2);
  }
}
