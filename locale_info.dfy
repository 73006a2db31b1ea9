/**
 * LocaleInfo: the identity of one catalog, a language and region code plus a
 * display name. Identity is the id `language_region`; the display name takes
 * no part in equality. A missing (null) string is modelled as the empty string.
 */
module Locales {
  import opened Wrappers
  import opened Strings

  const Separator: char := '_'

  datatype LocaleInfo = LocaleInfo(name: string, language: string, region: string) {

    /** All three parts are filled in. */
    predicate Valid() {
      name != [] && language != [] && region != []
    }

    /** The id `{language}_{region}`. */
    function Id(): string {
      language + [Separator] + region
    }

    /** IEquatable.Equals: the same id, whatever the display names. */
    predicate Equals(other: LocaleInfo) {
      Id() == other.Id()
    }
  }

  /** The id holds the language, the separator and the region, in that order. */
  lemma IdParts(l: LocaleInfo)
    ensures |l.Id()| == |l.language| + 1 + |l.region|
    ensures l.Id()[..|l.language|] == l.language && l.Id()[|l.language|] == Separator
    ensures l.Id()[|l.language| + 1..] == l.region
  {
  }

  /** operator == on locales. */
  function OpEquals(left: LocaleInfo, right: LocaleInfo): (b: bool)
    ensures b <==> left.Id() == right.Id()
  {
    left.Equals(right)
  }

  /** operator != on locales. */
  function OpNotEquals(left: LocaleInfo, right: LocaleInfo): (b: bool)
    ensures b <==> !left.Equals(right)
  {
    !OpEquals(left, right)
  }

  /** Equals ignores the display name and is an equivalence. */
  lemma EqualsIsEquivalence(a: LocaleInfo, b: LocaleInfo, c: LocaleInfo, n: string)
    ensures a.Equals(a)
    ensures a.Equals(b) <==> b.Equals(a)
    ensures a.Equals(b) && b.Equals(c) ==> a.Equals(c)
    ensures a.Equals(a.(name := n))
  {
  }

  /**
   * When no code holds the separator, equal ids mean equal codes: Equals is
   * then exactly agreement of language and region.
   */
  lemma EqualsIffSameCodes(a: LocaleInfo, b: LocaleInfo)
    requires Separator !in a.language && Separator !in a.region
    requires Separator !in b.language && Separator !in b.region
    ensures a.Equals(b) <==> a.language == b.language && a.region == b.region
  {
    IdParts(a);
    IdParts(b);
  }

  /**
   * LocaleInfo.Create(id, name): split the id on '_'; exactly two parts give
   * language and region, anything else gives no locale.
   */
  function Create(id: string, name: string): (r: Option<LocaleInfo>)
    ensures r.Some? <==> Occurrences(id, Separator) == 1
    ensures r.Some? ==> r.value.name == name && r.value.Id() == id
    ensures r.Some? ==> Separator !in r.value.language && Separator !in r.value.region
  {
    var parts := Split(id, Separator);
    if |parts| == 2 then
      assert Join(parts, Separator) == parts[0] + [Separator] + parts[1];
      Some(LocaleInfo(name, parts[0], parts[1]))
    else None
  }

  /** Create(id) without a name: the display name stays unset. */
  function CreateUnnamed(id: string): (r: Option<LocaleInfo>)
    ensures r.Some? ==> !r.value.Valid()
  {
    Create(id, "")
  }

  /** Creating from a locale's own id gives that locale back. */
  lemma CreateFromId(l: LocaleInfo)
    requires Separator !in l.language && Separator !in l.region
    ensures Create(l.Id(), l.name) == Some(l)
  {
    SplitJoin([l.language, l.region], Separator);
    assert Join([l.language, l.region], Separator) == l.Id();
  }
}
