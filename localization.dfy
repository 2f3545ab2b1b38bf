/** `CLocalization` (teeuniverses/components/localization.h and
    localization.cpp): the languages the server knows, each with its table
    of translations; the lookup of a text in a language and, failing that,
    in its parents; the choice of the main language from the
    configuration; and the `Format_V` family, which appends a template to
    a string buffer with its `{type:name}` placeholders expanded (the
    expansion itself is `LocalizationFormat.Render`).

    The ICU objects of a language (plural rules, number, percent and
    time-unit formatters) and the bidi/shaping step of `ArabicShaping` are
    given as functions: the text they produce, or `None` for an ICU
    failure. Listeners are identified by number and their notifications are
    recorded in order. */
module Localization {
  import opened CBase
  import opened SystemString
  import HT = HashTable
  import opened LocalizationFormat

  // The plural types, the slots of a translation entry.
  const PluralNone := 0
  const PluralZero := 1
  const PluralOne := 2
  const PluralTwo := 3
  const PluralFew := 4
  const PluralMany := 5
  const PluralOther := 6
  const NumPluralTypes := 7

  // Writing directions.
  const DirectionLtr := 0
  const DirectionRtl := 1
  const NumDirections := 2

  /** The size of a language's name, file name and parent file name. */
  const LanguageNameSize := 64
  /** The buckets of a language's table of translations. */
  const TranslationTableSize := 128
  /** The depth from which `LocalizeWithDepth` no longer goes on to a
      parent language. */
  const MaxDepth := 4

  /** The versions of one translation (`CEntry::m_apVersions`), one slot per
      plural type; `None` is a null pointer. */
  type Versions = v: seq<Option<string>> | |v| == NumPluralTypes
    witness [None, None, None, None, None, None, None]

  /** `CEntry()`: a translation with no version at all. */
  method NewEntry() returns (v: Versions)
    ensures forall t :: 0 <= t < NumPluralTypes ==> v[t].None?
  {
    var slots: seq<Option<string>> := [];
    var i := 0;
    while i < NumPluralTypes
      invariant 0 <= i <= NumPluralTypes && |slots| == i
      invariant forall t :: 0 <= t < i ==> slots[t].None?
    {
      slots := slots + [None];
      i := i + 1;
    }
    v := slots;
  }

  /** `CEntry::Free`: the slots whose versions it releases, in increasing
      order: exactly the present ones. */
  method Free(v: Versions) returns (released: seq<int>)
    ensures forall k :: 0 <= k < |released| ==> 0 <= released[k] < NumPluralTypes && v[released[k]].Some?
    ensures forall t :: 0 <= t < NumPluralTypes && v[t].Some? ==> t in released
    ensures forall k, l :: 0 <= k < l < |released| ==> released[k] < released[l]
  {
    released := [];
    var i := 0;
    while i < NumPluralTypes
      invariant 0 <= i <= NumPluralTypes
      invariant forall k :: 0 <= k < |released| ==> 0 <= released[k] < i && v[released[k]].Some?
      invariant forall t :: 0 <= t < i && v[t].Some? ==> t in released
      invariant forall k, l :: 0 <= k < l < |released| ==> released[k] < released[l]
    {
      if v[i].Some? {
        released := released + [i];
      }
      i := i + 1;
    }
  }

  /** The plural type `Localize_P` takes from the keyword ICU's plural rules
      select: only the first character is examined, and the second one
      after an 'o' ("one", "other"). */
  function PluralCode(keyword: string): (t: int)
    ensures PluralNone <= t < NumPluralTypes
  {
    if |keyword| == 0 then PluralNone
    else if keyword[0] == 'z' then PluralZero
    else if keyword[0] == 't' then PluralTwo
    else if keyword[0] == 'f' then PluralFew
    else if keyword[0] == 'm' then PluralMany
    else if keyword[0] == 'o' then
      if |keyword| < 2 then PluralNone
      else if keyword[1] == 't' then PluralOther
      else if keyword[1] == 'n' then PluralOne
      else PluralNone
    else PluralNone
  }

  /** The six CLDR plural keywords select their own slots, and only those
      keywords' first letters lead away from the singular slot. */
  lemma PluralKeywords(keyword: string)
    ensures PluralCode("zero") == PluralZero && PluralCode("one") == PluralOne
    ensures PluralCode("two") == PluralTwo && PluralCode("few") == PluralFew
    ensures PluralCode("many") == PluralMany && PluralCode("other") == PluralOther
    ensures |keyword| > 0 && keyword[0] !in {'z', 't', 'f', 'm', 'o'} ==> PluralCode(keyword) == PluralNone
  {
  }

  /** One element of the "translation" array of a language file, as the
      JSON parser yields it; an absent member is `None`. `plurals` holds
      the "zero", "one", "two", "few", "many" and "other" members at the
      slot of their plural type (its first slot is not read). */
  datatype Record = Record(key: Option<string>, value: Option<string>, plurals: Versions)

  /** The test `Load` applies to the singular value: present and not
      empty. */
  predicate NonEmpty(form: Option<string>) {
    form.Some? && |form.value| > 0
  }

  /** The test `Load` applies to the plural form of type `t`: present, and
      its character at index `t` (not index 0) is not the terminator.
      Reading past the terminator goes beyond the string in the source;
      such bytes are taken as zero here. */
  predicate PluralTestAsWritten(form: Option<string>, t: int) {
    form.Some? && 0 <= t < |form.value|
  }

  /** The plural forms of a record stored in turn, types `t` on, into the
      versions `v`: a form that passes the test replaces the version. */
  function FillPlurals(v: Versions, plurals: Versions, t: int, asWritten: bool): Versions
    requires PluralZero <= t <= NumPluralTypes
    decreases NumPluralTypes - t
  {
    if t == NumPluralTypes then v
    else
      var kept := if asWritten then PluralTestAsWritten(plurals[t], t) else NonEmpty(plurals[t]);
      FillPlurals(if kept then v[t := plurals[t]] else v, plurals, t + 1, asWritten)
  }

  /** Slot by slot, filling from type `t0` on replaces exactly the slots
      from `t0` on whose form passes the test. */
  lemma {:induction false} FillPluralsSlots(v: Versions, plurals: Versions, t0: int, asWritten: bool, t: int)
    requires PluralZero <= t0 <= NumPluralTypes && 0 <= t < NumPluralTypes
    ensures FillPlurals(v, plurals, t0, asWritten)[t]
         == if t0 <= t && (if asWritten then PluralTestAsWritten(plurals[t], t) else NonEmpty(plurals[t]))
            then plurals[t] else v[t]
    decreases NumPluralTypes - t0
  {
    if t0 < NumPluralTypes {
      var kept := if asWritten then PluralTestAsWritten(plurals[t0], t0) else NonEmpty(plurals[t0]);
      FillPluralsSlots(if kept then v[t0 := plurals[t0]] else v, plurals, t0 + 1, asWritten, t);
    }
  }

  /** The versions of an entry after `Load` has stored a record into it,
      as the source is written: a non-empty singular value fills the
      singular slot; otherwise each plural form is examined at the index of
      its own type. */
  function StoredVersionsAsWritten(prev: Versions, r: Record): Versions {
    if NonEmpty(r.value) then prev[PluralNone := r.value]
    else FillPlurals(prev, r.plurals, PluralZero, true)
  }

  /** The versions of an entry after `Load` has stored a record into it,
      with every plural form checked for emptiness as the singular value
      is. */
  function StoredVersions(prev: Versions, r: Record): Versions {
    if NonEmpty(r.value) then prev[PluralNone := r.value]
    else FillPlurals(prev, r.plurals, PluralZero, false)
  }

  /** Storing a record puts each non-empty form it gives, and only those,
      into its slot: the singular value alone when there is one, the plural
      forms otherwise. Every other slot keeps its version. */
  lemma StoredVersionsSlots(prev: Versions, r: Record, t: int)
    requires 0 <= t < NumPluralTypes
    ensures NonEmpty(r.value) ==> StoredVersions(prev, r)[t] == if t == PluralNone then r.value else prev[t]
    ensures !NonEmpty(r.value) && t != PluralNone && NonEmpty(r.plurals[t]) ==> StoredVersions(prev, r)[t] == r.plurals[t]
    ensures !NonEmpty(r.value) && (t == PluralNone || !NonEmpty(r.plurals[t])) ==> StoredVersions(prev, r)[t] == prev[t]
  {
    if !NonEmpty(r.value) {
      FillPluralsSlots(prev, r.plurals, PluralZero, false, t);
    }
  }

  /** What `Load` stores, slot by slot: the singular value alone when it
      is non-empty; otherwise each plural form longer than its type's
      index, in its own slot. Every other slot keeps its version. */
  lemma StoredVersionsAsWrittenSlots(prev: Versions, r: Record, t: int)
    requires 0 <= t < NumPluralTypes
    ensures NonEmpty(r.value) ==> StoredVersionsAsWritten(prev, r)[t] == if t == PluralNone then r.value else prev[t]
    ensures !NonEmpty(r.value) && t != PluralNone && PluralTestAsWritten(r.plurals[t], t)
            ==> StoredVersionsAsWritten(prev, r)[t] == r.plurals[t]
    ensures !NonEmpty(r.value) && (t == PluralNone || !PluralTestAsWritten(r.plurals[t], t))
            ==> StoredVersionsAsWritten(prev, r)[t] == prev[t]
  {
    if !NonEmpty(r.value) {
      FillPluralsSlots(prev, r.plurals, PluralZero, true, t);
    }
  }

  /** As written, a plural form no longer than its type's index is
      dropped: the "other" form "points" of the key "points" (six
      characters, type 6) is read at its terminator and not stored, while
      the corrected test stores it. */
  lemma ShortPluralFormDropped()
    ensures var plurals: Versions := [None, None, Some("point"), None, None, None, Some("points")];
            var r := Record(Some("points"), None, plurals);
            var empty: Versions := [None, None, None, None, None, None, None];
            StoredVersionsAsWritten(empty, r)[PluralOther] == None
            && StoredVersions(empty, r)[PluralOther] == Some("points")
  {
    var plurals: Versions := [None, None, Some("point"), None, None, None, Some("points")];
    var r := Record(Some("points"), None, plurals);
    var empty: Versions := [None, None, None, None, None, None, None];
    FillPluralsSlots(empty, plurals, PluralZero, true, PluralOther);
    FillPluralsSlots(empty, plurals, PluralZero, false, PluralOther);
  }

  /** `LanguageCodeByCountryCode`: the language spoken in a country, by
      its ISO 3166-1 numeric code, or "" for a country the table does not
      list. */
  function LanguageCodeByCountryCode(country: int): (code: string)
    ensures code == "" || code in LanguageCodes()
  {
    if country in {12, 48, 262, 818, 368, 400, 414, 422, 434, 478, 504, 512, 275, 634, 682, 706, 729, 760, 788, 784, 887} then "ar"
    else if country == 100 then "bg"
    else if country == 70 then "bs"
    else if country == 203 then "cs"
    else if country in {40, 276, 438, 756} then "de"
    else if country in {300, 196} then "el"
    else if country in {32, 68, 152, 170, 188, 192, 214, 218, 222, 226, 320, 340, 484, 558, 591, 600, 604, 630, 724, 858, 862} then "es"
    else if country in {364, 4} then "fa"
    else if country in {204, 854, 178, 384, 266, 324, 466, 562, 686, 768, 250, 492} then "fr"
    else if country == 191 then "hr"
    else if country == 348 then "hu"
    else if country == 380 then "it"
    else if country == 392 then "ja"
    else if country == 336 then "la"
    else if country in {533, 531, 534, 528, 740, 56} then "nl"
    else if country == 616 then "pl"
    else if country in {24, 76, 132, 508, 626, 678} then "pt"
    else if country in {112, 643, 398} then "ru"
    else if country == 703 then "sk"
    else if country == 688 then "sr"
    else if country == 608 then "tl"
    else if country in {31, 792} then "tr"
    else if country == 804 then "uk"
    else if country in {156, 344, 446} then "zh-Hans"
    else if country in {826, 840} then "en"
    else ""
  }

  /** A few entries of the table, from the first groups of the switch
      they sit in, and an unlisted code. */
  lemma CountryTableExamples()
    ensures LanguageCodeByCountryCode(276) == "de" && LanguageCodeByCountryCode(226) == "es"
    ensures LanguageCodeByCountryCode(0) == ""
  {
    assert LanguageCodeByCountryCode(276) == "de";
    assert LanguageCodeByCountryCode(226) == "es";
  }

  /** Entries from the last groups of the table. */
  lemma CountryTableLastGroups()
    ensures LanguageCodeByCountryCode(446) == "zh-Hans" && LanguageCodeByCountryCode(840) == "en"
  {
    assert LanguageCodeByCountryCode(446) == "zh-Hans";
  }

  /** The language codes the country table can give. */
  function LanguageCodes(): set<string> {
    {"ar", "bg", "bs", "cs", "de", "el", "es", "fa", "fr", "hr", "hu", "it", "ja", "la",
     "nl", "pl", "pt", "ru", "sk", "sr", "tl", "tr", "uk", "zh-Hans", "en"}
  }

  /** `FallbackLanguageForIpCountryCode`: the language offered to a player
      by the country of their address. */
  function FallbackLanguageForIpCountryCode(country: int): (code: string)
    ensures code in {"fa", "ru", "en"}
  {
    if country in {364, 4} then "fa"
    else if country in {112, 643, 398} then "ru"
    else "en"
  }

  /** The fallback is the country's own language where that is Farsi or
      Russian, and English everywhere else, including the countries the
      table does not list. */
  lemma FallbackFollowsCountryTable(country: int)
    ensures FallbackLanguageForIpCountryCode(country)
         == var code := LanguageCodeByCountryCode(country);
            if code == "fa" || code == "ru" then code else "en"
  {
  }

  /** What a lookup asks for: the singular version (`Localize`) or the
      version for a number (`Localize_P`). */
  datatype Query = Singular | Plural(number: int)

  /** `CLanguage`. The translations are filled by `Load` (see
      `StoreRecord`); the ICU objects the constructor opens are given. */
  class Language {
    const name: string
    const filename: string
    const parentFilename: string
    var direction: int
    const translations: HT.HashTable<Versions>
    /** `uplrules_select` on the language's plural rules: the keyword for
        a number, or `None` when ICU fails. */
    const pluralRule: int -> Option<string>
    const formatters: Formatters

    /** The translation table is well formed. */
    ghost predicate Valid()
      reads this, translations, translations.table
    {
      translations.Valid() && translations.tableSize == TranslationTableSize
    }

    /** The translation table can be looked up. */
    predicate Sized() {
      translations.tableSize >= 1 && translations.table.Length == translations.tableSize
    }

    /** `CLanguage(pName, pFilename, pParentFilename)`: the names are
        copied into 64-character buffers, the direction is left to right
        and there are no translations yet. */
    constructor (name: string, filename: string, parentFilename: string,
                 pluralRule: int -> Option<string>, formatters: Formatters)
      ensures Valid() && Sized() && fresh(translations) && fresh(translations.table)
      ensures this.name == StrCopy(name, LanguageNameSize)
      ensures this.filename == StrCopy(filename, LanguageNameSize)
      ensures this.parentFilename == StrCopy(parentFilename, LanguageNameSize)
      ensures direction == DirectionLtr
      ensures this.pluralRule == pluralRule && this.formatters == formatters
      ensures forall k :: translations.Lookup(k) == None
    {
      this.name := StrCopy(name, LanguageNameSize);
      this.filename := StrCopy(filename, LanguageNameSize);
      this.parentFilename := StrCopy(parentFilename, LanguageNameSize);
      direction := DirectionLtr;
      translations := new HT.HashTable<Versions>(TranslationTableSize);
      this.pluralRule := pluralRule;
      this.formatters := formatters;
    }

    /** `SetWritingDirection`. */
    method SetWritingDirection(d: int)
      modifies this
      ensures direction == d
    {
      direction := d;
    }

    /** The part of `Load` that stores one record of the language file: a
        record with a non-empty key gets the key's entry (a new, empty one
        if the key has none) and its forms stored into it; any other
        record is skipped. */
    method StoreRecord(r: Record)
      requires Valid()
      modifies translations.table
      ensures Valid()
      ensures forall k :: translations.Lookup(k) == AfterStore(old(translations.Lookup(k)), r, k)
    {
      if NonEmpty(r.key) {
        var key := r.key.value;
        ghost var before := translations.Lookup(key);
        var blank := NewEntry();
        assert blank == EmptyVersions();
        var id, subId := translations.SetDefault(key, blank);
        label Defaulted:
        var entry := translations.Get(key);
        assert entry == Some(OrEmpty(before));
        id, subId := translations.Set(key, StoredVersionsAsWritten(entry.value, r));
        forall k ensures translations.Lookup(k) == AfterStore(old(translations.Lookup(k)), r, k) {
          if k != key {
            assert translations.Lookup(k) == old@Defaulted(translations.Lookup(k));
          }
        }
      }
    }

    /** `CLanguage::Localize`: the singular version of the key's entry;
        `None` when the key has no entry or the entry no singular version. */
    function Localize(key: string): (r: Option<string>)
      reads translations, translations.table
      requires Sized()
      ensures translations.Lookup(key).None? ==> r.None?
      ensures translations.Lookup(key).Some? ==> r == translations.Lookup(key).value[PluralNone]
    {
      match translations.Lookup(key)
      case None => None
      case Some(v) => v[PluralNone]
    }

    /** `CLanguage::Localize_P`: the version of the key's entry for the
        plural type the rules select for `number`; `None` when the key has
        no entry, the rules fail or that version is missing. */
    function LocalizeP(number: int, key: string): (r: Option<string>)
      reads translations, translations.table
      requires Sized()
      ensures translations.Lookup(key).None? || pluralRule(number).None? ==> r.None?
      ensures translations.Lookup(key).Some? && pluralRule(number).Some? ==>
        r == translations.Lookup(key).value[PluralCode(pluralRule(number).value)]
    {
      match translations.Lookup(key)
      case None => None
      case Some(v) =>
        match pluralRule(number)
        case None => None
        case Some(keyword) => v[PluralCode(keyword)]
    }

    /** The lookup a query asks for. */
    function Translate(q: Query, key: string): Option<string>
      reads translations, translations.table
      requires Sized()
    {
      match q
      case Singular => Localize(key)
      case Plural(n) => LocalizeP(n, key)
    }
  }

  /** The versions of a fresh entry. */
  function EmptyVersions(): Versions {
    [None, None, None, None, None, None, None]
  }

  /** The entry of the key `k` after the record `r` is stored, with the
      plural test as the source writes it: a record with a non-empty key
      changes that key's entry alone. */
  function AfterStore(before: Option<Versions>, r: Record, k: string): Option<Versions> {
    if NonEmpty(r.key) && k == r.key.value then Some(StoredVersionsAsWritten(OrEmpty(before), r)) else before
  }

  /** The versions of an entry, or of a fresh one when there is none. */
  function OrEmpty(entry: Option<Versions>): Versions {
    match entry
    case Some(v) => v
    case None => EmptyVersions()
  }

  /** After a record with a non-empty key and a non-empty singular value is
      stored, the language translates the key to that value. */
  lemma StoredValueIsFound(lang: Language, r: Record, before: Option<Versions>)
    requires lang.Sized() && NonEmpty(r.key) && NonEmpty(r.value)
    requires lang.translations.Lookup(r.key.value)
          == Some(StoredVersionsAsWritten(OrEmpty(before), r))
    ensures lang.Localize(r.key.value) == r.value
  {
    StoredVersionsAsWrittenSlots(OrEmpty(before), r, PluralNone);
  }

  /** Every language's translation table can be looked up. */
  predicate TablesSized(langs: seq<Language>) {
    forall l :: l in langs ==> l.Sized()
  }

  /** The first language whose file name is `filename`, or -1. */
  function IndexOfFilename(langs: seq<Language>, filename: string): (i: int)
    ensures -1 <= i < |langs|
    ensures i >= 0 ==> langs[i].filename == filename
    ensures forall j :: 0 <= j < |langs| && (i < 0 || j < i) ==> langs[j].filename != filename
  {
    if langs == [] then -1
    else if langs[0].filename == filename then 0
    else
      var i := IndexOfFilename(langs[1..], filename);
      if i < 0 then -1 else i + 1
  }

  /** The language a call with the code `code` works in: the language
      whose file name is the code, and the main language when there is no
      code or no such language. */
  function Select(langs: seq<Language>, main: Language?, code: Option<string>): (lang: Language?)
    ensures lang == main || lang in langs
    ensures code.Some? && lang != main ==> lang.filename == code.value
  {
    if code.Some? && IndexOfFilename(langs, code.value) >= 0 then langs[IndexOfFilename(langs, code.value)]
    else main
  }

  /** What `LocalizeWithDepth` (and `LocalizeWithDepth_P`) return at depth
      `depth`: the translation of `text` in the selected language, or else
      in its parent language (found by file name, from depth 0 up to
      depth 4), or else `text` itself. */
  function Resolve(langs: seq<Language>, main: Language?, code: Option<string>, q: Query, text: string, depth: int): string
    requires main == null || main in langs
    requires TablesSized(langs)
    reads set l | l in langs :: l.translations, set l | l in langs :: l.translations.table
    decreases if depth < MaxDepth then MaxDepth - depth else 0
  {
    var lang := Select(langs, main, code);
    if lang == null then text
    else
      match lang.Translate(q, text)
      case Some(r) => r
      case None =>
        if |lang.parentFilename| > 0 && depth < MaxDepth then Resolve(langs, main, Some(lang.parentFilename), q, text, depth + 1)
        else text
  }

  /** The languages a lookup from depth `depth` consults when none of them
      has a translation: the selected language, then its parent, and so on
      while the depth allows. */
  function Lineage(langs: seq<Language>, main: Language?, code: Option<string>, depth: int): (chain: seq<Language>)
    requires main == null || main in langs
    ensures forall k :: 0 <= k < |chain| ==> chain[k] in langs
    ensures 0 <= depth <= MaxDepth ==> |chain| <= MaxDepth + 1 - depth
    decreases if depth < MaxDepth then MaxDepth - depth else 0
  {
    var lang := Select(langs, main, code);
    if lang == null then []
    else if |lang.parentFilename| > 0 && depth < MaxDepth then [lang] + Lineage(langs, main, Some(lang.parentFilename), depth + 1)
    else [lang]
  }

  /** The first translation found along a chain of languages, or `text`. */
  function FirstHit(chain: seq<Language>, q: Query, text: string): string
    requires forall k :: 0 <= k < |chain| ==> chain[k].Sized()
    reads set k | 0 <= k < |chain| :: chain[k].translations, set k | 0 <= k < |chain| :: chain[k].translations.table
  {
    if chain == [] then text
    else
      match chain[0].Translate(q, text)
      case Some(r) => r
      case None => FirstHit(chain[1..], q, text)
  }

  /** A lookup returns the first translation found along the lineage of
      the selected language, which holds at most five languages: parents
      that name each other in a cycle cannot make it go on for ever. */
  lemma {:induction false} ResolveIsFirstHit(langs: seq<Language>, main: Language?, code: Option<string>, q: Query, text: string, depth: int)
    requires main == null || main in langs
    requires TablesSized(langs)
    ensures Resolve(langs, main, code, q, text, depth) == FirstHit(Lineage(langs, main, code, depth), q, text)
    decreases if depth < MaxDepth then MaxDepth - depth else 0
  {
    var lang := Select(langs, main, code);
    if lang != null && lang.Translate(q, text).None? && |lang.parentFilename| > 0 && depth < MaxDepth {
      ResolveIsFirstHit(langs, main, Some(lang.parentFilename), q, text, depth + 1);
      var chain := Lineage(langs, main, code, depth);
      assert chain[1..] == Lineage(langs, main, Some(lang.parentFilename), depth + 1);
    }
  }

  /** A lookup gives `text` back or one of the versions stored in one of
      the languages. */
  lemma {:induction false} ResolveIsTextOrVersion(langs: seq<Language>, main: Language?, code: Option<string>, q: Query, text: string, depth: int)
    requires main == null || main in langs
    requires TablesSized(langs)
    ensures var r := Resolve(langs, main, code, q, text, depth);
            r == text || exists l :: l in langs && l.Translate(q, text) == Some(r)
    decreases if depth < MaxDepth then MaxDepth - depth else 0
  {
    var lang := Select(langs, main, code);
    if lang != null && lang.Translate(q, text).None? && |lang.parentFilename| > 0 && depth < MaxDepth {
      ResolveIsTextOrVersion(langs, main, Some(lang.parentFilename), q, text, depth + 1);
    }
  }

  /** The main language `PreUpdate` leaves: the current one while its file
      name is the configured one, otherwise the first language with that
      file name, or none. */
  function NextMain(langs: seq<Language>, main: Language?, cfg: string): Language? {
    if main == null || cfg != main.filename then
      var i := IndexOfFilename(langs, cfg);
      if i < 0 then null else langs[i]
    else main
  }

  /** After `PreUpdate` the main language is a language with the configured
      file name, and there is none exactly when no language has that file
      name; a second `PreUpdate` changes nothing. */
  lemma NextMainFollowsConfig(langs: seq<Language>, main: Language?, cfg: string)
    requires main == null || main in langs
    ensures var next := NextMain(langs, main, cfg);
            && (next != null ==> next in langs && next.filename == cfg)
            && (next == null <==> forall k :: 0 <= k < |langs| ==> langs[k].filename != cfg)
            && NextMain(langs, next, cfg) == next
  {
  }

  /** A listener, by identity. */
  type Listener = nat

  /** `CLocalization`. */
  class Localization {
    var mainLanguage: Language?
    var languages: seq<Language>
    var listeners: seq<Listener>
    /** The `OnLocalizationModified` calls made so far, in order. */
    var notified: seq<Listener>
    /** `m_Cfg_MainLanguage`, a `fixed_string128`. */
    var cfgMainLanguage: string
    /** The bidi reordering and Arabic shaping of `ArabicShaping`. */
    const shapeArabic: string -> string

    ghost predicate Valid()
      reads this
    {
      (mainLanguage == null || mainLanguage in languages) && TablesSized(languages)
    }

    /** `CLocalization(pStorage)`: no language, no listener. */
    constructor (shapeArabic: string -> string)
      ensures Valid() && mainLanguage == null && languages == [] && listeners == [] && notified == []
      ensures cfgMainLanguage == [] && this.shapeArabic == shapeArabic
    {
      mainLanguage := null;
      languages := [];
      listeners := [];
      notified := [];
      cfgMainLanguage := [];
      this.shapeArabic := shapeArabic;
    }

    /** `InitConfig`: the configured main language is English. */
    method InitConfig() returns (ok: bool)
      modifies this
      ensures cfgMainLanguage == "en" && ok
      ensures mainLanguage == old(mainLanguage) && languages == old(languages)
      ensures listeners == old(listeners) && notified == old(notified)
    {
      cfgMainLanguage := StrCopy("en", 128);
      ok := true;
    }

    /** `AddListener`. */
    method AddListener(l: Listener)
      modifies this
      ensures listeners == old(listeners) + [l]
      ensures mainLanguage == old(mainLanguage) && languages == old(languages)
      ensures notified == old(notified) && cfgMainLanguage == old(cfgMainLanguage)
    {
      listeners := listeners + [l];
    }

    /** `GetWritingDirection`: whether the main language is written in a
        direction other than left to right. */
    function GetWritingDirection(): (rtl: bool)
      reads this, mainLanguage
      ensures mainLanguage == null ==> !rtl
      ensures mainLanguage != null ==> (rtl <==> mainLanguage.direction != DirectionLtr)
    {
      mainLanguage != null && mainLanguage.direction != DirectionLtr
    }

    /** The search for the language with a given file name that
        `LocalizeWithDepth`, `Format_V` and `PreUpdate` each make. */
    method FindLanguage(filename: string) returns (i: int)
      ensures i == IndexOfFilename(languages, filename)
    {
      i := 0;
      while i < |languages|
        invariant 0 <= i <= |languages|
        invariant forall j :: 0 <= j < i ==> languages[j].filename != filename
      {
        if StrComp(languages[i].filename, filename) == 0 {
          return;
        }
        i := i + 1;
      }
      i := -1;
    }

    /** `PreUpdate`: when there is no main language or its file name is no
        longer the configured one, the first language with the configured
        file name becomes the main language, and if that changes it every
        listener is notified, in order. */
    method PreUpdate() returns (ok: bool)
      requires Valid()
      modifies this
      ensures Valid() && ok
      ensures mainLanguage == NextMain(old(languages), old(mainLanguage), old(cfgMainLanguage))
      ensures notified == old(notified) + if mainLanguage != old(mainLanguage) then old(listeners) else []
      ensures languages == old(languages) && listeners == old(listeners) && cfgMainLanguage == old(cfgMainLanguage)
    {
      ok := true;
      if mainLanguage == null || cfgMainLanguage != mainLanguage.filename {
        var lang: Language? := null;
        var i := FindLanguage(cfgMainLanguage);
        if i >= 0 {
          lang := languages[i];
        }
        if mainLanguage != lang {
          mainLanguage := lang;
          var k := 0;
          while k < |listeners|
            invariant 0 <= k <= |listeners|
            invariant notified == old(notified) + listeners[..k]
            invariant mainLanguage == lang && languages == old(languages)
            invariant listeners == old(listeners) && cfgMainLanguage == old(cfgMainLanguage)
          {
            notified := notified + [listeners[k]];
            k := k + 1;
          }
          assert listeners[..k] == listeners;
        }
      }
    }

    /** `LocalizeWithDepth` and `LocalizeWithDepth_P`: the text a lookup
        gives, as `Resolve` states it. (Loading a language on its first
        use is left to the caller.) */
    method LocalizeWithDepth(code: Option<string>, q: Query, text: string, depth: int) returns (r: string)
      requires Valid()
      ensures r == Resolve(languages, mainLanguage, code, q, text, depth)
      decreases if depth < MaxDepth then MaxDepth - depth else 0
    {
      var lang := mainLanguage;
      if code.Some? {
        var i := FindLanguage(code.value);
        if i >= 0 {
          lang := languages[i];
        }
      }
      if lang == null {
        return text;
      }
      var result := lang.Translate(q, text);
      if result.Some? {
        r := result.value;
      } else if |lang.parentFilename| > 0 && depth < MaxDepth {
        r := LocalizeWithDepth(Some(lang.parentFilename), q, text, depth + 1);
      } else {
        r := text;
      }
    }

    /** `Localize`: the translation of `text`, or `text` itself. */
    method Localize(code: Option<string>, text: string) returns (r: string)
      requires Valid()
      ensures r == FirstHit(Lineage(languages, mainLanguage, code, 0), Singular, text)
    {
      r := LocalizeWithDepth(code, Singular, text, 0);
      ResolveIsFirstHit(languages, mainLanguage, code, Singular, text, 0);
    }

    /** `Localize_P`: the translation of `text` for `number`, or `text`
        itself. */
    method LocalizeP(code: Option<string>, number: int, text: string) returns (r: string)
      requires Valid()
      ensures r == FirstHit(Lineage(languages, mainLanguage, code, 0), Plural(number), text)
    {
      r := LocalizeWithDepth(code, Plural(number), text, 0);
      ResolveIsFirstHit(languages, mainLanguage, code, Plural(number), text, 0);
    }

    /** The common part of `AppendNumber`, `AppendPercent` and
        `AppendDuration`: on an ICU failure the failure text is appended;
        otherwise the buffer doubles until the converted text surely fits
        (`UCNV_GET_MAX_BYTES_FOR_STRING` with UTF-8's three bytes per
        UTF-16 unit) and the text is written at the end. */
    method AppendFormatted(buffer: DynamicString, bufferIter: int, formatted: Option<string>, failure: string)
      returns (newIter: int)
      requires buffer.Valid() && buffer.maxSize > 0 && bufferIter == |buffer.text|
      modifies buffer
      ensures buffer.Valid() && buffer.maxSize > 0 && newIter == |buffer.text|
      ensures buffer.text == old(buffer.text) + match formatted case Some(s) => s case None => failure
    {
      if formatted.None? {
        newIter := buffer.AppendAt(bufferIter, failure);
      } else {
        var s := formatted.value;
        var neededSize := (|s| + 10) * 3;
        while buffer.maxSize - bufferIter <= neededSize
          invariant buffer.Valid() && buffer.maxSize > 0 && buffer.text == old(buffer.text)
          decreases neededSize + bufferIter - buffer.maxSize
        {
          buffer.ResizeBuffer(buffer.maxSize * 2);
        }
        buffer.text := buffer.text + s;
        newIter := bufferIter + |s|;
      }
    }

    /** The dispatch of a matched argument on the placeholder's type
        (`str:`, `int:`, `ullint:`, `uint:`, `percent:`, `sec:`). */
    method AppendArgument(buffer: DynamicString, bufferIter: int, typeText: string, v: ArgValue, fm: Formatters)
      returns (newIter: int)
      requires buffer.Valid() && buffer.maxSize > 0 && bufferIter == |buffer.text|
      modifies buffer
      ensures buffer.Valid() && buffer.maxSize > 0 && newIter == |buffer.text|
      ensures buffer.text == old(buffer.text) + Expand(typeText, v, fm)
    {
      newIter := bufferIter;
      if StrCompNum("str:", typeText, 4) == 0 {
        newIter := buffer.AppendAt(bufferIter, v.asString);
      } else if StrCompNum("int:", typeText, 4) == 0 {
        newIter := AppendFormatted(buffer, bufferIter, fm.number(v.asInt), "_NUMBER_");
      } else if StrCompNum("ullint:", typeText, 4) == 0 {
        newIter := AppendFormatted(buffer, bufferIter, fm.number(Wrap32(v.asUllint)), "_NUMBER_");
      } else if StrCompNum("uint:", typeText, 4) == 0 {
        newIter := AppendFormatted(buffer, bufferIter, fm.number(Wrap32(v.asUint)), "_NUMBER_");
      } else if StrCompNum("percent:", typeText, 4) == 0 {
        newIter := AppendFormatted(buffer, bufferIter, fm.percent(v.asFloat), "_PERCENT_");
      } else if StrCompNum("sec:", typeText, 4) == 0 {
        newIter := AppendSeconds(buffer, bufferIter, v.asInt, fm);
      }
    }

    /** The `sec:` branch of the dispatch: minutes and seconds, each
        through `AppendDuration`. */
    method AppendSeconds(buffer: DynamicString, bufferIter: int, duration: int, fm: Formatters)
      returns (newIter: int)
      requires buffer.Valid() && buffer.maxSize > 0 && bufferIter == |buffer.text|
      modifies buffer
      ensures buffer.Valid() && buffer.maxSize > 0 && newIter == |buffer.text|
      ensures buffer.text == old(buffer.text) + SecondsText(fm, duration)
    {
      var minutes := TruncDiv(duration, 60);
      var seconds := duration - minutes * 60;
      if minutes > 0 {
        newIter := AppendFormatted(buffer, bufferIter, fm.duration(minutes, Minute), "_DURATION_");
        if seconds > 0 {
          newIter := buffer.AppendAt(newIter, ", ");
          newIter := AppendFormatted(buffer, newIter, fm.duration(seconds, Second), "_DURATION_");
          assert buffer.text == old(buffer.text) + DurationText(fm, minutes, Minute) + ", " + DurationText(fm, seconds, Second);
        }
      } else {
        newIter := AppendFormatted(buffer, bufferIter, fm.duration(seconds, Second), "_DURATION_");
      }
    }

    /** The closing '}' of a placeholder with a name: the arguments are
        searched in order for the first whose name agrees with the
        placeholder's name on the name's length, and that argument, if
        any, is appended. */
    method AppendPlaceholder(buffer: DynamicString, bufferIter: int, typeText: string, nameText: string, nameLength: int, env: Env)
      returns (newIter: int)
      requires buffer.Valid() && buffer.maxSize > 0 && bufferIter == |buffer.text|
      modifies buffer
      ensures buffer.Valid() && buffer.maxSize > 0 && newIter == |buffer.text|
      ensures buffer.text == old(buffer.text) + Substitute(typeText, nameText, nameLength, env)
    {
      var k := 0;
      while k < |env.args|
        invariant 0 <= k <= |env.args|
        invariant forall j :: 0 <= j < k ==> StrCompNum(nameText, env.args[j].name, nameLength) != 0
      {
        if StrCompNum(nameText, env.args[k].name, nameLength) == 0 {
          newIter := AppendArgument(buffer, bufferIter, typeText, env.args[k].value, env.formatters);
          assert FirstMatch(env.args, nameText, nameLength) == k;
          return;
        }
        k := k + 1;
      }
      newIter := bufferIter;
    }

    /** `ArabicShaping`: the text from `bufferStart` on is replaced by its
        reordered and shaped form, after the buffer has doubled until that
        surely fits. */
    method ArabicShaping(buffer: DynamicString, bufferStart: int)
      requires buffer.Valid() && buffer.maxSize > 0 && 0 <= bufferStart <= |buffer.text|
      modifies buffer
      ensures buffer.Valid() && buffer.maxSize > 0
      ensures buffer.text == old(buffer.text[..bufferStart]) + shapeArabic(old(buffer.text[bufferStart..]))
    {
      var shaped := shapeArabic(buffer.text[bufferStart..]);
      var neededSize := (|shaped| + 10) * 3;
      while buffer.maxSize - bufferStart <= neededSize
        invariant buffer.Valid() && buffer.maxSize > 0 && buffer.text == old(buffer.text)
        decreases neededSize + bufferStart - buffer.maxSize
      {
        buffer.ResizeBuffer(buffer.maxSize * 2);
      }
      buffer.text := buffer.text[..bufferStart] + shaped;
    }

    /** `Format_V`: appends the template `text` to the buffer, expanded
        against `args` in the selected language and shaped when that
        language is written right to left; without any language the
        template is appended as it is. */
    method FormatV(buffer: DynamicString, code: Option<string>, text: string, args: seq<Arg>)
      requires Valid() && buffer.Valid() && buffer.maxSize > 0
      modifies buffer
      ensures buffer.Valid() && buffer.maxSize > 0
      ensures buffer.text == old(buffer.text) + Formatted(Select(languages, mainLanguage, code), text, args, shapeArabic)
    {
      var lang := mainLanguage;
      if code.Some? {
        var i := FindLanguage(code.value);
        if i >= 0 {
          lang := languages[i];
        }
      }
      if lang == null {
        buffer.Append(text);
        return;
      }
      var env := Env(args, lang.formatters);
      var bufferStart := buffer.Length();
      AppendRendered(buffer, text, env);
      if lang.direction == DirectionRtl {
        assert buffer.text[..bufferStart] == old(buffer.text);
        assert buffer.text[bufferStart..] == Render(text, env);
        ArabicShaping(buffer, bufferStart);
      }
    }

    /** The scan of `Format_V` over the template: literal text is copied,
        each closed placeholder substituted, in order. */
    method AppendRendered(buffer: DynamicString, text: string, env: Env)
      requires buffer.Valid() && buffer.maxSize > 0
      modifies buffer
      ensures buffer.Valid() && buffer.maxSize > 0
      ensures buffer.text == old(buffer.text) + Render(text, env)
    {
      var iter := 0;
      var start := iter;
      var typeStart := -1;
      var nameStart := -1;
      var nameLength := 0;

      var bufferIter := buffer.Length();
      ghost var st := Literal(0);
      ghost var target := old(buffer.text) + Render(text, env);

      while iter < |text|
        invariant 0 <= iter <= |text|
        invariant buffer.Valid() && buffer.maxSize > 0 && bufferIter == |buffer.text|
        invariant -1 <= typeStart && -1 <= nameStart && (nameStart >= 0 ==> typeStart >= 0)
        invariant st == StateOf(start, typeStart, nameStart, nameLength) && StateOk(text, iter, st)
        invariant buffer.text + Expanded(Scan(text, iter, st), Expander(env)) == target
      {
        iter, start, typeStart, nameStart, nameLength, bufferIter, st :=
          FormatStep(buffer, text, env, iter, start, typeStart, nameStart, nameLength, bufferIter, st);
      }

      ScanEndAppends(buffer.text, text, env, st, target);
      if iter > 0 && typeStart == -1 && nameStart == -1 {
        bufferIter := buffer.AppendAtNum(bufferIter, text[start..], iter - start);
      }
    }

    /** The '}' that closes a placeholder with a name: its substitution is
        appended, and literal text starts after it. */
    method ClosePlaceholder(buffer: DynamicString, text: string, env: Env,
                            iter: int, typeStart: int, nameStart: int, nameLength: int, bufferIter: int)
      returns (newIter: int)
      requires 0 <= typeStart < nameStart <= iter < |text| && nameLength == iter - nameStart && text[iter] == '}'
      requires buffer.Valid() && buffer.maxSize > 0 && bufferIter == |buffer.text|
      modifies buffer
      ensures buffer.Valid() && buffer.maxSize > 0 && newIter == |buffer.text|
      ensures buffer.text + Expanded(Scan(text, iter + 1, Literal(iter + 1)), Expander(env))
           == old(buffer.text) + Expanded(Scan(text, iter, InName(typeStart, nameStart, nameLength)), Expander(env))
    {
      newIter := AppendPlaceholder(buffer, bufferIter, text[typeStart..], text[nameStart..], nameLength, env);
      ClosedPlaceholderAppends(old(buffer.text), buffer.text, text, env, iter, InName(typeStart, nameStart, nameLength));
    }

    /** The '{' that opens a placeholder: the literal text before it is
        appended (`append_at_num`), and the placeholder's type starts after
        the character that follows it. */
    method FlushLiteral(buffer: DynamicString, text: string, env: Env, start: int, iter: int, bufferIter: int)
      returns (newIter: int)
      requires 0 <= start <= iter < |text| && text[iter] == '{'
      requires buffer.Valid() && buffer.maxSize > 0 && bufferIter == |buffer.text|
      modifies buffer
      ensures buffer.Valid() && buffer.maxSize > 0 && newIter == |buffer.text|
      ensures buffer.text + Expanded(Scan(text, Forward(text, iter + 1), InType(iter + 1)), Expander(env))
           == old(buffer.text) + Expanded(Scan(text, iter, Literal(start)), Expander(env))
    {
      newIter := buffer.AppendAtNum(bufferIter, text[start..], iter - start);
      assert text[start..][..iter - start] == text[start..iter];
      FlushedLiteralAppends(old(buffer.text), buffer.text, text, env, iter, Literal(start));
    }

    /** One pass of the loop of `Format_V`: the character at `iter`, read
        in the state the variables stand for. It appends what the scan
        appends for that character and leaves the variables of the state
        the scan goes on in. */
    method FormatStep(buffer: DynamicString, text: string, env: Env,
                      iter: int, start: int, typeStart: int, nameStart: int, nameLength: int, bufferIter: int,
                      ghost st: ScanState)
      returns (nextIter: int, nextStart: int, nextTypeStart: int, nextNameStart: int, nextNameLength: int,
               nextBufferIter: int, ghost nextSt: ScanState)
      requires 0 <= iter < |text|
      requires buffer.Valid() && buffer.maxSize > 0 && bufferIter == |buffer.text|
      requires -1 <= typeStart && -1 <= nameStart && (nameStart >= 0 ==> typeStart >= 0)
      requires st == StateOf(start, typeStart, nameStart, nameLength) && StateOk(text, iter, st)
      modifies buffer
      ensures iter < nextIter <= |text|
      ensures buffer.Valid() && buffer.maxSize > 0 && nextBufferIter == |buffer.text|
      ensures -1 <= nextTypeStart && -1 <= nextNameStart && (nextNameStart >= 0 ==> nextTypeStart >= 0)
      ensures nextSt == StateOf(nextStart, nextTypeStart, nextNameStart, nextNameLength) && StateOk(text, nextIter, nextSt)
      ensures buffer.text + Expanded(Scan(text, nextIter, nextSt), Expander(env))
           == old(buffer.text) + Expanded(Scan(text, iter, st), Expander(env))
    {
      nextIter, nextStart, nextTypeStart, nextNameStart, nextNameLength, nextBufferIter, nextSt :=
        iter, start, typeStart, nameStart, nameLength, bufferIter, st;
      if nameStart >= 0 {
        if text[iter] == '}' {
          nextBufferIter := ClosePlaceholder(buffer, text, env, iter, typeStart, nameStart, nameLength, bufferIter);
          nextStart := iter + 1;
          nextTypeStart := -1;
          nextNameStart := -1;
          nextSt := Literal(iter + 1);
        } else {
          ScanStep(text, iter, st);
          nextNameLength := nameLength + 1;
          nextSt := InName(typeStart, nameStart, nextNameLength);
        }
      } else if typeStart >= 0 {
        ScanStep(text, iter, st);
        if text[iter] == ':' {
          nextNameStart := iter + 1;
          nextNameLength := 0;
          nextSt := InName(typeStart, nextNameStart, nextNameLength);
        } else if text[iter] == '}' {
          nextStart := iter + 1;
          nextTypeStart := -1;
          nextNameStart := -1;
          nextSt := Literal(iter + 1);
        }
      } else {
        if text[iter] == '{' {
          nextBufferIter := FlushLiteral(buffer, text, env, start, iter, bufferIter);
          nextIter := iter + 1;
          nextTypeStart := nextIter;
          nextSt := InType(nextIter);
        } else {
          ScanStep(text, iter, st);
        }
      }
      nextIter := Forward(text, nextIter);
    }

    /** `Format_VL`: `Format_V` on the translation of the template. */
    method FormatVL(buffer: DynamicString, code: Option<string>, text: string, args: seq<Arg>)
      requires Valid() && buffer.Valid() && buffer.maxSize > 0
      modifies buffer
      ensures buffer.Valid() && buffer.maxSize > 0
      ensures buffer.text == old(buffer.text)
        + Formatted(Select(languages, mainLanguage, code), Resolve(languages, mainLanguage, code, Singular, text, 0), args, shapeArabic)
    {
      var localText := Localize(code, text);
      ResolveIsFirstHit(languages, mainLanguage, code, Singular, text, 0);
      FormatV(buffer, code, localText, args);
    }

    /** `Format_VLP`: `Format_V` on the translation of the template for
        `number`. */
    method FormatVLP(buffer: DynamicString, code: Option<string>, number: int, text: string, args: seq<Arg>)
      requires Valid() && buffer.Valid() && buffer.maxSize > 0
      modifies buffer
      ensures buffer.Valid() && buffer.maxSize > 0
      ensures buffer.text == old(buffer.text)
        + Formatted(Select(languages, mainLanguage, code), Resolve(languages, mainLanguage, code, Plural(number), text, 0), args, shapeArabic)
    {
      var localText := LocalizeP(code, number, text);
      ResolveIsFirstHit(languages, mainLanguage, code, Plural(number), text, 0);
      FormatV(buffer, code, localText, args);
    }
  }

  /** The text appended at a closing '}' is what the scan appends
      there. */
  lemma ClosedPlaceholderAppends(before: string, after: string, text: string, env: Env, iter: int, st: ScanState)
    requires StateOk(text, iter, st) && st.InName? && iter < |text| && text[iter] == '}'
    requires after == before + Substitute(text[st.typeStart..], text[st.nameStart..], st.nameLength, env)
    ensures after + Expanded(Scan(text, iter + 1, Literal(iter + 1)), Expander(env))
         == before + Expanded(Scan(text, iter, st), Expander(env))
  {
    ExpanderPlaceholder(env, text[st.typeStart..], text[st.nameStart..], st.nameLength);
    ClosedPlaceholderStep(before, after, text, iter, st, Expander(env));
  }

  /** The text appended at an opening '{' is what the scan appends
      there. */
  lemma FlushedLiteralAppends(before: string, after: string, text: string, env: Env, iter: int, st: ScanState)
    requires StateOk(text, iter, st) && st.Literal? && iter < |text| && text[iter] == '{'
    requires after == before + text[st.start..iter]
    ensures after + Expanded(Scan(text, Forward(text, iter + 1), InType(iter + 1)), Expander(env))
         == before + Expanded(Scan(text, iter, st), Expander(env))
  {
    ScanStep(text, iter, st);
    ExpandedLit(text[st.start..iter], Scan(text, Forward(text, iter + 1), InType(iter + 1)), env);
  }

  /** At the end of the template the scan appends the pending literal
      text, if it is reading literal text, and nothing otherwise. */
  lemma ScanEndAppends(before: string, text: string, env: Env, st: ScanState, target: string)
    requires StateOk(text, |text|, st)
    requires before + Expanded(Scan(text, |text|, st), Expander(env)) == target
    ensures |text| > 0 && st.Literal? ==> before + text[st.start..] == target
    ensures !(|text| > 0 && st.Literal?) ==> before == target
  {
    if |text| > 0 && st.Literal? {
      ExpandedLit(text[st.start..], [], env);
      assert Lit(text[st.start..]) + [] == Lit(text[st.start..]);
      assert text[st.start..|text|] == text[st.start..];
    }
  }

  /** The scan state the variables of `Format_V` stand for: a name is read
      once its start is set, a type once its start is set, literal text
      otherwise. */
  function StateOf(start: int, typeStart: int, nameStart: int, nameLength: int): ScanState {
    if nameStart >= 0 then InName(typeStart, nameStart, nameLength)
    else if typeStart >= 0 then InType(typeStart)
    else Literal(start)
  }

  /** What `Format_V` appends for a template in a language (or without
      one). */
  function Formatted(lang: Language?, text: string, args: seq<Arg>, shape: string -> string): string
    reads lang
  {
    if lang == null then text
    else
      var out := Render(text, Env(args, lang.formatters));
      if lang.direction == DirectionRtl then shape(out) else out
  }
}
