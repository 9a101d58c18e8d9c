/** `get_editions_by_language`: the constant table from language to edition
    key to installer path, with English as the fallback. */
module Editions {
  import opened PhpValues

  /** The edition keys, in the order every table lists them. */
  const EditionKeys: seq<string> :=
    ["start", "business", "small_business", "standard", "bitrix24", "enterprise", "crm"]

  /** The site editions, whose path is their key in every language. */
  const SiteEditions: set<string> := {"start", "business", "small_business", "standard"}

  const RuEditions: map<string, string> := map[
    "start" := "start",
    "business" := "business",
    "small_business" := "small_business",
    "standard" := "standard",
    "bitrix24" := "portal/bitrix24",
    "enterprise" := "portal/bitrix24_enterprise",
    "crm" := "portal/bitrix24_crm"]

  const EnEditions: map<string, string> := map[
    "start" := "start",
    "business" := "business",
    "small_business" := "small_business",
    "standard" := "standard",
    "bitrix24" := "portal/en_bitrix24",
    "enterprise" := "portal/en_bitrix24_enterprise",
    "crm" := "portal/en_bitrix24_crm"]

  const DeEditions: map<string, string> := map[
    "start" := "start",
    "business" := "business",
    "small_business" := "small_business",
    "standard" := "standard",
    "bitrix24" := "de/de_bitrix24",
    "enterprise" := "de/de_bitrix24_enterprise",
    "crm" := "de/de_bitrix24_crm"]

  /** The languages with a table of their own. */
  const EditionsTable: map<string, map<string, string>> :=
    map["ru" := RuEditions, "en" := EnEditions, "de" := DeEditions]

  /** PHP's `isset($editions[$lang])`: only a string key can match, since
      `true` is cast to the integer key 1 and the tables have no integer keys. */
  predicate HasTable(lang: Value) {
    lang.Str? && lang.s in EditionsTable
  }

  /** A table lists exactly the seven edition keys, each with a non-empty
      path, and each site edition has its own key as path. */
  ghost predicate WellFormedTable(table: map<string, string>) {
    (forall k :: k in table <==> k in EditionKeys) &&
    (forall k :: k in table ==> table[k] != "") &&
    (forall k :: k in SiteEditions ==> k in table && table[k] == k)
  }

  lemma RuTableWellFormed()
    ensures WellFormedTable(RuEditions)
  {
  }

  lemma EnTableWellFormed()
    ensures WellFormedTable(EnEditions)
  {
  }

  lemma DeTableWellFormed()
    ensures WellFormedTable(DeEditions)
  {
  }

  /** Every table of EditionsTable is well formed, and English has one. */
  lemma TablesWellFormed()
    ensures "en" in EditionsTable
    ensures forall l :: l in EditionsTable ==> WellFormedTable(EditionsTable[l])
  {
    RuTableWellFormed();
    EnTableWellFormed();
    DeTableWellFormed();
  }

  /** The table for `lang`, or the English one for any other language. Every
      table has exactly the seven edition keys, each with a non-empty path. */
  function EditionsByLanguage(lang: Value): (table: map<string, string>)
    ensures forall k :: k in table <==> k in EditionKeys
    ensures forall k :: k in table ==> table[k] != ""
    ensures forall k :: k in SiteEditions ==> k in table && table[k] == k
    ensures HasTable(lang) ==> table == EditionsTable[lang.s]
  {
    TablesWellFormed();
    if HasTable(lang) then EditionsTable[lang.s] else EditionsTable["en"]
  }

  /** Any language without a table of its own, and a bare `--lang`, get the
      English table. */
  lemma UnknownLanguageGetsEnglish(lang: Value)
    requires !(lang.Str? && lang.s in {"ru", "en", "de"})
    ensures EditionsByLanguage(lang) == EnEditions
  {
  }

  /** The three portal editions point at different paths in each language. */
  lemma {:induction false} PortalPathsDependOnLanguage(a: string, b: string, k: string)
    requires a in EditionsTable && b in EditionsTable && a != b
    requires k in EditionKeys && k !in SiteEditions
    ensures EditionsByLanguage(Str(a))[k] != EditionsByLanguage(Str(b))[k]
  {
    assert k == "bitrix24" || k == "enterprise" || k == "crm";
    assert a in {"ru", "en", "de"} && b in {"ru", "en", "de"};
    assert |EditionsByLanguage(Str(a))[k]| != |EditionsByLanguage(Str(b))[k]|;
  }

  /** `isset($available_editions[$options['edition']])` followed by the lookup:
      the path of the edition in the language's table, if it has one. */
  function EditionPath(lang: Value, edition: Value): (path: Option<string>)
    ensures path.Some? <==> edition.Str? && edition.s in EditionKeys
    ensures path.Some? ==> path.value == EditionsByLanguage(lang)[edition.s] && path.value != ""
  {
    var table := EditionsByLanguage(lang);
    if edition.Str? && edition.s in table then Some(table[edition.s]) else None
  }

  /** The lines the `list` action prints: every key of the language's table,
      once each and in table order, with its path. */
  function Listing(lang: Value): (lines: seq<(string, string)>)
    ensures |lines| == |EditionKeys|
    ensures forall i :: 0 <= i < |lines| ==> lines[i].0 == EditionKeys[i]
    ensures forall i :: 0 <= i < |lines| ==> Some(lines[i].1) == EditionPath(lang, Str(lines[i].0))
  {
    var table := EditionsByLanguage(lang);
    seq(|EditionKeys|, i requires 0 <= i < |EditionKeys| => (EditionKeys[i], table[EditionKeys[i]]))
  }

  /** PHP's `basename` on a path without a trailing '/': the part after the
      last '/'. */
  function Basename(path: string): (base: string)
    ensures '/' !in base
    ensures |base| <= |path| && path[|path| - |base|..] == base
    ensures |base| < |path| ==> path[|path| - |base| - 1] == '/'
    decreases |path|
  {
    if path == [] || path[|path| - 1] == '/' then ""
    else Basename(path[..|path| - 1]) + [path[|path| - 1]]
  }
}
