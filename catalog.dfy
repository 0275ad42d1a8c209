/** The language catalog (`LANGUAGES`): extension with its leading dot to language record. */
module Catalog {
  import opened Wrappers

  datatype LanguageType = Programming | Data | Prose | Markup

  datatype Language = Language(name: string, kind: LanguageType, extensions: seq<string>)

  type Catalog = map<string, Language>

  /** The catalog after the records of `langs` have been inserted in order. */
  function CatalogOf(langs: seq<Language>): (r: Catalog)
    ensures forall ext :: ext in r ==> r[ext] in langs && ext in r[ext].extensions
    decreases |langs|
  {
    if langs == [] then map[]
    else Insert(CatalogOf(langs[..|langs| - 1]), langs[|langs| - 1].extensions, langs[|langs| - 1])
  }

  /** Map every extension of `exts` to `lang`, overwriting what was there. */
  function Insert(m: Catalog, exts: seq<string>, lang: Language): (r: Catalog)
    ensures r.Keys == m.Keys + set ext | ext in exts
    ensures forall ext :: ext in r ==> r[ext] == if ext in exts then lang else m[ext]
  {
    m + map ext | ext in exts :: lang
  }

  /** Some record of `langs` lists `ext`. */
  ghost predicate Listed(langs: seq<Language>, ext: string) {
    exists i :: 0 <= i < |langs| && ext in langs[i].extensions
  }

  /** `i` is the last position of `langs` whose record lists `ext`. */
  ghost predicate LastListing(langs: seq<Language>, ext: string, i: int) {
    && 0 <= i < |langs|
    && ext in langs[i].extensions
    && forall j :: i < j < |langs| ==> ext !in langs[j].extensions
  }

  /** The catalog's domain is the union of all listed extensions. */
  lemma {:induction false} CatalogDomain(langs: seq<Language>, ext: string)
    ensures ext in CatalogOf(langs) <==> Listed(langs, ext)
    decreases |langs|
  {
    if langs != [] {
      var init, last := langs[..|langs| - 1], langs[|langs| - 1];
      CatalogDomain(init, ext);
      assert CatalogOf(langs) == Insert(CatalogOf(init), last.extensions, last);
      assert ext in CatalogOf(langs) <==> ext in CatalogOf(init) || ext in last.extensions;
      if Listed(init, ext) {
        var i :| 0 <= i < |init| && ext in init[i].extensions;
        assert langs[i] == init[i];
      }
      if Listed(langs, ext) && ext !in last.extensions {
        var i :| 0 <= i < |langs| && ext in langs[i].extensions;
        assert i < |init| && init[i] == langs[i];
      }
    }
  }

  /** Later records overwrite earlier ones: each extension maps to the last record listing it. */
  lemma {:induction false} CatalogLastWins(langs: seq<Language>, ext: string, i: int)
    requires LastListing(langs, ext, i)
    ensures ext in CatalogOf(langs) && CatalogOf(langs)[ext] == langs[i]
    decreases |langs|
  {
    var init, last := langs[..|langs| - 1], langs[|langs| - 1];
    if i < |langs| - 1 {
      assert ext !in last.extensions;
      assert LastListing(init, ext, i) by {
        forall j | i < j < |init| ensures ext !in init[j].extensions {
          assert init[j] == langs[j];
        }
      }
      CatalogLastWins(init, ext, i);
    }
  }

  /** Inserting one more extension extends the insertion of a prefix. */
  lemma InsertStep(m: Catalog, exts: seq<string>, k: nat, lang: Language)
    requires k < |exts|
    ensures Insert(m, exts[..k], lang)[exts[k] := lang] == Insert(m, exts[..k + 1], lang)
  {
    assert forall x :: x in exts[..k + 1] <==> x in exts[..k] || x == exts[k];
    var l, r := Insert(m, exts[..k], lang)[exts[k] := lang], Insert(m, exts[..k + 1], lang);
    assert l.Keys == r.Keys;
    forall x | x in l ensures l[x] == r[x] {
    }
  }

  lemma CatalogOfStep(langs: seq<Language>, n: nat)
    requires n < |langs|
    ensures CatalogOf(langs[..n + 1]) == Insert(CatalogOf(langs[..n]), langs[n].extensions, langs[n])
  {
    assert langs[..n + 1][..n] == langs[..n];
  }

  /** The `lazy_static` initialiser: nested loops inserting every extension of every record. */
  method BuildLanguages(languagesVec: seq<Language>) returns (languagesMap: Catalog)
    ensures languagesMap == CatalogOf(languagesVec)
  {
    languagesMap := map[];
    for n := 0 to |languagesVec|
      invariant languagesMap == CatalogOf(languagesVec[..n])
    {
      var lang := languagesVec[n];
      ghost var before := languagesMap;
      for k := 0 to |lang.extensions|
        invariant languagesMap == Insert(before, lang.extensions[..k], lang)
      {
        InsertStep(before, lang.extensions, k, lang);
        languagesMap := languagesMap[lang.extensions[k] := lang];
      }
      assert lang.extensions[..|lang.extensions|] == lang.extensions;
      CatalogOfStep(languagesVec, n);
    }
    assert languagesVec[..|languagesVec|] == languagesVec;
  }

  /** Classification as at the lookup of `parse_repo`: unknown extensions are not recognised. */
  function Classify(catalog: Catalog, extensionWithDot: string): (r: Option<Language>)
    ensures r.Some? <==> extensionWithDot in catalog
    ensures r.Some? ==> r.value == catalog[extensionWithDot]
  {
    if extensionWithDot in catalog then Some(catalog[extensionWithDot]) else None
  }
}
