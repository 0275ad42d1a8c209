/** Line counts per language, and the merge of two optional counts (`combine_loc_by_lang`). */
module Aggregate {
  import opened Wrappers

  /** Language name to attributed line count. */
  type LocMap = map<string, int>

  /** The count of `lang` in `m`, an absent key counting as zero. */
  function Count(m: LocMap, lang: string): int {
    if lang in m then m[lang] else 0
  }

  function OptKeys(a: Option<LocMap>): set<string> {
    if a.Some? then a.value.Keys else {}
  }

  function OptCount(a: Option<LocMap>, lang: string): int {
    if a.Some? then Count(a.value, lang) else 0
  }

  /** Every count is strictly positive: no entry is inserted without an attributed line. */
  ghost predicate Positive(m: LocMap) {
    forall lang :: lang in m ==> m[lang] > 0
  }

  /** The value computed by `combine_loc_by_lang`: absent is the identity; two present
      mappings give the union of their keys with the counts added. */
  function Merge(a: Option<LocMap>, b: Option<LocMap>): (r: Option<LocMap>)
    ensures r.Some? <==> a.Some? || b.Some?
    ensures r.Some? ==> r.value.Keys == OptKeys(a) + OptKeys(b)
    ensures r.Some? ==> forall lang :: Count(r.value, lang) == OptCount(a, lang) + OptCount(b, lang)
  {
    match (a, b)
    case (Some(x), Some(y)) => Some(map lang | lang in x.Keys + y.Keys :: Count(x, lang) + Count(y, lang))
    case (Some(_), None) => a
    case (None, _) => b
  }

  /** Two mappings are equal when they have the same keys and the same counts. */
  lemma LocMapExt(x: LocMap, y: LocMap)
    requires x.Keys == y.Keys
    requires forall lang :: Count(x, lang) == Count(y, lang)
    ensures x == y
  {
    forall lang | lang in x ensures x[lang] == y[lang] {
      assert Count(x, lang) == Count(y, lang);
    }
  }

  lemma MergeIdentity(m: Option<LocMap>)
    ensures Merge(None, m) == m && Merge(m, None) == m
  {
  }

  /** The argument order of the two calls in `visit_dirs` does not change the value. */
  lemma MergeCommutative(a: Option<LocMap>, b: Option<LocMap>)
    ensures Merge(a, b) == Merge(b, a)
  {
    if a.Some? && b.Some? {
      var r, s := Merge(a, b).value, Merge(b, a).value;
      forall lang ensures Count(r, lang) == Count(s, lang) {
        assert Count(r, lang) == OptCount(a, lang) + OptCount(b, lang);
      }
      LocMapExt(r, s);
    }
  }

  lemma MergeAssociative(a: Option<LocMap>, b: Option<LocMap>, c: Option<LocMap>)
    ensures Merge(Merge(a, b), c) == Merge(a, Merge(b, c))
  {
    var l, r := Merge(Merge(a, b), c), Merge(a, Merge(b, c));
    if l.Some? {
      forall lang ensures Count(l.value, lang) == Count(r.value, lang) {
        assert Count(l.value, lang) == OptCount(a, lang) + OptCount(b, lang) + OptCount(c, lang);
      }
      LocMapExt(l.value, r.value);
    }
  }

  /** Merging never loses a key and keeps every count positive. */
  lemma MergeKeepsPositive(a: Option<LocMap>, b: Option<LocMap>)
    requires a.Some? ==> Positive(a.value)
    requires b.Some? ==> Positive(b.value)
    ensures Merge(a, b).Some? ==> Positive(Merge(a, b).value)
  {
    var r := Merge(a, b);
    if r.Some? {
      forall lang | lang in r.value ensures r.value[lang] > 0 {
        assert Count(r.value, lang) == OptCount(a, lang) + OptCount(b, lang);
        assert lang in OptKeys(a) || lang in OptKeys(b);
      }
    }
  }

  /** `combine_loc_by_lang`: the first mapping is updated in place with every entry of
      the second, in the second's (unspecified) iteration order. */
  method CombineLocByLang(accumulator: Option<LocMap>, otherAccumulator: Option<LocMap>)
    returns (r: Option<LocMap>)
    ensures r == Merge(accumulator, otherAccumulator)
  {
    match (accumulator, otherAccumulator)
    case (Some(locByLang), Some(locByLangInner)) =>
      var m := locByLang;
      var todo := locByLangInner.Keys;
      while todo != {}
        invariant todo <= locByLangInner.Keys
        invariant m.Keys == locByLang.Keys + (locByLangInner.Keys - todo)
        invariant forall lang :: Count(m, lang) == Count(locByLang, lang) + (if lang in todo then 0 else Count(locByLangInner, lang))
        decreases todo
      {
        var lang :| lang in todo;
        if lang in m {
          m := m[lang := m[lang] + locByLangInner[lang]];
        } else {
          m := m[lang := locByLangInner[lang]];
        }
        todo := todo - {lang};
      }
      LocMapExt(m, Merge(accumulator, otherAccumulator).value);
      r := Some(m);
    case (Some(locByLang), None) =>
      r := Some(locByLang);
    case (None, Some(locByLangInner)) =>
      r := Some(locByLangInner);
    case (None, None) =>
      r := None;
  }
}
