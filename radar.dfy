/** The data side of `chart`: the largest count and the top-N languages by count. */
module Radar {
  import opened Wrappers
  import opened Aggregate

  /** A `(lang, loc)` pair of `sorted_by_loc`. */
  type LangLoc = (string, int)

  /** One axis of the radar: `(lang, 0, max_loc)`. */
  datatype Indicator = Indicator(name: string, min: int, max: int)

  /** The indicators and the series values handed to the chart. */
  datatype RadarData = RadarData(indicators: seq<Indicator>, locs: seq<int>)

  ghost predicate DistinctLangs(s: seq<LangLoc>) {
    forall i, j :: 0 <= i < j < |s| ==> s[i].0 != s[j].0
  }

  /** `entries` lists every entry of `data` exactly once. */
  ghost predicate Listing(entries: seq<LangLoc>, data: LocMap) {
    && |entries| == |data|
    && DistinctLangs(entries)
    && (forall i :: 0 <= i < |entries| ==> entries[i].0 in data && entries[i].1 == data[entries[i].0])
    && (forall lang :: lang in data ==> (lang, data[lang]) in entries)
  }

  /** `v` is the largest count of `data`. */
  ghost predicate IsMax(data: LocMap, v: int) {
    && (exists lang :: lang in data && data[lang] == v)
    && (forall lang :: lang in data ==> data[lang] <= v)
  }

  ghost predicate Ascending(s: seq<LangLoc>) {
    forall i, j :: 0 <= i < j < |s| ==> s[i].1 <= s[j].1
  }

  ghost predicate Descending(s: seq<LangLoc>) {
    forall i, j :: 0 <= i < j < |s| ==> s[i].1 >= s[j].1
  }

  // ---------------------------------------------------------------- sorting by count

  function InsertByLoc(x: LangLoc, s: seq<LangLoc>): (r: seq<LangLoc>)
    requires Ascending(s)
    ensures multiset(r) == multiset(s) + multiset{x}
    ensures Ascending(r)
    decreases |s|
  {
    if s == [] || x.1 <= s[0].1 then
      AscendingCons(x, s);
      [x] + s
    else
      var tail := InsertByLoc(x, s[1..]);
      assert s == [s[0]] + s[1..];
      HeadBelow(x, s, tail);
      AscendingCons(s[0], tail);
      [s[0]] + tail
  }

  lemma AscendingCons(h: LangLoc, t: seq<LangLoc>)
    requires Ascending(t)
    requires forall k :: 0 <= k < |t| ==> h.1 <= t[k].1
    ensures Ascending([h] + t)
  {
    var r := [h] + t;
    forall i, j | 0 <= i < j < |r| ensures r[i].1 <= r[j].1 {
      assert r[j] == t[j - 1];
      if i > 0 {
        assert r[i] == t[i - 1];
      }
    }
  }

  lemma HeadBelow(x: LangLoc, s: seq<LangLoc>, tail: seq<LangLoc>)
    requires s != [] && Ascending(s) && x.1 > s[0].1
    requires multiset(tail) == multiset(s[1..]) + multiset{x}
    ensures forall k :: 0 <= k < |tail| ==> s[0].1 <= tail[k].1
  {
    forall k | 0 <= k < |tail| ensures s[0].1 <= tail[k].1 {
      assert tail[k] in multiset(tail);
      if tail[k] != x {
        assert tail[k] in multiset(s[1..]);
        var j :| 0 <= j < |s[1..]| && s[1..][j] == tail[k];
        assert s[j + 1] == tail[k];
      }
    }
  }

  /** `sort_unstable_by_key(|(_, loc)| *loc)`: the pairs in ascending order of count. */
  function SortByLoc(s: seq<LangLoc>): (r: seq<LangLoc>)
    ensures multiset(r) == multiset(s)
    ensures Ascending(r)
    decreases |s|
  {
    if s == [] then []
    else
      assert s == [s[0]] + s[1..];
      InsertByLoc(s[0], SortByLoc(s[1..]))
  }

  /** Inserting a pair of a new language keeps the languages distinct. */
  lemma {:induction false} InsertByLocDistinct(x: LangLoc, s: seq<LangLoc>)
    requires Ascending(s) && DistinctLangs(s)
    requires forall i :: 0 <= i < |s| ==> s[i].0 != x.0
    ensures DistinctLangs(InsertByLoc(x, s))
    decreases |s|
  {
    if !(s == [] || x.1 <= s[0].1) {
      var tail := InsertByLoc(x, s[1..]);
      InsertByLocDistinct(x, s[1..]);
      forall k | 0 <= k < |tail| ensures tail[k].0 != s[0].0 {
        assert tail[k] in multiset(tail);
        if tail[k] != x {
          assert tail[k] in s[1..];
        }
      }
    }
  }

  lemma {:induction false} SortByLocDistinct(s: seq<LangLoc>)
    requires DistinctLangs(s)
    ensures DistinctLangs(SortByLoc(s))
    decreases |s|
  {
    if s != [] {
      var sorted := SortByLoc(s[1..]);
      SortByLocDistinct(s[1..]);
      forall k | 0 <= k < |sorted| ensures sorted[k].0 != s[0].0 {
        assert sorted[k] in multiset(s[1..]);
        var j :| 0 <= j < |s[1..]| && s[1..][j] == sorted[k];
        assert s[j + 1] == sorted[k];
      }
      InsertByLocDistinct(s[0], sorted);
    }
  }

  /** `reverse()`. */
  function Reverse(s: seq<LangLoc>): (r: seq<LangLoc>)
    ensures |r| == |s|
    ensures forall i :: 0 <= i < |s| ==> r[i] == s[|s| - 1 - i]
  {
    seq(|s|, i requires 0 <= i < |s| => s[|s| - 1 - i])
  }

  function Min(a: int, b: int): int {
    if a <= b then a else b
  }

  // ---------------------------------------------------------------- the chart data

  /** The pairs of `data`, collected in the map's unspecified iteration order. */
  method Collect(data: LocMap) returns (entries: seq<LangLoc>)
    ensures Listing(entries, data)
  {
    entries := [];
    var todo := data.Keys;
    while todo != {}
      invariant todo <= data.Keys
      invariant |entries| + |todo| == |data.Keys|
      invariant DistinctLangs(entries)
      invariant forall i :: 0 <= i < |entries| ==>
        entries[i].0 in data && entries[i].0 !in todo && entries[i].1 == data[entries[i].0]
      invariant forall lang :: lang in data && lang !in todo ==> (lang, data[lang]) in entries
      decreases todo
    {
      var lang :| lang in todo;
      entries := entries + [(lang, data[lang])];
      todo := todo - {lang};
    }
  }

  /** The count `MaxLoc` returns for a listing is the largest count of the map. */
  lemma ListingMax(data: LocMap, entries: seq<LangLoc>, maxLoc: int)
    requires Listing(entries, data)
    requires forall j :: 0 <= j < |entries| ==> entries[j].1 <= maxLoc
    requires exists j :: 0 <= j < |entries| && entries[j].1 == maxLoc
    ensures IsMax(data, maxLoc)
  {
    var j :| 0 <= j < |entries| && entries[j].1 == maxLoc;
    assert entries[j].0 in data && data[entries[j].0] == maxLoc;
    forall lang | lang in data ensures data[lang] <= maxLoc {
      var i :| 0 <= i < |entries| && entries[i] == (lang, data[lang]);
    }
  }

  /** Reversing an ascending list of distinct languages gives a descending one, with the
      same elements. */
  lemma ReverseFacts(s: seq<LangLoc>)
    requires Ascending(s) && DistinctLangs(s)
    ensures Descending(Reverse(s)) && DistinctLangs(Reverse(s))
    ensures forall x :: x in Reverse(s) <==> x in s
  {
    ReverseOrder(s);
    ReverseMembers(s);
  }

  lemma ReverseOrder(s: seq<LangLoc>)
    requires Ascending(s) && DistinctLangs(s)
    ensures Descending(Reverse(s)) && DistinctLangs(Reverse(s))
  {
    var r := Reverse(s);
    forall i, j | 0 <= i < j < |r| ensures r[i].0 != r[j].0 && r[i].1 >= r[j].1 {
      assert r[i] == s[|r| - 1 - i] && r[j] == s[|r| - 1 - j];
    }
  }

  lemma ReverseMembers(s: seq<LangLoc>)
    ensures forall x :: x in Reverse(s) <==> x in s
  {
    var r := Reverse(s);
    forall x ensures x in r <==> x in s {
      if x in r {
        var i :| 0 <= i < |r| && r[i] == x;
        assert x == s[|r| - 1 - i];
      }
      if x in s {
        var i :| 0 <= i < |r| && s[i] == x;
        assert r[|r| - 1 - i] == x;
      }
    }
  }

  lemma SameElements(a: seq<LangLoc>, b: seq<LangLoc>)
    requires multiset(a) == multiset(b)
    ensures |a| == |b|
    ensures forall x :: x in a <==> x in b
  {
    assert |multiset(a)| == |multiset(b)|;
    forall x ensures x in a <==> x in b {
      assert x in a <==> x in multiset(a);
      assert x in b <==> x in multiset(b);
    }
  }

  /** Any arrangement of the same pairs with distinct languages is again a listing. */
  lemma ListingMoved(data: LocMap, entries: seq<LangLoc>, all: seq<LangLoc>)
    requires Listing(entries, data)
    requires |all| == |entries| && DistinctLangs(all)
    requires forall x :: x in all <==> x in entries
    ensures Listing(all, data)
  {
    forall i | 0 <= i < |all| ensures all[i].0 in data && all[i].1 == data[all[i].0] {
      assert all[i] in entries;
    }
  }

  /** Sorting a listing and reversing it gives a listing in non-increasing order of count. */
  lemma RankedListing(data: LocMap, entries: seq<LangLoc>)
    requires Listing(entries, data)
    ensures Listing(Reverse(SortByLoc(entries)), data)
    ensures Descending(Reverse(SortByLoc(entries)))
  {
    var sorted := SortByLoc(entries);
    SortByLocDistinct(entries);
    SameElements(sorted, entries);
    ReverseFacts(sorted);
    ListingMoved(data, entries, Reverse(sorted));
  }

  /** The first `n` pairs of a ranked listing are at least as large as every language
      left out of them. */
  lemma TopBeatsRest(data: LocMap, all: seq<LangLoc>, n: nat, lang: string)
    requires Listing(all, data) && Descending(all) && n <= |all|
    requires lang in data && forall i :: 0 <= i < n ==> all[i].0 != lang
    ensures forall i :: 0 <= i < n ==> all[i].1 >= data[lang]
  {
    var j :| 0 <= j < |all| && all[j] == (lang, data[lang]);
  }

  /** `max()` over the counts of a non-empty listing. */
  method MaxLoc(entries: seq<LangLoc>) returns (maxLoc: int)
    requires |entries| > 0
    ensures forall j :: 0 <= j < |entries| ==> entries[j].1 <= maxLoc
    ensures exists j :: 0 <= j < |entries| && entries[j].1 == maxLoc
  {
    maxLoc := entries[0].1;
    for k := 1 to |entries|
      invariant forall j :: 0 <= j < k ==> entries[j].1 <= maxLoc
      invariant exists j :: 0 <= j < k && entries[j].1 == maxLoc
    {
      if entries[k].1 > maxLoc {
        maxLoc := entries[k].1;
      }
    }
  }

  /** `rd` holds the `topN` languages of `data` with the largest counts, in non-increasing
      order of count, each as an indicator ranging from 0 to the largest count beside its
      own count. */
  ghost predicate TopN(data: LocMap, topN: nat, rd: RadarData) {
    var ind, locs := rd.indicators, rd.locs;
    && |ind| == |locs| == Min(topN, |data|)
    && (forall i :: 0 <= i < |ind| ==>
          ind[i].name in data && locs[i] == data[ind[i].name] && ind[i].min == 0 && IsMax(data, ind[i].max))
    && (forall i, j :: 0 <= i < j < |ind| ==> ind[i].name != ind[j].name)
    && (forall i, j :: 0 <= i < j < |locs| ==> locs[i] >= locs[j])
    && (forall lang :: lang in data && (forall i :: 0 <= i < |ind| ==> ind[i].name != lang) ==>
          forall i :: 0 <= i < |locs| ==> locs[i] >= data[lang])
  }

  /** `radar_triplets` and `locs`: each kept pair as `(lang, 0, max_loc)`, and its count. */
  function Project(top: seq<LangLoc>, maxLoc: int): (rd: RadarData)
    ensures |rd.indicators| == |rd.locs| == |top|
    ensures forall i :: 0 <= i < |top| ==>
      rd.indicators[i] == Indicator(top[i].0, 0, maxLoc) && rd.locs[i] == top[i].1
  {
    RadarData(seq(|top|, i requires 0 <= i < |top| => Indicator(top[i].0, 0, maxLoc)),
              seq(|top|, i requires 0 <= i < |top| => top[i].1))
  }

  /** Cutting a ranked listing after `topN` pairs and projecting it gives the top `topN`. */
  lemma RankedPrefixIsTopN(data: LocMap, all: seq<LangLoc>, topN: nat, maxLoc: int)
    requires Listing(all, data) && Descending(all) && IsMax(data, maxLoc)
    ensures TopN(data, topN, Project(all[..Min(topN, |all|)], maxLoc))
  {
    var rd := Project(all[..Min(topN, |all|)], maxLoc);
    var ind, locs := rd.indicators, rd.locs;
    forall lang | lang in data && (forall i :: 0 <= i < |ind| ==> ind[i].name != lang)
      ensures forall i :: 0 <= i < |locs| ==> locs[i] >= data[lang]
    {
      TopBeatsRest(data, all, |ind|, lang);
    }
  }

  /** A sequence of distinct strings has as many elements as its set. */
  lemma {:induction false} DistinctCard(s: seq<string>)
    requires forall i, j :: 0 <= i < j < |s| ==> s[i] != s[j]
    ensures |set x | x in s| == |s|
  {
    if s != [] {
      var init := s[..|s| - 1];
      DistinctCard(init);
      assert (set x | x in s) == (set x | x in init) + {s[|s| - 1]} by {
        assert s == init + [s[|s| - 1]];
      }
    }
  }

  /** With `topN` at least the number of languages, every language gets an indicator. */
  lemma TopNShowsAll(data: LocMap, topN: nat, rd: RadarData, lang: string)
    requires TopN(data, topN, rd) && topN >= |data| && lang in data
    ensures exists i :: 0 <= i < |rd.indicators| && rd.indicators[i].name == lang
  {
    var ind := rd.indicators;
    var names := seq(|ind|, i requires 0 <= i < |ind| => ind[i].name);
    DistinctCard(names);
    var shown := set x | x in names;
    FullSubset(shown, data.Keys);
    assert lang in names;
    var i :| 0 <= i < |names| && names[i] == lang;
    assert ind[i].name == lang;
  }

  /** A subset as large as its superset is all of it. */
  lemma FullSubset(a: set<string>, b: set<string>)
    requires a <= b && |a| == |b|
    ensures a == b
  {
    assert b == a + (b - a);
    assert |b - a| == 0;
  }

  /** `chart` without the chart object: fails on an empty mapping, otherwise gives the
      top `topN` languages. */
  method Chart(data: LocMap, topN: nat) returns (r: Result<RadarData, Error>)
    ensures r.Err? <==> |data| == 0
    ensures r.Err? ==> r.error == NoDataToRender
    ensures r.Ok? ==> TopN(data, topN, r.value)
  {
    var entries := Collect(data);
    if |entries| == 0 {
      return Err(NoDataToRender);
    }
    var maxLoc := MaxLoc(entries);
    ListingMax(data, entries, maxLoc);

    var sortedByLoc := SortByLoc(entries);
    sortedByLoc := Reverse(sortedByLoc);
    RankedListing(data, entries);
    RankedPrefixIsTopN(data, sortedByLoc, topN, maxLoc);
    sortedByLoc := sortedByLoc[..Min(topN, |sortedByLoc|)];
    return Ok(Project(sortedByLoc, maxLoc));
  }
}
