/**
 Airport search for the autocomplete: `calculateAirportSearchScore` and
 `searchAirports` of script.js.
 */
module Search {
  import opened Text
  import opened Indices
  import opened StableSort
  import opened Airports

  const ExactScore := 1000
  const CodePrefixBonus := 500
  const CodeContainsBonus := 200
  const CityPrefixBonus := 300
  const CityContainsBonus := 100
  const NameContainsBonus := 50
  const MaxResults := 10

  function Bonus(hit: bool, points: int): int
  {
    if hit then points else 0
  }

  /** The rank of one directory entry for an already lower-cased search term. */
  function Score(code: string, a: Airport, term: string): (r: int)
    ensures 0 <= r <= 1150
    ensures ToLower(code) == term ==> r == ExactScore
    ensures ToLower(code) != term && StartsWith(ToLower(code), term) ==> r >= 700
    ensures ToLower(code) != term && StartsWith(ToLower(a.city), term) ==> r >= 400
    ensures r == 0 <==>
      !Contains(ToLower(code), term) && !Contains(ToLower(a.city), term) && !Contains(ToLower(a.name), term)
  {
    var codeLC := ToLower(code);
    var nameLC := ToLower(a.name);
    var cityLC := ToLower(a.city);
    if codeLC == term then
      assert StartsWith(codeLC, term);
      ExactScore
    else
      Bonus(StartsWith(codeLC, term), CodePrefixBonus)
      + Bonus(Contains(codeLC, term), CodeContainsBonus)
      + Bonus(StartsWith(cityLC, term), CityPrefixBonus)
      + Bonus(Contains(cityLC, term), CityContainsBonus)
      + Bonus(Contains(nameLC, term), NameContainsBonus)
  }

  /** A term found only in an airport's name scores 50, below any city-prefix hit. */
  lemma NameOnlyScores50(code: string, a: Airport, term: string)
    requires !Contains(ToLower(code), term) && !Contains(ToLower(a.city), term)
    requires Contains(ToLower(a.name), term)
    ensures Score(code, a, term) == NameContainsBonus
  {
  }

  /** The exact-match score is not the maximum: an entry whose code only starts
      with the term, and whose city starts with and name contains it, scores
      1150, more than the 1000 of an exact code match, so the descending sort
      can place it first. */
  lemma ExactMatchCanBeOutranked()
    ensures Score("AB", Airport("Xy", "Zz", "US", Fallback), "ab") == 1000
    ensures Score("ABC", Airport("ab field", "Abbeville", "US", Fallback), "ab") == 1150
  {
    var a := Airport("ab field", "Abbeville", "US", Fallback);
    assert ToLower("ABC") == "abc";
    assert ToLower("AB") == "ab";
    assert ToLower(a.city)[..2] == "ab";
    assert ToLower(a.name)[..2] == "ab";
    assert StartsWith(ToLower("ABC"), "ab");
  }

  /** The score of directory position i; 0 outside the directory. */
  function ScoreAt(d: Directory, term: string, i: nat): int
  {
    if i < |d| then Score(d[i].code, d[i].airport, term) else 0
  }

  function ScoreKey(d: Directory, term: string): nat -> Key
  {
    (i: nat) => Num(ScoreAt(d, term, i) as real)
  }

  /** Positions of the entries that score above 0, in directory order. */
  function Hits(d: Directory, term: string): seq<nat>
  {
    Where(|d|, (i: nat) => ScoreAt(d, term, i) > 0)
  }

  /** One dropdown row: `{code, ...airport, score}`. */
  datatype Match = Match(code: string, airport: Airport, score: int)

  /** Hits are exactly the scoring positions, in directory order. */
  lemma HitsExactly(d: Directory, term: string)
    ensures StrictlyIncreasing(Hits(d, term))
    ensures forall k :: 0 <= k < |Hits(d, term)| ==> Hits(d, term)[k] < |d| && ScoreAt(d, term, Hits(d, term)[k]) > 0
    ensures forall i :: 0 <= i < |d| && ScoreAt(d, term, i) > 0 ==> i in multiset(Hits(d, term))
  {
    var p := (i: nat) => ScoreAt(d, term, i) > 0;
    assert Hits(d, term) == Where(|d|, p);
    forall i | 0 <= i < |d| && ScoreAt(d, term, i) > 0
      ensures i in multiset(Hits(d, term))
    {
      assert p(i);
    }
  }

  /** The hits ordered best first; ties stay in directory order. */
  function Ranked(d: Directory, term: string): (r: seq<nat>)
    ensures multiset(r) == multiset(Hits(d, term))
    ensures forall k :: 0 <= k < |r| ==> r[k] < |d| && ScoreAt(d, term, r[k]) > 0
  {
    var r := SortBy(Hits(d, term), ScoreKey(d, term), Desc);
    forall k | 0 <= k < |r|
      ensures r[k] < |d| && ScoreAt(d, term, r[k]) > 0
    {
      assert r[k] in multiset(Hits(d, term));
    }
    r
  }

  /** The directory positions `searchAirports` returns, best first, at most ten. */
  function SearchPositions(d: Directory, query: string): (r: seq<nat>)
    ensures |r| <= MaxResults
    ensures forall k :: 0 <= k < |r| ==> r[k] < |d| && ScoreAt(d, ToLower(query), r[k]) > 0
  {
    if |query| == 0 then []
    else
      var ranked := Ranked(d, ToLower(query));
      ranked[..if |ranked| < MaxResults then |ranked| else MaxResults]
  }

  /** Scores along the ranking never increase. */
  lemma RankedOrdered(d: Directory, term: string)
    ensures forall p, q :: 0 <= p < q < |Ranked(d, term)| ==>
      ScoreAt(d, term, Ranked(d, term)[p]) >= ScoreAt(d, term, Ranked(d, term)[q])
  {
    var r := Ranked(d, term);
    SortBySorted(Hits(d, term), ScoreKey(d, term), Desc);
    forall p, q | 0 <= p < q < |r|
      ensures ScoreAt(d, term, r[p]) >= ScoreAt(d, term, r[q])
    {
      assert !Before(ScoreKey(d, term)(r[q]), ScoreKey(d, term)(r[p]), Desc);
    }
  }

  /** `searchAirports(query)`: one row per returned position, at most ten,
      each a directory entry reported with its own score, which is above 0. */
  function SearchAirports(d: Directory, query: string): (r: seq<Match>)
    ensures |r| == |SearchPositions(d, query)| && |r| <= MaxResults
    ensures forall k :: 0 <= k < |r| ==>
      Entry(r[k].code, r[k].airport) in d && r[k].score == Score(r[k].code, r[k].airport, ToLower(query)) > 0
  {
    var ps := SearchPositions(d, query);
    var r := seq(|ps|, k requires 0 <= k < |ps| =>
      Match(d[ps[k]].code, d[ps[k]].airport, ScoreAt(d, ToLower(query), ps[k])));
    assert forall k :: 0 <= k < |r| ==> Entry(r[k].code, r[k].airport) == d[ps[k]];
    r
  }

  /** The search contract: nothing for an empty query; otherwise at most ten
      directory entries, each scoring above 0 and reported with its score, in
      non-increasing score order, and no left-out hit beats the last result
      (a hit is left out only when ten results are shown). */
  lemma SearchRanking(d: Directory, query: string)
    ensures |query| == 0 ==> SearchAirports(d, query) == []
    ensures |SearchAirports(d, query)| <= MaxResults
    ensures forall m :: m in SearchAirports(d, query) ==>
      Entry(m.code, m.airport) in d && m.score == Score(m.code, m.airport, ToLower(query)) > 0
    ensures forall p, q :: 0 <= p < q < |SearchAirports(d, query)| ==>
      SearchAirports(d, query)[p].score >= SearchAirports(d, query)[q].score
    ensures forall i :: 0 <= i < |d| && ScoreAt(d, ToLower(query), i) > 0
                        && i !in SearchPositions(d, query) && |query| > 0 ==>
      |SearchAirports(d, query)| == MaxResults &&
      ScoreAt(d, ToLower(query), i) <= SearchAirports(d, query)[MaxResults - 1].score
  {
    if |query| > 0 {
      SearchResultsAreHits(d, query);
      SearchResultsDescend(d, query);
      SearchOmitsOnlyWeaker(d, query);
    }
  }

  lemma SearchResultsAreHits(d: Directory, query: string)
    requires |query| > 0
    ensures forall m :: m in SearchAirports(d, query) ==>
      Entry(m.code, m.airport) in d && m.score == Score(m.code, m.airport, ToLower(query)) > 0
  {
    var term := ToLower(query);
    var ps := SearchPositions(d, query);
    var r := SearchAirports(d, query);
    forall m | m in r
      ensures Entry(m.code, m.airport) in d && m.score == Score(m.code, m.airport, term) > 0
    {
      var k :| 0 <= k < |r| && r[k] == m;
      assert d[ps[k]] == Entry(m.code, m.airport);
    }
  }

  lemma SearchResultsDescend(d: Directory, query: string)
    requires |query| > 0
    ensures forall p, q :: 0 <= p < q < |SearchAirports(d, query)| ==>
      SearchAirports(d, query)[p].score >= SearchAirports(d, query)[q].score
  {
    var term := ToLower(query);
    var ps := SearchPositions(d, query);
    assert ps == Ranked(d, term)[..|ps|];
    RankedOrdered(d, term);
  }

  lemma SearchOmitsOnlyWeaker(d: Directory, query: string)
    requires |query| > 0
    ensures forall i :: 0 <= i < |d| && ScoreAt(d, ToLower(query), i) > 0
                        && i !in SearchPositions(d, query) ==>
      |SearchAirports(d, query)| == MaxResults &&
      ScoreAt(d, ToLower(query), i) <= SearchAirports(d, query)[MaxResults - 1].score
  {
    var term := ToLower(query);
    var ps := SearchPositions(d, query);
    var r := SearchAirports(d, query);
    var ranked := Ranked(d, term);
    assert ps == ranked[..|ps|];
    RankedOrdered(d, term);
    forall i | 0 <= i < |d| && ScoreAt(d, term, i) > 0 && i !in ps
      ensures |r| == MaxResults && ScoreAt(d, term, i) <= r[MaxResults - 1].score
    {
      HitsExactly(d, term);
      assert i in multiset(ranked);
      var m :| 0 <= m < |ranked| && ranked[m] == i;
      assert m >= |ps|;
    }
  }

  /** Equal scores keep directory order. */
  lemma SearchTiesInDirectoryOrder(d: Directory, query: string)
    ensures var ps, term := SearchPositions(d, query), ToLower(query);
      forall p, q :: 0 <= p < q < |ps| && ScoreAt(d, term, ps[p]) == ScoreAt(d, term, ps[q]) ==> ps[p] < ps[q]
  {
    if |query| > 0 {
      var term := ToLower(query);
      var ranked := Ranked(d, term);
      SortByStable(Hits(d, term), ScoreKey(d, term), Desc);
      var ps := SearchPositions(d, query);
      forall p, q | 0 <= p < q < |ps| && ScoreAt(d, term, ps[p]) == ScoreAt(d, term, ps[q])
        ensures ps[p] < ps[q]
      {
        assert ps[p] == ranked[p] && ps[q] == ranked[q];
        assert ScoreKey(d, term)(ranked[p]) == ScoreKey(d, term)(ranked[q]);
      }
    }
  }

  /** With at most ten hits, every hit is offered. */
  lemma SearchOffersAllFewHits(d: Directory, query: string)
    requires |query| > 0
    requires |Hits(d, ToLower(query))| <= MaxResults
    ensures forall i :: 0 <= i < |d| && ScoreAt(d, ToLower(query), i) > 0 ==>
      i in SearchPositions(d, query)
  {
    var term := ToLower(query);
    var ranked := Ranked(d, term);
    assert |ranked| == |Hits(d, term)| by {
      assert |multiset(ranked)| == |multiset(Hits(d, term))|;
    }
    assert SearchPositions(d, query) == ranked by {
      assert ranked[..|ranked|] == ranked;
    }
    assert forall i :: 0 <= i < |d| && ScoreAt(d, term, i) > 0 ==> i in multiset(ranked) by {
      HitsExactly(d, term);
    }
  }

  /** The first result is a best-scoring entry of the whole directory. */
  lemma SearchTopIsBest(d: Directory, query: string)
    requires |query| > 0
    ensures forall i :: 0 <= i < |d| && ScoreAt(d, ToLower(query), i) > 0 ==>
      |SearchAirports(d, query)| > 0 && ScoreAt(d, ToLower(query), i) <= SearchAirports(d, query)[0].score
  {
    var term := ToLower(query);
    var ranked := Ranked(d, term);
    var r := SearchAirports(d, query);
    RankedOrdered(d, term);
    forall i | 0 <= i < |d| && ScoreAt(d, term, i) > 0
      ensures |r| > 0 && ScoreAt(d, term, i) <= r[0].score
    {
      HitsExactly(d, term);
      assert i in multiset(ranked);
      var m :| 0 <= m < |ranked| && ranked[m] == i;
      assert SearchPositions(d, query)[0] == ranked[0];
    }
  }
}
