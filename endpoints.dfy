/**
 * Endpoint generation: createRange and generateURLs. A year range and the
 * caller's notion of "now" (current year, current quarter) become the ordered
 * list of quarterly master-index archive URLs.
 */
module Endpoints {
  import opened Text

  const EdgarPrefix: string := "https://www.sec.gov/Archives/edgar/full-index/"
  /** EdgarPrefix without its final '/'. */
  const EdgarStem: string := "https://www.sec.gov/Archives/edgar/full-index"
  const Quarters: seq<string> := ["QTR1", "QTR2", "QTR3", "QTR4"]

  /** Index into Quarters: 0 stands for QTR1, 3 for QTR4. */
  type QuarterIndex = j: int | 0 <= j < 4

  /** One (year, quarter) unit of work. */
  datatype Endpoint = Endpoint(year: int, quarter: QuarterIndex)

  /** The archive location of one endpoint. */
  function Url(e: Endpoint): string
  {
    EdgarPrefix + Itoa(e.year) + "/" + Quarters[e.quarter] + "/master.zip"
  }

  function Urls(es: seq<Endpoint>): (r: seq<string>)
    ensures |r| == |es|
  {
    seq(|es|, i requires 0 <= i < |es| => Url(es[i]))
  }

  lemma UrlsExtend(done: seq<Endpoint>, row: seq<Endpoint>, j: nat)
    requires j < |row|
    ensures Urls(done + row[..j + 1]) == Urls(done + row[..j]) + [Url(row[j])]
  {
    assert done + row[..j + 1] == (done + row[..j]) + [row[j]];
  }

  /** The inclusive year range start..end. */
  function Years(start: int, end: int): (r: seq<int>)
    requires end - start + 1 >= 0
  {
    seq(end - start + 1, i requires 0 <= i < end - start + 1 => start + i)
  }

  function Clamp(q: int): int
  {
    if q < 0 then 0 else if q > 4 then 4 else q
  }

  /**
   * How many quarters of `year` are requested: all four for any year other
   * than the current one (future years included), and for the current year
   * the quarter indices j with j <= currentQuarter - 1.
   */
  function QuarterCount(year: int, currentYear: int, currentQuarter: int): nat
  {
    if year == currentYear then Clamp(currentQuarter) else 4
  }

  function YearEndpoints(year: int, currentYear: int, currentQuarter: int): seq<Endpoint>
  {
    var n := QuarterCount(year, currentYear, currentQuarter);
    seq(n, j requires 0 <= j < n => Endpoint(year, j))
  }

  /** The endpoints for a list of years, year by year. */
  function EndpointsOf(years: seq<int>, currentYear: int, currentQuarter: int): seq<Endpoint>
  {
    if years == [] then []
    else
      EndpointsOf(years[..|years| - 1], currentYear, currentQuarter)
      + YearEndpoints(years[|years| - 1], currentYear, currentQuarter)
  }

  /** Strict (year, quarter) lexicographic order. */
  predicate Precedes(a: Endpoint, b: Endpoint)
  {
    a.year < b.year || (a.year == b.year && a.quarter < b.quarter)
  }

  /** createRange: make a slice of max-min+1 slots and fill slot i with min+i. */
  method CreateRange(min: int, max: int) returns (r: seq<int>)
    requires max - min + 1 >= 0
    ensures |r| == max - min + 1
    ensures forall i :: 0 <= i < |r| ==> r[i] == min + i
  {
    var a := new int[max - min + 1];
    for i := 0 to a.Length
      invariant forall k :: 0 <= k < i ==> a[k] == min + k
    {
      a[i] := min + i;
    }
    r := a[..];
  }

  /**
   * generateURLs with the clock read replaced by two parameters. The inner
   * loop stops at the first quarter index beyond currentQuarter - 1 when the
   * year is the current year.
   */
  method GenerateURLs(start: int, end: int, currentYear: int, currentQuarter: int)
    returns (urls: seq<string>)
    requires end - start + 1 >= 0
    ensures urls == Urls(EndpointsOf(Years(start, end), currentYear, currentQuarter))
  {
    var years := CreateRange(start, end);
    assert years == Years(start, end);
    var endPoints: seq<string> := [];
    ghost var done: seq<Endpoint> := [];
    for i := 0 to |years|
      invariant done == EndpointsOf(years[..i], currentYear, currentQuarter)
      invariant endPoints == Urls(done)
    {
      ghost var count := QuarterCount(years[i], currentYear, currentQuarter);
      ghost var row := YearEndpoints(years[i], currentYear, currentQuarter);
      var j := 0;
      while j < |Quarters|
        invariant 0 <= j <= count
        invariant endPoints == Urls(done + row[..j])
      {
        QuarterStep(years[i], currentYear, currentQuarter, j);
        if years[i] == currentYear && j > currentQuarter - 1 {
          break;
        }
        var y := Itoa(years[i]);
        var endpoint := EdgarPrefix + y + "/" + Quarters[j] + "/master.zip";
        RowUrl(years[i], currentYear, currentQuarter, j);
        UrlsExtend(done, row, j);
        endPoints := endPoints + [endpoint];
        j := j + 1;
      }
      assert j == count;
      assert row[..j] == row;
      EndpointsOfSnoc(years, i, currentYear, currentQuarter);
      done := done + row;
    }
    assert years[..|years|] == years;
    urls := endPoints;
  }

  /** The inner loop's break test is "j has reached the year's quarter count". */
  lemma QuarterStep(year: int, currentYear: int, currentQuarter: int, j: nat)
    requires j < 4
    ensures (year == currentYear && j > currentQuarter - 1) <==> j >= QuarterCount(year, currentYear, currentQuarter)
    ensures QuarterCount(year, currentYear, currentQuarter) <= 4
  {
  }

  lemma RowUrl(year: int, currentYear: int, currentQuarter: int, j: nat)
    requires j < QuarterCount(year, currentYear, currentQuarter)
    ensures Url(YearEndpoints(year, currentYear, currentQuarter)[j])
         == EdgarPrefix + Itoa(year) + "/" + Quarters[j] + "/master.zip"
  {
  }

  lemma EndpointsOfSnoc(years: seq<int>, i: nat, currentYear: int, currentQuarter: int)
    requires i < |years|
    ensures EndpointsOf(years[..i + 1], currentYear, currentQuarter)
         == EndpointsOf(years[..i], currentYear, currentQuarter) + YearEndpoints(years[i], currentYear, currentQuarter)
  {
    assert years[..i + 1][..i] == years[..i];
  }

  /** Years(start, end) ends with end and begins with Years(start, end - 1). */
  lemma YearsSnoc(start: int, end: int)
    requires end - start + 1 > 0
    ensures Years(start, end)[..end - start] == Years(start, end - 1)
    ensures Years(start, end)[end - start] == end
  {
  }

  lemma YearEndpointsCount(year: int, currentYear: int, currentQuarter: int)
    ensures |YearEndpoints(year, currentYear, currentQuarter)|
         == if year == currentYear then Clamp(currentQuarter) else 4
  {
  }

  /**
   * The number of URLs: four per year, less the quarters of the current year
   * that come after the current quarter when the current year is in range.
   */
  lemma {:induction false} EndpointCount(start: int, end: int, currentYear: int, currentQuarter: int)
    requires end - start + 1 >= 0
    ensures |EndpointsOf(Years(start, end), currentYear, currentQuarter)|
         == 4 * (end - start + 1) - (if start <= currentYear <= end then 4 - Clamp(currentQuarter) else 0)
    decreases end - start + 1
  {
    if end - start + 1 > 0 {
      YearsSnoc(start, end);
      EndpointCount(start, end - 1, currentYear, currentQuarter);
      YearEndpointsCount(end, currentYear, currentQuarter);
    }
  }

  /**
   * An endpoint is requested exactly when its year is in the list and its
   * quarter is one of the requested quarters of that year.
   */
  lemma {:induction false} EndpointMembership(years: seq<int>, currentYear: int, currentQuarter: int, e: Endpoint)
    ensures e in EndpointsOf(years, currentYear, currentQuarter)
        <==> e.year in years && e.quarter < QuarterCount(e.year, currentYear, currentQuarter)
  {
    if years != [] {
      var init := years[..|years| - 1];
      EndpointMembership(init, currentYear, currentQuarter, e);
      assert years == init + [years[|years| - 1]];
      var row := YearEndpoints(years[|years| - 1], currentYear, currentQuarter);
      if e.year == years[|years| - 1] && e.quarter < QuarterCount(e.year, currentYear, currentQuarter) {
        assert row[e.quarter] == e;
      }
    }
  }

  predicate StrictlyIncreasing(years: seq<int>)
  {
    forall i, k :: 0 <= i < k < |years| ==> years[i] < years[k]
  }

  predicate Ordered(es: seq<Endpoint>)
  {
    forall i, k :: 0 <= i < k < |es| ==> Precedes(es[i], es[k])
  }

  lemma {:induction false} EndpointYearsBounded(years: seq<int>, currentYear: int, currentQuarter: int, bound: int)
    requires forall i :: 0 <= i < |years| ==> years[i] < bound
    ensures forall e :: e in EndpointsOf(years, currentYear, currentQuarter) ==> e.year < bound
  {
    forall e | e in EndpointsOf(years, currentYear, currentQuarter)
      ensures e.year < bound
    {
      EndpointMembership(years, currentYear, currentQuarter, e);
    }
  }

  /**
   * For increasing years (as createRange yields) the endpoints are in
   * ascending year order, then ascending quarter order, with no repeats.
   */
  lemma {:induction false} EndpointsOrdered(years: seq<int>, currentYear: int, currentQuarter: int)
    requires StrictlyIncreasing(years)
    ensures Ordered(EndpointsOf(years, currentYear, currentQuarter))
  {
    if years != [] {
      var init := years[..|years| - 1];
      var last := years[|years| - 1];
      EndpointsOrdered(init, currentYear, currentQuarter);
      EndpointYearsBounded(init, currentYear, currentQuarter, last);
      var a := EndpointsOf(init, currentYear, currentQuarter);
      var b := YearEndpoints(last, currentYear, currentQuarter);
      var es := a + b;
      forall i, k | 0 <= i < k < |es|
        ensures Precedes(es[i], es[k])
      {
        if k < |a| {
        } else if i < |a| {
          assert es[i] in a;
        }
      }
    }
  }

  lemma YearsIncreasing(start: int, end: int)
    requires end - start + 1 >= 0
    ensures StrictlyIncreasing(Years(start, end))
  {
  }

  /** Ordered endpoints are pairwise distinct, and so are their URLs. */
  lemma OrderedDistinct(es: seq<Endpoint>)
    requires Ordered(es)
    ensures forall i, k :: 0 <= i < k < |es| ==> es[i] != es[k]
  {
  }

  /** Endpoints requested for 2021..2021 in the second quarter of 2021. */
  lemma ExampleCurrentYearOnly()
    ensures EndpointsOf(Years(2021, 2021), 2021, 2) == [Endpoint(2021, 0), Endpoint(2021, 1)]
  {
    assert Years(2021, 2021) == [2021];
    assert EndpointsOf([], 2021, 2) == [];
    assert [2021][..0] == [];
  }

  /** Endpoints requested for 2020..2021 in the first quarter of 2021. */
  lemma ExamplePreviousYearComplete()
    ensures EndpointsOf(Years(2020, 2021), 2021, 1)
         == [Endpoint(2020, 0), Endpoint(2020, 1), Endpoint(2020, 2), Endpoint(2020, 3), Endpoint(2021, 0)]
  {
    assert Years(2020, 2021) == [2020, 2021];
    assert [2020, 2021][..1] == [2020];
    assert [2020][..0] == [];
  }

  /** A start year one past the end year gives an empty range and no URLs. */
  lemma EmptyRange(start: int, currentYear: int, currentQuarter: int)
    ensures EndpointsOf(Years(start, start - 1), currentYear, currentQuarter) == []
  {
  }
}
