/** utils/image_search.py: search terms and Unsplash Source image URLs for a
    mobility measure. Only strings are built; no request is sent. */
module ImageSearch {
  import opened Text

  const UrlPrefix: string := "https://source.unsplash.com/800x600/?"
  const SigInfix: string := "&sig="

  /** What each of the five search terms adds to the base term. */
  const Suffixes: seq<string> := ["", ",urban", ",city", ",sustainable,transport", ",mobility"]

  /** measure_name.lower().replace(" ", ","). */
  function BaseTerm(measureName: string): string {
    ReplaceChar(Lower(measureName), ' ', ',')
  }

  /** generate_search_terms: the base term, then the base term with each
      fixed suffix. */
  function GenerateSearchTerms(measureName: string): (r: seq<string>)
    ensures |r| == |Suffixes| == 5
    ensures forall i :: 0 <= i < 5 ==> r[i] == BaseTerm(measureName) + Suffixes[i]
  {
    var base := BaseTerm(measureName);
    [base, base + ",urban", base + ",city", base + ",sustainable,transport", base + ",mobility"]
  }

  /** The number of items `xs[:count]` keeps of a list of length n: Python
      counts a negative bound from the end. */
  function SliceLength(n: nat, count: int): (r: nat)
    ensures r <= n
    ensures count >= 0 ==> r == (if count <= n then count else n)
    ensures count < 0 ==> r == (if n + count >= 0 then n + count else 0)
  {
    if count >= 0 then (if count <= n then count else n)
    else if n + count >= 0 then n + count else 0
  }

  /** The URL of image i for one search term. */
  function Url(term: string, i: nat): string {
    UrlPrefix + term + SigInfix + NatToString(i)
  }

  /** The URLs search_unsplash_images builds: one per kept term, numbered
      from 0. */
  function Images(query: string, count: int): (r: seq<string>)
    ensures |r| == SliceLength(5, count)
    ensures forall i :: 0 <= i < |r| ==> r[i] == Url(GenerateSearchTerms(query)[i], i)
  {
    var terms := GenerateSearchTerms(query);
    seq(SliceLength(|terms|, count), i requires 0 <= i < SliceLength(|terms|, count) => Url(terms[i], i))
  }

  /** search_unsplash_images: appends one URL per term of `terms[:count]`. */
  method SearchUnsplashImages(query: string, count: int) returns (images: seq<string>)
    ensures images == Images(query, count)
  {
    var terms := GenerateSearchTerms(query);
    images := [];
    for i := 0 to SliceLength(|terms|, count)
      invariant |images| == i
      invariant forall j :: 0 <= j < i ==> images[j] == Url(terms[j], j)
    {
      images := images + [Url(terms[i], i)];
    }
  }

  function MinInt(a: int, b: int): int {
    if a <= b then a else b
  }

  /** get_mobility_measure_images as written: the count is capped with
      min(count, 3) only, so a negative count still reaches the slice. Its
      exception handler cannot fire for a string name. */
  method GetMobilityMeasureImages(measureName: string, count: int) returns (images: seq<string>)
    ensures images == Images(measureName, MinInt(count, 3))
    ensures count >= 0 ==> |images| <= 3
  {
    images := SearchUnsplashImages(measureName, MinInt(count, 3));
  }

  /** The count get_mobility_measure_images evidently means: between 0 and 3. */
  function ImageCount(count: int): (r: nat)
    ensures r <= 3
    ensures 0 <= count <= 3 ==> r == count
  {
    if count <= 0 then 0 else MinInt(count, 3)
  }

  /** get_mobility_measure_images with the count clamped to 0 .. 3. */
  method GetMobilityMeasureImagesClamped(measureName: string, count: int) returns (images: seq<string>)
    ensures images == Images(measureName, ImageCount(count))
    ensures |images| == ImageCount(count) <= 3
  {
    images := SearchUnsplashImages(measureName, ImageCount(count));
  }

  // ---------------------------------------------------------------------------
  // Properties

  /** The base term is lower case (ASCII) and has no spaces. */
  lemma BaseTermClean(measureName: string)
    ensures |BaseTerm(measureName)| == |measureName|
    ensures forall k :: 0 <= k < |measureName| ==> BaseTerm(measureName)[k] != ' ' && !('A' <= BaseTerm(measureName)[k] <= 'Z')
  {
  }

  /** Every term starts with the base term, and the five terms differ. */
  lemma TermsDistinct(measureName: string)
    ensures var terms := GenerateSearchTerms(measureName);
      (forall i :: 0 <= i < 5 ==> StartsWith(terms[i], BaseTerm(measureName))) &&
      (forall i, j :: 0 <= i < j < 5 ==> terms[i] != terms[j])
  {
    var terms := GenerateSearchTerms(measureName);
    var base := BaseTerm(measureName);
    forall i | 0 <= i < 5
      ensures StartsWith(terms[i], base)
    {
      assert terms[i][..|base|] == base;
    }
    forall i, j | 0 <= i < j < 5
      ensures terms[i] != terms[j]
    {
      assert |terms[i]| != |terms[j]|;
    }
  }

  /** The digits of an index below 10 are one character. */
  lemma SmallIndexDigits(i: nat)
    requires i < 10
    ensures NatToString(i) == [DigitChar(i)]
  {
  }

  /** A URL gives back its term and its index. */
  lemma UrlCarriesTerm(term: string, i: nat)
    ensures var u := Url(term, i);
      StartsWith(u, UrlPrefix) &&
      u[|UrlPrefix|..|UrlPrefix| + |term|] == term &&
      u[|UrlPrefix| + |term|..|UrlPrefix| + |term| + |SigInfix|] == SigInfix &&
      u[|UrlPrefix| + |term| + |SigInfix|..] == NatToString(i)
  {
    var u := Url(term, i);
    var a := UrlPrefix + term;
    var b := a + SigInfix;
    assert u == b + NatToString(i);
    assert b[..|a|] == a;
    assert u[..|b|] == b;
  }

  /** The URLs for one query are pairwise different. */
  lemma ImagesDistinct(query: string, count: int)
    ensures var images := Images(query, count);
      forall i, j :: 0 <= i < j < |images| ==> images[i] != images[j]
  {
    var images := Images(query, count);
    var terms := GenerateSearchTerms(query);
    forall i, j | 0 <= i < j < |images|
      ensures images[i] != images[j]
    {
      SmallIndexDigits(i);
      SmallIndexDigits(j);
      assert |terms[i]| != |terms[j]|;
      assert |images[i]| != |images[j]|;
    }
  }

  /** With a non-negative count the image count is min(count, 5). */
  lemma ImagesCount(query: string, count: int)
    ensures count >= 0 ==> |Images(query, count)| == MinInt(count, 5)
    ensures count < 0 ==> |Images(query, count)| == if count >= -5 then 5 + count else 0
  {
  }

  /** A count of -1 gets past the cap: min(-1, 3) is -1 and `terms[:-1]`
      keeps four terms. */
  lemma NegativeCountExceedsCap(measureName: string)
    ensures |Images(measureName, MinInt(-1, 3))| == 4
  {
  }

  /** The clamped count keeps what a count in 0 .. 3 asked for, and never
      yields more than three URLs. */
  lemma ClampedWithinCap(measureName: string, count: int)
    ensures |Images(measureName, ImageCount(count))| <= 3
    ensures 0 <= count <= 3 ==> Images(measureName, ImageCount(count)) == Images(measureName, MinInt(count, 3))
  {
  }
}
