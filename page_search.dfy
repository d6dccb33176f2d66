/**
  The page picker of the breed-page checker: the ten candidate addresses of a
  breed's page, the test a fetched page has to pass, the scan of its `h2`
  headings for the care and feeding sections, the search for the first
  acceptable address, and the tallies over a list of breeds.

  The site is not visited: `fetch` gives the response to each address, and a
  page's `h2` elements come as the sequence of their texts.
 */
module PageSearch {
  import opened JsText
  import opened Lists
  import Slug

  // ---------------------------------------------------------------------------
  // Candidate addresses

  /** The five coat categories of the site, in the order they are tried. */
  const Categories: seq<string> :=
    ["dlinnoshyorstnye", "poludlinnoshyorstnye", "korotkoshyorstnye", "lysye", "orientalnye"]

  const SiteRoot: string := "https://koshkiwiki.ru/porody/"

  /** The address of `slug` under `category`, with the file-name ending
      `ending`. */
  function PageUrl(category: string, slug: string, ending: string): string {
    SiteRoot + category + "/" + slug + ending
  }

  /** `categories.map(cat => ...)` for one file-name ending. */
  function CategoryUrls(slug: string, ending: string): seq<string> {
    seq(|Categories|, i requires 0 <= i < |Categories| => PageUrl(Categories[i], slug, ending))
  }

  /** `possibleUrls`: every category with `<slug>.html`, then every category
      again with `<slug>-koshka.html`. */
  function PossibleUrls(slug: string): (urls: seq<string>)
    ensures |urls| == 10
    ensures forall i :: 0 <= i < 5 ==> urls[i] == PageUrl(Categories[i], slug, ".html")
    ensures forall i :: 0 <= i < 5 ==> urls[5 + i] == PageUrl(Categories[i], slug, "-koshka.html")
  {
    CategoryUrls(slug, ".html") + CategoryUrls(slug, "-koshka.html")
  }

  /** The letter after the site root is the category's first letter. */
  lemma PageUrlCategoryLetter(category: string, slug: string, ending: string)
    requires category != []
    ensures |SiteRoot| < |PageUrl(category, slug, ending)|
    ensures PageUrl(category, slug, ending)[|SiteRoot|] == category[0]
  {
  }

  /** The letter after the slug is the ending's first letter. */
  lemma PageUrlEndingLetter(category: string, slug: string, ending: string)
    requires ending != []
    ensures |SiteRoot| + |category| + 1 + |slug| < |PageUrl(category, slug, ending)|
    ensures PageUrl(category, slug, ending)[|SiteRoot| + |category| + 1 + |slug|] == ending[0]
  {
    var u := PageUrl(category, slug, ending);
    assert u == (SiteRoot + category + "/" + slug) + ending;
  }

  /** The five categories start with five different letters. */
  lemma CategoryInitials()
    ensures forall i :: 0 <= i < 5 ==> Categories[i] != []
    ensures Categories[0][0] == 'd' && Categories[1][0] == 'p' && Categories[2][0] == 'k'
    ensures Categories[3][0] == 'l' && Categories[4][0] == 'o'
  {
  }

  /** Two addresses under different categories differ. */
  lemma DifferentCategories(i: nat, j: nat, slug: string, e1: string, e2: string)
    requires i < 5 && j < 5 && i != j
    ensures PageUrl(Categories[i], slug, e1) != PageUrl(Categories[j], slug, e2)
  {
    CategoryInitials();
    PageUrlCategoryLetter(Categories[i], slug, e1);
    PageUrlCategoryLetter(Categories[j], slug, e2);
  }

  /** The two addresses under one category differ. */
  lemma DifferentEndings(i: nat, slug: string)
    requires i < 5
    ensures PageUrl(Categories[i], slug, ".html") != PageUrl(Categories[i], slug, "-koshka.html")
  {
    PageUrlEndingLetter(Categories[i], slug, ".html");
    PageUrlEndingLetter(Categories[i], slug, "-koshka.html");
  }

  /** No address is tried twice. */
  lemma PossibleUrlsDistinct(slug: string)
    ensures forall i, j :: 0 <= i < j < 10 ==> PossibleUrls(slug)[i] != PossibleUrls(slug)[j]
  {
    var urls := PossibleUrls(slug);
    forall i, j | 0 <= i < j < 10
      ensures urls[i] != urls[j]
    {
      if j < 5 {
        DifferentCategories(i, j, slug, ".html", ".html");
      } else if 5 <= i {
        DifferentCategories(i - 5, j - 5, slug, "-koshka.html", "-koshka.html");
      } else if i == j - 5 {
        DifferentEndings(i, slug);
      } else {
        DifferentCategories(i, j - 5, slug, ".html", "-koshka.html");
      }
    }
  }

  // ---------------------------------------------------------------------------
  // Responses and headings

  /** What one GET gives: a request that threw (a network error, a timeout,
      or a status the client rejects), or a page with its status, its body and
      the text of each of its `h2` elements. */
  datatype Response = Failed | Page(status: int, body: string, headings: seq<string>)

  const NotFoundMarker: string := "Запрашиваемая страница не найдена"

  /** A real breed page is longer than this, in UTF-16 code units. */
  const MinPageLength: nat := 10000

  /** A page is taken when its status is 200, it is not the site's "page not
      found" page and it is long enough. A failed request is never taken, and
      a page taken has more than 5000 characters (at most two code units
      each). */
  predicate Acceptable(r: Response)
    ensures Acceptable(r) ==> r.Page? && 2 * |r.body| > MinPageLength
  {
    && r.Page? && r.status == 200
    && !Includes(r.body, NotFoundMarker)
    && Utf16Length(r.body) > MinPageLength
  }

  const CareTitle: string := "Рекомендации по уходу"
  const FoodTitle: string := "Организация питания"

  /** A string includes itself. */
  lemma IncludesItself(s: string)
    ensures Includes(s, s)
  {
    assert s[0..|s|] == s;
    IncludesSlice(s, s, 0);
  }

  /** `heading === title || heading.includes(title)` on the trimmed text: the
      equality test adds nothing to the inclusion test. */
  function HeadingMatches(text: string, title: string): (b: bool)
    ensures b <==> Includes(Trim(text), title)
  {
    var heading := Trim(text);
    if heading == title then IncludesItself(heading); true
    else Includes(heading, title)
  }

  /** Some heading matches `title`. */
  predicate HasHeading(headings: seq<string>, title: string) {
    exists i :: 0 <= i < |headings| && HeadingMatches(headings[i], title)
  }

  /** A heading list extended by one heading has the heading when the list
      had it or the new heading matches. */
  lemma HasHeadingAppend(headings: seq<string>, h: string, title: string)
    ensures HasHeading(headings + [h], title) <==> HasHeading(headings, title) || HeadingMatches(h, title)
  {
    var t := headings + [h];
    if HasHeading(headings, title) {
      var i :| 0 <= i < |headings| && HeadingMatches(headings[i], title);
      assert t[i] == headings[i];
    }
    if HeadingMatches(h, title) {
      assert t[|headings|] == h;
    }
    if HasHeading(t, title) {
      var i :| 0 <= i < |t| && HeadingMatches(t[i], title);
      if i < |headings| {
        assert t[i] == headings[i];
      }
    }
  }

  /** The flag the scan holds after the headings in `seen`: set by the last
      heading, or already set before it. */
  predicate ScanFlag(seen: seq<string>, title: string)
    decreases |seen|
  {
    seen != [] && (ScanFlag(seen[..|seen| - 1], title) || HeadingMatches(seen[|seen| - 1], title))
  }

  /** The flag after one more heading. */
  lemma ScanFlagStep(headings: seq<string>, k: nat, title: string)
    requires k < |headings|
    ensures ScanFlag(headings[..k + 1], title) <==> ScanFlag(headings[..k], title) || HeadingMatches(headings[k], title)
  {
    assert headings[..k + 1][..k] == headings[..k];
  }

  /** The scan's flag is set exactly when some heading matches. */
  lemma {:induction false} ScanFlagIff(seen: seq<string>, title: string)
    ensures ScanFlag(seen, title) <==> HasHeading(seen, title)
    decreases |seen|
  {
    if seen != [] {
      var n := |seen| - 1;
      ScanFlagIff(seen[..n], title);
      HasHeadingAppend(seen[..n], seen[n], title);
      assert seen == seen[..n] + [seen[n]];
    }
  }

  /** The `$("h2").each(...)` scan: each flag is set once a heading
      mentions its section. */
  method ScanHeadings(headings: seq<string>) returns (hasCare: bool, hasFood: bool)
    ensures hasCare <==> HasHeading(headings, CareTitle)
    ensures hasFood <==> HasHeading(headings, FoodTitle)
  {
    hasCare, hasFood := false, false;
    for k := 0 to |headings|
      invariant hasCare <==> ScanFlag(headings[..k], CareTitle)
      invariant hasFood <==> ScanFlag(headings[..k], FoodTitle)
    {
      var heading := headings[k];
      var care := HeadingMatches(heading, CareTitle);
      var food := HeadingMatches(heading, FoodTitle);
      ScanFlagStep(headings, k, CareTitle);
      ScanFlagStep(headings, k, FoodTitle);
      if care {
        hasCare := true;
      }
      if food {
        hasFood := true;
      }
    }
    assert headings[..|headings|] == headings;
    ScanFlagIff(headings, CareTitle);
    ScanFlagIff(headings, FoodTitle);
  }

  // ---------------------------------------------------------------------------
  // One breed

  /** The position of the first acceptable response among `urls[from..]`. */
  function FirstAcceptable(urls: seq<string>, fetch: string -> Response, from: nat): (k: Option<nat>)
    requires from <= |urls|
    ensures k.Some? ==> from <= k.value < |urls| && Acceptable(fetch(urls[k.value]))
    ensures k.Some? ==> forall j :: from <= j < k.value ==> !Acceptable(fetch(urls[j]))
    ensures k.None? ==> forall j :: from <= j < |urls| ==> !Acceptable(fetch(urls[j]))
    decreases |urls| - from
  {
    if from == |urls| then None
    else if Acceptable(fetch(urls[from])) then Some(from)
    else FirstAcceptable(urls, fetch, from + 1)
  }

  /** The object `checkBreed` resolves to; `url` is `null` as `None`. */
  datatype BreedCheck = BreedCheck(breed: string, normalized: string, found: bool,
                                   url: Option<string>, hasCare: bool, hasFood: bool)

  /** What `checkBreed(breed)` resolves to when `fetch` answers each request:
      the first candidate address, in list order, whose page is acceptable,
      with the flags of that page's headings; or nothing found and both flags
      false. */
  function BreedCheckOf(breed: string, fetch: string -> Response): (r: BreedCheck)
    ensures r.breed == breed && r.normalized == Slug.NormalizeBreed(breed)
    ensures r.found <==> exists i :: 0 <= i < 10 && Acceptable(fetch(PossibleUrls(r.normalized)[i]))
    ensures !r.found ==> r.url == None && !r.hasCare && !r.hasFood
    ensures r.found ==>
      exists i :: 0 <= i < 10 && r.url == Some(PossibleUrls(r.normalized)[i])
        && Acceptable(fetch(PossibleUrls(r.normalized)[i]))
        && (forall j :: 0 <= j < i ==> !Acceptable(fetch(PossibleUrls(r.normalized)[j])))
        && (r.hasCare <==> HasHeading(fetch(PossibleUrls(r.normalized)[i]).headings, CareTitle))
        && (r.hasFood <==> HasHeading(fetch(PossibleUrls(r.normalized)[i]).headings, FoodTitle))
  {
    CheckWithSlug(breed, Slug.NormalizeBreed(breed), fetch)
  }

  /** The same, once the slug is known. */
  function CheckWithSlug(breed: string, slug: string, fetch: string -> Response): (r: BreedCheck)
    ensures r.breed == breed && r.normalized == slug
    ensures r.found <==> exists i :: 0 <= i < 10 && Acceptable(fetch(PossibleUrls(slug)[i]))
    ensures !r.found ==> r.url == None && !r.hasCare && !r.hasFood
    ensures r.found ==>
      exists i :: 0 <= i < 10 && r.url == Some(PossibleUrls(slug)[i])
        && Acceptable(fetch(PossibleUrls(slug)[i]))
        && (forall j :: 0 <= j < i ==> !Acceptable(fetch(PossibleUrls(slug)[j])))
        && (r.hasCare <==> HasHeading(fetch(PossibleUrls(slug)[i]).headings, CareTitle))
        && (r.hasFood <==> HasHeading(fetch(PossibleUrls(slug)[i]).headings, FoodTitle))
  {
    var urls := PossibleUrls(slug);
    match FirstAcceptable(urls, fetch, 0)
    case None => BreedCheck(breed, slug, false, None, false, false)
    case Some(k) =>
      var page := fetch(urls[k]);
      BreedCheck(breed, slug, true, Some(urls[k]),
                 HasHeading(page.headings, CareTitle), HasHeading(page.headings, FoodTitle))
  }

  /** `checkBreed`: try the candidate addresses in order and stop at the first
      acceptable page; a request that throws is skipped. */
  method CheckBreed(breed: string, fetch: string -> Response) returns (r: BreedCheck)
    ensures r == BreedCheckOf(breed, fetch)
  {
    var normalized := Slug.NormalizeBreed(breed);
    var urls := PossibleUrls(normalized);
    for k := 0 to |urls|
      invariant FirstAcceptable(urls, fetch, 0) == FirstAcceptable(urls, fetch, k)
    {
      var response := fetch(urls[k]);
      if Acceptable(response) {
        var hasCare, hasFood := ScanHeadings(response.headings);
        return BreedCheck(breed, normalized, true, Some(urls[k]), hasCare, hasFood);
      }
    }
    return BreedCheck(breed, normalized, false, None, false, false);
  }

  // ---------------------------------------------------------------------------
  // All breeds

  /** The five arrays `testAllBreeds` fills. */
  datatype Tally = Tally(found: seq<BreedCheck>, notFound: seq<BreedCheck>,
                         foundWithCare: seq<BreedCheck>, foundWithFood: seq<BreedCheck>,
                         foundWithBoth: seq<BreedCheck>)

  predicate IsFound(r: BreedCheck) { r.found }
  predicate IsMissing(r: BreedCheck) { !r.found }
  predicate FoundWithCare(r: BreedCheck) { r.found && r.hasCare }
  predicate FoundWithFood(r: BreedCheck) { r.found && r.hasFood }
  predicate FoundWithBoth(r: BreedCheck) { r.found && r.hasCare && r.hasFood }
  predicate CareFlag(r: BreedCheck) { r.hasCare }
  predicate FoodFlag(r: BreedCheck) { r.hasFood }
  predicate BothFlags(r: BreedCheck) { r.hasCare && r.hasFood }

  /** The result of `checkBreed` for each breed, in order. */
  function Checks(breeds: seq<string>, fetch: string -> Response): seq<BreedCheck> {
    Map(breeds, b => BreedCheckOf(b, fetch))
  }

  /** The results for one more breed are the results so far and its own. */
  lemma ChecksStep(breeds: seq<string>, i: nat, fetch: string -> Response)
    requires i < |breeds|
    ensures Checks(breeds[..i + 1], fetch) == Checks(breeds[..i], fetch) + [BreedCheckOf(breeds[i], fetch)]
  {
    MapStep(breeds, b => BreedCheckOf(b, fetch), i);
  }

  /** The five arrays hold the filters of `results`. */
  predicate TallyOf(t: Tally, results: seq<BreedCheck>) {
    && t.found == Filter(results, IsFound)
    && t.notFound == Filter(results, IsMissing)
    && t.foundWithCare == Filter(results, FoundWithCare)
    && t.foundWithFood == Filter(results, FoundWithFood)
    && t.foundWithBoth == Filter(results, FoundWithBoth)
  }

  /** Pushing one result into the arrays it belongs to. */
  function Push(t: Tally, r: BreedCheck): Tally {
    if r.found then
      t.(found := t.found + [r],
         foundWithCare := if r.hasCare then t.foundWithCare + [r] else t.foundWithCare,
         foundWithFood := if r.hasFood then t.foundWithFood + [r] else t.foundWithFood,
         foundWithBoth := if r.hasCare && r.hasFood then t.foundWithBoth + [r] else t.foundWithBoth)
    else
      t.(notFound := t.notFound + [r])
  }

  /** Pushing a result keeps the arrays the filters of the results so far. */
  lemma PushKeepsTally(t: Tally, results: seq<BreedCheck>, r: BreedCheck)
    requires TallyOf(t, results)
    ensures TallyOf(Push(t, r), results + [r])
  {
    FilterAppend(results, r, IsFound);
    FilterAppend(results, r, IsMissing);
    FilterAppend(results, r, FoundWithCare);
    FilterAppend(results, r, FoundWithFood);
    FilterAppend(results, r, FoundWithBoth);
  }

  /** `testAllBreeds`: check each breed in turn and push its result into the
      arrays it belongs to. */
  method TestAllBreeds(breeds: seq<string>, fetch: string -> Response) returns (t: Tally)
    ensures t.found == Filter(Checks(breeds, fetch), IsFound)
    ensures t.notFound == Filter(Checks(breeds, fetch), IsMissing)
    ensures t.foundWithCare == Filter(Checks(breeds, fetch), FoundWithCare)
    ensures t.foundWithFood == Filter(Checks(breeds, fetch), FoundWithFood)
    ensures t.foundWithBoth == Filter(Checks(breeds, fetch), FoundWithBoth)
  {
    t := Tally([], [], [], [], []);
    for i := 0 to |breeds|
      invariant TallyOf(t, Checks(breeds[..i], fetch))
    {
      var result := CheckBreed(breeds[i], fetch);
      PushKeepsTally(t, Checks(breeds[..i], fetch), result);
      ChecksStep(breeds, i, fetch);
      ghost var pushed := Push(t, result);
      if result.found {
        t := t.(found := t.found + [result]);
        if result.hasCare { t := t.(foundWithCare := t.foundWithCare + [result]); }
        if result.hasFood { t := t.(foundWithFood := t.foundWithFood + [result]); }
        if result.hasCare && result.hasFood { t := t.(foundWithBoth := t.foundWithBoth + [result]); }
      } else {
        t := t.(notFound := t.notFound + [result]);
      }
      assert t == pushed;
    }
    assert breeds[..|breeds|] == breeds;
  }

  /** Every breed lands in exactly one of `found` and `notFound`. */
  lemma FoundAndNotFoundSplitBreeds(breeds: seq<string>, fetch: string -> Response)
    ensures |Filter(Checks(breeds, fetch), IsFound)| + |Filter(Checks(breeds, fetch), IsMissing)|
         == |breeds|
    ensures multiset(Filter(Checks(breeds, fetch), IsFound))
          + multiset(Filter(Checks(breeds, fetch), IsMissing))
         == multiset(Checks(breeds, fetch))
  {
    FilterSplit(Checks(breeds, fetch), IsFound, IsMissing);
  }

  /** `foundWithCare`, `foundWithFood` and `foundWithBoth` are the found
      results with the matching flags, in the order they were found. */
  lemma FlaggedAreFoundFiltered(results: seq<BreedCheck>)
    ensures Filter(results, FoundWithCare) == Filter(Filter(results, IsFound), CareFlag)
    ensures Filter(results, FoundWithFood) == Filter(Filter(results, IsFound), FoodFlag)
    ensures Filter(results, FoundWithBoth) == Filter(Filter(results, IsFound), BothFlags)
  {
    FilterFilter(results, IsFound, CareFlag, FoundWithCare);
    FilterFilter(results, IsFound, FoodFlag, FoundWithFood);
    FilterFilter(results, IsFound, BothFlags, FoundWithBoth);
  }

  /** `foundWithBoth` is the part of `foundWithCare` that also has the feeding
      section, so each flagged list keeps the order of `found`. */
  lemma BothWithinCare(results: seq<BreedCheck>)
    ensures Filter(results, FoundWithBoth) == Filter(Filter(results, FoundWithCare), FoodFlag)
    ensures IsSubsequence(Filter(results, FoundWithCare), Filter(results, IsFound))
    ensures IsSubsequence(Filter(results, FoundWithBoth), Filter(results, FoundWithCare))
  {
    FilterFilter(results, FoundWithCare, FoodFlag, FoundWithBoth);
    FlaggedAreFoundFiltered(results);
    FilterIsSubsequence(Filter(results, IsFound), CareFlag);
    FilterIsSubsequence(Filter(results, FoundWithCare), FoodFlag);
  }
}
