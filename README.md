# Breed-page and webhook checkers of the cat-breed chatbot

This project models the two checking scripts of the cat-breed chatbot's
webhook server.

- `test-all-breeds.js` builds a URL slug from a Russian breed name
  (`normalizeBreed`). It lower-cases the name and deletes coat and "cat"
  descriptor words. It applies at most one hand-written override, trying the
  longest key first. It transliterates Cyrillic to Latin and cleans the
  result up into `[a-z0-9-]`. It then tries ten candidate addresses on the
  breed-information site, in a fixed order, and takes the first page that is
  acceptable (`checkBreed`). Last, it sorts the results of all breeds into
  found and not-found lists, and into care, food and both sub-lists
  (`testAllBreeds`).
- `test-all-100-breeds.js` asks the webhook about every breed under three
  intents. It classifies each reply as a success or an error
  (`testRequest`) and counts the successes. It splits the breeds into
  "perfect" and "problem" breeds, and splits the problem breeds again into
  those with error replies and those with short replies (`testAllBreeds`).

Modules:

- `JsText` (js_text.dfy) holds the JavaScript string primitives these
  scripts use, written out as functions over `string`. It covers `\s`,
  `trim`, `toLowerCase`, `includes`, `replace` with a string pattern,
  `replace(/\s+/g, …)` and lengths counted in UTF-16 code units.
- `Lists` (lists.dfy) holds `Array.prototype.filter` and the partition facts
  the tallies rest on.
- `Slug` (slug.dfy) models `normalizeBreed`. `SlugExamples`
  (slug_examples.dfy) proves the slugs the overrides were written for.
- `PageSearch` (page_search.dfy) models `checkBreed` and `testAllBreeds` of
  test-all-breeds.js.
- `WebhookCheck` (webhook_check.dfy) models test-all-100-breeds.js.

The network is a parameter. In `PageSearch`, `fetch: string -> Response`
gives each address's response: a failed request, or a page with its
status, body and the texts of its `h2` elements. In `WebhookCheck`,
`ask(breed, intentName)` gives each webhook reply: a failed request with
its message, or a reply whose `fulfillmentText` is present or missing.
Loops that push into arrays or bump counters are methods with loop
invariants. Each method is proved equal to a specification function, and
the properties are proved about those functions as lemmas.

Three behaviours of `normalizeBreed` and `checkBreed` are easy to misread:

- Words of a multi-word name are not joined with hyphens. Transliteration
  maps whitespace to the empty string, so the words are glued together.
  The later `replace(/\s+/g, "-")` never finds any whitespace.
  `SlugExamples.TurkishAngora` proves that "Турецкая ангора" gives
  "turetskayaangora".
- The descriptor words are stripped before the overrides are looked up.
- The second ending of every candidate address is `-koshka.html`.

## Model

| member | source | states |
|---|---|---|
| `JsText.LowerChar` | test-all-breeds.js:53 | one character lowers to one character, except U+0130; lower-case Latin and Cyrillic letters and whitespace are unchanged, and so is every character with no case mapping (digits, `-`, other symbols): only A–Z, U+0400–U+042F, U+0130 and U+212A change |
| `JsText.ToLower` | test-all-breeds.js:53 | the lower-cased string has between one and two characters per input character |
| `JsText.LowerCyrillicAlphabet` | test-all-breeds.js:53 | "АБВГДЕЁЖЗИЙКЛМНОПРСТУФХЦЧШЩЪЫЬЭЮЯ" lowers to "абвгдеёжзийклмнопрстуфхцчшщъыьэюя" |
| `JsText.LowerLatinAlphabet` | test-all-breeds.js:53 | "ABCDEFGHIJKLMNOPQRSTUVWXYZ" lowers to "abcdefghijklmnopqrstuvwxyz" |
| `JsText.ToLowerAppend` | test-all-breeds.js:53 | lower-casing distributes over concatenation |
| `JsText.ToLowerIdempotent` | test-all-breeds.js:53 | lower-casing twice is lower-casing once |
| `JsText.ToLowerUnchanged` | test-all-breeds.js:53 | text already in lower case is unchanged |
| `JsText.ToLowerNoSpace` | test-all-breeds.js:53 | lower-casing introduces no whitespace and never shortens |
| `JsText.Trim` | test-all-breeds.js:54 | `trim` returns a slice of the input with only whitespace cut from either end, and the result neither starts nor ends with whitespace |
| `JsText.TrimUntouched` | test-all-breeds.js:54 | a string without whitespace at either end is its own trim |
| `JsText.TrimNoSpace` | test-all-breeds.js:54 | a string without whitespace is its own trim |
| `JsText.IndexOf` | test-all-breeds.js:66 | the first occurrence at or after the start position, or none anywhere after it |
| `JsText.IncludesIff` | test-all-breeds.js:66 | `includes` holds exactly when the pattern occurs at some position |
| `JsText.NotIncludesMissingChar` | test-all-breeds.js:66 | a pattern with a letter the text lacks is not included |
| `JsText.ReplaceFirst` | test-all-breeds.js:67 | `replace` with a string pattern rewrites only the first occurrence, and returns the input when there is none |
| `JsText.ReplaceSpaceRuns` | test-all-breeds.js:68 | `replace(/\s+/g, " ")` leaves only single spaces, none next to other whitespace, and a leading non-whitespace character stays first |
| `JsText.ReplaceSpaceRunsAppend` | test-all-breeds.js:68 | the whitespace-run replacement works run by run: cut before a character that is not whitespace, the two halves are rewritten apart |
| `JsText.ReplaceSpaceRunsAfterWord` | test-all-breeds.js:68 | a whitespace-free word is copied as it is |
| `JsText.ReplaceSpaceRunsRun` | test-all-breeds.js:68 | a whole whitespace run, of any length and any whitespace characters, becomes exactly one copy of the replacement |
| `JsText.ReplaceSpaceRunsWordThenRun` | test-all-breeds.js:68 | a word followed by a whitespace run becomes the word followed by the replacement |
| `JsText.ReplaceSpaceRunsKeepsWord` | test-all-breeds.js:68 | a non-empty whitespace-free word survives in one piece, right after what precedes it becomes |
| `JsText.TrimKeepsWord` | test-all-breeds.js:68 | `trim` keeps every non-empty whitespace-free word of its input |
| `JsText.CollapsedTrim` | test-all-breeds.js:68 | collapsing whitespace runs and then trimming leaves only single spaces between words |
| `JsText.ReplaceSpaceRunsNoSpace` | test-all-breeds.js:68 | replacing whitespace runs by a whitespace-free string leaves no whitespace and adds no other character |
| `JsText.ReplaceSpaceRunsIdentity` | test-all-breeds.js:88 | a string without whitespace is unchanged by the whitespace-run replacement |
| `JsText.Utf16Length` | test-all-breeds.js:122 | `length` counts UTF-16 code units, between one and two per character |
| `JsText.Utf16Prefix` | test-all-100-breeds.js:61 | `substring(0, n)` is a prefix of at most `n` code units, and the longest one |
| `JsText.Utf16PrefixWhole` | test-all-100-breeds.js:61 | a string of at most `n` code units is its own prefix |
| `Lists.Filter` | test-all-100-breeds.js:136-150 | `filter` keeps exactly the elements satisfying the predicate, and never lengthens |
| `Lists.FilterAppend` | test-all-breeds.js:180-187 | pushing an element onto the filtered list is filtering the longer list |
| `Lists.FilterIsSubsequence` | test-all-100-breeds.js:136-150 | a filter keeps the order of what it keeps |
| `Lists.FilterSplit` | test-all-breeds.js:180-187 | a predicate and its negation split a list: lengths and multisets add up |
| `Lists.FilterFilter` | test-all-breeds.js:182-184 | filtering twice is filtering by the conjunction |
| `Slug.StemAtIff` | test-all-breeds.js:55-61 | a descriptor stem matches at a position exactly when each of its character classes accepts the letter it meets |
| `Slug.MatchEnd` | test-all-breeds.js:55-61 | a match starts exactly when the string starts with whitespace and the stem follows the whole whitespace run; it then ends after the stem, within the string, and never right before whitespace; the ending letter is taken whenever one follows the stem, and nothing but that letter and whitespace lies between the stem and the end, so together these fix the end |
| `Slug.RemoveDescriptor` | test-all-breeds.js:55-61 | a descriptor pass never lengthens the string |
| `Slug.RemoveDescriptorGluesWord` | test-all-breeds.js:55-61 | a descriptor word in the middle of a string (`DescriptorWordThen`) is deleted with the whitespace on both sides, gluing the words around it; the pass goes on after it |
| `Slug.MatchEndOfWord` | test-all-breeds.js:55-61 | the match at such a word ends exactly where the whitespace after it ends |
| `Slug.RemoveDescriptorDeletesWord` | test-all-breeds.js:55-61 | a descriptor word after a word and a space, as the bare stem or the stem and one ending letter, is deleted together with the space |
| `Slug.RemoveDescriptorKeepsHead` | test-all-breeds.js:55-61 | a match starts only at whitespace, so a pass keeps a leading character that is not whitespace and goes on after it |
| `Slug.RemoveDescriptorDeletes` | test-all-breeds.js:55-61 | a descriptor pass only deletes characters: what it keeps is an ordered subsequence of its input |
| `Slug.RemoveDescriptorAfterWord` | test-all-breeds.js:55-61 | a pass leaves a leading whitespace-free word alone and continues after it |
| `Slug.RemoveDescriptorsNoSpace` | test-all-breeds.js:55-61 | all seven passes leave a string without whitespace unchanged |
| `Slug.RemoveDescriptorKeepsPrefix` | test-all-breeds.js:55-61 | a pass keeps every whitespace-free prefix, so a descriptor at the very start survives |
| `Slug.RemoveDescriptorsKeepPrefix` | test-all-breeds.js:55-61 | all seven passes keep every whitespace-free prefix |
| `Slug.NoMatchAfterSpace` | test-all-breeds.js:55-61 | a word that leaves the stem at some letter is not deleted |
| `Slug.MatchUpToLastLetter` | test-all-breeds.js:57 | a word of stem, ending letter and one more letter is matched up to its last letter |
| `Slug.LeavesLastLetter` | test-all-breeds.js:57 | such a word is deleted except for its last letter, because the pattern takes one ending letter only |
| `Slug.InsertByKeyLengthAdds` | test-all-breeds.js:63 | an insertion step adds the entry and nothing else |
| `Slug.InsertByKeyLengthSorted` | test-all-breeds.js:63 | an insertion step keeps the list sorted by descending key length |
| `Slug.SortByKeyLengthSorted` | test-all-breeds.js:63 | `SortByKeyLength`, the sort of the override entries, is a permutation of its input, longest key first |
| `Slug.SortedCasesIsSorted` | test-all-breeds.js:41-50 | the stable sort of the override table gives the order 8, 8, 8, 7, 7, 6, 6, 4, with ties in table order |
| `Slug.SortTable` | test-all-breeds.js:63 | the stable sort of any table with the override table's key lengths |
| `Slug.FirstKeyIn` | test-all-breeds.js:65-66 | the first override in sorted order whose key occurs, or none occurs |
| `Slug.ApplyOverride` | test-all-breeds.js:65-75 | no key occurs: the string is unchanged. Otherwise, with `t` the text after the first occurrence of the found key is replaced by its value and whitespace is collapsed and trimmed: the result is the value when `t` is the value or starts with it and a space, and `t` otherwise; either way it holds the value, is single-spaced with no whitespace at either end, and does not start with the value and a space |
| `Slug.OverrideKeepsValue` | test-all-breeds.js:67-68 | replacing the key by a non-empty whitespace-free value, collapsing and trimming keeps the value in one piece and leaves a single-spaced, trimmed string |
| `Slug.CutToValueShape` | test-all-breeds.js:69-72 | cutting the text down to the value, or keeping it, leaves a trimmed, single-spaced string that holds the value and does not start with the value and a space |
| `Slug.FirstKeyAt` | test-all-breeds.js:65-66 | the override found is the first in sorted order whose key occurs |
| `Slug.LongestKeyWins` | test-all-breeds.js:63-71 | the override applied has a key that occurs, and no longer key occurs |
| `Slug.IsOverrideValue` | test-all-breeds.js:77 | a string equal to an override value is already a slug of at most 8 letters |
| `Slug.TranslitChar` | test-all-breeds.js:80-83 | one character transliterates to slug characters only; a slug character is kept; a letter of the table becomes its entry; whitespace and any character outside the table are dropped |
| `Slug.TranslitDropsSpace` | test-all-breeds.js:78-84 | a whitespace character between two words is dropped, gluing the words together |
| `Slug.Transliterate` | test-all-breeds.js:78-84 | the transliteration is made of `[a-z0-9-]` only |
| `Slug.TransliterateAppend` | test-all-breeds.js:78-84 | transliteration works character by character |
| `Slug.TransliterateKeepsSlugChars` | test-all-breeds.js:81 | characters in `[a-z0-9-]` are kept as they are |
| `Slug.KeepSlugChars` | test-all-breeds.js:89 | the result is exactly the input filtered by `[a-z0-9-]`: every allowed character kept, in order, and nothing else; a clean string is unchanged |
| `Slug.DashRunEnd` | test-all-breeds.js:90 | the end of a run of hyphens |
| `Slug.CollapseDashes` | test-all-breeds.js:90 | collapsing hyphen runs leaves no `--`, only deletes characters (the result is an ordered subsequence of the input), and keeps emptiness and a leading hyphen |
| `Slug.CollapseDashesKeepsLetters` | test-all-breeds.js:90 | every character other than a hyphen is kept, in order |
| `Slug.CollapseDashesAppend` | test-all-breeds.js:90 | collapsing works run by run: a cut that splits no hyphen run lets both halves be collapsed apart |
| `Slug.CollapseDashesRun` | test-all-breeds.js:90 | a whole hyphen run, however long, becomes exactly one hyphen |
| `Slug.CollapseDashesDouble` | test-all-breeds.js:90 | `--` anywhere collapses as `-` does |
| `Slug.CollapseDashesKeeps` | test-all-breeds.js:90 | a string without `--` is unchanged |
| `Slug.StripEdgeDashes` | test-all-breeds.js:91 | the result is the input with at most one character cut at each end, every cut character a hyphen, and neither end of the result is a hyphen |
| `Slug.Cleanup` | test-all-breeds.js:87-91 | the clean-up always yields a slug: `[a-z0-9-]` only, no `--`, no hyphen at either end |
| `Slug.CleanupKeepsSlug` | test-all-breeds.js:87-91 | a slug passes the clean-up unchanged |
| `Slug.NormalizeBreed` | test-all-breeds.js:32-94 | for every name, the result contains only `a-z`, `0-9` and `-`, never `--`, and neither starts nor ends with `-` |
| `Slug.OverrideValuesAreSlugs` | test-all-breeds.js:41-50 | every override value is already a slug, non-empty and without whitespace |
| `Slug.NormalizeOverrideValue` | test-all-breeds.js:69-77 | when the overrides leave exactly an override value, that value is the slug and transliteration is skipped |
| `SlugExamples.OneWord` | test-all-breeds.js:52-61 | a one-word name has nothing to trim and no descriptor to remove |
| `SlugExamples.OverrideKept` | test-all-breeds.js:65-73 | an override whose result is not its value is kept as it is |
| `SlugExamples.OverrideToValue` | test-all-breeds.js:69-71 | an override whose result is its value gives the value |
| `SlugExamples.ValueKept` | test-all-breeds.js:77-91 | an override value skips transliteration and passes the clean-up |
| `SlugExamples.MaineCoon` | test-all-breeds.js:32-94 | "Мейн-кун" becomes "mejn-kun" |
| `SlugExamples.RagdollE` | test-all-breeds.js:47-49 | "Рэгдолл" is rewritten by its 7-letter key and becomes "regdoll" |
| `SlugExamples.Ragdoll` | test-all-breeds.js:47-49 | "Регдолл" is rewritten by its 7-letter key, not "регдол", and becomes "regdoll" |
| `SlugExamples.RagdollEKey` | test-all-breeds.js:63-66 | for "рэгдолл" the first key found is "рэгдолл" |
| `SlugExamples.RagdollKey` | test-all-breeds.js:63-66 | for "регдолл" the first key found is "регдолл", ahead of "регдол" |
| `SlugExamples.MaineCoonKey` | test-all-breeds.js:63-66 | for "мейн-кун" the first key found is "мейн" |
| `SlugExamples.CoatStripped` | test-all-breeds.js:55-61 | after a word, a short-hair coat word with a two-letter ending is reduced to its last letter |
| `SlugExamples.CoatLeavesLastLetter` | test-all-breeds.js:57 | "<word> короткошёрстная"-style names are normalized as the word glued to the coat word's last letter, so "Британская короткошёрстная" yields "britanskayaya"-style slugs |
| `SlugExamples.ShortHairWord` | test-all-breeds.js:57 | "короткошёрстная" spells the short-hair stem, one ending letter and one letter more |
| `SlugExamples.BritishGlued` | test-all-breeds.js:55-61 | "Британская короткошёрстная" is normalized as "Британскаяя": the pattern takes only the "а" of the ending "ая" |
| `SlugExamples.BritishKey` | test-all-breeds.js:63-66 | for "британскаяя" the first key found is "британск" |
| `SlugExamples.SecondWordKept` | test-all-breeds.js:55-61 | a second word whose first letter starts no descriptor stem survives all seven passes |
| `SlugExamples.SiameseCat` | test-all-breeds.js:55 | "сиамская кошка" loses " кошка" in the first pass |
| `SlugExamples.CatBetweenWords` | test-all-breeds.js:55 | "ab кошка cd" becomes "abcd": the first pass glues the words around "кошка" |
| `SlugExamples.TranslitAlphabet` | test-all-breeds.js:32-38 | the Russian alphabet "абвгдеёжзийклмнопрстуфхцчшщъыьэюя" transliterates to "abvgdeyozhziyklmnoprstufhtschshschyeyuya" |
| `SlugExamples.TurkishAngora` | test-all-breeds.js:32-94 | "Турецкая ангора" becomes "turetskayaangora": the two words are glued, not hyphenated |
| `SlugExamples.BritishShortHair` | test-all-breeds.js:32-94 | "Британская короткошёрстная" becomes "britanskayaya" |
| `PageSearch.PossibleUrls` | test-all-breeds.js:100-111 | exactly ten addresses: the five categories in order with `<slug>.html`, then the same five with `<slug>-koshka.html` |
| `PageSearch.PossibleUrlsDistinct` | test-all-breeds.js:108-111 | no address is tried twice |
| `PageSearch.DifferentCategories` | test-all-breeds.js:100-109 | addresses under different categories differ |
| `PageSearch.DifferentEndings` | test-all-breeds.js:109-110 | the two addresses under one category differ |
| `PageSearch.HeadingMatches` | test-all-breeds.js:129-135 | a heading matches a section exactly when its trimmed text includes the title; the equality test adds nothing |
| `PageSearch.HasHeadingAppend` | test-all-breeds.js:128-136 | one more heading adds a match exactly when it matches |
| `PageSearch.ScanFlagIff` | test-all-breeds.js:128-136 | the flag the `each` scan holds after some headings is set exactly when one of them matches |
| `PageSearch.ScanHeadings` | test-all-breeds.js:124-136 | hasCare/hasFood are true exactly when some trimmed `h2` text contains "Рекомендации по уходу" / "Организация питания" |
| `PageSearch.Acceptable` | test-all-breeds.js:120-122 | a failed request is never acceptable, and an acceptable page has more than 5000 characters |
| `PageSearch.FirstAcceptable` | test-all-breeds.js:113-150 | the first address, in list order, whose response is status 200, not the not-found page and longer than 10000; failed requests are passed over |
| `PageSearch.BreedCheckOf` | test-all-breeds.js:97-160 | found exactly when some candidate page is acceptable; then the url is the first acceptable one and the flags are its headings'; otherwise url is null and both flags false |
| `PageSearch.CheckBreed` | test-all-breeds.js:97-160 | the loop returns what `BreedCheckOf` specifies |
| `PageSearch.PushKeepsTally` | test-all-breeds.js:180-187 | pushing a result keeps the five arrays equal to the filters of the results so far |
| `PageSearch.TestAllBreeds` | test-all-breeds.js:163-191 | the five arrays are the found, not-found, found-with-care, found-with-food and found-with-both filters of the per-breed results, in breed order |
| `PageSearch.FoundAndNotFoundSplitBreeds` | test-all-breeds.js:174-187 | the lengths of found and notFound add up to the number of breeds, and the two lists together hold every result |
| `PageSearch.FlaggedAreFoundFiltered` | test-all-breeds.js:180-184 | foundWithCare/Food/Both are exactly the found results with the matching flags |
| `PageSearch.BothWithinCare` | test-all-breeds.js:182-184 | foundWithBoth is the part of foundWithCare with the food flag, and each list keeps the order of the one it is drawn from |
| `WebhookCheck.IntentNamesDistinct` | test-all-100-breeds.js:31-35 | the three intent names differ, so the per-breed object has one entry per intent |
| `WebhookCheck.Classify` | test-all-100-breeds.js:51-62 | isError exactly when the text contains one of the three error phrases; success exactly when it is longer than 50 and not an error; the preview is a prefix of at most 100 code units |
| `WebhookCheck.TestRequest` | test-all-100-breeds.js:38-71 | a failed request gives success false, length 0, isError true; a missing text gives length 0 and no success; a success is never an error and is longer than 50 |
| `WebhookCheck.TestRequestIsError` | test-all-100-breeds.js:53-55 | isError exactly when the request failed or the text contains "не смог найти", "К сожалению" or "Not available" |
| `WebhookCheck.TestRequestSuccess` | test-all-100-breeds.js:52-58 | success exactly when a reply came back with more than 50 code units and no error phrase |
| `WebhookCheck.MissingTextIsEmpty` | test-all-100-breeds.js:51 | a missing text is classified as the empty text |
| `WebhookCheck.MarkerMakesError` | test-all-100-breeds.js:53-58 | any reply containing an error phrase is an error and not a success, however long |
| `WebhookCheck.BreedResultOf` | test-all-100-breeds.js:74-90 | one verdict per intent, in intent order, each the verdict on the reply to that intent |
| `WebhookCheck.TestBreed` | test-all-100-breeds.js:74-90 | the loop over intents records what `BreedResultOf` specifies |
| `WebhookCheck.TestAllBreeds` | test-all-100-breeds.js:97-112 | allResults holds each breed's verdicts in order, totalRequests is the number of breeds times 3, successCount is the number of (breed, intent) pairs with success, and successCount ≤ totalRequests |
| `WebhookCheck.TotalSuccessesBound` | test-all-100-breeds.js:106-112 | there are no more successes than requests |
| `WebhookCheck.IntentColumn` | test-all-100-breeds.js:123 | one intent's verdicts, one per breed, in breed order |
| `WebhookCheck.IntentColumnStep` | test-all-100-breeds.js:123-124 | an intent's success count grows by one for each further breed that succeeded under it |
| `WebhookCheck.BreedSuccesses` | test-all-100-breeds.js:106-111 | a breed's successes are the sum over its three intents |
| `WebhookCheck.SuccessesByIntent` | test-all-100-breeds.js:106-124 | the per-intent success counts add up to successCount |
| `WebhookCheck.SuccessesAndErrorsFit` | test-all-100-breeds.js:124-125 | under one intent, successes plus errors are at most the number of breeds |
| `WebhookCheck.ResultsConsistent` | test-all-100-breeds.js:57-60 | no verdict is both a success and an error |
| `WebhookCheck.Perfect` | test-all-100-breeds.js:186-187 | a perfect breed with consistent verdicts has no error reply |
| `WebhookCheck.HasProblem` | test-all-100-breeds.js:136-138 | a breed is a problem breed exactly when it is not perfect |
| `WebhookCheck.HasErrorReply` | test-all-100-breeds.js:144-146 | with consistent verdicts, a breed with an error reply is a problem breed |
| `WebhookCheck.HasShortReply` | test-all-100-breeds.js:148-150 | a breed with a short reply is a problem breed |
| `WebhookCheck.PerfectAndProblemSplit` | test-all-100-breeds.js:136-138 | perfectBreeds and problemBreeds split allResults: each result is in exactly one, lengths add up, and both keep the order of allResults |
| `WebhookCheck.ProblemsClassified` | test-all-100-breeds.js:144-150 | breedsWithErrors and breedsWithShortAnswers are ordered sub-lists of problemBreeds, and every problem breed is in at least one |
| `WebhookCheck.ErrorsAreProblems` | test-all-100-breeds.js:144-146 | a breed with an error reply is a problem breed, so filtering problemBreeds or allResults for errors gives the same list |
| `WebhookCheck.FilterSame` | test-all-100-breeds.js:144-146 | two predicates that agree on a list filter it alike |

## Left out

- HTTP traffic: `axios.get` and `axios.post`, their headers and timeouts,
  and the `setTimeout` delays between requests. Each response is an input
  value. A thrown request (network error, timeout, or a status the client
  rejects) is `Failed`. The error message is kept for the webhook requests.
- HTML parsing with cheerio: a page's `h2` elements come as the sequence of
  their texts.
- Console output, `process.stdout.write`, `process.exit`, and the
  "first 20 / … и еще N" listings. Only the values they print are modelled.
- The `Math.round` percentages and average lengths: they are floating-point
  divisions and only feed the printed report.
- test-all-100-full.js, test-100-breeds-fast.js and test-sample-breeds.js:
  file persistence, resuming from saved results, timing and JSON reports.
  Their `testRequest` classification is the same as test-all-100-breeds.js
  and is modelled once, as `WebhookCheck.TestRequest`.
- test.js is a sequential HTTP smoke test with nothing to state. index.js
  and serv.js only forward the breed name to an external summary service.
- `toLowerCase` covers Latin and Cyrillic capitals (Ё and U+0400–U+040F
  included), U+0130 and U+212A. Other Unicode case mappings are left out:
  their results are dropped from the slug anyway.
- The `i` flag of the descriptor regular expressions is not modelled. It
  only matters for a few rare Cyrillic variant letters (U+1C80–U+1C88)
  that survive lower-casing.
- `JsText.ReplaceSpaceRuns`: its own contract gives only the shape of the
  result. That every whitespace run becomes exactly one copy of the
  replacement and every other character is kept in order is stated by
  `ReplaceSpaceRunsAppend`, `ReplaceSpaceRunsAfterWord` and
  `ReplaceSpaceRunsRun`, which together fix the result for every input.
- `Slug.CollapseDashes`: its own contract gives the shape and that only
  characters are deleted. That the other characters all stay and each run
  becomes one hyphen is stated by `CollapseDashesKeepsLetters`,
  `CollapseDashesAppend` and `CollapseDashesRun`.
- `Slug.RemoveDescriptor`: its own contract gives only the length bound.
  `MatchEnd`'s contract fixes where each match ends. What a pass does is
  stated by lemmas for these cases: a leading character that is not
  whitespace (`RemoveDescriptorKeepsHead`), a leading word
  (`RemoveDescriptorAfterWord`), a descriptor word in the middle
  (`RemoveDescriptorGluesWord`) or at the end
  (`RemoveDescriptorDeletesWord`), a word that breaks off the stem
  (`NoMatchAfterSpace`), and a word one letter longer than stem and
  ending (`LeavesLastLetter`).
- `JsText.ReplaceFirst`: `String.prototype.replace` expands `$&`, `$1`
  and the other `$` patterns in its replacement string. The model inserts
  the replacement as it is. No override value contains `$`, so no result
  differs.
- `JsText.Utf16Prefix`: `substring(0, 100)` can split a surrogate pair,
  and the model cuts only at character boundaries. The preview can then be
  one code unit shorter than the source's.
- `WebhookCheck.TextOf`: a `fulfillmentText` that is present but not a
  string (a number, say) is not modelled. The reply is either a string or
  missing.
- The per-breed `intents` object keyed by intent name is modelled as the
  sequence of its values in intent order. That is the order
  `Object.values` gives, since the three names differ and are inserted in
  that order.
- `fetch` and `ask` are functions, so a repeated address or breed gets the
  same response each time. The breed list names "Тонкинская" twice, and
  "Рэгдолл" and "Регдолл" share a slug. The source requests such pages again,
  and the live site could answer differently the second time.
- `Array.prototype.sort` is modelled as a stable insertion sort.
  ECMAScript requires `sort` to be stable since the 2019 edition.
