/**
  The webhook checker of test-all-100-breeds.js: each breed is asked about
  under each of three intents, each reply text is classified as a success
  or an error, the successes are counted, and the breeds are sorted into
  "perfect" ones and "problem" ones, the latter again into those with error
  replies and those with short replies.

  The webhook is not called: `ask(breed, intentName)` gives the reply to
  each request.
 */
module WebhookCheck {
  import opened JsText
  import opened Lists

  // ---------------------------------------------------------------------------
  // Intents and replies

  /** An intent of the chatbot: the name sent to the webhook and the name
      shown in the report. */
  datatype Intent = Intent(name: string, displayName: string)

  /** The three intents, in the order every breed is asked about them. */
  const Intents: seq<Intent> := [
    Intent("AskBreedInfo", "Описание породы"),
    Intent("AskCareInfo", "Уход"),
    Intent("AskFoodInfo", "Питание")
  ]

  /** No two intents share a name, so the per-breed object keyed by intent
      name holds one entry per intent, in intent order. */
  lemma IntentNamesDistinct()
    ensures forall i, j :: 0 <= i < j < |Intents| ==> Intents[i].name != Intents[j].name
  {
    assert Intents[0].name[3] == 'B' && Intents[1].name[3] == 'C' && Intents[2].name[3] == 'F';
  }

  /** What one POST to the webhook gives: a request that threw, with its
      error message, or a reply whose `fulfillmentText` is present (`Some`)
      or missing (`None`; also a missing body and a `null` text). */
  datatype Reply = Failed(message: string) | Answered(fulfillmentText: Option<string>)

  /** The verdict on one request. `preview` is absent when the request
      threw, `error` is present only then. */
  datatype TestResult = TestResult(success: bool, length: nat, isError: bool,
                                   preview: Option<string>, error: Option<string>)

  /** The phrases by which the chatbot says it found nothing. */
  const ErrorMarkers: seq<string> := ["не смог найти", "К сожалению", "Not available"]

  /** A reply must be longer than this, in UTF-16 code units, to count. */
  const MinAnswerLength: nat := 50

  /** The preview keeps at most this many UTF-16 code units. */
  const PreviewLength: nat := 100

  /** The text mentions one of the error phrases. */
  predicate HasErrorMarker(text: string) {
    exists m :: m in ErrorMarkers && Includes(text, m)
  }

  /** `response.data?.fulfillmentText || ""`: a missing text is the empty
      string (and so is an empty one). */
  function TextOf(fulfillmentText: Option<string>): (text: string)
    ensures fulfillmentText.None? ==> text == []
    ensures fulfillmentText.Some? ==> text == fulfillmentText.value
  {
    match fulfillmentText
    case None => ""
    case Some(t) => t
  }

  /** The verdict on a reply text: a success is a long enough reply without
      an error phrase; the preview is the text's first 100 code units. */
  function Classify(text: string): (r: TestResult)
    ensures r.length == Utf16Length(text)
    ensures r.isError <==> HasErrorMarker(text)
    ensures r.success <==> Utf16Length(text) > MinAnswerLength && !HasErrorMarker(text)
    ensures r.preview.Some? && r.preview.value <= text
    ensures Utf16Length(r.preview.value) <= PreviewLength
    ensures Utf16Length(text) <= PreviewLength ==> r.preview == Some(text)
    ensures r.error == None
  {
    var hasResponse := Utf16Length(text) > MinAnswerLength;
    var isError := Includes(text, ErrorMarkers[0])
                || Includes(text, ErrorMarkers[1])
                || Includes(text, ErrorMarkers[2]);
    assert Utf16Length(text) <= PreviewLength ==> Utf16Prefix(text, PreviewLength) == text by {
      if Utf16Length(text) <= PreviewLength {
        Utf16PrefixWhole(text, PreviewLength);
      }
    }
    TestResult(hasResponse && !isError, Utf16Length(text), isError,
               Some(Utf16Prefix(text, PreviewLength)), None)
  }

  /** `testRequest`: the verdict on what the webhook gave. A request that
      threw is an error of length 0; a missing text is classified as the
      empty one. Whatever happened, a success is a reply of more than 50 code
      units that is not an error. */
  function TestRequest(reply: Reply): (r: TestResult)
    ensures reply.Failed? ==>
              !r.success && r.length == 0 && r.isError
              && r.preview == None && r.error == Some(reply.message)
    ensures reply.Answered? ==> r.error == None && r.preview.Some?
    ensures reply.Answered? && reply.fulfillmentText.None? ==>
              !r.success && r.length == 0 && !r.isError && r.preview == Some("")
    ensures r.success ==> !r.isError && r.length > MinAnswerLength
  {
    match reply
    case Failed(message) => TestResult(false, 0, true, None, Some(message))
    case Answered(fulfillmentText) => Classify(TextOf(fulfillmentText))
  }

  /** A reply is an error exactly when it threw or mentions an error phrase. */
  lemma TestRequestIsError(reply: Reply)
    ensures TestRequest(reply).isError <==>
              reply.Failed? || HasErrorMarker(TextOf(reply.fulfillmentText))
  {
  }

  /** A reply is a success exactly when it came back with a text longer than
      50 code units that mentions no error phrase. */
  lemma TestRequestSuccess(reply: Reply)
    ensures TestRequest(reply).success <==>
              reply.Answered? && Utf16Length(TextOf(reply.fulfillmentText)) > MinAnswerLength
              && !HasErrorMarker(TextOf(reply.fulfillmentText))
  {
  }

  /** A missing text and an empty text get the same verdict. */
  lemma MissingTextIsEmpty()
    ensures TestRequest(Answered(None)) == TestRequest(Answered(Some("")))
  {
  }

  /** The error phrase at the start of the chatbot's "nothing found" replies
      makes any such reply an error, however long. */
  lemma MarkerMakesError(before: string, m: string, after: string)
    requires m in ErrorMarkers
    ensures TestRequest(Answered(Some(before + m + after))).isError
    ensures !TestRequest(Answered(Some(before + m + after))).success
  {
    var t := before + m + after;
    assert t[|before|..|before| + |m|] == m;
    IncludesSlice(t, m, |before|);
  }

  // ---------------------------------------------------------------------------
  // One breed

  /** What `testBreed` resolves to: the breed and the verdict for each intent,
      in intent order (the values of its object keyed by intent name). */
  datatype BreedResult = BreedResult(breed: string, intents: seq<TestResult>)

  /** The verdicts on `breed` under every intent, as `ask` answers them. */
  function BreedResultOf(breed: string, ask: (string, string) -> Reply): (r: BreedResult)
    ensures r.breed == breed && |r.intents| == |Intents|
    ensures forall j :: 0 <= j < |Intents| ==> r.intents[j] == TestRequest(ask(breed, Intents[j].name))
  {
    BreedResult(breed, seq(|Intents|, j requires 0 <= j < |Intents| => TestRequest(ask(breed, Intents[j].name))))
  }

  /** `testBreed`: ask about the breed under each intent in turn and record
      the verdict. */
  method TestBreed(breed: string, ask: (string, string) -> Reply) returns (r: BreedResult)
    ensures r == BreedResultOf(breed, ask)
  {
    var verdicts: seq<TestResult> := [];
    for j := 0 to |Intents|
      invariant |verdicts| == j
      invariant forall k :: 0 <= k < j ==> verdicts[k] == TestRequest(ask(breed, Intents[k].name))
    {
      var result := TestRequest(ask(breed, Intents[j].name));
      verdicts := verdicts + [result];
    }
    r := BreedResult(breed, verdicts);
  }

  // ---------------------------------------------------------------------------
  // All breeds: counting

  predicate Succeeded(t: TestResult) { t.success }
  predicate Errored(t: TestResult) { t.isError }

  /** The verdicts of every breed, in order. */
  function AllResults(breeds: seq<string>, ask: (string, string) -> Reply): seq<BreedResult> {
    Map(breeds, b => BreedResultOf(b, ask))
  }

  /** The number of (breed, intent) pairs whose request succeeded. */
  function TotalSuccesses(results: seq<BreedResult>): nat {
    if results == [] then 0
    else TotalSuccesses(results[..|results| - 1]) + |Filter(results[|results| - 1].intents, Succeeded)|
  }

  /** The results of one more breed are the results so far and its own. */
  lemma AllResultsStep(breeds: seq<string>, i: nat, ask: (string, string) -> Reply)
    requires i < |breeds|
    ensures AllResults(breeds[..i + 1], ask) == AllResults(breeds[..i], ask) + [BreedResultOf(breeds[i], ask)]
  {
    MapStep(breeds, b => BreedResultOf(b, ask), i);
  }

  /** One more verdict adds one success when it is a success. */
  lemma SuccessesStep(verdicts: seq<TestResult>, j: nat)
    requires j < |verdicts|
    ensures |Filter(verdicts[..j + 1], Succeeded)|
         == |Filter(verdicts[..j], Succeeded)| + (if verdicts[j].success then 1 else 0)
  {
    assert verdicts[..j + 1] == verdicts[..j] + [verdicts[j]];
    FilterAppend(verdicts[..j], verdicts[j], Succeeded);
  }

  /** One more breed adds its own successes to the total. */
  lemma TotalSuccessesPush(results: seq<BreedResult>, r: BreedResult)
    ensures TotalSuccesses(results + [r]) == TotalSuccesses(results) + |Filter(r.intents, Succeeded)|
  {
    var t := results + [r];
    assert t[..|t| - 1] == results;
  }

  /** `testAllBreeds`, up to the report: test each breed, push its results,
      and count each request and each success. */
  method TestAllBreeds(breeds: seq<string>, ask: (string, string) -> Reply)
    returns (allResults: seq<BreedResult>, successCount: nat, totalRequests: nat)
    ensures allResults == AllResults(breeds, ask)
    ensures totalRequests == |breeds| * |Intents|
    ensures successCount == TotalSuccesses(allResults)
    ensures successCount <= totalRequests
  {
    allResults, successCount, totalRequests := [], 0, 0;
    assert |Intents| == 3;
    for i := 0 to |breeds|
      invariant allResults == AllResults(breeds[..i], ask)
      invariant totalRequests == 3 * i
      invariant successCount == TotalSuccesses(allResults)
    {
      var result := TestBreed(breeds[i], ask);
      AllResultsStep(breeds, i, ask);
      TotalSuccessesPush(allResults, result);
      allResults := allResults + [result];
      ghost var before := successCount;
      for j := 0 to |Intents|
        invariant totalRequests == 3 * i + j
        invariant successCount == before + |Filter(result.intents[..j], Succeeded)|
      {
        totalRequests := totalRequests + 1;
        SuccessesStep(result.intents, j);
        if result.intents[j].success {
          successCount := successCount + 1;
        }
      }
      assert result.intents[..|Intents|] == result.intents;
    }
    assert breeds[..|breeds|] == breeds;
    TotalSuccessesBound(allResults);
  }

  /** Every breed was asked about every intent. */
  predicate Complete(results: seq<BreedResult>) {
    forall i :: 0 <= i < |results| ==> |results[i].intents| == |Intents|
  }

  /** There are no more successes than requests. */
  lemma {:induction false} TotalSuccessesBound(results: seq<BreedResult>)
    requires Complete(results)
    ensures TotalSuccesses(results) <= |results| * |Intents|
  {
    if results != [] {
      TotalSuccessesBound(results[..|results| - 1]);
    }
  }

  // ---------------------------------------------------------------------------
  // All breeds: per-intent statistics

  /** `allResults.map(r => r.intents[intent.name])` for the intent at `j`. */
  function IntentColumn(results: seq<BreedResult>, j: nat): (col: seq<TestResult>)
    requires j < |Intents| && Complete(results)
    ensures |col| == |results|
    ensures forall i :: 0 <= i < |results| ==> col[i] == results[i].intents[j]
  {
    seq(|results|, i requires 0 <= i < |results| && Complete(results) => results[i].intents[j])
  }

  /** One intent's column, one breed at a time: the successes under it so
      far, and the last breed's verdict. */
  lemma IntentColumnStep(results: seq<BreedResult>, j: nat)
    requires j < |Intents| && Complete(results) && results != []
    ensures Complete(results[..|results| - 1])
    ensures |Filter(IntentColumn(results, j), Succeeded)|
         == |Filter(IntentColumn(results[..|results| - 1], j), Succeeded)|
          + (if results[|results| - 1].intents[j].success then 1 else 0)
  {
    var n := |results| - 1;
    var front := results[..n];
    assert Complete(front);
    assert IntentColumn(results, j) == IntentColumn(front, j) + [results[n].intents[j]];
    FilterAppend(IntentColumn(front, j), results[n].intents[j], Succeeded);
  }

  /** The successes of one breed, intent by intent. */
  lemma BreedSuccesses(outcomes: seq<TestResult>)
    requires |outcomes| == 3
    ensures |Filter(outcomes, Succeeded)|
         == (if outcomes[0].success then 1 else 0)
          + (if outcomes[1].success then 1 else 0)
          + (if outcomes[2].success then 1 else 0)
  {
    var one, two := outcomes[1..], outcomes[2..];
    assert one[0] == outcomes[1] && one[1..] == two;
    assert two[0] == outcomes[2] && two[1..] == [];
    assert |Filter(two, Succeeded)| == if outcomes[2].success then 1 else 0;
    assert |Filter(one, Succeeded)| == (if outcomes[1].success then 1 else 0) + |Filter(two, Succeeded)|;
  }

  /** The successes counted by intent add up to the successes counted by
      breed: the per-intent report and the overall count agree. */
  lemma {:induction false} SuccessesByIntent(results: seq<BreedResult>)
    requires Complete(results)
    ensures TotalSuccesses(results)
         == |Filter(IntentColumn(results, 0), Succeeded)|
          + |Filter(IntentColumn(results, 1), Succeeded)|
          + |Filter(IntentColumn(results, 2), Succeeded)|
  {
    if results != [] {
      var n := |results| - 1;
      var front, last := results[..n], results[n];
      assert Complete(front);
      SuccessesByIntent(front);
      BreedSuccesses(last.intents);
      IntentColumnStep(results, 0);
      IntentColumnStep(results, 1);
      IntentColumnStep(results, 2);
    }
  }

  /** A verdict that is a success is not an error. */
  predicate Consistent(t: TestResult) { t.success ==> !t.isError }

  /** Under one intent, the successes and the errors are different breeds, so
      together they are no more than the breeds asked about. */
  lemma {:induction false} SuccessesAndErrorsFit(col: seq<TestResult>)
    requires forall i :: 0 <= i < |col| ==> Consistent(col[i])
    ensures |Filter(col, Succeeded)| + |Filter(col, Errored)| <= |col|
  {
    if col != [] {
      SuccessesAndErrorsFit(col[1..]);
    }
  }

  /** Every verdict `testRequest` gives is consistent. */
  lemma ResultsConsistent(breeds: seq<string>, ask: (string, string) -> Reply)
    ensures forall i, j :: 0 <= i < |breeds| && 0 <= j < |Intents|
              ==> Consistent(AllResults(breeds, ask)[i].intents[j])
  {
  }

  // ---------------------------------------------------------------------------
  // All breeds: problem breeds

  /** `Object.values(r.intents).every(i => i.success)` */
  predicate Perfect(r: BreedResult)
    ensures (Perfect(r) && forall j :: 0 <= j < |r.intents| ==> Consistent(r.intents[j]))
            ==> forall j :: 0 <= j < |r.intents| ==> !r.intents[j].isError
  {
    forall j :: 0 <= j < |r.intents| ==> r.intents[j].success
  }

  /** `Object.values(r.intents).some(i => !i.success)` */
  predicate HasProblem(r: BreedResult)
    ensures HasProblem(r) <==> !Perfect(r)
  {
    exists j :: 0 <= j < |r.intents| && !r.intents[j].success
  }

  /** `Object.values(r.intents).some(i => i.isError)` */
  predicate HasErrorReply(r: BreedResult)
    ensures (HasErrorReply(r) && forall j :: 0 <= j < |r.intents| ==> Consistent(r.intents[j]))
            ==> HasProblem(r)
  {
    exists j :: 0 <= j < |r.intents| && r.intents[j].isError
  }

  /** `Object.values(r.intents).some(i => !i.success && !i.isError)` */
  predicate HasShortReply(r: BreedResult)
    ensures HasShortReply(r) ==> HasProblem(r)
  {
    exists j :: 0 <= j < |r.intents| && !r.intents[j].success && !r.intents[j].isError
  }

  /** `perfectBreeds` and `problemBreeds` split `allResults`: each result
      lands in exactly one of them, and each keeps the order of `allResults`. */
  lemma {:induction false} PerfectAndProblemSplit(allResults: seq<BreedResult>)
    ensures |Filter(allResults, Perfect)| + |Filter(allResults, HasProblem)| == |allResults|
    ensures multiset(Filter(allResults, Perfect)) + multiset(Filter(allResults, HasProblem))
         == multiset(allResults)
    ensures forall r :: r in allResults ==>
              (r in Filter(allResults, Perfect) <==> r !in Filter(allResults, HasProblem))
    ensures IsSubsequence(Filter(allResults, Perfect), allResults)
    ensures IsSubsequence(Filter(allResults, HasProblem), allResults)
  {
    assert forall r :: HasProblem(r) == !Perfect(r);
    FilterSplit(allResults, Perfect, HasProblem);
    FilterIsSubsequence(allResults, Perfect);
    FilterIsSubsequence(allResults, HasProblem);
  }

  /** A problem breed has an error reply or a short reply (or both), and the
      two groups are sub-lists of the problem breeds. */
  lemma ProblemsClassified(problemBreeds: seq<BreedResult>)
    ensures IsSubsequence(Filter(problemBreeds, HasErrorReply), problemBreeds)
    ensures IsSubsequence(Filter(problemBreeds, HasShortReply), problemBreeds)
    ensures forall r :: r in problemBreeds && HasProblem(r) ==>
              r in Filter(problemBreeds, HasErrorReply) || r in Filter(problemBreeds, HasShortReply)
  {
    FilterIsSubsequence(problemBreeds, HasErrorReply);
    FilterIsSubsequence(problemBreeds, HasShortReply);
    forall r | r in problemBreeds && HasProblem(r)
      ensures HasErrorReply(r) || HasShortReply(r)
    {
      var j :| 0 <= j < |r.intents| && !r.intents[j].success;
      if !r.intents[j].isError {
        assert HasShortReply(r);
      }
    }
  }

  predicate ErrorProblem(r: BreedResult) { HasProblem(r) && HasErrorReply(r) }

  /** With consistent verdicts an error reply is itself a problem, so the
      breeds with errors are the same whether picked from the problem breeds
      or from all of them. */
  lemma ErrorsAreProblems(allResults: seq<BreedResult>)
    requires forall i, j :: 0 <= i < |allResults| && 0 <= j < |allResults[i].intents|
               ==> Consistent(allResults[i].intents[j])
    ensures Filter(Filter(allResults, HasProblem), HasErrorReply) == Filter(allResults, HasErrorReply)
  {
    FilterFilter(allResults, HasProblem, HasErrorReply, ErrorProblem);
    FilterSame(allResults, ErrorProblem, HasErrorReply);
  }

  /** On a sequence where two predicates agree, they filter alike. */
  lemma {:induction false} FilterSame(s: seq<BreedResult>, p: BreedResult -> bool, q: BreedResult -> bool)
    requires forall i :: 0 <= i < |s| ==> p(s[i]) == q(s[i])
    ensures Filter(s, p) == Filter(s, q)
  {
    if s != [] {
      FilterSame(s[1..], p, q);
    }
  }
}
