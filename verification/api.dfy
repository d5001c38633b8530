/** The `/analyze` handler of the HTTP API: submitted answers are matched to
    question texts by id, an empty match is rejected, the surviving answers
    drive one similarity search and one analysis, and the analysis dictionary
    is turned into a response or an HTTP error. The questionnaire file, the
    collection, the model call and the JSON parser are inputs. */
module Api {
  import opened Wrappers
  import opened Text
  import opened AnalyzerResponse
  import opened AnalyzerContext
  import opened VectorStore

  /** One entry of `questionnaire.json`'s `questions`, as far as matching needs it. */
  datatype QuestionDef = QuestionDef(id: int, text: string)

  /** One `Answer` of the request body. */
  datatype SubmittedAnswer = SubmittedAnswer(questionId: int, answer: string)

  /** One `{question, answer}` record handed to the analyzer. */
  datatype QA = QA(question: string, answer: string)

  /** An `HTTPException`. */
  datatype HttpError = HttpError(status: int, detail: string)

  /** The response model `AnalysisResult`: every field present. */
  datatype AnalysisResult = AnalysisResult(predictions: seq<Prediction>, resumeGlobal: string, top3: seq<string>)

  const NoValidResponses: string := "No valid responses provided"
  const AnalysisErrorPrefix: string := "Analysis error: "
  const NoPredictions: string := "No predictions generated"
  /** The detail of a response-model validation failure; the exception's own
      message that follows it is not modelled. */
  const UnexpectedErrorPrefix: string := "Unexpected error: "

  // ---------------------------------------------------------------------------
  // Answer matching
  // ---------------------------------------------------------------------------

  /** `questions[i]` is the first question whose id equals `id`. */
  predicate FirstWithId(questions: seq<QuestionDef>, id: int, i: int)
    requires 0 <= i < |questions|
  {
    questions[i].id == id && forall j :: 0 <= j < i ==> questions[j].id != id
  }

  /** The text of the first question whose id equals `id`, if any. */
  function LookupQuestion(questions: seq<QuestionDef>, id: int): (r: Option<string>)
    ensures r.None? <==> forall i :: 0 <= i < |questions| ==> questions[i].id != id
    ensures r.Some? ==> exists i :: 0 <= i < |questions| && FirstWithId(questions, id, i) && questions[i].text == r.value
  {
    if |questions| == 0 then None
    else if questions[0].id == id then Some(questions[0].text)
    else
      var r := LookupQuestion(questions[1..], id);
      assert forall i :: 0 < i < |questions| ==> questions[i] == questions[1..][i - 1];
      r
  }

  /** What one submitted answer contributes: the record pairing the matched
      question text with the answer, or nothing when no question has its id or
      the matched text is empty (falsy). */
  function MatchOne(questions: seq<QuestionDef>, a: SubmittedAnswer): (r: Option<QA>)
    ensures r.None? <==> LookupQuestion(questions, a.questionId) in {None, Some("")}
    ensures r.Some? ==>
      && r.value.answer == a.answer
      && r.value.question != []
      && exists i :: 0 <= i < |questions| && FirstWithId(questions, a.questionId, i) && questions[i].text == r.value.question
  {
    match LookupQuestion(questions, a.questionId)
    case Some(t) => if t != [] then Some(QA(t, a.answer)) else None
    case None => None
  }

  /** The `responses_formatted` loop: at most one record per answer, each the
      match of some submitted answer, with a non-empty question text, and every
      answer that matches contributes its record. */
  function MatchAnswers(questions: seq<QuestionDef>, answers: seq<SubmittedAnswer>): (r: seq<QA>)
    ensures |r| <= |answers|
    ensures forall qa :: qa in r ==> qa.question != [] && exists a :: a in answers && MatchOne(questions, a) == Some(qa)
    ensures forall a :: a in answers && MatchOne(questions, a).Some? ==> MatchOne(questions, a).value in r
  {
    if |answers| == 0 then []
    else
      var rest := MatchAnswers(questions, answers[1..]);
      assert forall a :: a in answers[1..] ==> a in answers;
      assert forall a :: a in answers ==> a == answers[0] || a in answers[1..];
      match MatchOne(questions, answers[0])
      case None => rest
      case Some(qa) =>
        assert answers[0] in answers;
        [qa] + rest
  }

  /** Matching distributes over concatenation of submissions: records come out
      in submission order. */
  lemma {:induction false} MatchAnswersAppend(questions: seq<QuestionDef>, a: seq<SubmittedAnswer>, b: seq<SubmittedAnswer>)
    ensures MatchAnswers(questions, a + b) == MatchAnswers(questions, a) + MatchAnswers(questions, b)
  {
    if |a| > 0 {
      assert (a + b)[0] == a[0];
      assert (a + b)[1..] == a[1..] + b;
      MatchAnswersAppend(questions, a[1..], b);
      var head := match MatchOne(questions, a[0]) case None => [] case Some(qa) => [qa];
      assert MatchAnswers(questions, a) == head + MatchAnswers(questions, a[1..]);
      assert MatchAnswers(questions, a + b) == head + MatchAnswers(questions, a[1..] + b);
      assert head + (MatchAnswers(questions, a[1..]) + MatchAnswers(questions, b))
          == (head + MatchAnswers(questions, a[1..])) + MatchAnswers(questions, b);
    } else {
      assert a + b == b;
    }
  }

  /** A single submission yields exactly the question text and the submitted
      answer, or nothing. */
  lemma MatchAnswersSingle(questions: seq<QuestionDef>, a: SubmittedAnswer)
    ensures MatchAnswers(questions, [a]) ==
      match LookupQuestion(questions, a.questionId)
      case Some(t) => if t != [] then [QA(t, a.answer)] else []
      case None => []
  {
    assert [a][1..] == [];
  }

  // ---------------------------------------------------------------------------
  // Retrieval and analysis
  // ---------------------------------------------------------------------------

  function AnswerTexts(qas: seq<QA>): (r: seq<string>)
    ensures |r| == |qas| && forall i :: 0 <= i < |qas| ==> r[i] == qas[i].answer
  {
    seq(|qas|, i requires 0 <= i < |qas| => qas[i].answer)
  }

  /** The retrieval query: the surviving answers joined with single spaces. */
  function RetrievalQuery(qas: seq<QA>): (r: string)
    ensures |qas| == 0 ==> r == ""
    ensures |qas| > 0 ==> StartsWith(r, qas[0].answer)
  {
    Join(" ", AnswerTexts(qas))
  }

  /** When no answer contains a space, the query still tells the answers apart:
      splitting it on spaces gives them back. */
  lemma RetrievalQueryRecoversAnswers(qas: seq<QA>)
    requires |qas| > 0
    requires forall i :: 0 <= i < |qas| ==> ' ' !in qas[i].answer
    ensures Split(RetrievalQuery(qas), ' ') == AnswerTexts(qas)
  {
    SplitJoin(AnswerTexts(qas), ' ');
  }

  /** `analyze_responses` around the model call. A metadata entry without
      `domaine`, more documents than metadata entries, or a failed model call
      (None) raise inside the analyzer and give the generic error dictionary.
      The model sees the detected context built with the retrieved domains. */
  function RunAnalyzer(qas: seq<QA>, similar: Triple, llm: (string, seq<QA>, Triple) -> Option<string>,
                       parse: string -> Option<Analysis>): (r: Analysis)
    ensures MetadataDomains(similar.metadatas).None? ==> r == AnalysisFailure
    ensures |similar.documents| > |similar.metadatas| ==> r == AnalysisFailure
    ensures MetadataDomains(similar.metadatas).Some? && |similar.documents| <= |similar.metadatas| ==>
      var names := MetadataDomains(similar.metadatas).value;
      var reply := llm(BuildContext(AnswerTexts(qas), Some(names)), qas, similar);
      && (reply.None? ==> r == AnalysisFailure)
      && (reply.Some? && parse(StripFences(reply.value)).None? ==>
            r.error == Some(JsonErrorMessage) && r.rawResponse == reply)
      && (reply.Some? && parse(StripFences(reply.value)).Some? ==>
            ValidatedFrom(r, parse(StripFences(reply.value)).value, names))
    ensures r.predictions.Some? ==>
      && MetadataDomains(similar.metadatas).Some?
      && Validated(r.predictions.value, MetadataDomains(similar.metadatas).value)
    ensures r.predictions.Some? && |r.predictions.value| > 0 ==>
      r.top3.Some? && IsTopDomains(r.top3.value, r.predictions.value)
  {
    match MetadataDomains(similar.metadatas)
    case None => AnalysisFailure
    case Some(names) =>
      if |similar.documents| > |names| then AnalysisFailure
      else
        match llm(BuildContext(AnswerTexts(qas), Some(names)), qas, similar)
        case None => AnalysisFailure
        case Some(reply) => AnalyzeReply(reply, names, parse)
  }

  /** All six keys the response model requires of a prediction are present. */
  predicate Complete(p: Prediction) {
    && p.domaine.Some? && p.score.Some? && p.confiance.Some?
    && p.raisons.Some? && p.pointsForts.Some? && p.axesAmelioration.Some?
  }

  /** `AnalysisResult(**results)`: None when a required key is missing. */
  function ToResult(a: Analysis): (r: Option<AnalysisResult>)
    ensures r.Some? <==>
      && a.predictions.Some? && a.resumeGlobal.Some? && a.top3.Some?
      && forall i :: 0 <= i < |a.predictions.value| ==> Complete(a.predictions.value[i])
    ensures r.Some? ==> r.value == AnalysisResult(a.predictions.value, a.resumeGlobal.value, a.top3.value)
  {
    if && a.predictions.Some? && a.resumeGlobal.Some? && a.top3.Some?
       && forall i :: 0 <= i < |a.predictions.value| ==> Complete(a.predictions.value[i])
    then Some(AnalysisResult(a.predictions.value, a.resumeGlobal.value, a.top3.value))
    else None
  }

  /** The similarity-search result for a submission. */
  function Retrieved(questions: seq<QuestionDef>, answers: seq<SubmittedAnswer>, count: nat,
                     query: QueryRequest -> Option<Triple>): Triple {
    FindSimilarDomains(RetrievalQuery(MatchAnswers(questions, answers)), DefaultTopK, count, query).result
  }

  /** The analysis dictionary for a submission. */
  function AnalysisOf(questions: seq<QuestionDef>, answers: seq<SubmittedAnswer>, count: nat,
                      query: QueryRequest -> Option<Triple>, llm: (string, seq<QA>, Triple) -> Option<string>,
                      parse: string -> Option<Analysis>): Analysis {
    RunAnalyzer(MatchAnswers(questions, answers), Retrieved(questions, answers, count, query), llm, parse)
  }

  /** The `/analyze` handler. It answers 400 exactly when no submitted answer
      matches a question, 500 when the analysis carries `error`, lacks
      `predictions` or does not fit the response model, and otherwise returns
      predictions that are complete, restricted to the retrieved domains, with
      clamped scores in non-increasing order, headed by the top-3 list. */
  function Analyze(questions: seq<QuestionDef>, answers: seq<SubmittedAnswer>, count: nat,
                   query: QueryRequest -> Option<Triple>, llm: (string, seq<QA>, Triple) -> Option<string>,
                   parse: string -> Option<Analysis>): (r: Result<AnalysisResult, HttpError>)
    ensures r == Failure(HttpError(400, NoValidResponses)) <==> |MatchAnswers(questions, answers)| == 0
    ensures r.Failure? ==> r.error.status == 400 || r.error.status == 500
    ensures |MatchAnswers(questions, answers)| > 0 && AnalysisOf(questions, answers, count, query, llm, parse).error.Some? ==>
      r == Failure(HttpError(500, AnalysisErrorPrefix + AnalysisOf(questions, answers, count, query, llm, parse).error.value))
    ensures (&& |MatchAnswers(questions, answers)| > 0
             && AnalysisOf(questions, answers, count, query, llm, parse).error.None?
             && AnalysisOf(questions, answers, count, query, llm, parse).predictions.None?) ==>
      r == Failure(HttpError(500, NoPredictions))
    ensures (&& |MatchAnswers(questions, answers)| > 0
             && AnalysisOf(questions, answers, count, query, llm, parse).error.None?
             && AnalysisOf(questions, answers, count, query, llm, parse).predictions.Some?) ==>
      var built := ToResult(AnalysisOf(questions, answers, count, query, llm, parse));
      && (built.Some? ==> r == Success(built.value))
      && (built.None? ==> r == Failure(HttpError(500, UnexpectedErrorPrefix)))
    ensures r.Success? ==>
      && MetadataDomains(Retrieved(questions, answers, count, query).metadatas).Some?
      && Validated(r.value.predictions, MetadataDomains(Retrieved(questions, answers, count, query).metadatas).value)
      && (forall i :: 0 <= i < |r.value.predictions| ==> Complete(r.value.predictions[i]))
      && (|r.value.predictions| > 0 ==> IsTopDomains(r.value.top3, r.value.predictions))
  {
    var qas := MatchAnswers(questions, answers);
    if |qas| == 0 then Failure(HttpError(400, NoValidResponses))
    else
      var analysis := AnalysisOf(questions, answers, count, query, llm, parse);
      if analysis.error.Some? then Failure(HttpError(500, AnalysisErrorPrefix + analysis.error.value))
      else if analysis.predictions.None? then Failure(HttpError(500, NoPredictions))
      else
        match ToResult(analysis)
        case None => Failure(HttpError(500, UnexpectedErrorPrefix))
        case Some(v) => Success(v)
  }

  /** A successful response carries exactly the survivors of the model's
      reply: the search found metadata with every `domaine`, the model answered,
      the cleaned reply parsed with `predictions`, and the response's
      predictions are those the validator kept, clamped and sorted. */
  lemma SuccessCarriesSurvivors(questions: seq<QuestionDef>, answers: seq<SubmittedAnswer>, count: nat,
                                query: QueryRequest -> Option<Triple>, llm: (string, seq<QA>, Triple) -> Option<string>,
                                parse: string -> Option<Analysis>)
    requires Analyze(questions, answers, count, query, llm, parse).Success?
    ensures
      var qas := MatchAnswers(questions, answers);
      var similar := Retrieved(questions, answers, count, query);
      && MetadataDomains(similar.metadatas).Some?
      && var names := MetadataDomains(similar.metadatas).value;
         var reply := llm(BuildContext(AnswerTexts(qas), Some(names)), qas, similar);
         && reply.Some?
         && parse(StripFences(reply.value)).Some?
         && parse(StripFences(reply.value)).value.predictions.Some?
         && Analyze(questions, answers, count, query, llm, parse).value.predictions
            == Survivors(parse(StripFences(reply.value)).value.predictions.value, names)
  {
    var qas := MatchAnswers(questions, answers);
    var similar := Retrieved(questions, answers, count, query);
    var analysis := AnalysisOf(questions, answers, count, query, llm, parse);
    var r := Analyze(questions, answers, count, query, llm, parse);
    assert |qas| > 0;
    assert analysis.error.None?;
    assert analysis.predictions.Some?;
    var built := ToResult(analysis);
    assert built.Some? && r == Success(built.value);
    assert r.value.predictions == analysis.predictions.value;
    assert analysis == RunAnalyzer(qas, similar, llm, parse);
    AnalyzerSurvivors(qas, similar, llm, parse);
  }

  /** An analysis without `error` but with `predictions` holds the survivors of
      the model's parsed reply. */
  lemma AnalyzerSurvivors(qas: seq<QA>, similar: Triple, llm: (string, seq<QA>, Triple) -> Option<string>,
                          parse: string -> Option<Analysis>)
    requires RunAnalyzer(qas, similar, llm, parse).error.None?
    requires RunAnalyzer(qas, similar, llm, parse).predictions.Some?
    ensures
      && MetadataDomains(similar.metadatas).Some?
      && var names := MetadataDomains(similar.metadatas).value;
         var reply := llm(BuildContext(AnswerTexts(qas), Some(names)), qas, similar);
         && reply.Some?
         && parse(StripFences(reply.value)).Some?
         && parse(StripFences(reply.value)).value.predictions.Some?
         && RunAnalyzer(qas, similar, llm, parse).predictions.value
            == Survivors(parse(StripFences(reply.value)).value.predictions.value, names)
  {
    var r := RunAnalyzer(qas, similar, llm, parse);
    assert r != AnalysisFailure;
    var names := MetadataDomains(similar.metadatas).value;
    var reply := llm(BuildContext(AnswerTexts(qas), Some(names)), qas, similar);
    assert ValidatedFrom(r, parse(StripFences(reply.value)).value, names);
  }

  /** A submission in which nothing matches is rejected before the search, the
      model and the parser are reached: the outcome does not depend on them. */
  lemma RejectionIgnoresServices(questions: seq<QuestionDef>, answers: seq<SubmittedAnswer>,
                                 count1: nat, query1: QueryRequest -> Option<Triple>,
                                 llm1: (string, seq<QA>, Triple) -> Option<string>, parse1: string -> Option<Analysis>,
                                 count2: nat, query2: QueryRequest -> Option<Triple>,
                                 llm2: (string, seq<QA>, Triple) -> Option<string>, parse2: string -> Option<Analysis>)
    requires |MatchAnswers(questions, answers)| == 0
    ensures Analyze(questions, answers, count1, query1, llm1, parse1) == Analyze(questions, answers, count2, query2, llm2, parse2)
  {
  }
}
