/** Post-processing of the language model's reply in `LLMAnalyzer`: fence
    stripping before JSON parsing, the validator that drops unknown domains,
    clamps scores, sorts stably by descending score and recomputes the top-3
    list, and the top-N extraction. The reply text and the JSON parser are
    inputs; nothing here talks to the model. */
module AnalyzerResponse {
  import opened Wrappers
  import opened Text
  import opened Sequences

  // ---------------------------------------------------------------------------
  // Data model: the JSON object the model is asked to return
  // ---------------------------------------------------------------------------

  /** One entry of `predictions`. Every key may be missing from the model's
      reply, hence the options. */
  datatype Prediction = Prediction(
    domaine: Option<string>,
    score: Option<int>,
    confiance: Option<string>,
    raisons: Option<seq<string>>,
    pointsForts: Option<seq<string>>,
    axesAmelioration: Option<seq<string>>)

  /** The analysis dictionary: either the parsed reply (possibly validated) or
      one of the analyzer's own error dictionaries, kept here as their `error`
      and, for a parse failure, the raw reply; their `details` and `type`
      entries are left out. */
  datatype Analysis = Analysis(
    error: Option<string>,
    predictions: Option<seq<Prediction>>,
    resumeGlobal: Option<string>,
    top3: Option<seq<string>>,
    rawResponse: Option<string>)

  /** The exceptions the validator itself can raise: indexing `p["domaine"]` on
      a surviving prediction that has no such key. */
  datatype ValidationError = MissingDomaineKey

  const JsonFence: string := "```json"
  const Fence: string := "```"
  const JsonErrorMessage: string := "Erreur de parsing JSON"
  const AnalysisErrorMessage: string := "Erreur lors de l'analyse"
  /** The dictionary `analyze_responses` returns for any exception other than a
      decode error. */
  const AnalysisFailure: Analysis := Analysis(Some(AnalysisErrorMessage), None, None, None, None)

  const TopCount: nat := 3

  // ---------------------------------------------------------------------------
  // Fence stripping (_parse_json_response)
  // ---------------------------------------------------------------------------

  /** Removes one leading "```json", or else one leading "```": what is left is
      a suffix of `t`, and `t` itself when it does not start with "```". */
  function DropOpeningFence(t: string): (a: string)
    ensures |a| <= |t| && a == t[|t| - |a|..]
    ensures !StartsWith(t, Fence) ==> a == t
    ensures StartsWith(t, JsonFence) ==> t == JsonFence + a
    ensures StartsWith(t, Fence) && !StartsWith(t, JsonFence) ==> t == Fence + a
  {
    if StartsWith(t, JsonFence) then
      assert t[..3] == t[..7][..3];
      t[7..]
    else if StartsWith(t, Fence) then t[3..]
    else t
  }

  /** Removes one trailing "```": what is left is a prefix of `a`, and `a`
      itself when it does not end with "```". */
  function DropClosingFence(a: string): (b: string)
    ensures |b| <= |a| && b == a[..|b|]
    ensures !EndsWith(a, Fence) ==> b == a
  {
    if EndsWith(a, Fence) then a[..|a| - 3] else a
  }

  /** The text handed to the JSON parser: trimmed, one leading "```json" (or
      else one leading "```") removed, one trailing "```" removed, trimmed again.
      The result is trimmed, and a reply whose trimmed form carries no fence at
      either end is only trimmed. */
  function StripFences(reply: string): (r: string)
    ensures IsTrimmed(r)
    ensures !StartsWith(Strip(reply), Fence) && !EndsWith(Strip(reply), Fence) ==> r == Strip(reply)
  {
    var t := Strip(reply);
    var b := DropClosingFence(DropOpeningFence(t));
    assert !StartsWith(t, Fence) && !EndsWith(t, Fence) ==> Strip(b) == t by {
      StripIdempotent(reply);
    }
    Strip(b)
  }

  /** Fence stripping only ever removes text: the parser sees a contiguous
      piece of the reply. */
  lemma StripFencesIsInfix(reply: string)
    ensures Contains(reply, StripFences(reply))
  {
    var t := Strip(reply);
    var a := DropOpeningFence(t);
    var b := DropClosingFence(a);
    StripInfix(reply);
    StripInfix(b);
    SuffixOccurs(t, a);
    PrefixOccurs(a, b);
    OccursTrans(reply, t, a);
    OccursTrans(reply, a, b);
    OccursTrans(reply, b, Strip(b));
    StripFencesSteps(reply);
  }

  lemma SuffixOccurs(t: string, a: string)
    requires |a| <= |t| && a == t[|t| - |a|..]
    ensures Contains(t, a)
  {
    assert OccursAt(t, a, |t| - |a|);
  }

  lemma PrefixOccurs(a: string, b: string)
    requires |b| <= |a| && b == a[..|b|]
    ensures Contains(a, b)
  {
    assert OccursAt(a, b, 0);
  }

  lemma StripInfix(s: string)
    ensures Contains(s, Strip(s))
  {
    var i :| SurroundedBySpace(s, Strip(s), i);
    assert OccursAt(s, Strip(s), i);
  }

  lemma OccursTrans(c: string, b: string, a: string)
    requires Contains(c, b) && Contains(b, a)
    ensures Contains(c, a)
  {
    var j :| 0 <= j <= |c| - |b| && OccursAt(c, b, j);
    var i :| 0 <= i <= |b| - |a| && OccursAt(b, a, i);
    assert forall k :: 0 <= k < |a| ==> c[j + i + k] == b[i + k] == a[k];
    assert c[j + i..j + i + |a|] == a;
    assert OccursAt(c, a, j + i);
  }

  lemma StripFencesSteps(reply: string)
    ensures StripFences(reply) == Strip(DropClosingFence(DropOpeningFence(Strip(reply))))
  {
  }

  lemma FencedIsTrimmed(open: string, p: string)
    requires StartsWith(open, Fence)
    ensures Strip(open + p + Fence) == open + p + Fence
  {
    var t := open + p + Fence;
    assert t[0] == open[0] == '`';
    assert t[|t| - 1] == Fence[2] == '`';
    StripTrimmed(t);
  }

  lemma ClosingFenceDropped(p: string)
    ensures DropClosingFence(p + Fence) == p
  {
    assert (p + Fence)[|p|..] == Fence;
    assert (p + Fence)[..|p|] == p;
  }

  lemma JsonFenceOpening(p: string)
    ensures DropOpeningFence(JsonFence + p + Fence) == p + Fence
  {
    var t := JsonFence + (p + Fence);
    assert t == JsonFence + p + Fence;
    assert t[..7] == JsonFence;
    assert t[7..] == p + Fence;
  }

  /** The "```json" fence round trip: wrapping any payload in "```json" … "```"
      hands the parser exactly the trimmed payload. */
  lemma JsonFencedPayload(p: string)
    ensures StripFences(JsonFence + p + Fence) == Strip(p)
  {
    FencedIsTrimmed(JsonFence, p);
    JsonFenceOpening(p);
    ClosingFenceDropped(p);
    StripFencesSteps(JsonFence + p + Fence);
  }

  lemma BareFenceIsNotJsonFence(p: string)
    requires !StartsWith(p, "json")
    ensures !StartsWith(Fence + p + Fence, JsonFence)
  {
    var t := Fence + p + Fence;
    if |p| >= 4 {
      assert t[3..7] == p[..4];
    } else {
      assert t[3 + |p|] == '`';
      assert JsonFence[3 + |p|] != '`';
    }
  }

  lemma BareFenceOpening(p: string)
    requires !StartsWith(p, "json")
    ensures DropOpeningFence(Fence + p + Fence) == p + Fence
  {
    var t := Fence + p + Fence;
    BareFenceIsNotJsonFence(p);
    assert t[..3] == Fence;
    assert t[3..] == p + Fence;
  }

  /** The bare "```" fence round trip, for a payload that does not itself start
      with "json" (a JSON object starts with "{"). */
  lemma BareFencedPayload(p: string)
    requires !StartsWith(p, "json")
    ensures StripFences(Fence + p + Fence) == Strip(p)
  {
    var t := Fence + p + Fence;
    FencedIsTrimmed(Fence, p);
    BareFenceOpening(p);
    ClosingFenceDropped(p);
    StripFencesSteps(t);
  }

  /** Fenced and unfenced replies parse identically: for a payload whose trimmed
      form carries no fence, the parser sees the same text with or without the
      "```json" / "```" wrapper. */
  lemma FencedReplyParsesLikeBare(p: string, parse: string -> Option<Analysis>)
    requires !StartsWith(Strip(p), Fence) && !EndsWith(Strip(p), Fence)
    ensures parse(StripFences(JsonFence + p + Fence)) == parse(StripFences(p))
    ensures !StartsWith(p, "json") ==> parse(StripFences(Fence + p + Fence)) == parse(StripFences(p))
  {
    JsonFencedPayload(p);
    if !StartsWith(p, "json") {
      BareFencedPayload(p);
    }
  }

  // ---------------------------------------------------------------------------
  // Domain filter and score clamp (_validate_and_sort_results, first loop)
  // ---------------------------------------------------------------------------

  /** `max(0, min(100, s))`. */
  function ClampScore(s: int): (r: int)
    ensures 0 <= r <= 100
    ensures 0 <= s <= 100 ==> r == s
    ensures s < 0 ==> r == 0
    ensures s > 100 ==> r == 100
  {
    var m := if 100 <= s then 100 else s;
    if 0 >= m then 0 else m
  }

  function LowerAll(names: seq<string>): (r: seq<string>)
    ensures |r| == |names| && forall i :: 0 <= i < |names| ==> r[i] == Lower(names[i])
  {
    seq(|names|, i requires 0 <= i < |names| => Lower(names[i]))
  }

  /** `p.get("domaine", "").lower() in valid_domains_lower`. */
  predicate KnownDomain(p: Prediction, validLower: seq<string>) {
    Lower(p.domaine.GetOr("")) in validLower
  }

  /** The sort key `x.get("score", 0)`. */
  function ScoreKey(p: Prediction): int {
    p.score.GetOr(0)
  }

  /** The prediction with `score` overwritten by its clamped value; every other
      key is kept. */
  function Clamped(p: Prediction): (q: Prediction)
    ensures q.score == Some(ClampScore(ScoreKey(p)))
    ensures q.(score := p.score) == p
  {
    p.(score := Some(ClampScore(ScoreKey(p))))
  }

  /** The first loop: predictions of unknown domain are dropped, the survivors
      keep their order and have their score clamped. */
  function KeepKnown(ps: seq<Prediction>, validLower: seq<string>): (r: seq<Prediction>)
    ensures |r| <= |ps|
    ensures forall q :: q in r ==> exists p :: p in ps && KnownDomain(p, validLower) && q == Clamped(p)
    ensures forall p :: p in ps && KnownDomain(p, validLower) ==> Clamped(p) in r
    ensures forall q :: q in r ==> KnownDomain(q, validLower) && q.score.Some? && 0 <= q.score.value <= 100
  {
    if |ps| == 0 then []
    else
      var rest := KeepKnown(ps[1..], validLower);
      if KnownDomain(ps[0], validLower) then [Clamped(ps[0])] + rest else rest
  }

  /** The filter works element by element, so it keeps submission order: on a
      concatenation it is the concatenation of its results. */
  lemma {:induction false} KeepKnownAppend(a: seq<Prediction>, b: seq<Prediction>, validLower: seq<string>)
    ensures KeepKnown(a + b, validLower) == KeepKnown(a, validLower) + KeepKnown(b, validLower)
  {
    if |a| == 0 {
      assert a + b == b;
    } else {
      assert (a + b)[0] == a[0];
      assert (a + b)[1..] == a[1..] + b;
      KeepKnownAppend(a[1..], b, validLower);
    }
  }

  // ---------------------------------------------------------------------------
  // Stable sort by descending score
  // ---------------------------------------------------------------------------

  predicate SortedByScoreDesc(ps: seq<Prediction>) {
    forall i, j :: 0 <= i < j < |ps| ==> ScoreKey(ps[i]) >= ScoreKey(ps[j])
  }

  /** The predictions whose sort key is `k`, in their order in `ps`. A sort is
      stable exactly when it leaves every such subsequence unchanged. */
  function WithScore(ps: seq<Prediction>, k: int): seq<Prediction> {
    if |ps| == 0 then []
    else if ScoreKey(ps[0]) == k then [ps[0]] + WithScore(ps[1..], k)
    else WithScore(ps[1..], k)
  }

  /** Inserts `p` in front of the first element whose key is not above its own:
      `p` goes after every strictly better prediction and before every equal
      one, which is what keeps the sort stable. */
  function Insert(p: Prediction, ps: seq<Prediction>): (r: seq<Prediction>)
    ensures |r| == |ps| + 1
  {
    if |ps| == 0 || ScoreKey(ps[0]) <= ScoreKey(p) then [p] + ps
    else [ps[0]] + Insert(p, ps[1..])
  }

  /** `list.sort(key=lambda x: x.get("score", 0), reverse=True)`, as an
      insertion sort that inserts each element into the sorted rest. */
  function SortByScore(ps: seq<Prediction>): (r: seq<Prediction>)
    ensures |r| == |ps|
  {
    if |ps| == 0 then [] else Insert(ps[0], SortByScore(ps[1..]))
  }

  lemma {:induction false} InsertPermutes(p: Prediction, ps: seq<Prediction>)
    ensures multiset(Insert(p, ps)) == multiset(ps) + multiset{p}
  {
    if |ps| > 0 && ScoreKey(ps[0]) > ScoreKey(p) {
      InsertPermutes(p, ps[1..]);
      assert ps == [ps[0]] + ps[1..];
    }
  }

  lemma {:induction false} InsertSorted(p: Prediction, ps: seq<Prediction>)
    requires SortedByScoreDesc(ps)
    ensures SortedByScoreDesc(Insert(p, ps))
  {
    if |ps| > 0 && ScoreKey(ps[0]) > ScoreKey(p) {
      var tail := Insert(p, ps[1..]);
      InsertSorted(p, ps[1..]);
      InsertPermutes(p, ps[1..]);
      var r := [ps[0]] + tail;
      forall j | 0 < j < |r|
        ensures ScoreKey(r[0]) >= ScoreKey(r[j])
      {
        assert r[j] in multiset(tail);
        assert r[j] == p || r[j] in multiset(ps[1..]);
      }
    }
  }

  lemma {:induction false} InsertStable(p: Prediction, ps: seq<Prediction>, k: int)
    ensures WithScore(Insert(p, ps), k) == if ScoreKey(p) == k then [p] + WithScore(ps, k) else WithScore(ps, k)
  {
    if |ps| == 0 || ScoreKey(ps[0]) <= ScoreKey(p) {
      assert ([p] + ps)[1..] == ps;
    } else {
      InsertStable(p, ps[1..], k);
      assert ([ps[0]] + Insert(p, ps[1..]))[1..] == Insert(p, ps[1..]);
    }
  }

  /** The sort orders by non-increasing score, loses and invents nothing (a
      permutation), and is stable: predictions with equal scores keep their
      input order. */
  lemma {:induction false} SortByScoreCorrect(ps: seq<Prediction>)
    ensures SortedByScoreDesc(SortByScore(ps))
    ensures multiset(SortByScore(ps)) == multiset(ps)
    ensures forall k :: WithScore(SortByScore(ps), k) == WithScore(ps, k)
  {
    if |ps| > 0 {
      var rest := SortByScore(ps[1..]);
      SortByScoreCorrect(ps[1..]);
      InsertSorted(ps[0], rest);
      InsertPermutes(ps[0], rest);
      assert ps == [ps[0]] + ps[1..];
      forall k
        ensures WithScore(SortByScore(ps), k) == WithScore(ps, k)
      {
        InsertStable(ps[0], rest, k);
      }
    }
  }

  // ---------------------------------------------------------------------------
  // The validator
  // ---------------------------------------------------------------------------

  /** `[p["domaine"] for p in ps]`; None when some `p` has no `domaine` key. */
  function DomainNames(ps: seq<Prediction>): (r: Option<seq<string>>)
    ensures r.Some? <==> forall i :: 0 <= i < |ps| ==> ps[i].domaine.Some?
    ensures r.Some? ==> |r.value| == |ps| && forall i :: 0 <= i < |ps| ==> r.value[i] == ps[i].domaine.value
  {
    var keys := seq(|ps|, i requires 0 <= i < |ps| => ps[i].domaine);
    assert forall i :: 0 <= i < |ps| ==> keys[i] == ps[i].domaine;
    AllPresent(keys)
  }

  /** The predictions `_validate_and_sort_results` keeps, in the order it
      returns them. */
  function Survivors(ps: seq<Prediction>, validDomains: seq<string>): seq<Prediction> {
    SortByScore(KeepKnown(ps, LowerAll(validDomains)))
  }

  /** What `_validate_and_sort_results` promises of the predictions it returns. */
  predicate Validated(ps: seq<Prediction>, validDomains: seq<string>) {
    && SortedByScoreDesc(ps)
    && forall q :: q in ps ==> KnownDomain(q, LowerAll(validDomains)) && q.score.Some? && 0 <= q.score.value <= 100
  }

  lemma SurvivorsValidated(ps: seq<Prediction>, validDomains: seq<string>)
    ensures Validated(Survivors(ps, validDomains), validDomains)
  {
    var kept := KeepKnown(ps, LowerAll(validDomains));
    SortByScoreCorrect(kept);
    forall q | q in Survivors(ps, validDomains)
      ensures q in kept
    {
      assert q in multiset(Survivors(ps, validDomains));
    }
  }

  /** The survivors are validated, are exactly the known-domain predictions
      with clamped scores (as a multiset), and equal scores keep input order. */
  lemma SurvivorsCorrect(ps: seq<Prediction>, validDomains: seq<string>)
    ensures Validated(Survivors(ps, validDomains), validDomains)
    ensures multiset(Survivors(ps, validDomains)) == multiset(KeepKnown(ps, LowerAll(validDomains)))
    ensures forall k :: WithScore(Survivors(ps, validDomains), k) == WithScore(KeepKnown(ps, LowerAll(validDomains)), k)
  {
    SortByScoreCorrect(KeepKnown(ps, LowerAll(validDomains)));
    SurvivorsValidated(ps, validDomains);
  }

  /** `top` lists the domains of the first min(3, n) predictions of `ps`. */
  predicate IsTopDomains(top: seq<string>, ps: seq<Prediction>) {
    && |top| == Min(TopCount, |ps|)
    && forall i :: 0 <= i < |top| ==> Some(top[i]) == ps[i].domaine
  }

  /** One of the first min(3, n) predictions has no `domaine` key. */
  predicate TopLacksDomaine(ps: seq<Prediction>) {
    exists i :: 0 <= i < Min(TopCount, |ps|) && ps[i].domaine.None?
  }

  /** `_validate_and_sort_results`. Without a `predictions` key the result is
      returned untouched. Otherwise the predictions become the survivors, and
      when at least one survives `top_3_recommandations` becomes the domains of
      the first min(3, n) of them; when none does it keeps whatever the model
      supplied; no other key changes. It raises (Failure) exactly when one of
      those first survivors has no `domaine` key. */
  function ValidateAndSort(result: Analysis, validDomains: seq<string>): (r: Result<Analysis, ValidationError>)
    ensures result.predictions.None? ==> r == Success(result)
    ensures result.predictions.Some? ==>
      (r.Failure? <==> TopLacksDomaine(Survivors(result.predictions.value, validDomains)))
    ensures result.predictions.Some? && r.Success? ==>
      && r.value.predictions == Some(Survivors(result.predictions.value, validDomains))
      && r.value.(predictions := result.predictions, top3 := result.top3) == result
    ensures result.predictions.Some? && r.Success? && |r.value.predictions.value| == 0 ==>
      r.value.top3 == result.top3
    ensures result.predictions.Some? && r.Success? && |r.value.predictions.value| > 0 ==>
      r.value.top3.Some? && IsTopDomains(r.value.top3.value, r.value.predictions.value)
  {
    match result.predictions
    case None => Success(result)
    case Some(ps) =>
      var sorted := Survivors(ps, validDomains);
      var withSorted := result.(predictions := Some(sorted));
      if |sorted| == 0 then Success(withSorted)
      else
        var top := sorted[..Min(TopCount, |sorted|)];
        match DomainNames(top)
        case None => Failure(MissingDomaineKey)
        case Some(names) => Success(withSorted.(top3 := Some(names)))
  }

  /** `get_top_recommendations`: [] without `predictions`, otherwise the slice
      `predictions[:top_n]`, whose length follows Python's slicing rules (a
      negative `top_n` counts from the end). */
  function TopRecommendations(result: Analysis, topN: int): (r: seq<Prediction>)
    ensures result.predictions.None? ==> r == []
    ensures result.predictions.Some? ==>
      |r| <= |result.predictions.value| && r == result.predictions.value[..|r|]
    ensures result.predictions.Some? && topN >= 0 ==> |r| == Min(topN, |result.predictions.value|)
    ensures result.predictions.Some? && topN < 0 ==>
      |r| == (if |result.predictions.value| + topN > 0 then |result.predictions.value| + topN else 0)
  {
    match result.predictions
    case None => []
    case Some(ps) =>
      var stop := if topN >= 0 then Min(topN, |ps|)
                  else if |ps| + topN > 0 then |ps| + topN else 0;
      ps[..stop]
  }

  // ---------------------------------------------------------------------------
  // From reply text to analysis dictionary (analyze_responses, after the call)
  // ---------------------------------------------------------------------------

  /** `r` is what the validator makes of the parsed reply `a`: `a` itself when it
      has no `predictions`; otherwise the generic error dictionary exactly when
      one of the first survivors lacks `domaine`, and else `a` with its
      predictions replaced by the survivors and only the top-3 list changed
      besides, and that only when some prediction survives. */
  predicate ValidatedFrom(r: Analysis, a: Analysis, domainNames: seq<string>) {
    && (a.predictions.None? ==> r == a)
    && (a.predictions.Some? ==>
          && (r == AnalysisFailure <==> TopLacksDomaine(Survivors(a.predictions.value, domainNames)))
          && (r != AnalysisFailure ==>
                && r.predictions == Some(Survivors(a.predictions.value, domainNames))
                && (|Survivors(a.predictions.value, domainNames)| == 0 ==> r.top3 == a.top3)
                && r.(predictions := a.predictions, top3 := a.top3) == a))
  }

  /** What `analyze_responses` makes of the parser's outcome: a decode error
      gives the JSON error dictionary carrying the raw reply, a validator
      exception gives the generic error dictionary, anything else is the
      validated result. Whatever predictions come back have been validated
      against `domainNames`. */
  function AnalyzeParsed(parsed: Option<Analysis>, reply: string, domainNames: seq<string>): (r: Analysis)
    ensures parsed.None? ==>
      r.error == Some(JsonErrorMessage) && r.rawResponse == Some(reply) && r.predictions.None?
    ensures parsed.Some? ==> ValidatedFrom(r, parsed.value, domainNames)
    ensures r.predictions.Some? ==> Validated(r.predictions.value, domainNames)
    ensures r.predictions.Some? && |r.predictions.value| > 0 ==>
      r.top3.Some? && IsTopDomains(r.top3.value, r.predictions.value)
  {
    match parsed
    case None => Analysis(Some(JsonErrorMessage), None, None, None, Some(reply))
    case Some(a) =>
      SurvivorsValidated(a.predictions.GetOr([]), domainNames);
      match ValidateAndSort(a, domainNames)
      case Success(v) => v
      case Failure(_) => AnalysisFailure
  }

  /** The part of `analyze_responses` after the model call, from reply text to
      analysis dictionary; `parse` stands for `json.loads` and yields None on a
      decode error. */
  function AnalyzeReply(reply: string, domainNames: seq<string>, parse: string -> Option<Analysis>): (r: Analysis)
    ensures parse(StripFences(reply)).None? ==> r.error == Some(JsonErrorMessage) && r.rawResponse == Some(reply)
    ensures parse(StripFences(reply)).Some? ==> ValidatedFrom(r, parse(StripFences(reply)).value, domainNames)
    ensures r.predictions.Some? ==> Validated(r.predictions.value, domainNames)
    ensures r.predictions.Some? && |r.predictions.value| > 0 ==>
      r.top3.Some? && IsTopDomains(r.top3.value, r.predictions.value)
  {
    AnalyzeParsed(parse(StripFences(reply)), reply, domainNames)
  }

  /** A two-domain example: a corpus of "cloud" and "security",
      a reply scoring security 20 and cloud 80, gives the predictions cloud (80)
      then security (20), and the top-3 list [cloud, security]. */
  lemma CloudSecurityScenario()
    ensures
      var cloud := Prediction(Some("cloud"), Some(80), None, None, None, None);
      var security := Prediction(Some("security"), Some(20), None, None, None, None);
      var reply := Analysis(None, Some([security, cloud]), Some("summary"), None, None);
      ValidateAndSort(reply, ["cloud", "security"])
        == Success(reply.(predictions := Some([cloud, security]), top3 := Some(["cloud", "security"])))
  {
    var cloud := Prediction(Some("cloud"), Some(80), None, None, None, None);
    var security := Prediction(Some("security"), Some(20), None, None, None, None);
    ScenarioSurvivors(cloud, security);
    var sorted := [cloud, security];
    assert sorted[..Min(TopCount, |sorted|)] == sorted;
    var names := DomainNames(sorted);
    assert names.Some? && |names.value| == 2;
    assert names.value[0] == "cloud" && names.value[1] == "security";
    assert names.value == ["cloud", "security"];
  }

  /** The validator's filter and sort on the two-domain example. */
  lemma ScenarioSurvivors(cloud: Prediction, security: Prediction)
    requires cloud == Prediction(Some("cloud"), Some(80), None, None, None, None)
    requires security == Prediction(Some("security"), Some(20), None, None, None, None)
    ensures Survivors([security, cloud], ["cloud", "security"]) == [cloud, security]
  {
    ScenarioKept(cloud, security);
    ScenarioSorted(cloud, security);
  }

  /** Both predictions name a corpus domain and have in-range scores. */
  lemma ScenarioKept(cloud: Prediction, security: Prediction)
    requires cloud == Prediction(Some("cloud"), Some(80), None, None, None, None)
    requires security == Prediction(Some("security"), Some(20), None, None, None, None)
    ensures KeepKnown([security, cloud], LowerAll(["cloud", "security"])) == [security, cloud]
  {
    var lower := LowerAll(["cloud", "security"]);
    assert Lower("cloud") == "cloud";
    assert Lower("security") == "security";
    assert lower == ["cloud", "security"];
    assert Clamped(cloud) == cloud && Clamped(security) == security;
    assert [security, cloud][1..] == [cloud];
    assert [cloud][1..] == [];
  }

  /** The higher score goes first. */
  lemma ScenarioSorted(cloud: Prediction, security: Prediction)
    requires cloud == Prediction(Some("cloud"), Some(80), None, None, None, None)
    requires security == Prediction(Some("security"), Some(20), None, None, None, None)
    ensures SortByScore([security, cloud]) == [cloud, security]
  {
    assert [security, cloud][1..] == [cloud];
    assert [cloud][1..] == [];
    assert SortByScore([cloud]) == [cloud];
    assert Insert(security, []) == [security];
    assert Insert(security, [cloud]) == [cloud] + Insert(security, []);
  }
}
