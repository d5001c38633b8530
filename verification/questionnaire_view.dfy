/** The browser questionnaire component: the current-question index, the map of
    answers keyed by question id, the one-by-one / all-at-once toggle, the
    handlers that change them, the gates that enable the navigation and submit
    buttons, and the payload built on submit. Rendering is left out; a click on
    a disabled button is an event that changes nothing. */
module QuestionnaireView {
  import opened Wrappers

  /** A question as the component receives it. Ids are non-negative integers,
      so they are array-index keys of the answers object. */
  datatype Question = Question(id: nat, text: string, options: seq<string>)

  /** The component state: `currentQuestionIndex`, `userAnswers`, `showAll`. */
  datatype View = View(index: int, answers: map<nat, string>, showAll: bool)

  /** One `{question_id, answer}` entry of the submitted payload. */
  datatype FormattedAnswer = FormattedAnswer(questionId: int, answer: string)

  /** What the user can do: pick option `option` of question number `question`
      (an index into the list), press a navigation button, toggle the view. */
  datatype Event =
    | Pick(question: nat, option: nat)
    | NextPressed
    | PreviousPressed
    | SubmitPressed
    | ShowAllPressed
    | ShowOnePressed

  /** The new state, and the payload handed to `onSubmit` when one was sent. */
  datatype Outcome = Outcome(view: View, submitted: Option<seq<FormattedAnswer>>)

  const Initial: View := View(0, map[], false)

  // ---------------------------------------------------------------------------
  // Handlers
  // ---------------------------------------------------------------------------

  /** `handleAnswerSelect`: sets or overwrites the answer of one question id;
      every other entry and the rest of the state stay as they were. */
  function HandleAnswerSelect(v: View, id: nat, answer: string): (r: View)
    ensures id in r.answers && r.answers[id] == answer
    ensures forall k :: k != id ==> (k in r.answers <==> k in v.answers)
    ensures forall k :: k != id && k in v.answers ==> r.answers[k] == v.answers[k]
    ensures r.index == v.index && r.showAll == v.showAll
  {
    v.(answers := v.answers[id := answer])
  }

  /** `handleNext`: moves forward only when not already at the last question. */
  function HandleNext(v: View, count: nat): (r: View)
    ensures v.index < count - 1 ==> r.index == v.index + 1
    ensures v.index >= count - 1 ==> r == v
    ensures r.answers == v.answers && r.showAll == v.showAll
  {
    if v.index < count - 1 then v.(index := v.index + 1) else v
  }

  /** `handlePrevious`: moves back only when not already at the first question. */
  function HandlePrevious(v: View): (r: View)
    ensures v.index > 0 ==> r.index == v.index - 1
    ensures v.index <= 0 ==> r == v
    ensures r.answers == v.answers && r.showAll == v.showAll
  {
    if v.index > 0 then v.(index := v.index - 1) else v
  }

  /** The index is a valid position: within [0, count - 1], or 0 for an empty list. */
  predicate InBounds(index: int, count: nat) {
    0 <= index && (index < count || index == 0)
  }

  /** A navigation button press, without the enabling gates. */
  datatype Move = Forward | Back

  function Navigate(v: View, count: nat, moves: seq<Move>): View
    decreases |moves|
  {
    if |moves| == 0 then v
    else
      var w := match moves[0] case Forward => HandleNext(v, count) case Back => HandlePrevious(v);
      Navigate(w, count, moves[1..])
  }

  /** Whatever sequence of next/previous presses, an index that starts in
      bounds stays in bounds, and the answers are untouched. */
  lemma {:induction false} NavigateInBounds(v: View, count: nat, moves: seq<Move>)
    requires InBounds(v.index, count)
    ensures InBounds(Navigate(v, count, moves).index, count)
    ensures Navigate(v, count, moves).answers == v.answers
    decreases |moves|
  {
    if |moves| > 0 {
      var w := match moves[0] case Forward => HandleNext(v, count) case Back => HandlePrevious(v);
      NavigateInBounds(w, count, moves[1..]);
    }
  }

  // ---------------------------------------------------------------------------
  // Gates
  // ---------------------------------------------------------------------------

  /** `isAnswered`: the answers object has an entry for the id. */
  predicate IsAnswered(v: View, id: nat) {
    id in v.answers
  }

  /** `allQuestionsAnswered`. */
  predicate AllAnswered(questions: seq<Question>, v: View) {
    forall i :: 0 <= i < |questions| ==> IsAnswered(v, questions[i].id)
  }

  /** "Suivant" is shown before the last question and enabled once the current
      question is answered. */
  predicate NextEnabled(questions: seq<Question>, v: View) {
    !v.showAll && 0 <= v.index < |questions| - 1 && IsAnswered(v, questions[v.index].id)
  }

  /** "Précédent" is disabled on the first question. */
  predicate PreviousEnabled(v: View) {
    !v.showAll && v.index != 0
  }

  /** A submit button is shown in the all-questions view and on the last
      question; it is enabled once every question is answered. */
  predicate SubmitEnabled(questions: seq<Question>, v: View) {
    (v.showAll || v.index >= |questions| - 1) && AllAnswered(questions, v)
  }

  /** An option can be picked when its question is on screen: the current one,
      or any of them in the all-questions view. */
  predicate PickEnabled(questions: seq<Question>, v: View, question: nat, option: nat) {
    question < |questions| && option < |questions[question].options|
    && (v.showAll || question == v.index)
  }

  // ---------------------------------------------------------------------------
  // Submit payload
  // ---------------------------------------------------------------------------

  predicate IsLeast(k: nat, keys: set<nat>) {
    k in keys && forall j :: j in keys ==> k <= j
  }

  lemma {:induction false} LeastExists(keys: set<nat>)
    requires |keys| > 0
    ensures exists k :: IsLeast(k, keys)
    decreases |keys|
  {
    var x :| x in keys;
    if |keys - {x}| == 0 {
      assert keys == {x};
      assert IsLeast(x, keys);
    } else {
      LeastExists(keys - {x});
      var y :| IsLeast(y, keys - {x});
      assert forall j :: j in keys ==> j == x || j in keys - {x};
      if x < y {
        assert IsLeast(x, keys);
      } else {
        assert IsLeast(y, keys);
      }
    }
  }

  function Least(keys: set<nat>): (k: nat)
    requires |keys| > 0
    ensures IsLeast(k, keys)
  {
    LeastExists(keys);
    var k :| IsLeast(k, keys);
    k
  }

  /** The ids of a payload increase strictly from one entry to the next. */
  predicate StrictlyIncreasing(p: seq<FormattedAnswer>) {
    forall i, j :: 0 <= i < j < |p| ==> p[i].questionId < p[j].questionId
  }

  /** The keys in ascending order. */
  function SortedKeys(keys: set<nat>): (r: seq<nat>)
    ensures |r| == |keys|
    ensures forall i, j :: 0 <= i < j < |r| ==> r[i] < r[j]
    ensures forall i :: 0 <= i < |r| ==> r[i] in keys
    ensures forall k :: k in keys ==> k in r
    decreases |keys|
  {
    if |keys| == 0 then []
    else
      var k := Least(keys);
      var tail := SortedKeys(keys - {k});
      assert forall j :: j in keys ==> j == k || j in keys - {k};
      [k] + tail
  }

  /** `Object.entries(userAnswers).map(...)`: one entry per stored answer,
      holding that answer, with integer keys enumerated in ascending order and
      read back by `parseInt`. */
  function FormatAnswers(answers: map<nat, string>): (r: seq<FormattedAnswer>)
    ensures |r| == |answers|
    ensures StrictlyIncreasing(r)
    ensures forall i :: 0 <= i < |r| ==> r[i].questionId in answers && answers[r[i].questionId] == r[i].answer
    ensures forall k :: k in answers ==> exists i :: 0 <= i < |r| && r[i].questionId == k
  {
    var ks := SortedKeys(answers.Keys);
    KeysCardinality(answers);
    EntriesCover(ks, answers);
    Entries(ks, answers)
  }

  /** Entries for every key, in strictly increasing key order, are strictly
      increasing and name every key. */
  lemma EntriesCover(ks: seq<nat>, answers: map<nat, string>)
    requires forall i :: 0 <= i < |ks| ==> ks[i] in answers
    requires forall i, j :: 0 <= i < j < |ks| ==> ks[i] < ks[j]
    requires forall k :: k in answers ==> k in ks
    ensures StrictlyIncreasing(Entries(ks, answers))
    ensures forall k :: k in answers ==> exists i :: 0 <= i < |ks| && Entries(ks, answers)[i].questionId == k
  {
    var r := Entries(ks, answers);
    forall k | k in answers
      ensures exists i :: 0 <= i < |ks| && r[i].questionId == k
    {
      var i :| 0 <= i < |ks| && ks[i] == k;
      assert r[i].questionId == k;
    }
  }

  lemma KeysCardinality(answers: map<nat, string>)
    ensures |answers.Keys| == |answers|
  {
  }

  /** The payload entries for the given keys, in the given order. */
  function Entries(ks: seq<nat>, answers: map<nat, string>): (r: seq<FormattedAnswer>)
    requires forall i :: 0 <= i < |ks| ==> ks[i] in answers
    ensures |r| == |ks|
    ensures forall i :: 0 <= i < |r| ==> r[i] == FormattedAnswer(ks[i], answers[ks[i]])
  {
    seq(|ks|, i requires 0 <= i < |ks| => FormattedAnswer(ks[i], answers[ks[i]]))
  }

  // ---------------------------------------------------------------------------
  // The component as a state machine
  // ---------------------------------------------------------------------------

  /** One user event. Disabled buttons and options not on screen do nothing;
      an enabled submit sends the formatted answers and keeps the state. */
  function Step(questions: seq<Question>, v: View, e: Event): (r: Outcome)
    ensures r.submitted.Some? <==> e.SubmitPressed? && SubmitEnabled(questions, v)
    ensures r.submitted.Some? ==> r.submitted.value == FormatAnswers(v.answers) && r.view == v
    ensures e.Pick? && PickEnabled(questions, v, e.question, e.option) ==>
      r.view == HandleAnswerSelect(v, questions[e.question].id, questions[e.question].options[e.option])
    ensures e.Pick? && !PickEnabled(questions, v, e.question, e.option) ==> r.view == v
    ensures e.NextPressed? && NextEnabled(questions, v) ==> r.view == v.(index := v.index + 1)
    ensures e.NextPressed? && !NextEnabled(questions, v) ==> r.view == v
    ensures e.PreviousPressed? && PreviousEnabled(v) ==> r.view == HandlePrevious(v)
    ensures e.PreviousPressed? && !PreviousEnabled(v) ==> r.view == v
    ensures (e.NextPressed? || e.PreviousPressed?) ==> r.view.answers == v.answers
    ensures e.SubmitPressed? ==> r.view == v
    ensures e.ShowAllPressed? ==> r.view == v.(showAll := true)
    ensures e.ShowOnePressed? ==> r.view == v.(showAll := false)
  {
    match e
    case Pick(q, o) =>
      if PickEnabled(questions, v, q, o) then
        Outcome(HandleAnswerSelect(v, questions[q].id, questions[q].options[o]), None)
      else Outcome(v, None)
    case NextPressed =>
      Outcome(if NextEnabled(questions, v) then HandleNext(v, |questions|) else v, None)
    case PreviousPressed =>
      Outcome(if PreviousEnabled(v) then HandlePrevious(v) else v, None)
    case SubmitPressed =>
      if SubmitEnabled(questions, v) then Outcome(v, Some(FormatAnswers(v.answers))) else Outcome(v, None)
    case ShowAllPressed => Outcome(v.(showAll := true), None)
    case ShowOnePressed => Outcome(v.(showAll := false), None)
  }

  /** The answer stored under `id` is an option of a question with that id. */
  predicate AnswerOfSomeQuestion(questions: seq<Question>, id: nat, answer: string) {
    exists i :: 0 <= i < |questions| && questions[i].id == id && answer in questions[i].options
  }

  /** What every reachable state satisfies: the index is in bounds, every
      question before the current one is answered, and every stored answer is
      an option of a question with that id. */
  predicate Reachable(questions: seq<Question>, v: View) {
    && InBounds(v.index, |questions|)
    && (forall i :: 0 <= i < v.index && i < |questions| ==> IsAnswered(v, questions[i].id))
    && (forall k :: k in v.answers ==> AnswerOfSomeQuestion(questions, k, v.answers[k]))
  }

  lemma InitialReachable(questions: seq<Question>)
    ensures Reachable(questions, Initial)
  {
  }

  /** Every event keeps the invariant. */
  lemma StepPreservesReachable(questions: seq<Question>, v: View, e: Event)
    requires Reachable(questions, v)
    ensures Reachable(questions, Step(questions, v, e).view)
  {
    match e
    case Pick(q, o) =>
      if PickEnabled(questions, v, q, o) {
        var w := Step(questions, v, e).view;
        forall k | k in w.answers
          ensures AnswerOfSomeQuestion(questions, k, w.answers[k])
        {
          if k == questions[q].id {
            assert questions[q].options[o] in questions[q].options;
          }
        }
      }
    case _ =>
  }

  function Replay(questions: seq<Question>, v: View, events: seq<Event>): View
    decreases |events|
  {
    if |events| == 0 then v else Replay(questions, Step(questions, v, events[0]).view, events[1..])
  }

  lemma {:induction false} ReplayPreservesReachable(questions: seq<Question>, v: View, events: seq<Event>)
    requires Reachable(questions, v)
    ensures Reachable(questions, Replay(questions, v, events))
    decreases |events|
  {
    if |events| > 0 {
      StepPreservesReachable(questions, v, events[0]);
      ReplayPreservesReachable(questions, Step(questions, v, events[0]).view, events[1..]);
    }
  }

  /** Picking option `cs[i]` of question `k + i`, for each i in turn. */
  function PicksFrom(k: nat, cs: seq<nat>): (r: seq<Event>)
    ensures |r| == |cs| && forall i :: 0 <= i < |cs| ==> r[i] == Pick(k + i, cs[i])
  {
    seq(|cs|, i requires 0 <= i < |cs| => Pick(k + i, cs[i]))
  }

  /** Question ids are unique. */
  predicate DistinctIds(questions: seq<Question>) {
    forall i, j :: 0 <= i < j < |questions| ==> questions[i].id != questions[j].id
  }

  /** `cs` names an existing option of each of the questions from `k` on. */
  predicate ValidChoices(questions: seq<Question>, k: nat, cs: seq<nat>) {
    k + |cs| <= |questions| && forall i :: k <= i < k + |cs| ==> cs[i - k] < |questions[i].options|
  }

  /** None of the questions `k` .. `k + n - 1` has the id. */
  predicate NotPicked(questions: seq<Question>, k: nat, n: nat, id: nat)
    requires k + n <= |questions|
  {
    forall i :: k <= i < k + n ==> questions[i].id != id
  }

  /** `after` is `before` with option `cs[i - k]` stored for each question i
      from `k` on: the picked ids hold their picks, no other id appears, and
      the other ids keep their answers. */
  predicate StoresPicks(questions: seq<Question>, k: nat, cs: seq<nat>, before: map<nat, string>, after: map<nat, string>)
    requires ValidChoices(questions, k, cs)
  {
    && (forall i :: k <= i < k + |cs| ==> questions[i].id in after && after[questions[i].id] == questions[i].options[cs[i - k]])
    && (forall id :: id in before ==> id in after)
    && (forall id :: id in after ==> id in before || !NotPicked(questions, k, |cs|, id))
    && (forall id :: id in before && NotPicked(questions, k, |cs|, id) ==> after[id] == before[id])
  }

  /** Valid choices from `k` on are valid from `k + 1` on without the first. */
  lemma ValidChoicesTail(questions: seq<Question>, k: nat, cs: seq<nat>)
    requires |cs| > 0 && ValidChoices(questions, k, cs)
    ensures ValidChoices(questions, k + 1, cs[1..])
  {
    assert forall i :: 0 <= i < |cs| - 1 ==> cs[1..][i] == cs[i + 1];
  }

  /** An option of a question on screen is stored under that question's id. */
  lemma PickOnScreen(questions: seq<Question>, v: View, q: nat, o: nat)
    requires v.showAll && q < |questions| && o < |questions[q].options|
    ensures Step(questions, v, Pick(q, o)).view == v.(answers := v.answers[questions[q].id := questions[q].options[o]])
  {
    assert PickEnabled(questions, v, q, o);
  }

  /** Storing the first pick, then the rest, stores all of them, since the
      later questions have other ids. */
  lemma StoresPicksCons(questions: seq<Question>, k: nat, cs: seq<nat>, before: map<nat, string>, after: map<nat, string>)
    requires |cs| > 0 && DistinctIds(questions) && ValidChoices(questions, k, cs) && ValidChoices(questions, k + 1, cs[1..])
    requires StoresPicks(questions, k + 1, cs[1..], before[questions[k].id := questions[k].options[cs[0]]], after)
    ensures StoresPicks(questions, k, cs, before, after)
  {
    var mid := before[questions[k].id := questions[k].options[cs[0]]];
    assert NotPicked(questions, k + 1, |cs| - 1, questions[k].id);
    assert forall i :: 0 <= i < |cs| - 1 ==> cs[1..][i] == cs[i + 1];
    forall id | NotPicked(questions, k, |cs|, id)
      ensures NotPicked(questions, k + 1, |cs| - 1, id) && id != questions[k].id
    {
    }
    forall id | !NotPicked(questions, k, |cs|, id)
      ensures id == questions[k].id || !NotPicked(questions, k + 1, |cs| - 1, id)
    {
    }
  }

  /** In the all-questions view, picking an option of each of the questions
      from `k` on stores exactly those answers, on top of the earlier ones,
      and changes neither the index nor the mode. */
  lemma {:induction false} ReplayPicks(questions: seq<Question>, v: View, k: nat, cs: seq<nat>)
    requires v.showAll && DistinctIds(questions) && ValidChoices(questions, k, cs)
    ensures var w := Replay(questions, v, PicksFrom(k, cs));
      w.showAll && w.index == v.index && StoresPicks(questions, k, cs, v.answers, w.answers)
    decreases |cs|
  {
    var es := PicksFrom(k, cs);
    if |cs| == 0 {
      assert es == [];
    } else {
      PickOnScreen(questions, v, k, cs[0]);
      var u := Step(questions, v, es[0]).view;
      assert es[1..] == PicksFrom(k + 1, cs[1..]);
      ValidChoicesTail(questions, k, cs);
      ReplayPicks(questions, u, k + 1, cs[1..]);
      assert Replay(questions, v, es) == Replay(questions, u, PicksFrom(k + 1, cs[1..]));
      StoresPicksCons(questions, k, cs, v.answers, Replay(questions, v, es).answers);
    }
  }

  /** The answers hold option `cs[i]` for each question i, and nothing else. */
  predicate HoldsChoices(questions: seq<Question>, cs: seq<nat>, answers: map<nat, string>)
    requires |cs| == |questions| && ValidChoices(questions, 0, cs)
  {
    && (forall i :: 0 <= i < |questions| ==> questions[i].id in answers && answers[questions[i].id] == questions[i].options[cs[i]])
    && (forall id :: id in answers ==> exists i :: 0 <= i < |questions| && questions[i].id == id)
  }

  /** After the all-questions view is opened and every question gets its pick,
      the view holds exactly the picks. */
  lemma PickEveryQuestion(questions: seq<Question>, cs: seq<nat>)
    requires DistinctIds(questions) && |cs| == |questions| && ValidChoices(questions, 0, cs)
    ensures Replay(questions, Initial, [ShowAllPressed] + PicksFrom(0, cs)).showAll
    ensures HoldsChoices(questions, cs, Replay(questions, Initial, [ShowAllPressed] + PicksFrom(0, cs)).answers)
  {
    var es := [ShowAllPressed] + PicksFrom(0, cs);
    var v := Step(questions, Initial, ShowAllPressed).view;
    assert v == View(0, map[], true);
    assert es[0] == ShowAllPressed && es[1..] == PicksFrom(0, cs);
    ReplayPicks(questions, v, 0, cs);
    var w := Replay(questions, v, PicksFrom(0, cs));
    assert Replay(questions, Initial, es) == w;
    PickedIdsOnly(questions, cs, w.answers);
  }

  /** Picks stored into an empty map are exactly what the map holds. */
  lemma PickedIdsOnly(questions: seq<Question>, cs: seq<nat>, answers: map<nat, string>)
    requires |cs| == |questions| && ValidChoices(questions, 0, cs)
    requires StoresPicks(questions, 0, cs, map[], answers)
    ensures HoldsChoices(questions, cs, answers)
  {
    assert forall i :: 0 <= i < |cs| ==> cs[i - 0] == cs[i];
    forall id | id in answers
      ensures exists i :: 0 <= i < |questions| && questions[i].id == id
    {
      assert !NotPicked(questions, 0, |cs|, id);
    }
  }

  /** Each entry of `p` carries the answer stored under its id. */
  predicate EntriesFrom(p: seq<FormattedAnswer>, answers: map<nat, string>) {
    forall j :: 0 <= j < |p| ==> p[j].questionId in answers && answers[p[j].questionId] == p[j].answer
  }

  /** Every pick has its entry in a payload that names every stored id. */
  lemma ChoicesInPayload(questions: seq<Question>, cs: seq<nat>, answers: map<nat, string>, p: seq<FormattedAnswer>)
    requires |cs| == |questions| && ValidChoices(questions, 0, cs)
    requires HoldsChoices(questions, cs, answers) && EntriesFrom(p, answers)
    requires forall k :: k in answers ==> exists j :: 0 <= j < |p| && p[j].questionId == k
    ensures forall i :: 0 <= i < |questions| ==> FormattedAnswer(questions[i].id, questions[i].options[cs[i]]) in p
  {
    forall i | 0 <= i < |questions|
      ensures FormattedAnswer(questions[i].id, questions[i].options[cs[i]]) in p
    {
      var id := questions[i].id;
      var j :| 0 <= j < |p| && p[j].questionId == id;
      assert p[j].answer == answers[id];
    }
  }

  /** `e` is the entry of some question with its picked option. */
  predicate IsPick(questions: seq<Question>, cs: seq<nat>, e: FormattedAnswer)
    requires |cs| == |questions| && ValidChoices(questions, 0, cs)
  {
    exists i :: 0 <= i < |questions| && e == FormattedAnswer(questions[i].id, questions[i].options[cs[i]])
  }

  /** An entry carrying the answer stored under its id is one of the picks. */
  lemma EntryIsPick(questions: seq<Question>, cs: seq<nat>, answers: map<nat, string>, e: FormattedAnswer)
    requires |cs| == |questions| && ValidChoices(questions, 0, cs)
    requires HoldsChoices(questions, cs, answers)
    requires e.questionId in answers && answers[e.questionId] == e.answer
    ensures IsPick(questions, cs, e)
  {
    var id: nat := e.questionId;
    var i :| 0 <= i < |questions| && questions[i].id == id;
    assert e == FormattedAnswer(questions[i].id, questions[i].options[cs[i]]);
  }

  /** Every entry of a payload drawn from the answers is one of the picks. */
  lemma PayloadOfChoices(questions: seq<Question>, cs: seq<nat>, answers: map<nat, string>, p: seq<FormattedAnswer>)
    requires |cs| == |questions| && ValidChoices(questions, 0, cs)
    requires HoldsChoices(questions, cs, answers) && EntriesFrom(p, answers)
    ensures forall j :: 0 <= j < |p| ==> IsPick(questions, cs, p[j])
  {
    forall j | 0 <= j < |p|
      ensures IsPick(questions, cs, p[j])
    {
      EntryIsPick(questions, cs, answers, p[j]);
    }
  }

  /** The payload answers with exactly the picks: one entry per question,
      carrying its picked option, in increasing id order. */
  predicate SendsChoices(questions: seq<Question>, cs: seq<nat>, p: seq<FormattedAnswer>)
    requires |cs| == |questions| && ValidChoices(questions, 0, cs)
  {
    && StrictlyIncreasing(p)
    && (forall i :: 0 <= i < |questions| ==> FormattedAnswer(questions[i].id, questions[i].options[cs[i]]) in p)
    && (forall j :: 0 <= j < |p| ==> IsPick(questions, cs, p[j]))
  }

  /** The formatted answers of a map holding the picks send exactly the picks. */
  lemma FormatChoices(questions: seq<Question>, cs: seq<nat>, answers: map<nat, string>)
    requires |cs| == |questions| && ValidChoices(questions, 0, cs)
    requires HoldsChoices(questions, cs, answers)
    ensures SendsChoices(questions, cs, FormatAnswers(answers))
  {
    var p := FormatAnswers(answers);
    assert EntriesFrom(p, answers);
    ChoicesInPayload(questions, cs, answers, p);
    PayloadOfChoices(questions, cs, answers, p);
  }

  /** Submitting answers that hold the picks sends exactly the picks. */
  lemma SubmitChoices(questions: seq<Question>, cs: seq<nat>, w: View)
    requires |cs| == |questions| && ValidChoices(questions, 0, cs)
    requires HoldsChoices(questions, cs, w.answers) && w.showAll
    ensures Step(questions, w, SubmitPressed).submitted.Some?
    ensures SendsChoices(questions, cs, Step(questions, w, SubmitPressed).submitted.value)
  {
    assert AllAnswered(questions, w);
    assert Step(questions, w, SubmitPressed).submitted == Some(FormatAnswers(w.answers));
    FormatChoices(questions, cs, w.answers);
  }

  /** Progress: switching to the all-questions view, picking an option of every
      question and pressing submit sends exactly those answers, one entry per
      question, in increasing id order. */
  lemma AnswerAllThenSubmit(questions: seq<Question>, cs: seq<nat>)
    requires DistinctIds(questions) && |cs| == |questions| && ValidChoices(questions, 0, cs)
    ensures var w := Replay(questions, Initial, [ShowAllPressed] + PicksFrom(0, cs));
      var o := Step(questions, w, SubmitPressed);
      o.submitted.Some? && SendsChoices(questions, cs, o.submitted.value)
  {
    PickEveryQuestion(questions, cs);
    var w := Replay(questions, Initial, [ShowAllPressed] + PicksFrom(0, cs));
    SubmitChoices(questions, cs, w);
  }

  predicate HasEntry(p: seq<FormattedAnswer>, id: int) {
    exists j :: 0 <= j < |p| && p[j].questionId == id
  }

  /** Every question id appears in the payload, and every entry carries an
      option of a question with its id. */
  predicate AnswersEachQuestion(questions: seq<Question>, p: seq<FormattedAnswer>) {
    && (forall i :: 0 <= i < |questions| ==> HasEntry(p, questions[i].id))
    && (forall j :: 0 <= j < |p| ==> 0 <= p[j].questionId && AnswerOfSomeQuestion(questions, p[j].questionId, p[j].answer))
  }

  /** A payload sent from a reachable state answers every question exactly
      once: its ids are precisely the question ids, each appearing once, and
      each answer is an option of its question. */
  lemma SubmittedPayload(questions: seq<Question>, v: View)
    requires Reachable(questions, v)
    requires Step(questions, v, SubmitPressed).submitted.Some?
    ensures var p := Step(questions, v, SubmitPressed).submitted.value;
      StrictlyIncreasing(p) && AnswersEachQuestion(questions, p)
  {
    var p := FormatAnswers(v.answers);
    assert Step(questions, v, SubmitPressed).submitted.value == p;
    assert AllAnswered(questions, v);
    forall i | 0 <= i < |questions|
      ensures HasEntry(p, questions[i].id)
    {
      assert questions[i].id in v.answers;
    }
    forall j | 0 <= j < |p|
      ensures 0 <= p[j].questionId && AnswerOfSomeQuestion(questions, p[j].questionId, p[j].answer)
    {
      assert p[j].questionId in v.answers;
    }
    assert AnswersEachQuestion(questions, p);
  }
}
