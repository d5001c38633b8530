/** `Questionnaire.run`, the terminal questionnaire: questions are asked in
    order; a question with options re-prompts until a line parses as an option
    number in range, a question without options takes the line as typed. The
    lines typed at the prompt are an input sequence; running out of them is the
    `EOFError` that `input()` raises. */
module QuestionnaireCli {
  import opened Wrappers
  import opened Text
  import opened Sequences

  /** One entry of the questions file; a missing `options` key is the empty list. */
  datatype Question = Question(id: int, text: string, options: seq<string>)

  /** One `{question, answer}` record of the result. */
  datatype Response = Response(question: string, answer: string)

  datatype RunError = EndOfInput

  /** How a choice prompt treats one line: an option, a number out of range
      ("Numéro invalide"), or not a number ("Merci de saisir un nombre"). */
  datatype Choice = Accepted(answer: string) | OutOfRange | NotANumber

  /** Where the session stands: the question being asked and the records so far. */
  datatype Session = Session(index: nat, responses: seq<Response>)

  const Start: Session := Session(0, [])

  /** `int(line)` followed by the range check `1 <= choice <= len(options)`. */
  function ReadChoice(options: seq<string>, line: string): (r: Choice)
    ensures r.Accepted? <==> ParseInt(line).Some? && 1 <= ParseInt(line).value <= |options|
    ensures r.Accepted? ==> r.answer == options[ParseInt(line).value - 1] && r.answer in options
    ensures r == NotANumber <==> ParseInt(line).None?
  {
    match ParseInt(line)
    case None => NotANumber
    case Some(c) => if 1 <= c <= |options| then Accepted(options[c - 1]) else OutOfRange
  }

  /** Every option can be chosen: typing its number, as `str` prints it, selects it. */
  lemma ReadChoiceReachesEveryOption(options: seq<string>, c: int)
    requires 1 <= c <= |options|
    ensures ReadChoice(options, ShowInt(c)) == Accepted(options[c - 1])
  {
    ParseShowInt(c);
  }

  /** The records match the questions asked so far, position by position, and
      the answer to a question with options is one of them. */
  predicate Consistent(questions: seq<Question>, st: Session) {
    && st.index <= |questions|
    && |st.responses| == st.index
    && forall i :: 0 <= i < st.index ==>
         && st.responses[i].question == questions[i].text
         && (|questions[i].options| > 0 ==> st.responses[i].answer in questions[i].options)
  }

  /** Records `answer` for the current question and moves to the next one. */
  function Record(questions: seq<Question>, st: Session, answer: string): (r: Session)
    requires st.index < |questions|
    ensures r.index == st.index + 1 && |r.responses| == |st.responses| + 1 && r.responses[..|st.responses|] == st.responses
    ensures r.responses[|st.responses|] == Response(questions[st.index].text, answer)
    ensures Consistent(questions, st) && (|questions[st.index].options| > 0 ==> answer in questions[st.index].options) ==>
      Consistent(questions, r)
  {
    var r := Session(st.index + 1, st.responses + [Response(questions[st.index].text, answer)]);
    assert r.responses[..|st.responses|] == st.responses;
    r
  }

  /** One typed line at the current question. A free-text question records the
      line as typed; a choice question records the chosen option, or ignores
      a rejected line and asks the same question again. */
  function Feed(questions: seq<Question>, st: Session, line: string): (r: Session)
    requires st.index < |questions|
    ensures Consistent(questions, st) ==> Consistent(questions, r)
    ensures |questions[st.index].options| == 0 ==>
      r == Session(st.index + 1, st.responses + [Response(questions[st.index].text, line)])
    ensures |questions[st.index].options| > 0 && !ReadChoice(questions[st.index].options, line).Accepted? ==>
      r == st
    ensures |questions[st.index].options| > 0 && ReadChoice(questions[st.index].options, line).Accepted? ==>
      && r.index == st.index + 1 && |r.responses| == |st.responses| + 1 && r.responses[..|st.responses|] == st.responses
      && r.responses[|st.responses|].answer == questions[st.index].options[ParseInt(line).value - 1]
  {
    var options := questions[st.index].options;
    if |options| == 0 then Record(questions, st, line)
    else
      var c := ReadChoice(options, line);
      if c.Accepted? then Record(questions, st, c.answer) else st
  }

  /** The rest of a session fed with the remaining lines. */
  function Continue(questions: seq<Question>, st: Session, input: seq<string>): (r: Result<seq<Response>, RunError>)
    requires st.index <= |questions|
    ensures st.index == |questions| ==> r == Success(st.responses)
    ensures st.index < |questions| && |input| == 0 ==> r == Failure(EndOfInput)
    ensures r.Failure? ==> r.error == EndOfInput
    ensures r.Success? ==>
      && |r.value| == |st.responses| + (|questions| - st.index)
      && r.value[..|st.responses|] == st.responses
    decreases |input|
  {
    if st.index == |questions| then Success(st.responses)
    else if |input| == 0 then Failure(EndOfInput)
    else
      var next := Feed(questions, st, input[0]);
      assert next.index - st.index == |next.responses| - |st.responses|;
      assert next.responses[..|st.responses|] == st.responses;
      var r := Continue(questions, next, input[1..]);
      assert r.Success? ==> r.value[..|st.responses|] == r.value[..|next.responses|][..|st.responses|];
      r
  }

  /** Each line typed is fed to the current question and the session goes on
      with the lines after it. */
  lemma ContinueFeeds(questions: seq<Question>, st: Session, line: string, rest: seq<string>)
    requires st.index < |questions|
    ensures Continue(questions, st, [line] + rest) == Continue(questions, Feed(questions, st, line), rest)
  {
    assert ([line] + rest)[0] == line && ([line] + rest)[1..] == rest;
  }

  /** A line the current choice question rejects is ignored: the session goes
      on with the next line as if it had not been typed. */
  lemma ContinueSkipsRejected(questions: seq<Question>, st: Session, line: string, rest: seq<string>)
    requires st.index < |questions| && |questions[st.index].options| > 0
    requires !ReadChoice(questions[st.index].options, line).Accepted?
    ensures Continue(questions, st, [line] + rest) == Continue(questions, st, rest)
  {
    ContinueFeeds(questions, st, line, rest);
  }

  /** `line` answers `q` at the first try: any line for a free-text question,
      an option number in range for a choice question. */
  predicate AcceptedAtOnce(q: Question, line: string) {
    |q.options| == 0 || ReadChoice(q.options, line).Accepted?
  }

  /** What is recorded for `q` when `line` answers it at the first try: the line
      itself, or `options[c - 1]` for the number c typed. */
  function AnswerTo(q: Question, line: string): (r: string)
    requires AcceptedAtOnce(q, line)
    ensures |q.options| == 0 ==> r == line
    ensures |q.options| > 0 ==> r == q.options[ParseInt(line).value - 1]
  {
    if |q.options| == 0 then line else ReadChoice(q.options, line).answer
  }

  /** Line i answers question i at the first try, for every question. */
  predicate AllAcceptedAtOnce(questions: seq<Question>, input: seq<string>) {
    |questions| <= |input| && forall i :: 0 <= i < |questions| ==> AcceptedAtOnce(questions[i], input[i])
  }

  /** The record kept for question `q` when `line` answers it at the first try. */
  function RecordOf(q: Question, line: string): (r: Response)
    requires AcceptedAtOnce(q, line)
    ensures r.question == q.text && r.answer == AnswerTo(q, line)
  {
    Response(q.text, AnswerTo(q, line))
  }

  /** The records of a session whose every line is accepted at the first try. */
  function Records(questions: seq<Question>, input: seq<string>): (r: seq<Response>)
    requires AllAcceptedAtOnce(questions, input)
    ensures |r| == |questions|
    ensures forall i :: 0 <= i < |r| ==> r[i] == RecordOf(questions[i], input[i])
  {
    seq(|questions|, i requires 0 <= i < |questions| && i < |input| && AcceptedAtOnce(questions[i], input[i]) =>
      RecordOf(questions[i], input[i]))
  }

  /** A line accepted at the first try records its answer and moves on. */
  lemma FeedAccepted(questions: seq<Question>, st: Session, line: string)
    requires st.index < |questions| && AcceptedAtOnce(questions[st.index], line)
    ensures Feed(questions, st, line) == Session(st.index + 1, st.responses + [RecordOf(questions[st.index], line)])
  {
  }

  /** A line the current question accepts at the first try is recorded and
      the session goes on with the next line. */
  lemma ContinueAcceptedStep(questions: seq<Question>, st: Session, line: string, rest: seq<string>)
    requires st.index < |questions| && AcceptedAtOnce(questions[st.index], line)
    ensures Continue(questions, st, [line] + rest) ==
      Continue(questions, Session(st.index + 1, st.responses + [RecordOf(questions[st.index], line)]), rest)
  {
    FeedAccepted(questions, st, line);
    ContinueFeeds(questions, st, line, rest);
  }

  /** The records from question `k` on are the record of question `k` followed
      by the records from `k + 1` on. */
  lemma RecordsFromSplit(questions: seq<Question>, input: seq<string>, k: nat)
    requires k < |questions| && AllAcceptedAtOnce(questions, input)
    ensures AcceptedAtOnce(questions[k], input[k])
    ensures Records(questions, input)[k..] == [RecordOf(questions[k], input[k])] + Records(questions, input)[k + 1..]
  {
    var rs := Records(questions, input);
    assert rs[k] == RecordOf(questions[k], input[k]);
  }

  /** From question `st.index` on, when each line answers its question at the
      first try, the session adds the records of the remaining questions, in
      order, and finishes. */
  lemma {:induction false} ContinueAcceptedAtOnce(questions: seq<Question>, st: Session, input: seq<string>)
    requires st.index <= |questions| && AllAcceptedAtOnce(questions, input)
    ensures Continue(questions, st, input[st.index..]) == Success(st.responses + Records(questions, input)[st.index..])
    decreases |questions| - st.index
  {
    var k := st.index;
    var rs := Records(questions, input);
    if k == |questions| {
      assert rs[k..] == [];
      assert st.responses + [] == st.responses;
    } else {
      RecordsFromSplit(questions, input, k);
      var rec := RecordOf(questions[k], input[k]);
      assert input[k..] == [input[k]] + input[k + 1..];
      ContinueAcceptedStep(questions, st, input[k], input[k + 1..]);
      ContinueAcceptedAtOnce(questions, Session(k + 1, st.responses + [rec]), input);
      ConcatAssoc(st.responses, [rec], rs[k + 1..]);
    }
  }

  /** `Questionnaire.run` when each line is accepted at the first try: one
      record per question, in order, pairing the question's text with the line
      typed for it or the option that line numbers. */
  lemma RunAcceptedAtOnce(questions: seq<Question>, input: seq<string>)
    requires AllAcceptedAtOnce(questions, input)
    ensures Continue(questions, Start, input) == Success(Records(questions, input))
  {
    ContinueAcceptedAtOnce(questions, Start, input);
    var rs := Records(questions, input);
    assert input[0..] == input && rs[0..] == rs && [] + rs == rs;
  }

  /** A session that finishes has exactly one record per question, in question
      order, each answer to a question with options being one of them. */
  lemma {:induction false} ContinueConsistent(questions: seq<Question>, st: Session, input: seq<string>)
    requires Consistent(questions, st)
    ensures Continue(questions, st, input).Success? ==>
      Consistent(questions, Session(|questions|, Continue(questions, st, input).value))
    decreases |input|
  {
    if st.index < |questions| && |input| > 0 {
      ContinueConsistent(questions, Feed(questions, st, input[0]), input[1..]);
    }
  }

  /** `Questionnaire.run` over the typed lines. */
  method Run(questions: seq<Question>, input: seq<string>) returns (r: Result<seq<Response>, RunError>)
    ensures r == Continue(questions, Start, input)
    ensures r.Success? ==> |r.value| == |questions|
    ensures r.Success? ==> forall i :: 0 <= i < |questions| ==>
      && r.value[i].question == questions[i].text
      && (|questions[i].options| > 0 ==> r.value[i].answer in questions[i].options)
  {
    var st := Start;
    var k := 0;
    while st.index < |questions|
      invariant 0 <= k <= |input|
      invariant Consistent(questions, st)
      invariant Continue(questions, st, input[k..]) == Continue(questions, Start, input)
      decreases |input| - k
    {
      if k == |input| {
        return Failure(EndOfInput);
      }
      assert input[k..][1..] == input[k + 1..];
      st := Feed(questions, st, input[k]);
      k := k + 1;
    }
    return Success(st.responses);
  }
}
