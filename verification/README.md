# RAG IT-orientation pipeline — a Dafny model of its deterministic core

The system is a questionnaire-driven orientation assistant. A student answers
questions in a terminal or in a browser. The answers are matched to their
questions and joined into one query. A vector collection of IT-domain
descriptions returns the closest domains. A language model scores those
domains, and the reply is cleaned, validated, clamped, sorted and summarised
before it is shown.

The embedding search, the language model, the HTTP framework and the file
system are external. This project models the logic around them and proves what
it promises:

| module | file | what it models |
|---|---|---|
| `Wrappers` | wrappers.dfy | `Option` and `Result` |
| `Text` | text.dfy | the Python string operations the code relies on: `strip`, `lower`, `in`, `replace(pat, "")`, `join`, `split`, `int()` |
| `Sequences` | sequences.dfy | subsequence (order-preserving filter) vocabulary, `min` |
| `AnalyzerResponse` | analyzer_response.dfy | `_parse_json_response` fence stripping, `_validate_and_sort_results`, `get_top_recommendations`, the tail of `analyze_responses` |
| `AnalyzerContext` | analyzer_context.dfy | the keyword and experience-level heuristics of `_build_context` |
| `VectorStore` | vector_store.dfy | `load_domains`, `find_similar_domains`, `get_all_domains` over an abstract collection |
| `Api` | api.dfy | the `/analyze` handler: answer matching, the 400/500 checks, the end-to-end promise |
| `QuestionnaireCli` | questionnaire_cli.dfy | `Questionnaire.run`, the terminal re-prompt loop |
| `QuestionnaireView` | questionnaire_view.dfy | the browser questionnaire's navigation state machine and submit payload |
| `ResultsView` | results_view.dfy | the score and confidence colour classifiers |

External calls are modelled as parameters:

- `json.loads` is `parse: string -> Option<Analysis>`, where None is a decode error.
- The model call is `llm`, where None is an exception.
- The collection's `add` and `query` calls are functions whose None result is an exception.
- The result of the collection's `get()` is an input of `get_all_domains`, where None is an exception. To relate a listing to a load, `get` is a function of the collection. It is assumed to append an accepted registration's metadata to the listing.
- The collection itself is an arbitrary value `C` that changes only through `add`.
- The folder listing is a sequence of `(filename, read outcome)` entries.
- The terminal input is a sequence of lines.

## Model

| member | source | states |
|---|---|---|
| `Wrappers.AllPresent` | src/llm_analyzer.py:99 | a comprehension that indexes a key of every element yields all the values in order, and raises exactly when some element lacks the key |
| `Text.Strip` | src/llm_analyzer.py:210 | the result has no whitespace at either end, and the input is whitespace, then the result, then whitespace (Python's `isspace` set) |
| `Text.Lower` | src/llm_analyzer.py:42 | the text keeps its length and each character is lower-cased on its own |
| `Text.StripIdempotent` | src/llm_analyzer.py:221 | stripping the already-stripped text again changes nothing |
| `Text.ParseInt` | src/questionnaire.py:25 | a line `int()` accepts is non-blank after trimming and ends in a digit; anything else is a ValueError (None) |
| `Text.ParseShowInt` | src/questionnaire.py:25 | `int(str(n)) == n`: the option number as printed is always accepted and read back (CPython's 4300-digit limit on `int()` is not modelled) |
| `Text.SplitJoin` | src/api.py:171 | splitting a join on a separator that no piece contains gives the pieces back |
| `AnalyzerResponse.DropOpeningFence` | src/llm_analyzer.py:213-216 | a text starting with "```json" loses exactly those seven characters; one starting with "```" but not "```json" loses exactly those three; any other text is unchanged |
| `AnalyzerResponse.DropClosingFence` | src/llm_analyzer.py:218-219 | the result is a prefix of the text, and the text itself when it does not end with three backticks |
| `AnalyzerResponse.StripFences` | src/llm_analyzer.py:208-221 | the parser's input is trimmed; a reply with no fence at either end is only trimmed |
| `AnalyzerResponse.StripFencesIsInfix` | src/llm_analyzer.py:208-221 | the parser's input is a contiguous piece of the reply: cleaning only removes text |
| `AnalyzerResponse.JsonFencedPayload` | src/llm_analyzer.py:213-221 | for every payload P, the cleaned "```json" + P + "```" is exactly the trimmed P |
| `AnalyzerResponse.BareFencedPayload` | src/llm_analyzer.py:215-221 | the cleaned "```" + P + "```" is the trimmed P when P does not start with "json" |
| `AnalyzerResponse.FencedReplyParsesLikeBare` | src/llm_analyzer.py:208-221 | a payload without its own fences parses the same with or without the fence wrapper |
| `AnalyzerResponse.ClampScore` | src/llm_analyzer.py:240 | `max(0, min(100, s))` is in [0,100], is `s` inside the range, 0 below it and 100 above it |
| `AnalyzerResponse.Clamped` | src/llm_analyzer.py:240 | only the score changes: it becomes the clamped score, with a missing score read as 0 |
| `AnalyzerResponse.LowerAll` | src/llm_analyzer.py:233 | one lower-cased name per valid domain, in order |
| `AnalyzerResponse.KeepKnown` | src/llm_analyzer.py:236-241 | exactly the clamped versions of the predictions whose lower-cased domain (missing read as "") is a lower-cased valid domain are kept; every score kept is in [0,100] |
| `AnalyzerResponse.KeepKnownAppend` | src/llm_analyzer.py:237-241 | the filter distributes over concatenation, so it keeps input order |
| `AnalyzerResponse.SortByScore` | src/llm_analyzer.py:244 | the sort keeps the number of predictions; `SortByScoreCorrect` states the order, permutation and stability |
| `AnalyzerResponse.InsertPermutes` | src/llm_analyzer.py:244 | inserting into the sorted list adds exactly the one prediction |
| `AnalyzerResponse.InsertSorted` | src/llm_analyzer.py:244 | inserting into a list sorted by descending score keeps it sorted |
| `AnalyzerResponse.InsertStable` | src/llm_analyzer.py:244 | among the predictions with any given score, insertion puts the new one first and keeps the others in their order |
| `AnalyzerResponse.SortByScoreCorrect` | src/llm_analyzer.py:244 | the stable reverse sort gives non-increasing scores, a permutation of its input, and the same relative order among equal scores |
| `AnalyzerResponse.DomainNames` | src/llm_analyzer.py:250-252 | `[p["domaine"] for p in ps]`, failing exactly when some prediction lacks the key |
| `AnalyzerResponse.SurvivorsValidated` | src/llm_analyzer.py:236-246 | the returned predictions are sorted, in known domains and clamped |
| `AnalyzerResponse.SurvivorsCorrect` | src/llm_analyzer.py:233-246 | the returned predictions are exactly the kept ones (as a multiset), sorted and stable |
| `AnalyzerResponse.ValidateAndSort` | src/llm_analyzer.py:223-254 | without `predictions` the result is unchanged; otherwise the predictions become the survivors and, when some survive, `top_3_recommandations` is the domains of the first min(3, n); when none survive it is left as supplied; no other key changes; it raises exactly when one of those first survivors lacks `domaine` |
| `AnalyzerResponse.TopRecommendations` | src/llm_analyzer.py:256-274 | [] without `predictions`, otherwise a prefix of length min(top_n, n), or n + top_n floored at 0 for a negative top_n |
| `AnalyzerResponse.AnalyzeParsed` | src/llm_analyzer.py:186-206 | a decode error gives the JSON error dictionary with the raw reply; a parsed reply without predictions passes through unchanged; with predictions, the generic error is returned exactly when a top survivor lacks `domaine`, and otherwise the predictions are exactly the reply's survivors and only the top-3 list changes besides, and it is kept as the reply gave it when nothing survives |
| `AnalyzerResponse.AnalyzeReply` | src/llm_analyzer.py:186-193 | the same promises, from the raw reply through fence stripping and the parser |
| `AnalyzerResponse.CloudSecurityScenario` | src/llm_analyzer.py:223-254 | with domains cloud and security, a reply scoring security 20 and cloud 80 gives the predictions cloud (80), then security (20), and the top-3 list [cloud, security] |
| `AnalyzerContext.AnswerText` | src/llm_analyzer.py:31-42 | the scanned text is already lower-case; it is empty without answers and exactly the lower-cased answer for one answer; every lower-cased answer occurs in it |
| `Text.LowerAppend` | src/llm_analyzer.py:42 | lower-casing a concatenation lower-cases each part |
| `AnalyzerContext.AnswerTextCons` | src/llm_analyzer.py:31-42 | with two or more answers, the scanned text is the first answer lower-cased, one space, then the scanned text of the remaining answers: the answers joined by single spaces |
| `Text.JoinContains` | src/llm_analyzer.py:31 | every piece occurs as a substring of the join |
| `Text.LowerContains` | src/llm_analyzer.py:42 | lower-casing keeps substrings: a lower-cased piece occurs in the lower-cased text |
| `AnalyzerContext.FoundKeywords` | src/llm_analyzer.py:45 | a keyword is reported exactly when it is a substring of the text, in list order |
| `AnalyzerContext.KeywordHits` | src/llm_analyzer.py:44-47 | each category with at least one keyword found is reported with its found keywords; categories without a hit are omitted |
| `AnalyzerContext.KeywordHitsInOrder` | src/llm_analyzer.py:44-47 | the hits are the per-category findings, in category order, with the empty ones deleted: each category at most once |
| `AnalyzerContext.KeywordHitsAppend` | src/llm_analyzer.py:44-47 | on a concatenation of category lists, the hits are the first list's hits followed by the second's |
| `AnalyzerContext.KeywordHitsSingle` | src/llm_analyzer.py:45-47 | one category is reported, with what it found, exactly when it found something |
| `AnalyzerContext.DetectLevel` | src/llm_analyzer.py:60-64 | no level exactly when no level has an indicator substring; otherwise the first level, in priority order, that has one |
| `AnalyzerContext.Capitalize` | src/llm_analyzer.py:51 | length is kept, and a label not starting with "a"/"A" does not start with "A" once capitalised |
| `AnalyzerContext.CategoryInitials` | src/llm_analyzer.py:34-39 | no category label starts with the letter that begins the fallback sentence |
| `AnalyzerContext.KeywordLine` | src/llm_analyzer.py:51 | a category line is non-empty and cannot begin like the fallback sentence |
| `AnalyzerContext.HitInitials` | src/llm_analyzer.py:44-51 | every reported category has a label that cannot begin like the fallback sentence |
| `AnalyzerContext.ContextLines` | src/llm_analyzer.py:49-72 | there are no context lines exactly when no keyword, no level and no retrieval metadata were found; no line begins like the fallback sentence |
| `AnalyzerContext.BuildContext` | src/llm_analyzer.py:28-74 | the context is the fallback sentence exactly when no keyword and no level are detected and the retrieval result has no metadata |
| `AnalyzerContext.MetadataSuppressesFallback` | src/llm_analyzer.py:70-74 | whenever the retrieval result carries metadata, even an empty list, the fallback sentence is never produced |
| `Text.RemoveAll` | src/vector_store.py:32 | `replace(pat, "")` never lengthens the text; `Text.RemoveAllAbsent` and `VectorStore.DomainNameAfterStem` state what it removes |
| `Text.RemoveAllAbsent` | src/vector_store.py:32 | `replace(pat, "")` leaves a text without `pat` unchanged |
| `VectorStore.DomainName` | src/vector_store.py:32 | the name is never longer than the file name, and is the file name itself when it has no ".txt"; `VectorStore.DomainNameAfterStem` states that every ".txt" goes |
| `VectorStore.DomainNameAfterStem` | src/vector_store.py:32 | for a stem without ".txt", the name of `stem + ".txt" + rest` is the stem followed by the name of `rest`: each ".txt" goes, scanning left to right |
| `VectorStore.DomainNameOfStem` | src/vector_store.py:31-32 | for `stem + ".txt"` where the stem does not contain ".txt", the domain name is the stem |
| `VectorStore.DomainNameDropsEvery` | src/vector_store.py:32 | a leading ".txt" is dropped and the rest named on its own, and `stem + ".txt.txt"` names the stem, not `stem + ".txt"` |
| `VectorStore.Candidate` | src/vector_store.py:31-44 | a registration is attempted exactly for a ".txt" file that reads and whose trimmed content is non-empty; its domain and id are the file's domain name and its document is the trimmed content |
| `VectorStore.Candidates` | src/vector_store.py:30-48 | every attempted registration comes from such a file and every such file's registration is attempted |
| `VectorStore.CandidatesAppend` | src/vector_store.py:30-48 | the attempts for a listing are those of its first part followed by those of the rest: one per qualifying file, in listing order |
| `VectorStore.CandidatesSingle` | src/vector_store.py:31-44 | a one-file listing attempts that file's registration, or nothing |
| `VectorStore.AddAccepted` | src/vector_store.py:35-51 | offered registrations are added in turn, a raising `add` skips only its own; the count is the number accepted, they keep their order, and the final collection is what adding exactly them gives |
| `VectorStore.AddAcceptedAppend` | src/vector_store.py:35-51 | offering two lists in turn is offering the second to the collection the first left |
| `VectorStore.LoadAll` | src/vector_store.py:28-53 | the count equals the number of successful adds, the added registrations are an in-order subsequence of the candidates, and adding exactly them, one after the other, gives the final collection |
| `VectorStore.LoadAllSingle` | src/vector_store.py:30-51 | one entry changes nothing unless it is a candidate whose `add` succeeds; then it is counted and the collection moves on |
| `VectorStore.LoadAllAppend` | src/vector_store.py:30-53 | loading a listing is loading its first part, then the rest from the collection the first part left, with the counts and added lists summed |
| `VectorStore.LoadAllAccepting` | src/vector_store.py:28-53 | when every add succeeds, every candidate is added in listing order; a failed read costs only its own file |
| `VectorStore.LoadDomains` | src/vector_store.py:15-53 | a missing folder is the not-found error; otherwise the result is the loop over the listing from the given collection (`LoadAll`, pinned by `LoadAllSingle` and `LoadAllAppend`), so the count is the number of successful adds and never exceeds the candidates |
| `VectorStore.FindSimilarDomains` | src/vector_store.py:55-85 | a blank text queries nothing and returns the empty triple; otherwise one query asks for min(top_k, count) results; a failing query also yields the empty triple |
| `VectorStore.MetadataDomains` | src/llm_analyzer.py:99 | `[m["domaine"] for m in metadatas]` raises exactly when some metadata lacks the key, and otherwise lists every domain name in order |
| `VectorStore.GetAllDomains` | src/vector_store.py:87-99 | [] when the listing fails or a metadata lacks `domaine`, else every stored domain name in order |
| `VectorStore.AddAcceptedListing` | src/vector_store.py:40-44 | when an accepted `add` appends its metadata to the listing, the listing after a load is the earlier listing followed by the accepted registrations' metadata |
| `VectorStore.GetAllAfterLoad` | src/vector_store.py:40-96 | for such a listing, a collection that was empty and then loaded lists exactly the accepted domain names, in the order they were added |
| `Api.LookupQuestion` | src/api.py:155-159 | the text of the first question with the answer's id; none exactly when no question has that id |
| `Api.MatchOne` | src/api.py:155-165 | an answer yields nothing exactly when no question has its id or the first such question's text is empty; otherwise the record pairs that first question's text with the submitted answer |
| `Api.MatchAnswers` | src/api.py:149-165 | at most one record per answer; each record pairs a non-empty matched question text with the submitted answer; every matching answer contributes |
| `Api.MatchAnswersAppend` | src/api.py:149-165 | matching distributes over concatenation, so records follow submission order |
| `Api.MatchAnswersSingle` | src/api.py:155-165 | one answer yields exactly its question text and answer, or nothing when unmatched or the text is empty |
| `Text.Join` | src/api.py:171 | the join is empty without pieces and starts with the first piece otherwise; `Text.SplitJoin` shows it loses nothing |
| `Api.RetrievalQuery` | src/api.py:171 | the query is empty without records and starts with the first answer otherwise |
| `Api.RetrievalQueryRecoversAnswers` | src/api.py:171 | the space-joined query splits back into the answers when no answer contains a space |
| `Api.RunAnalyzer` | src/llm_analyzer.py:93-206 | a metadata entry without `domaine`, more documents than metadata, or a failed model call gives the generic error; an unparsable reply gives the JSON error with the reply; a parsed reply is validated against the retrieved domain names as `AnalyzeParsed` states |
| `Api.ToResult` | src/api.py:185 | the response model is built exactly when predictions, summary and top-3 are present and every prediction has all six keys |
| `Api.Analyze` | src/api.py:138-190 | 400 exactly when no answer matches; 500 with the analyzer's error when it has one; 500 when predictions are missing; otherwise the response model built from the analysis, or a 500 when it cannot be built; on success, the predictions are complete, in retrieved domains, clamped, sorted and headed by the top-3 list |
| `Api.AnalyzerSurvivors` | src/llm_analyzer.py:93-206 | an analysis without `error` but with `predictions` holds exactly the survivors of the model's parsed reply |
| `Api.SuccessCarriesSurvivors` | src/api.py:138-185 | a successful response's predictions are exactly the survivors of the model's parsed reply, validated against the retrieved domains |
| `Api.RejectionIgnoresServices` | src/api.py:167-168 | a rejected submission's outcome does not depend on the collection, the model or the parser |
| `QuestionnaireCli.ReadChoice` | src/questionnaire.py:23-32 | a line is accepted exactly when it parses as an integer c with 1 <= c <= len(options), and the answer is options[c-1]; a non-number is told apart from an out-of-range number |
| `QuestionnaireCli.ReadChoiceReachesEveryOption` | src/questionnaire.py:25-28 | typing any option's number selects that option |
| `QuestionnaireCli.Record` | src/questionnaire.py:36-39 | appends one record for the current question and moves on, keeping earlier records |
| `QuestionnaireCli.Feed` | src/questionnaire.py:17-39 | a free-text question records the raw line; a rejected line leaves the session unchanged (re-prompt); an accepted one records options[c-1]; consistency is kept |
| `QuestionnaireCli.Continue` | src/questionnaire.py:13-41 | a session already past the last question finishes with its records; otherwise running out of lines is the end-of-input error; a finished session keeps the records it had and adds one per remaining question |
| `QuestionnaireCli.ContinueFeeds` | src/questionnaire.py:13-39 | each typed line goes to the current question and the session continues with the lines after it |
| `QuestionnaireCli.ContinueSkipsRejected` | src/questionnaire.py:23-32 | a line the current choice question rejects is skipped: the outcome is the same as if it had never been typed |
| `QuestionnaireCli.AnswerTo` | src/questionnaire.py:25-34 | the answer kept for a line accepted at the first try: the line itself for a free-text question, options[c-1] for the number c typed |
| `QuestionnaireCli.Records` | src/questionnaire.py:13-39 | when line i answers question i at the first try, one record per question, the i-th pairing question i's text with the answer line i gives it |
| `QuestionnaireCli.ContinueAcceptedAtOnce` | src/questionnaire.py:13-41 | from question k on, with every line accepted at the first try, the session finishes with its earlier records followed by the records of questions k onward |
| `QuestionnaireCli.RunAcceptedAtOnce` | src/questionnaire.py:9-41 | when every line is accepted at the first try, the run succeeds with exactly the `Records` sequence: one response per question, the i-th being question i's text with line i or the option line i numbers |
| `QuestionnaireCli.ContinueConsistent` | src/questionnaire.py:13-41 | a session that finishes has one record per question, in order, each with the question's text and an answer among its options when it has any |
| `QuestionnaireCli.Run` | src/questionnaire.py:9-41 | the loop computes the session's outcome; on success there is one response per question, in order, with option answers among the options |
| `QuestionnaireView.HandleAnswerSelect` | rag-interface/src/components/Questionnaire.js:12-17 | sets or overwrites one id's answer; every other entry and the rest of the state are unchanged |
| `QuestionnaireView.HandleNext` | rag-interface/src/components/Questionnaire.js:19-23 | increments the index only when it is below len - 1, otherwise changes nothing |
| `QuestionnaireView.HandlePrevious` | rag-interface/src/components/Questionnaire.js:25-29 | decrements the index only when it is above 0, otherwise changes nothing |
| `QuestionnaireView.NavigateInBounds` | rag-interface/src/components/Questionnaire.js:19-29 | under any sequence of next/previous presses, the index stays within [0, len - 1] (0 for an empty list) |
| `QuestionnaireView.SortedKeys` | rag-interface/src/components/Questionnaire.js:33 | the integer keys in strictly ascending order, each exactly once |
| `QuestionnaireView.FormatAnswers` | rag-interface/src/components/Questionnaire.js:31-38 | one entry per stored answer, with that answer, ids strictly increasing |
| `QuestionnaireView.Step` | rag-interface/src/components/Questionnaire.js:12-155 | a payload is sent exactly on an enabled submit, all questions answered, and it is the formatted answers; an option on screen is stored as its question's answer; an enabled Next moves one question on and an enabled Previous one back; a disabled button or an option off screen changes nothing; the two toggles only set the view mode; navigation never touches the answers |
| `QuestionnaireView.InitialReachable` | rag-interface/src/components/Questionnaire.js:5-7 | the initial state satisfies the invariant |
| `QuestionnaireView.StepPreservesReachable` | rag-interface/src/components/Questionnaire.js:12-29 | every event keeps the index in bounds, every earlier question answered, and every stored answer an option of its question |
| `QuestionnaireView.ReplayPreservesReachable` | rag-interface/src/components/Questionnaire.js:5-29 | the invariant holds after any sequence of events |
| `QuestionnaireView.ReplayPicks` | rag-interface/src/components/Questionnaire.js:12-17 | in the all-questions view, picking an option for each question in turn stores exactly those options under their ids (ids distinct), keeps the earlier answers of other ids, and changes neither the index nor the mode |
| `QuestionnaireView.AnswerAllThenSubmit` | rag-interface/src/components/Questionnaire.js:12-155 | progress: opening the all-questions view, picking an option of every question and pressing submit sends exactly those answers, one entry per question, in increasing id order |
| `QuestionnaireView.SubmittedPayload` | rag-interface/src/components/Questionnaire.js:31-42 | a payload sent from a reachable state has strictly increasing ids, covers every question id, and carries only options of the matching question |
| `ResultsView.ScoreColor` | rag-interface/src/components/Results.js:18-22 | green exactly from 80, orange exactly on [60, 80), red exactly below 60 |
| `ResultsView.ScoreColorMonotone` | rag-interface/src/components/Results.js:18-22 | a higher score never lands in a lower band |
| `ResultsView.ConfidenceColor` | rag-interface/src/components/Results.js:9-16 | haute, moyenne and basse give green, orange and red; any other label gives grey |

## Behaviour worth noting

The model follows the code in each of these cases:

- Scores are only clamped to [0, 100]. No policy rescales them to sum to 100.
- When no prediction survives validation, the handler does not fail. It returns an empty prediction list, and the top-3 list stays as the model supplied it. An empty list alone never gives a 500; the 500 cases are an `error` key, a missing `predictions` key, and an analysis the response model rejects.
- Predictions are not de-duplicated by domain.
- The domains line of the context is not de-duplicated.
- The fallback context sentence never appears in the served pipeline. The search result always carries `metadatas`, so a domains line is always present (`AnalyzerContext.MetadataSuppressesFallback`).
- The domain name removes every occurrence of ".txt", not only the extension. For example, "a.txt.txt" becomes "a".
- A prediction without `domaine` survives the filter when "" is a valid domain, which happens for a file whose name is made only of ".txt" repeats, such as ".txt" or ".txt.txt". It then makes `p["domaine"]` raise. `AnalyzerResponse.ValidateAndSort` models this as a failure, which the analyzer turns into its generic error dictionary.
- The terminal questionnaire does not loop forever on bad input. It fails when the input ends.
- For a bare fence, the round trip needs the payload not to start with "json". The reply "```" + "json…" + "```" loses four more characters. A JSON object starts with "{", so this cannot happen for a well-formed reply.
- Keyword detection is a substring test. For example, "go" is found inside "google".

## Left out

- The Groq chat call, the prompt template, the system message and the temperature: external inference. The model call is an input function of the context, the records and the search result.
- `AnalyzerResponse.AnalyzeParsed`: the error dictionaries keep only `error` and, for a decode error, the raw reply. The `details` text (`str(e)`) and, for the generic error, the `type` name are not modelled; the handler reads only `error`.
- `VectorStore.GetAllAfterLoad`: it assumes every accepted `add` appends its metadata to the listing. ChromaDB ignores an `add` whose id it already holds without raising, so two files with the same domain name ("a.txt" and "a.txt.txt" both give "a") are both counted but listed once. The lemma says nothing about such a listing.
- `json.loads`: an opaque partial function (`parse`). Keys of a parsed reply whose JSON type differs from the declared one are not modelled.
- `VectorStore.FindSimilarDomains`: the collection size is an input. A failing `count()` raises inside the same `try` as the query, so it ends in the same empty triple; the model folds it into the query answering None.
- ChromaDB: the collection, embeddings, similarity ranking and duplicate-id behaviour of `add` are external. They are an abstract value with `add`, `query` and `get` functions.
- Filesystem listing and reading: modelled as a given sequence of entries and as a folder-exists flag.
- `get_domain_content` and `clear_collection` in src/vector_store.py: one-line collaborator calls with no logic of their own.
- `Text.LowerChar`: `str.lower` only for ASCII and Latin-1 upper-case letters. Other scripts are left unchanged.
- `Text.ParseInt`: non-ASCII decimal digits, which `int()` also accepts, are not modelled, and neither is CPython 3.11's rejection of decimal strings longer than 4300 digits; `Text.ParseShowInt` holds for every integer only without that limit. Its contract is weaker than `int()`'s full behaviour; `Text.ParseShowInt` states the round trip it meets.
- `Api.Analyze`: the detail of a response-model validation failure is only its prefix. The validation library's message is not modelled.
- `Api.Analyze`: `initialize_services` and the reading of `questionnaire.json` are left out. The questions are a parameter, and failures of these steps are not modelled.
- Floating-point scores: scores are integers, as the response model declares. The progress percentage of the browser questionnaire is left out too.
- `generate_detailed_report` and src/main.py: report strings, emoji, ANSI colours and float formatting.
- FastAPI, CORS, Pydantic, dotenv, `/questions`, `/health`, api_runner.py, App.js, services/api.js, ErrorMessage.js, Loading.js and all JSX rendering: server and view plumbing.
- `QuestionnaireView`: question ids are non-negative integers (`nat`), which `Object.entries` enumerates in ascending order. JavaScript does this only for ids below 2^32 - 1; larger ids are not modelled. String ids, which would keep insertion order, are not modelled.
- `QuestionnaireCli`: the prompt texts and error messages printed are left out. Only the decision made for each line is modelled.
