/** The lightweight heuristics of `LLMAnalyzer._build_context`: the answers are
    joined and lower-cased, scanned for fixed keyword lists per category and for
    experience-level indicators (first level in priority order wins), and the
    findings, together with the retrieved domain names, become the detected-context
    block of the prompt. */
module AnalyzerContext {
  import opened Wrappers
  import opened Text
  import opened Sequences

  datatype Category = Category(name: string, keywords: seq<string>)

  datatype Level = Level(name: string, indicators: seq<string>)

  /** One reported category: its label and the keywords found, in list order. */
  datatype Hit = Hit(category: string, found: seq<string>)

  /** `technical_keywords`, in dictionary (insertion) order. */
  const Categories: seq<Category> := [
    Category("langages", ["python", "java", "javascript", "c++", "go", "rust", "php", "ruby"]),
    Category("outils", ["docker", "kubernetes", "git", "jenkins", "ansible", "terraform"]),
    Category("domaines", ["cloud", "data", "sécurité", "réseau", "web", "mobile", "ia", "ml"]),
    Category("concepts", ["api", "microservices", "devops", "agile", "ci/cd", "testing"])
  ]

  /** `experience_levels`, in priority order. */
  const Levels: seq<Level> := [
    Level("débutant", ["débutant", "nouveau", "apprendre", "découvrir"]),
    Level("intermédiaire", ["intermédiaire", "quelques projets", "pratique"]),
    Level("avancé", ["avancé", "expérimenté", "expert", "professionnel", "années"])
  ]

  const LevelPrefix: string := "Niveau estimé: "
  const DomainsPrefix: string := "Domaines pertinents identifiés: "
  const Fallback: string := "Analyse basée sur les réponses directes."

  /** `" ".join(answers).lower()`: the text every heuristic scans. */
  function AnswerText(answers: seq<string>): (r: string)
    ensures Lower(r) == r
    ensures |answers| == 0 ==> r == ""
    ensures |answers| == 1 ==> r == Lower(answers[0])
    ensures forall i :: 0 <= i < |answers| ==> Contains(r, Lower(answers[i]))
  {
    var joined := Join(" ", answers);
    LowerIdempotent(joined);
    AnswersInText(answers, joined);
    Lower(joined)
  }

  /** The answers are joined with one space between neighbours: the text is
      the first lower-cased answer, a space, and the text of the rest. */
  lemma AnswerTextCons(answers: seq<string>)
    requires |answers| > 1
    ensures AnswerText(answers) == Lower(answers[0]) + " " + AnswerText(answers[1..])
  {
    var rest := Join(" ", answers[1..]);
    assert Join(" ", answers) == answers[0] + " " + rest;
    LowerAppend(answers[0] + " ", rest);
    LowerAppend(answers[0], " ");
  }

  /** Each lower-cased answer occurs in the lower-cased join. */
  lemma AnswersInText(answers: seq<string>, joined: string)
    requires joined == Join(" ", answers)
    ensures forall i :: 0 <= i < |answers| ==> Contains(Lower(joined), Lower(answers[i]))
  {
    JoinContains(" ", answers);
    forall i | 0 <= i < |answers|
      ensures Contains(Lower(joined), Lower(answers[i]))
    {
      LowerContains(joined, answers[i]);
    }
  }

  /** `[k for k in keywords if k in text]`: exactly the keywords that occur in
      the text, in list order. */
  function FoundKeywords(keywords: seq<string>, text: string): (r: seq<string>)
    ensures forall k :: k in r <==> k in keywords && Contains(text, k)
    ensures IsSubsequence(r, keywords)
  {
    if |keywords| == 0 then []
    else
      var rest := FoundKeywords(keywords[1..], text);
      assert keywords == [keywords[0]] + keywords[1..];
      if Contains(text, keywords[0]) then
        assert ([keywords[0]] + rest)[1..] == rest;
        [keywords[0]] + rest
      else
        SubsequenceOfTail(rest, keywords[0], keywords[1..]);
        rest
  }

  /** Every category with what it found, hit or not, in category order. */
  function CategoryFindings(cats: seq<Category>, text: string): (r: seq<Hit>)
    ensures |r| == |cats| && forall i :: 0 <= i < |cats| ==> r[i] == Hit(cats[i].name, FoundKeywords(cats[i].keywords, text))
  {
    seq(|cats|, i requires 0 <= i < |cats| => Hit(cats[i].name, FoundKeywords(cats[i].keywords, text)))
  }

  /** The categories with at least one keyword in the text, in category order
      and once each; categories without a hit are omitted. */
  function KeywordHits(cats: seq<Category>, text: string): (r: seq<Hit>)
    ensures |r| <= |cats|
    ensures forall h :: h in r ==>
      |h.found| > 0 && exists c :: c in cats && h == Hit(c.name, FoundKeywords(c.keywords, text))
    ensures forall c :: c in cats && |FoundKeywords(c.keywords, text)| > 0 ==>
      Hit(c.name, FoundKeywords(c.keywords, text)) in r
  {
    if |cats| == 0 then []
    else
      var rest := KeywordHits(cats[1..], text);
      var found := FoundKeywords(cats[0].keywords, text);
      assert cats == [cats[0]] + cats[1..];
      if |found| > 0 then [Hit(cats[0].name, found)] + rest else rest
  }

  /** Each category is reported at most once, in category order: the hits are
      the findings of every category with the empty ones deleted. */
  lemma {:induction false} KeywordHitsInOrder(cats: seq<Category>, text: string)
    ensures IsSubsequence(KeywordHits(cats, text), CategoryFindings(cats, text))
  {
    if |cats| > 0 {
      KeywordHitsInOrder(cats[1..], text);
      var rest := KeywordHits(cats[1..], text);
      var h := Hit(cats[0].name, FoundKeywords(cats[0].keywords, text));
      var all := CategoryFindings(cats, text);
      assert all == [h] + CategoryFindings(cats[1..], text);
      if |h.found| > 0 {
        assert KeywordHits(cats, text) == [h] + rest;
        assert ([h] + rest)[1..] == rest;
      } else {
        assert KeywordHits(cats, text) == rest;
        SubsequenceOfTail(rest, h, CategoryFindings(cats[1..], text));
      }
    }
  }

  /** What one category contributes to the hits: its hit, or nothing. */
  function CategoryHits(c: Category, text: string): seq<Hit> {
    if |FoundKeywords(c.keywords, text)| > 0 then [Hit(c.name, FoundKeywords(c.keywords, text))] else []
  }

  /** The hits of a non-empty category list: the first category's, then the rest's. */
  lemma KeywordHitsCons(cats: seq<Category>, text: string)
    requires |cats| > 0
    ensures KeywordHits(cats, text) == CategoryHits(cats[0], text) + KeywordHits(cats[1..], text)
  {
  }

  /** The scan handles the categories one by one: on a concatenation of
      category lists it reports the first list's hits, then the second's. */
  lemma {:induction false} KeywordHitsAppend(a: seq<Category>, b: seq<Category>, text: string)
    ensures KeywordHits(a + b, text) == KeywordHits(a, text) + KeywordHits(b, text)
  {
    if |a| == 0 {
      assert a + b == b;
    } else {
      assert (a + b)[0] == a[0];
      assert (a + b)[1..] == a[1..] + b;
      KeywordHitsAppend(a[1..], b, text);
      KeywordHitsCons(a, text);
      KeywordHitsCons(a + b, text);
      ConcatAssoc(CategoryHits(a[0], text), KeywordHits(a[1..], text), KeywordHits(b, text));
    }
  }

  /** One category is reported, with what it found, exactly when it found
      something. */
  lemma KeywordHitsSingle(c: Category, text: string)
    ensures KeywordHits([c], text) == CategoryHits(c, text)
  {
    KeywordHitsCons([c], text);
    assert [c][1..] == [];
  }

  predicate HasIndicator(level: Level, text: string) {
    exists i :: 0 <= i < |level.indicators| && Contains(text, level.indicators[i])
  }

  /** `levels[i]` has an indicator in the text and no earlier level has one. */
  predicate FirstWithIndicator(levels: seq<Level>, text: string, i: int)
    requires 0 <= i < |levels|
  {
    HasIndicator(levels[i], text) && forall j :: 0 <= j < i ==> !HasIndicator(levels[j], text)
  }

  /** The first level, in priority order, with an indicator in the text; None
      exactly when no level has one. */
  function DetectLevel(levels: seq<Level>, text: string): (r: Option<string>)
    ensures r.None? <==> forall i :: 0 <= i < |levels| ==> !HasIndicator(levels[i], text)
    ensures r.Some? ==> exists i :: 0 <= i < |levels| && levels[i].name == r.value && FirstWithIndicator(levels, text, i)
  {
    if |levels| == 0 then None
    else if HasIndicator(levels[0], text) then Some(levels[0].name)
    else
      var r := DetectLevel(levels[1..], text);
      assert forall i :: 0 < i < |levels| ==> levels[i] == levels[1..][i - 1];
      r
  }

  /** `str.capitalize` on an ASCII label: first letter upper case. */
  function Capitalize(s: string): (r: string)
    ensures |r| == |s|
    ensures |s| > 0 && s[0] != 'a' && s[0] != 'A' ==> r[0] != 'A'
  {
    if |s| == 0 then s
    else [if 'a' <= s[0] <= 'z' then (s[0] as int - 32) as char else s[0]] + Lower(s[1..])
  }

  /** No category name starts with the fallback sentence's first letter. */
  lemma CategoryInitials()
    ensures forall c :: c in Categories ==> |c.name| > 0 && c.name[0] != 'a' && c.name[0] != 'A'
  {
  }

  /** `f"{category.capitalize()}: {', '.join(keywords)}"`. */
  function KeywordLine(h: Hit): (r: string)
    requires GoodInitial(h.category)
    ensures |r| > 0 && r[0] != 'A'
  {
    Capitalize(h.category) + ": " + Join(", ", h.found)
  }

  predicate GoodInitial(s: string) {
    |s| > 0 && s[0] != 'a' && s[0] != 'A'
  }

  lemma HitInitials(text: string)
    ensures forall h :: h in KeywordHits(Categories, text) ==> GoodInitial(h.category)
  {
    CategoryInitials();
    forall h | h in KeywordHits(Categories, text)
      ensures GoodInitial(h.category)
    {
      var c :| c in Categories && h == Hit(c.name, FoundKeywords(c.keywords, text));
    }
  }

  /** Assembles the context lines from what was detected: one line per hit,
      then the level line, then the domains line. */
  function ContextLines(hits: seq<Hit>, level: Option<string>, metadata: Option<seq<string>>): (r: seq<string>)
    requires forall h :: h in hits ==> GoodInitial(h.category)
    ensures |r| == 0 <==> |hits| == 0 && level.None? && metadata.None?
    ensures forall i :: 0 <= i < |r| ==> |r[i]| > 0 && r[i][0] != Fallback[0]
  {
    assert forall i :: 0 <= i < |hits| ==> hits[i] in hits;
    var keywordLines := seq(|hits|, i requires 0 <= i < |hits| => KeywordLine(hits[i]));
    assert Fallback[0] == 'A' && LevelPrefix[0] == 'N' && DomainsPrefix[0] == 'D';
    var levelLines := match level
      case None => []
      case Some(l) => [LevelPrefix + l];
    var domainLines := match metadata
      case None => []
      case Some(ds) => [DomainsPrefix + Join(", ", ds)];
    keywordLines + levelLines + domainLines
  }

  /** `_build_context`: the context lines joined by newlines, or the fixed
      fallback sentence exactly when nothing was detected (no keyword, no level)
      and the retrieval result carries no metadata. */
  function BuildContext(answers: seq<string>, metadata: Option<seq<string>>): (r: string)
    ensures r == Fallback <==>
      && |KeywordHits(Categories, AnswerText(answers))| == 0
      && DetectLevel(Levels, AnswerText(answers)).None?
      && metadata.None?
  {
    var text := AnswerText(answers);
    HitInitials(text);
    var parts := ContextLines(KeywordHits(Categories, text), DetectLevel(Levels, text), metadata);
    if |parts| == 0 then Fallback
    else
      assert Join("\n", parts)[0] == parts[0][0];
      Join("\n", parts)
  }

  /** Whenever the retrieval result carries metadata, even an empty list of
      domains, the context is never the fallback sentence. */
  lemma MetadataSuppressesFallback(answers: seq<string>, ds: seq<string>)
    ensures BuildContext(answers, Some(ds)) != Fallback
  {
  }
}
