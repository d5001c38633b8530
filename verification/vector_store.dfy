/** The deterministic rules around the similarity-search collection in
    `VectorStore`: which files of the domain folder become domains and under
    which name, what the loaded count counts, and how a search is bounded and
    fails softly. The folder listing, the file reads and the collection itself
    are inputs: the collection is any value `C` changed only through `add`, and
    its query and listing calls are functions whose failure is None. */
module VectorStore {
  import opened Wrappers
  import opened Text
  import opened Sequences

  /** Reading one file: its text, or the exception `open`/`read` raised. */
  datatype ReadOutcome = Read(text: string) | ReadFailed

  /** One name of `os.listdir(domain_folder)` and what reading it gives. */
  datatype DirEntry = DirEntry(filename: string, content: ReadOutcome)

  /** One `collection.add(documents=[document], metadatas=[{"domaine": domaine}], ids=[id])`. */
  datatype Registration = Registration(id: string, document: string, domaine: string)

  /** The outcome of a load: the collection afterwards, the returned count and
      the registrations that were accepted, in order. */
  datatype Loaded<C> = Loaded(collection: C, count: nat, added: seq<Registration>)

  /** `FileNotFoundError` raised when the folder does not exist. */
  datatype LoadError = FolderNotFound(folder: string)

  /** A stored metadata dictionary; `domaine` may be missing. */
  datatype Metadata = Metadata(domaine: Option<string>)

  /** The inner lists of a query result (the collaborator wraps each in a
      one-element outer list, one per query text). */
  datatype Triple = Triple(documents: seq<string>, metadatas: seq<Metadata>, distances: seq<real>)

  /** `collection.query(query_texts=[text], n_results=nResults)`. */
  datatype QueryRequest = QueryRequest(text: string, nResults: int)

  /** A search: the query sent to the collection, if any, and what is returned. */
  datatype Search = Search(request: Option<QueryRequest>, result: Triple)

  const TxtSuffix: string := ".txt"
  const DefaultTopK: int := 3
  const EmptyTriple: Triple := Triple([], [], [])

  // ---------------------------------------------------------------------------
  // load_domains
  // ---------------------------------------------------------------------------

  /** `filename.replace(".txt", "")`: every occurrence is removed, not only the
      extension. */
  function DomainName(filename: string): (r: string)
    ensures |r| <= |filename|
    ensures !Contains(filename, TxtSuffix) ==> r == filename
  {
    assert !Contains(filename, TxtSuffix) ==> RemoveAll(filename, TxtSuffix) == filename by {
      if !Contains(filename, TxtSuffix) {
        RemoveAllAbsent(filename, TxtSuffix);
      }
    }
    RemoveAll(filename, TxtSuffix)
  }

  /** A stem without ".txt" followed by ".txt" keeps the stem, loses that
      ".txt", and the rest is cleaned on its own: no occurrence can straddle
      the stem and the suffix, because "." appears in ".txt" only at its start. */
  lemma {:induction false} DomainNameAfterStem(stem: string, rest: string)
    requires !Contains(stem, TxtSuffix)
    ensures DomainName(stem + TxtSuffix + rest) == stem + DomainName(rest)
    decreases |stem|
  {
    var s := stem + TxtSuffix + rest;
    if |stem| == 0 {
      assert s == TxtSuffix + rest;
      assert s[..4] == TxtSuffix;
      assert s[4..] == rest;
    } else {
      if |stem| >= 4 {
        assert s[..4] == stem[..4];
        assert !OccursAt(stem, TxtSuffix, 0);
      } else {
        assert s[|stem|] == '.';
        assert TxtSuffix[|stem|] != '.';
      }
      assert s[..4] != TxtSuffix;
      assert s[1..] == stem[1..] + TxtSuffix + rest;
      forall i | 0 <= i <= |stem[1..]| - |TxtSuffix|
        ensures !OccursAt(stem[1..], TxtSuffix, i)
      {
        if OccursAt(stem[1..], TxtSuffix, i) {
          assert stem[i + 1..i + 1 + 4] == stem[1..][i..i + 4];
          assert OccursAt(stem, TxtSuffix, i + 1);
        }
      }
      DomainNameAfterStem(stem[1..], rest);
      assert [stem[0]] + (stem[1..] + DomainName(rest)) == stem + DomainName(rest);
    }
  }

  /** For an ordinary file name `stem + ".txt"` whose stem does not itself
      contain ".txt", the domain name is the stem. */
  lemma DomainNameOfStem(stem: string)
    requires !Contains(stem, TxtSuffix)
    ensures DomainName(stem + TxtSuffix) == stem
  {
    DomainNameAfterStem(stem, "");
    assert stem + TxtSuffix + "" == stem + TxtSuffix;
    assert !Contains("", TxtSuffix);
    assert DomainName("") == "";
  }

  /** Every ".txt" goes, not only the extension: a leading one is dropped and
      the rest cleaned, and a doubled extension leaves just the stem. */
  lemma DomainNameDropsEvery(stem: string, f: string)
    requires !Contains(stem, TxtSuffix)
    ensures DomainName(TxtSuffix + f) == DomainName(f)
    ensures DomainName(stem + TxtSuffix + TxtSuffix) == stem
  {
    DomainNameAfterStem([], f);
    assert [] + TxtSuffix + f == TxtSuffix + f;
    DomainNameOfStem([]);
    DomainNameAfterStem(stem, TxtSuffix);
    assert stem + ([] + TxtSuffix) == stem + TxtSuffix;
    assert DomainName(TxtSuffix) == [];
  }

  /** What the loop body does with one directory entry when nothing fails on the
      collection side: a ".txt" file that reads and whose trimmed content is not
      empty is registered under its domain name with the trimmed content. */
  function Candidate(e: DirEntry): (r: Option<Registration>)
    ensures r.Some? <==> EndsWith(e.filename, TxtSuffix) && e.content.Read? && Strip(e.content.text) != []
    ensures r.Some? ==> Valid(r.value)
    ensures r.Some? ==> Registers(e, r.value)
  {
    if EndsWith(e.filename, TxtSuffix) && e.content.Read? && Strip(e.content.text) != [] then
      var name := DomainName(e.filename);
      Some(Registration(name, Strip(e.content.text), name))
    else
      None
  }

  /** `g` registers `e`: under the file's domain name, which is also its id,
      with the file's trimmed content as the document. */
  predicate Registers(e: DirEntry, g: Registration) {
    && e.content.Read?
    && g.domaine == DomainName(e.filename)
    && g.id == DomainName(e.filename)
    && g.document == Strip(e.content.text)
  }

  /** A registration as the loop builds it: non-blank trimmed document, and the
      domain name doubling as the id. */
  predicate Valid(g: Registration) {
    |g.document| > 0 && IsTrimmed(g.document) && g.id == g.domaine
  }

  /** What one entry contributes to the candidates: its registration, or nothing. */
  function EntryCandidates(e: DirEntry): seq<Registration> {
    match Candidate(e) case None => [] case Some(g) => [g]
  }

  /** The registrations a load attempts, in listing order: exactly one per
      ".txt" file that reads and has non-blank content. */
  function Candidates(entries: seq<DirEntry>): (r: seq<Registration>)
    ensures |r| <= |entries|
    ensures forall g :: g in r ==> exists e :: e in entries && Candidate(e) == Some(g)
    ensures forall e :: e in entries && Candidate(e).Some? ==> Candidate(e).value in r
    ensures forall g :: g in r ==> Valid(g)
  {
    if |entries| == 0 then []
    else
      var rest := Candidates(entries[1..]);
      ConsMembers(entries, rest);
      EntryCandidates(entries[0]) + rest
  }

  /** The membership facts of `Candidates` carry over from the tail to the
      whole listing. */
  lemma ConsMembers(entries: seq<DirEntry>, rest: seq<Registration>)
    requires |entries| > 0
    requires forall g :: g in rest ==> exists e :: e in entries[1..] && Candidate(e) == Some(g)
    requires forall e :: e in entries[1..] && Candidate(e).Some? ==> Candidate(e).value in rest
    ensures forall g :: g in EntryCandidates(entries[0]) + rest ==> exists e :: e in entries && Candidate(e) == Some(g)
    ensures forall e :: e in entries && Candidate(e).Some? ==> Candidate(e).value in EntryCandidates(entries[0]) + rest
  {
    assert forall e :: e in entries[1..] ==> e in entries;
    assert forall e :: e in entries ==> e == entries[0] || e in entries[1..];
    assert entries[0] in entries;
  }

  /** The candidates of a non-empty listing: the first entry's, then the rest's. */
  lemma CandidatesCons(entries: seq<DirEntry>)
    requires |entries| > 0
    ensures Candidates(entries) == EntryCandidates(entries[0]) + Candidates(entries[1..])
  {
  }

  /** The candidates of a listing are those of its parts, in order: one per
      qualifying file, in listing order. */
  lemma {:induction false} CandidatesAppend(a: seq<DirEntry>, b: seq<DirEntry>)
    ensures Candidates(a + b) == Candidates(a) + Candidates(b)
  {
    if |a| > 0 {
      assert (a + b)[0] == a[0];
      assert (a + b)[1..] == a[1..] + b;
      CandidatesAppend(a[1..], b);
      CandidatesCons(a);
      CandidatesCons(a + b);
      ConcatAssoc(EntryCandidates(a[0]), Candidates(a[1..]), Candidates(b));
    } else {
      assert a + b == b;
    }
  }

  /** A one-file listing yields that file's registration, or nothing. */
  lemma CandidatesSingle(e: DirEntry)
    ensures Candidates([e]) == EntryCandidates(e)
  {
    CandidatesCons([e]);
    assert [e][1..] == [];
  }

  /** Registering `gs` one after the other from `coll`: the collection
      afterwards, or None as soon as one `add` raises. */
  function AddEach<C>(coll: C, gs: seq<Registration>, add: (C, Registration) -> Option<C>): Option<C>
    decreases |gs|
  {
    if |gs| == 0 then Some(coll)
    else
      match add(coll, gs[0])
      case None => None
      case Some(c) => AddEach(c, gs[1..], add)
  }

  /** Offering the registrations `gs` to the collection in turn, from `coll`:
      a registration whose `add` raises (None) is skipped and the rest are still
      offered. The count is the number of accepted registrations, those are
      taken from `gs` in order, and the final collection is what adding exactly
      them, one after the other, gives. */
  function AddAccepted<C>(gs: seq<Registration>, coll: C, add: (C, Registration) -> Option<C>): (r: Loaded<C>)
    ensures r.count == |r.added|
    ensures IsSubsequence(r.added, gs)
    ensures AddEach(coll, r.added, add) == Some(r.collection)
    decreases |gs|
  {
    if |gs| == 0 then Loaded(coll, 0, [])
    else
      match add(coll, gs[0])
      case None =>
        var r := AddAccepted(gs[1..], coll, add);
        SubsequenceOfTail(r.added, gs[0], gs[1..]);
        assert [gs[0]] + gs[1..] == gs;
        r
      case Some(coll') =>
        var r := AddAccepted(gs[1..], coll', add);
        assert ([gs[0]] + r.added)[1..] == r.added;
        assert ([gs[0]] + r.added)[0] == gs[0];
        Loaded(r.collection, r.count + 1, [gs[0]] + r.added)
  }

  /** Offering `a + b` is offering `a`, then `b` to the collection `a` left. */
  lemma {:induction false} AddAcceptedAppend<C>(a: seq<Registration>, b: seq<Registration>, coll: C,
                                                add: (C, Registration) -> Option<C>)
    ensures AddAccepted(a + b, coll, add) ==
      var r1 := AddAccepted(a, coll, add);
      var r2 := AddAccepted(b, r1.collection, add);
      Loaded(r2.collection, r1.count + r2.count, r1.added + r2.added)
    decreases |a|
  {
    if |a| == 0 {
      assert a + b == b;
    } else {
      assert (a + b)[0] == a[0];
      assert (a + b)[1..] == a[1..] + b;
      match add(coll, a[0])
      case None =>
        AddAcceptedAppend(a[1..], b, coll, add);
      case Some(c) =>
        AddAcceptedAppend(a[1..], b, c, add);
        var r1 := AddAccepted(a[1..], c, add);
        var r2 := AddAccepted(b, r1.collection, add);
        ConcatAssoc([a[0]], r1.added, r2.added);
    }
  }

  /** The loop of `load_domains` from a given collection state. An entry that is
      not a candidate leaves the collection alone, so the loop offers exactly
      the candidates, in listing order; a candidate whose `add` raises is skipped
      like a failed read, and the loop goes on. */
  function LoadAll<C>(entries: seq<DirEntry>, coll: C, add: (C, Registration) -> Option<C>): (r: Loaded<C>)
    ensures r.count == |r.added|
    ensures IsSubsequence(r.added, Candidates(entries))
    ensures AddEach(coll, r.added, add) == Some(r.collection)
  {
    AddAccepted(Candidates(entries), coll, add)
  }

  /** One directory entry: nothing happens unless it is a candidate whose `add`
      succeeds, in which case it is counted and the collection moves on. */
  lemma LoadAllSingle<C>(e: DirEntry, coll: C, add: (C, Registration) -> Option<C>)
    ensures LoadAll([e], coll, add) ==
      match Candidate(e)
      case None => Loaded(coll, 0, [])
      case Some(g) =>
        match add(coll, g)
        case None => Loaded(coll, 0, [])
        case Some(c) => Loaded(c, 1, [g])
  {
    CandidatesSingle(e);
    match Candidate(e)
    case None =>
    case Some(g) =>
      assert [g][1..] == [];
  }

  /** The loop over a listing is the loop over its first part followed by the
      loop over the rest from the collection the first part left: every entry
      is handled once, in listing order, against the current collection. */
  lemma LoadAllAppend<C>(a: seq<DirEntry>, b: seq<DirEntry>, coll: C, add: (C, Registration) -> Option<C>)
    ensures LoadAll(a + b, coll, add) ==
      var r1 := LoadAll(a, coll, add);
      var r2 := LoadAll(b, r1.collection, add);
      Loaded(r2.collection, r1.count + r2.count, r1.added + r2.added)
  {
    CandidatesAppend(a, b);
    AddAcceptedAppend(Candidates(a), Candidates(b), coll, add);
  }

  /** A collection that accepts every add takes every registration offered. */
  lemma {:induction false} AddAcceptedAll<C>(gs: seq<Registration>, coll: C, add: (C, Registration) -> Option<C>)
    requires forall c, g :: add(c, g).Some?
    ensures AddAccepted(gs, coll, add).added == gs
    decreases |gs|
  {
    if |gs| > 0 {
      AddAcceptedAll(gs[1..], add(coll, gs[0]).value, add);
      assert [gs[0]] + gs[1..] == gs;
    }
  }

  /** When the collection accepts every add, the load registers every candidate
      in listing order, so the count is the number of ".txt" files with
      non-blank content that could be read: a failed read costs only its own file. */
  lemma LoadAllAccepting<C>(entries: seq<DirEntry>, coll: C, add: (C, Registration) -> Option<C>)
    requires forall c, g :: add(c, g).Some?
    ensures LoadAll(entries, coll, add).added == Candidates(entries)
    ensures LoadAll(entries, coll, add).count == |Candidates(entries)|
  {
    AddAcceptedAll(Candidates(entries), coll, add);
  }

  /** `load_domains`: fails when the folder does not exist, otherwise it is the
      loop over the listing from the given collection, whose count never
      exceeds the number of candidates. */
  function LoadDomains<C>(folder: string, folderExists: bool, entries: seq<DirEntry>, coll: C,
                          add: (C, Registration) -> Option<C>): (r: Result<Loaded<C>, LoadError>)
    ensures !folderExists <==> r == Failure(FolderNotFound(folder))
    ensures folderExists ==> r == Success(LoadAll(entries, coll, add))
    ensures r.Success? ==> r.value.count == |r.value.added| && IsSubsequence(r.value.added, Candidates(entries))
    ensures r.Success? ==> r.value.count <= |Candidates(entries)|
  {
    if !folderExists then Failure(FolderNotFound(folder))
    else
      var r := LoadAll(entries, coll, add);
      SubsequenceLength(r.added, Candidates(entries));
      Success(r)
  }

  // ---------------------------------------------------------------------------
  // find_similar_domains and get_all_domains
  // ---------------------------------------------------------------------------

  /** `find_similar_domains(answer_text, top_k)` against a collection holding
      `count` documents. A blank text returns the empty triple without querying.
      Otherwise one query asks for min(top_k, count) results, never more than
      the collection holds; a failing query (None) also yields the empty triple.
      The collection's size is read inside the same `try`, so a size lookup that
      fails ends the same way as a failing query: here `query` answers None. */
  function FindSimilarDomains(answerText: string, topK: int, count: nat, query: QueryRequest -> Option<Triple>): (r: Search)
    ensures r.request.None? <==> Strip(answerText) == []
    ensures r.request.None? ==> r.result == EmptyTriple
    ensures r.request.Some? ==>
      && r.request.value.text == answerText
      && r.request.value.nResults <= count
      && r.request.value.nResults <= topK
      && (r.request.value.nResults == count || r.request.value.nResults == topK)
    ensures r.request.Some? && query(r.request.value).None? ==> r.result == EmptyTriple
    ensures r.request.Some? && query(r.request.value).Some? ==> r.result == query(r.request.value).value
  {
    if Strip(answerText) == [] then Search(None, EmptyTriple)
    else
      var request := QueryRequest(answerText, Min(topK, count));
      match query(request)
      case None => Search(Some(request), EmptyTriple)
      case Some(t) => Search(Some(request), t)
  }

  /** The `domaine` entry of each metadata, present or not. */
  function DomaineColumn(ms: seq<Metadata>): (r: seq<Option<string>>)
    ensures |r| == |ms| && forall i :: 0 <= i < |ms| ==> r[i] == ms[i].domaine
  {
    seq(|ms|, i requires 0 <= i < |ms| => ms[i].domaine)
  }

  /** `[meta["domaine"] for meta in metadatas]`; None when one lacks the key. */
  function MetadataDomains(ms: seq<Metadata>): (r: Option<seq<string>>)
    ensures r.None? <==> exists i :: 0 <= i < |ms| && ms[i].domaine.None?
    ensures r.Some? ==> |r.value| == |ms| && forall i :: 0 <= i < |ms| ==> r.value[i] == ms[i].domaine.value
  {
    AllPresent(DomaineColumn(ms))
  }

  /** `get_all_domains`: the `domaine` of every stored metadata, in stored order;
      [] when `collection.get()` fails (None) or a metadata lacks the key. */
  function GetAllDomains(stored: Option<seq<Metadata>>): (r: seq<string>)
    ensures stored.None? ==> r == []
    ensures stored.Some? && (exists i :: 0 <= i < |stored.value| && stored.value[i].domaine.None?) ==> r == []
    ensures stored.Some? && (forall i :: 0 <= i < |stored.value| ==> stored.value[i].domaine.Some?) ==>
      |r| == |stored.value| && forall i :: 0 <= i < |r| ==> r[i] == stored.value[i].domaine.value
  {
    match stored
    case None => []
    case Some(ms) => MetadataDomains(ms).GetOr([])
  }

  /** The metadata `load_domains` writes for each accepted registration. */
  function MetadataOf(gs: seq<Registration>): (r: seq<Metadata>)
    ensures |r| == |gs| && forall i :: 0 <= i < |gs| ==> r[i] == Metadata(Some(gs[i].domaine))
  {
    seq(|gs|, i requires 0 <= i < |gs| => Metadata(Some(gs[i].domaine)))
  }

  /** What is assumed of the collection's listing `get`: an accepted `add`
      appends the registration's metadata to what `get` returns. */
  ghost predicate ListsInOrder<C(!new)>(add: (C, Registration) -> Option<C>, get: C -> Option<seq<Metadata>>) {
    forall c, g :: add(c, g).Some? && get(c).Some? ==> get(add(c, g).value) == Some(get(c).value + [Metadata(Some(g.domaine))])
  }

  /** After the accepted registrations are added, the listing is the earlier
      listing followed by their metadata. */
  lemma {:induction false} AddAcceptedListing<C(!new)>(gs: seq<Registration>, coll: C, add: (C, Registration) -> Option<C>,
                                                      get: C -> Option<seq<Metadata>>, ms: seq<Metadata>)
    requires ListsInOrder(add, get)
    requires get(coll) == Some(ms)
    ensures get(AddAccepted(gs, coll, add).collection) == Some(ms + MetadataOf(AddAccepted(gs, coll, add).added))
    decreases |gs|
  {
    if |gs| == 0 {
      assert MetadataOf([]) == [];
      assert ms + [] == ms;
    } else {
      match add(coll, gs[0])
      case None =>
        AddAcceptedListing(gs[1..], coll, add, get, ms);
        assert AddAccepted(gs, coll, add) == AddAccepted(gs[1..], coll, add);
      case Some(c) =>
        var m := Metadata(Some(gs[0].domaine));
        assert get(c) == Some(ms + [m]);
        AddAcceptedListing(gs[1..], c, add, get, ms + [m]);
        var r := AddAccepted(gs[1..], c, add);
        assert AddAccepted(gs, coll, add) == Loaded(r.collection, r.count + 1, [gs[0]] + r.added);
        MetadataOfCons(gs[0], r.added);
        ConcatAssoc(ms, [m], MetadataOf(r.added));
    }
  }

  lemma MetadataOfCons(g: Registration, rest: seq<Registration>)
    ensures MetadataOf([g] + rest) == [Metadata(Some(g.domaine))] + MetadataOf(rest)
  {
    assert forall i :: 0 < i < |rest| + 1 ==> ([g] + rest)[i] == rest[i - 1];
  }

  /** The metadata `load_domains` writes always carries `domaine`, so listing a
      collection that was empty and then filled by a load never falls back to
      []: it returns the accepted domain names, in the order they were added. */
  lemma GetAllAfterLoad<C(!new)>(entries: seq<DirEntry>, coll: C, add: (C, Registration) -> Option<C>,
                                 get: C -> Option<seq<Metadata>>)
    requires ListsInOrder(add, get)
    requires get(coll) == Some([])
    ensures
      var added := LoadAll(entries, coll, add).added;
      GetAllDomains(get(LoadAll(entries, coll, add).collection))
        == seq(|added|, i requires 0 <= i < |added| => added[i].domaine)
  {
    AddAcceptedListing(Candidates(entries), coll, add, get, []);
    assert [] + MetadataOf(LoadAll(entries, coll, add).added) == MetadataOf(LoadAll(entries, coll, add).added);
  }
}
