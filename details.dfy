/** `fetch_paper_details`: for each PubMed ID, read the EFetch XML document, keep the
    authors whose affiliation looks commercial, and emit one record per paper that
    has at least one such author. */
module Details {
  import opened Wrappers
  import opened Exceptions
  import opened Http
  import opened Text
  import opened Classifier
  import opened Sequences

  /** ElementTree reports an element without character data as `text == None`,
      never as the empty string. */
  type ElementText = s: string | |s| > 0 witness "?"

  /** An XML element as the code reads it: only its `.text`. */
  datatype Element = Element(text: Option<ElementText>)

  /** One `.//Author` element: its `LastName` child and its first `.//Affiliation`
      descendant, each absent or present. */
  datatype Author = Author(lastName: Option<Element>, affiliation: Option<Element>)

  /** The parsed EFetch document: the first `.//ArticleTitle` and `.//PubDate`
      elements, and every `.//Author` element in document order. */
  datatype Doc = Doc(articleTitle: Option<Element>, pubDate: Option<Element>, authors: seq<Author>)

  /** The dictionary appended to `papers`, one field per key. A title or date is
      None when its element is present but has no text. */
  datatype Paper = Paper(
    pubmedId: string,
    title: Option<string>,
    publicationDate: Option<string>,
    nonAcademicAuthors: string,
    companyAffiliations: string,
    correspondingAuthorEmail: string)

  const Unknown: string := "Unknown"
  const Separator: string := ", "

  /** `e.text if e is not None else default`. */
  function TextOr(e: Option<Element>, default: string): (r: Option<string>)
    ensures e.None? ==> r == Some(default)
    ensures e.Some? ==> r == e.value.text
    ensures e.Some? && r.Some? ==> r.value != ""
  {
    match e
    case None => Some(default)
    case Some(element) =>
      match element.text
      case None => None
      case Some(t) => Some(t)
  }

  /** The author's name as stored: `LastName`, or "Unknown" without that element.
      It is None when the element has no text, and never the empty string. */
  function NameOf(a: Author): (r: Option<string>)
    ensures a.lastName.None? ==> r == Some(Unknown)
    ensures a.lastName.Some? ==> r == a.lastName.value.text
    ensures r != Some("")
  {
    TextOr(a.lastName, Unknown)
  }

  /** The author's affiliation as matched and stored: "" exactly when there is no
      `Affiliation` element; None when the element has no text, where `.lower()` raises. */
  function AffiliationOf(a: Author): (r: Option<string>)
    ensures r == Some("") <==> a.affiliation.None?
    ensures a.affiliation.Some? ==> r == a.affiliation.value.text
  {
    TextOr(a.affiliation, "")
  }

  /** The test on line 63 passes for this author. Only an author with an
      `Affiliation` element that has text can pass it. */
  predicate Qualifies(a: Author)
    ensures Qualifies(a) ==> a.affiliation.Some? && a.affiliation.value.text.Some?
  {
    EmptyAffiliationExcluded();
    AffiliationOf(a).Some? && IsNonAcademic(AffiliationOf(a).value)
  }

  /** The qualifying authors, in document order. */
  function NonAcademicAuthors(authors: seq<Author>): (r: seq<Author>)
    ensures forall i :: 0 <= i < |r| ==> Qualifies(r[i])
    ensures forall i :: 0 <= i < |r| ==> AffiliationOf(r[i]).Some?
    ensures |r| <= |authors|
    decreases |authors|
  {
    if |authors| == 0 then []
    else
      var last := authors[|authors| - 1];
      NonAcademicAuthors(authors[..|authors| - 1]) + (if Qualifies(last) then [last] else [])
  }

  /** The selection keeps the document order. */
  lemma {:induction false} NonAcademicAuthorsInOrder(authors: seq<Author>)
    ensures IsSubsequence(NonAcademicAuthors(authors), authors)
    decreases |authors|
  {
    if |authors| > 0 {
      var init, last := authors[..|authors| - 1], authors[|authors| - 1];
      assert init + [last] == authors;
      NonAcademicAuthorsInOrder(init);
      SubsequenceSnoc(NonAcademicAuthors(init), init, last, Qualifies(last));
      if !Qualifies(last) {
        assert NonAcademicAuthors(authors) == NonAcademicAuthors(init) + [];
        assert NonAcademicAuthors(init) + [] == NonAcademicAuthors(init);
      }
    }
  }

  /** The selection holds exactly the qualifying authors. */
  lemma {:induction false} NonAcademicAuthorsSelect(authors: seq<Author>)
    ensures forall a :: a in NonAcademicAuthors(authors) <==> a in authors && Qualifies(a)
    decreases |authors|
  {
    if |authors| > 0 {
      var init, last := authors[..|authors| - 1], authors[|authors| - 1];
      NonAcademicAuthorsSelect(init);
      assert init + [last] == authors;
      assert forall a :: a in authors <==> a in init || a == last;
    }
  }

  /** The selection keeps every copy of a qualifying author: each author occurs in
      it as often as in the document when it qualifies, and not at all otherwise. */
  lemma {:induction false} NonAcademicAuthorsCount(authors: seq<Author>)
    ensures forall a :: multiset(NonAcademicAuthors(authors))[a] ==
              if Qualifies(a) then multiset(authors)[a] else 0
    decreases |authors|
  {
    if |authors| > 0 {
      var init, last := authors[..|authors| - 1], authors[|authors| - 1];
      assert init + [last] == authors;
      NonAcademicAuthorsCount(init);
      assert multiset(authors) == multiset(init) + multiset{last};
    }
  }

  /** Some author qualifies exactly when the selection is not empty. */
  lemma NonAcademicAuthorsEmptyIff(authors: seq<Author>)
    ensures NonAcademicAuthors(authors) != [] <==> exists i :: 0 <= i < |authors| && Qualifies(authors[i])
  {
    NonAcademicAuthorsSelect(authors);
    if exists i :: 0 <= i < |authors| && Qualifies(authors[i]) {
      var i :| 0 <= i < |authors| && Qualifies(authors[i]);
      assert authors[i] in NonAcademicAuthors(authors);
    }
    if NonAcademicAuthors(authors) != [] {
      var a := NonAcademicAuthors(authors)[0];
      assert a in authors;
    }
  }

  /** The list `non_academic_authors` built from `authors`. */
  function Names(authors: seq<Author>): (r: seq<Option<string>>)
    ensures |r| == |authors|
  {
    seq(|authors|, i requires 0 <= i < |authors| => NameOf(authors[i]))
  }

  /** Whether `.lower()` succeeds on every author's affiliation. */
  predicate AllAffiliationsReadable(authors: seq<Author>)
  {
    forall i :: 0 <= i < |authors| ==> AffiliationOf(authors[i]).Some?
  }

  /** The list `company_affiliations` built from qualifying `authors`: their
      affiliation text, as written in the document and not lower-cased. */
  function Affiliations(authors: seq<Author>): (r: seq<string>)
    requires AllAffiliationsReadable(authors)
    ensures |r| == |authors|
    ensures forall i :: 0 <= i < |r| ==> Some(r[i]) == AffiliationOf(authors[i])
  {
    seq(|authors|, i requires 0 <= i < |authors| => AffiliationOf(authors[i]).value)
  }

  lemma NamesSnoc(authors: seq<Author>, a: Author)
    ensures Names(authors + [a]) == Names(authors) + [NameOf(a)]
  {
  }

  lemma AffiliationsSnoc(authors: seq<Author>, a: Author)
    requires AllAffiliationsReadable(authors) && AffiliationOf(a).Some?
    ensures AllAffiliationsReadable(authors + [a])
    ensures Affiliations(authors + [a]) == Affiliations(authors) + [AffiliationOf(a).value]
  {
  }

  /** The strings of `xs` when none is None; `str.join` raises TypeError otherwise. */
  function AllTexts(xs: seq<Option<string>>): (r: Option<seq<string>>)
    ensures r.Some? <==> forall i :: 0 <= i < |xs| ==> xs[i].Some?
    ensures r.Some? ==> |r.value| == |xs| && forall i :: 0 <= i < |xs| ==> xs[i] == Some(r.value[i])
    decreases |xs|
  {
    if |xs| == 0 then Some([])
    else
      match AllTexts(xs[..|xs| - 1])
      case None => None
      case Some(init) =>
        match xs[|xs| - 1]
        case None => None
        case Some(last) => Some(init + [last])
  }

  /** The outcome of the body of the `for pmid` loop for one parsed document: the
      record to append, None when no author qualifies, or the exception raised. */
  function PaperFor(pmid: string, doc: Doc): (r: Result<Option<Paper>, Exception>)
    ensures r.Failure? ==> r.error == AttributeError || r.error == TypeError
    ensures r.Success? ==> AllAffiliationsReadable(doc.authors)
  {
    if !AllAffiliationsReadable(doc.authors) then Failure(AttributeError)
    else
      var chosen := NonAcademicAuthors(doc.authors);
      if |chosen| == 0 then Success(None)
      else
        match AllTexts(Names(chosen))
        case None => Failure(TypeError)
        case Some(names) =>
          Success(Some(Paper(
            pmid,
            TextOr(doc.articleTitle, Unknown),
            TextOr(doc.pubDate, Unknown),
            Join(names, Separator),
            Join(Affiliations(chosen), Separator),
            Unknown)))
  }

  /** Lines 50-75 for one document: the `for author` loop builds the two parallel
      lists, then the record is assembled when the name list is not empty. */
  method ExtractPaper(pmid: string, doc: Doc) returns (r: Result<Option<Paper>, Exception>)
    ensures r == PaperFor(pmid, doc)
  {
    var title := TextOr(doc.articleTitle, Unknown);
    var pubDate := TextOr(doc.pubDate, Unknown);
    var names: seq<Option<string>> := [];
    var affiliations: seq<string> := [];
    var i := 0;
    while i < |doc.authors|
      invariant 0 <= i <= |doc.authors|
      invariant AllAffiliationsReadable(doc.authors[..i])
      invariant names == Names(NonAcademicAuthors(doc.authors[..i]))
      invariant affiliations == Affiliations(NonAcademicAuthors(doc.authors[..i]))
    {
      var author := doc.authors[i];
      var name := NameOf(author);
      var affiliation := AffiliationOf(author);
      if affiliation.None? {
        assert !AllAffiliationsReadable(doc.authors);
        return Failure(AttributeError);
      }
      ghost var done := doc.authors[..i];
      assert doc.authors[..i + 1] == done + [author];
      assert (done + [author])[..i] == done;
      if IsNonAcademic(affiliation.value) {
        NamesSnoc(NonAcademicAuthors(done), author);
        AffiliationsSnoc(NonAcademicAuthors(done), author);
        names := names + [name];
        affiliations := affiliations + [affiliation.value];
      }
      i := i + 1;
    }
    assert doc.authors[..i] == doc.authors;
    if |names| == 0 {
      return Success(None);
    }
    var texts := AllTexts(names);
    if texts.None? {
      return Failure(TypeError);
    }
    r := Success(Some(Paper(
      pmid, title, pubDate,
      Join(texts.value, Separator),
      Join(affiliations, Separator),
      Unknown)));
  }

  /** A record is emitted exactly when every affiliation can be lower-cased, some
      author qualifies and every qualifying author's name has text. */
  lemma PaperEmittedIff(pmid: string, doc: Doc)
    ensures (PaperFor(pmid, doc).Success? && PaperFor(pmid, doc).value.Some?) <==>
      AllAffiliationsReadable(doc.authors) &&
      (exists i :: 0 <= i < |doc.authors| && Qualifies(doc.authors[i])) &&
      (forall i :: 0 <= i < |doc.authors| && Qualifies(doc.authors[i]) ==> NameOf(doc.authors[i]).Some?)
  {
    NonAcademicAuthorsEmptyIff(doc.authors);
    NonAcademicAuthorsSelect(doc.authors);
    var chosen := NonAcademicAuthors(doc.authors);
    var ns := Names(chosen);
    if AllTexts(ns).None? {
      var k :| 0 <= k < |ns| && ns[k].None?;
      assert chosen[k] in doc.authors;
    } else {
      forall i | 0 <= i < |doc.authors| && Qualifies(doc.authors[i])
        ensures NameOf(doc.authors[i]).Some?
      {
        assert doc.authors[i] in chosen;
        var k :| 0 <= k < |chosen| && chosen[k] == doc.authors[i];
        assert ns[k] == NameOf(doc.authors[i]);
      }
    }
  }

  /** An `Affiliation` element without text makes the whole call raise. */
  lemma TextlessAffiliationRaises(pmid: string, doc: Doc, i: nat)
    requires i < |doc.authors|
    requires doc.authors[i].affiliation.Some? && doc.authors[i].affiliation.value.text.None?
    ensures PaperFor(pmid, doc) == Failure(AttributeError)
  {
    assert AffiliationOf(doc.authors[i]).None?;
  }

  /** A qualifying author whose `LastName` has no text puts None among the selected names. */
  lemma SelectedNameMissing(authors: seq<Author>, i: nat)
    requires i < |authors| && Qualifies(authors[i]) && NameOf(authors[i]).None?
    ensures AllTexts(Names(NonAcademicAuthors(authors))).None?
  {
    NonAcademicAuthorsSelect(authors);
    var chosen := NonAcademicAuthors(authors);
    assert authors[i] in chosen;
    var k :| 0 <= k < |chosen| && chosen[k] == authors[i];
    assert Names(chosen)[k].None?;
  }

  /** The document raises exactly when some affiliation cannot be lower-cased, or some
      qualifying author's `LastName` has no text, so that `", ".join` meets None. */
  lemma PaperFailsIff(pmid: string, doc: Doc)
    ensures PaperFor(pmid, doc).Failure? <==>
      !AllAffiliationsReadable(doc.authors) ||
      exists i :: 0 <= i < |doc.authors| && Qualifies(doc.authors[i]) && NameOf(doc.authors[i]).None?
  {
    if exists i :: 0 <= i < |doc.authors| && Qualifies(doc.authors[i]) && NameOf(doc.authors[i]).None? {
      var i :| 0 <= i < |doc.authors| && Qualifies(doc.authors[i]) && NameOf(doc.authors[i]).None?;
      SelectedNameMissing(doc.authors, i);
    }
    PaperEmittedIff(pmid, doc);
    NonAcademicAuthorsEmptyIff(doc.authors);
  }

  /** A qualifying author whose `LastName` element has no text makes `", ".join`
      raise TypeError, once every affiliation has been read. */
  lemma TextlessNameRaises(pmid: string, doc: Doc, i: nat)
    requires AllAffiliationsReadable(doc.authors)
    requires i < |doc.authors| && Qualifies(doc.authors[i]) && NameOf(doc.authors[i]).None?
    ensures PaperFor(pmid, doc) == Failure(TypeError)
  {
    PaperFailsIff(pmid, doc);
  }

  /** A document whose affiliations are all readable and where no author qualifies
      yields no record and raises nothing. */
  lemma NoQualifyingAuthorNoRecord(pmid: string, doc: Doc)
    requires AllAffiliationsReadable(doc.authors)
    requires forall i :: 0 <= i < |doc.authors| ==> !Qualifies(doc.authors[i])
    ensures PaperFor(pmid, doc) == Success(None)
  {
    NonAcademicAuthorsEmptyIff(doc.authors);
  }

  /** What an emitted record holds: the input ID; the document's own title and
      date, or "Unknown" when their element is absent; the `", "`-joins of the
      selected authors' names and of their affiliations; and the email placeholder. */
  lemma PaperFields(pmid: string, doc: Doc)
    requires PaperFor(pmid, doc).Success? && PaperFor(pmid, doc).value.Some?
    ensures PaperFor(pmid, doc).value.value.pubmedId == pmid
    ensures doc.articleTitle.None? ==> PaperFor(pmid, doc).value.value.title == Some(Unknown)
    ensures doc.articleTitle.Some? ==> PaperFor(pmid, doc).value.value.title == doc.articleTitle.value.text
    ensures doc.pubDate.None? ==> PaperFor(pmid, doc).value.value.publicationDate == Some(Unknown)
    ensures doc.pubDate.Some? ==> PaperFor(pmid, doc).value.value.publicationDate == doc.pubDate.value.text
    ensures var chosen := NonAcademicAuthors(doc.authors);
            AllTexts(Names(chosen)).Some? &&
            PaperFor(pmid, doc).value.value.nonAcademicAuthors == Join(AllTexts(Names(chosen)).value, Separator) &&
            PaperFor(pmid, doc).value.value.companyAffiliations == Join(Affiliations(chosen), Separator)
    ensures PaperFor(pmid, doc).value.value.correspondingAuthorEmail == Unknown
    ensures PaperFor(pmid, doc).value.value.nonAcademicAuthors != ""
  {
    var chosen := NonAcademicAuthors(doc.authors);
    var names := AllTexts(Names(chosen)).value;
    assert Some(names[0]) == NameOf(chosen[0]);
  }

  /** Each qualifying author has a position in the selection; the name list and the
      affiliation list that are joined into the record hold, at that position, the
      author's name and original-case affiliation, so both occur in the record. */
  lemma PaperListsAuthors(pmid: string, doc: Doc, i: nat)
    requires PaperFor(pmid, doc).Success? && PaperFor(pmid, doc).value.Some?
    requires i < |doc.authors| && Qualifies(doc.authors[i])
    ensures var chosen := NonAcademicAuthors(doc.authors);
            AllTexts(Names(chosen)).Some? &&
            exists k :: 0 <= k < |chosen| && chosen[k] == doc.authors[i] &&
              Some(AllTexts(Names(chosen)).value[k]) == NameOf(doc.authors[i]) &&
              Some(Affiliations(chosen)[k]) == AffiliationOf(doc.authors[i])
    ensures NameOf(doc.authors[i]).Some?
    ensures Contains(PaperFor(pmid, doc).value.value.nonAcademicAuthors, NameOf(doc.authors[i]).value)
    ensures AffiliationOf(doc.authors[i]).Some?
    ensures Contains(PaperFor(pmid, doc).value.value.companyAffiliations, AffiliationOf(doc.authors[i]).value)
  {
    PaperEmittedIff(pmid, doc);
    NonAcademicAuthorsSelect(doc.authors);
    var chosen := NonAcademicAuthors(doc.authors);
    assert doc.authors[i] in chosen;
    var k :| 0 <= k < |chosen| && chosen[k] == doc.authors[i];
    var names := AllTexts(Names(chosen)).value;
    assert Some(names[k]) == NameOf(doc.authors[i]);
    JoinContainsItems(names, Separator, k);
    JoinContainsItems(Affiliations(chosen), Separator, k);
  }

  /** What one iteration of the `for pmid` loop ends with: the record to append,
      None, or the exception that escapes. */
  type Outcome = Result<Option<Paper>, Exception>

  /** One iteration of the `for pmid` loop: request, status check, parse, extract. */
  function PaperForReply(pmid: string, reply: Reply<Doc>): (r: Outcome)
    ensures reply.NoReply? ==> r == Failure(ConnectionError)
    ensures reply.Reply? && IsErrorStatus(reply.status) ==> r == Failure(HttpError(reply.status))
    ensures reply.Reply? && !IsErrorStatus(reply.status) && reply.body.None? ==> r == Failure(DecodeError)
    ensures reply.Reply? && !IsErrorStatus(reply.status) && reply.body.Some? ==> r == PaperFor(pmid, reply.body.value)
  {
    match Received(reply)
    case Failure(e) => Failure(e)
    case Success(doc) => PaperFor(pmid, doc)
  }

  /** The iteration at position `i` of the ID list when `fetch(i, pmid)` is the reply
      to the EFetch request that iteration makes for `pmid`. Each pass of the loop
      makes its own request, so a repeated ID may get a different reply. */
  function OutcomeOf(fetch: (nat, string) -> Reply<Doc>): (nat, string) -> Outcome
  {
    (i: nat, pmid: string) => PaperForReply(pmid, fetch(i, pmid))
  }

  /** The `for pmid` loop over `pubmedIds` when the iteration at position `i`, for
      `pmid`, ends with `outcome(i, pmid)`: the records in ID order, or the first
      exception raised. */
  function PapersFor(pubmedIds: seq<string>, outcome: (nat, string) -> Outcome): (r: Result<seq<Paper>, Exception>)
    ensures r.Success? ==> |r.value| <= |pubmedIds|
    decreases |pubmedIds|
  {
    if |pubmedIds| == 0 then Success([])
    else
      var n := |pubmedIds| - 1;
      match PapersFor(pubmedIds[..n], outcome)
      case Failure(e) => Failure(e)
      case Success(papers) =>
        match outcome(n, pubmedIds[n])
        case Failure(e) => Failure(e)
        case Success(None) => Success(papers)
        case Success(Some(paper)) => Success(papers + [paper])
  }

  /** Once a prefix of the IDs has raised, the whole loop raises the same exception. */
  lemma {:induction false} FailurePersists(pubmedIds: seq<string>, outcome: (nat, string) -> Outcome, n: nat)
    requires n <= |pubmedIds| && PapersFor(pubmedIds[..n], outcome).Failure?
    ensures PapersFor(pubmedIds, outcome) == PapersFor(pubmedIds[..n], outcome)
    decreases |pubmedIds| - n
  {
    if n < |pubmedIds| {
      assert pubmedIds[..n + 1][..n] == pubmedIds[..n];
      FailurePersists(pubmedIds, outcome, n + 1);
    } else {
      assert pubmedIds[..n] == pubmedIds;
    }
  }

  /** Lines 30-77: `fetch_paper_details(pubmed_ids)`, the `for pmid` loop appending
      one record per qualifying paper; `fetch(i, pmid)` is the reply to the request
      made at position `i`. */
  method FetchPaperDetails(pubmedIds: seq<string>, fetch: (nat, string) -> Reply<Doc>)
    returns (r: Result<seq<Paper>, Exception>)
    ensures r == PapersFor(pubmedIds, OutcomeOf(fetch))
  {
    var papers: seq<Paper> := [];
    var i := 0;
    while i < |pubmedIds|
      invariant 0 <= i <= |pubmedIds|
      invariant PapersFor(pubmedIds[..i], OutcomeOf(fetch)) == Success(papers)
    {
      var pmid := pubmedIds[i];
      assert pubmedIds[..i + 1][..i] == pubmedIds[..i];
      var received := Received(fetch(i, pmid));
      if received.Failure? {
        FailurePersists(pubmedIds, OutcomeOf(fetch), i + 1);
        return Failure(received.error);
      }
      var paper := ExtractPaper(pmid, received.value);
      if paper.Failure? {
        FailurePersists(pubmedIds, OutcomeOf(fetch), i + 1);
        return Failure(paper.error);
      }
      if paper.value.Some? {
        papers := papers + [paper.value.value];
      }
      i := i + 1;
    }
    assert pubmedIds[..i] == pubmedIds;
    r := Success(papers);
  }

  /** The IDs of a list of records. */
  function PubmedIds(papers: seq<Paper>): (r: seq<string>)
    ensures |r| == |papers|
  {
    seq(|papers|, i requires 0 <= i < |papers| => papers[i].pubmedId)
  }

  /** A record emitted for `pmid` carries `pmid`, a non-empty author field and the
      email placeholder. */
  predicate WellFormedOutcome(pmid: string, outcome: Outcome)
  {
    outcome.Success? && outcome.value.Some? ==>
      var paper := outcome.value.value;
      paper.pubmedId == pmid && paper.nonAcademicAuthors != "" && paper.correspondingAuthorEmail == Unknown
  }

  /** Every iteration of the real loop body has a well-formed outcome. */
  lemma OutcomesWellFormed(i: nat, pmid: string, fetch: (nat, string) -> Reply<Doc>)
    ensures WellFormedOutcome(pmid, OutcomeOf(fetch)(i, pmid))
  {
    if Received(fetch(i, pmid)).Success? {
      var doc := Received(fetch(i, pmid)).value;
      if PaperFor(pmid, doc).Success? && PaperFor(pmid, doc).value.Some? {
        PaperFields(pmid, doc);
      }
    }
  }

  /** On success the records' IDs are a subsequence of the input IDs, in input
      order, so there are at most as many records as IDs; every record has a
      non-empty author field and the email placeholder. */
  lemma {:induction false} PapersOrdered(pubmedIds: seq<string>, outcome: (nat, string) -> Outcome)
    requires forall i :: 0 <= i < |pubmedIds| ==> WellFormedOutcome(pubmedIds[i], outcome(i, pubmedIds[i]))
    requires PapersFor(pubmedIds, outcome).Success?
    ensures IsSubsequence(PubmedIds(PapersFor(pubmedIds, outcome).value), pubmedIds)
    ensures |PapersFor(pubmedIds, outcome).value| <= |pubmedIds|
    ensures forall p :: p in PapersFor(pubmedIds, outcome).value ==>
              p.nonAcademicAuthors != "" && p.correspondingAuthorEmail == Unknown
    decreases |pubmedIds|
  {
    var papers := PapersFor(pubmedIds, outcome).value;
    if |pubmedIds| == 0 {
      SubsequenceEmpty(pubmedIds);
    } else {
      var init, pmid := pubmedIds[..|pubmedIds| - 1], pubmedIds[|pubmedIds| - 1];
      assert init + [pmid] == pubmedIds;
      var last := outcome(|init|, pmid);
      assert WellFormedOutcome(pmid, last);
      PapersOrdered(init, outcome);
      var before := PapersFor(init, outcome).value;
      if last.value.Some? {
        assert papers == before + [last.value.value];
        assert PubmedIds(papers) == PubmedIds(before) + [pmid];
        SubsequenceSnoc(PubmedIds(before), init, pmid, true);
      } else {
        SubsequenceSnoc(PubmedIds(before), init, pmid, false);
      }
      SubsequenceBounds(PubmedIds(papers), pubmedIds);
    }
  }

  /** `fetch_paper_details` returns records in ID order, at most one per position of
      the ID list, each with a non-empty author field. */
  lemma FetchedPapersOrdered(pubmedIds: seq<string>, fetch: (nat, string) -> Reply<Doc>)
    requires PapersFor(pubmedIds, OutcomeOf(fetch)).Success?
    ensures IsSubsequence(PubmedIds(PapersFor(pubmedIds, OutcomeOf(fetch)).value), pubmedIds)
    ensures |PapersFor(pubmedIds, OutcomeOf(fetch)).value| <= |pubmedIds|
    ensures forall p :: p in PapersFor(pubmedIds, OutcomeOf(fetch)).value ==>
              p.nonAcademicAuthors != "" && p.correspondingAuthorEmail == Unknown
  {
    forall i | 0 <= i < |pubmedIds|
      ensures WellFormedOutcome(pubmedIds[i], OutcomeOf(fetch)(i, pubmedIds[i]))
    {
      OutcomesWellFormed(i, pubmedIds[i], fetch);
    }
    PapersOrdered(pubmedIds, OutcomeOf(fetch));
  }

  /** The iteration for an ID emits a record. */
  predicate Emits(outcome: Outcome)
  {
    outcome.Success? && outcome.value.Some?
  }

  /** On success there is one record per position of the ID list whose iteration
      emits one; a repeated ID counts once for each of its positions that emits. */
  lemma {:induction false} PapersCount(pubmedIds: seq<string>, outcome: (nat, string) -> Outcome)
    requires PapersFor(pubmedIds, outcome).Success?
    ensures |PapersFor(pubmedIds, outcome).value| ==
              |set i | 0 <= i < |pubmedIds| && Emits(outcome(i, pubmedIds[i]))|
    decreases |pubmedIds|
  {
    var all := set i | 0 <= i < |pubmedIds| && Emits(outcome(i, pubmedIds[i]));
    if |pubmedIds| == 0 {
      assert all == {};
    } else {
      var n := |pubmedIds| - 1;
      var init := pubmedIds[..n];
      PapersCount(init, outcome);
      var before := set i | 0 <= i < |init| && Emits(outcome(i, init[i]));
      assert before == set i | 0 <= i < n && Emits(outcome(i, pubmedIds[i]));
      if Emits(outcome(n, pubmedIds[n])) {
        assert all == before + {n};
      } else {
        assert all == before;
      }
    }
  }

  /** The loop raises exactly when the iteration for some ID raises. */
  lemma {:induction false} PapersFailIff(pubmedIds: seq<string>, outcome: (nat, string) -> Outcome)
    ensures PapersFor(pubmedIds, outcome).Failure? <==>
      exists i :: 0 <= i < |pubmedIds| && outcome(i, pubmedIds[i]).Failure?
    decreases |pubmedIds|
  {
    if |pubmedIds| > 0 {
      var init := pubmedIds[..|pubmedIds| - 1];
      PapersFailIff(init, outcome);
      assert forall i :: 0 <= i < |init| ==> init[i] == pubmedIds[i];
    }
  }

  /** On success, the records are exactly the ones the iterations emit: every
      emitted record is kept, and every kept record was emitted for one of the IDs. */
  lemma {:induction false} PapersKept(pubmedIds: seq<string>, outcome: (nat, string) -> Outcome)
    requires PapersFor(pubmedIds, outcome).Success?
    ensures forall i :: 0 <= i < |pubmedIds| && outcome(i, pubmedIds[i]).Success? && outcome(i, pubmedIds[i]).value.Some?
              ==> outcome(i, pubmedIds[i]).value.value in PapersFor(pubmedIds, outcome).value
    ensures forall p :: p in PapersFor(pubmedIds, outcome).value ==>
              exists i :: 0 <= i < |pubmedIds| && outcome(i, pubmedIds[i]) == Success(Some(p))
    decreases |pubmedIds|
  {
    if |pubmedIds| > 0 {
      var init := pubmedIds[..|pubmedIds| - 1];
      PapersKept(init, outcome);
      assert forall i :: 0 <= i < |init| ==> init[i] == pubmedIds[i];
    }
  }
}
