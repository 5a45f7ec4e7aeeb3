# pubmed_fetcher — a Dafny model of the fetch-and-filter core

`pubmed_fetcher` searches PubMed and keeps the papers that have at least one
author with a commercial affiliation. This project models the two steps of that
pipeline:

- `fetch_pubmed_ids` reads the identifier list out of an ESearch JSON reply.
- `fetch_paper_details` does the rest. For each identifier it requests the
  EFetch XML document and raises on an HTTP error status. It then reads the
  title, the publication date and the authors. Authors are classified by the
  keyword heuristic (`COMPANY_KEYWORDS` / `ACADEMIC_KEYWORDS`). A paper yields a
  record when at least one author qualifies.

Modules, one file each:

- `Wrappers` (`wrappers.dfy`): `Option` and `Result`.
- `Exceptions` (`exceptions.dfy`): the Python exceptions the core can raise.
  None of them is caught.
- `Http` (`http.dfy`): one HTTP exchange as an input value, `Reply<T>`.
  - `NoReply` means the request failed.
  - Otherwise the reply holds a status code and the parsed body, which is None
    when the body does not parse.
  - `Received` performs `raise_for_status` and the parse, in the source's order.
- `Text` (`text.dfy`): the string operations the filter relies on:
  - `str.lower` (ASCII letters);
  - the substring test `in`, with its characterisation by offsets;
  - `", ".join`, with its length, its first item and the items it contains.
- `Sequences` (`sequences.dfy`): order-preserving subsequences.
- `Classifier` (`classifier.dfy`): the two keyword lists, copied verbatim, and
  the test on line 63, with worked examples.
- `Search` (`search.dfy`): a small JSON datatype, `dict.get`, and
  `fetch_pubmed_ids`.
- `Details` (`details.dfy`): `fetch_paper_details`.
  - The parsed document is the datatype `Doc`.
  - The inner `for author` loop is the method `ExtractPaper`. The outer
    `for pmid` loop is the method `FetchPaperDetails`.
  - Each loop is proved against a specification function: `PaperFor` and
    `PapersFor`. Lemmas then state what the code promises about those functions.

Python behaviour the model keeps:

- ElementTree reports an element without character data as `.text is None`,
  never as `""`. Consequences:
  - A title or date element without text gives a `None` field.
  - An `Affiliation` element without text makes `.lower()` raise
    `AttributeError`.
  - A qualifying author whose `LastName` has no text makes `", ".join` raise
    `TypeError`.
- `.get` on a JSON value that is not an object raises `AttributeError`.
- The `idlist` value is returned unchanged, whatever its shape.
- Nothing is caught. The first exception ends `fetch_paper_details`, and the
  records gathered so far are lost.

There is no `try` around `ET.fromstring` (line 48), so a body that does not parse
raises and the whole call fails. The model does the same: `Received` yields
`DecodeError`.

## Model

| member | source | states |
|---|---|---|
| Http.Received | pubmed_fetcher/pubmed_fetcher.py:40-48 | A reply is accepted exactly when there is one, its status is outside 400..599 and its body parses. Otherwise the result is ConnectionError, HttpError(status) or the decode error, in that order of checks. |
| Search.Get | pubmed_fetcher/pubmed_fetcher.py:28 | `dict.get`: the value under a present key, the default under a missing one, and AttributeError exactly when the receiver is not an object. |
| Search.IdList | pubmed_fetcher/pubmed_fetcher.py:28 | Both keys present gives the id list unchanged. A missing key at either level gives `[]`. The call raises exactly when the reply or its `esearchresult` entry is not an object. |
| Search.FetchPubmedIds | pubmed_fetcher/pubmed_fetcher.py:17-28 | No reply gives ConnectionError. An error status gives HttpError with that status. An accepted reply gives the id list of its body. Success implies the reply was accepted. |
| Text.LowerChar | pubmed_fetcher/pubmed_fetcher.py:63 | An upper-case ASCII letter maps to the lower-case letter 32 code points above it. Every other character is unchanged. The result is never an upper-case letter. |
| Text.Lower | pubmed_fetcher/pubmed_fetcher.py:63 | Lower-casing keeps the length and lower-cases each character in place. |
| Text.LowerIdempotent | pubmed_fetcher/pubmed_fetcher.py:63 | Lower-casing twice equals lower-casing once. |
| Text.Contains | pubmed_fetcher/pubmed_fetcher.py:63 | Python's `word in s`. A text contains a word only if it is at least as long as the word. |
| Text.ContainsIff | pubmed_fetcher/pubmed_fetcher.py:63 | `word in s` holds exactly when `word` occurs in `s` at some offset. |
| Text.ContainsLowered | pubmed_fetcher/pubmed_fetcher.py:63 | A lower-cased word occurs in the lower-cased text around it. |
| Text.MissingCharNotContained | pubmed_fetcher/pubmed_fetcher.py:63 | A text lacking one of a word's characters does not contain the word. |
| Text.Join | pubmed_fetcher/pubmed_fetcher.py:72-73 | `sep.join(xs)` of a non-empty list starts with its first item. |
| Text.JoinLength | pubmed_fetcher/pubmed_fetcher.py:72-73 | `sep.join(xs)` is as long as the items plus one separator between each pair. |
| Text.JoinContainsItems | pubmed_fetcher/pubmed_fetcher.py:72-73 | Every item occurs in the joined string. |
| Text.JoinSnoc | pubmed_fetcher/pubmed_fetcher.py:64-65 | Appending an item to the list appends the separator and the item to the joined string. |
| Classifier.AnyInOrderIff | pubmed_fetcher/pubmed_fetcher.py:63 | `any(word in s for word in keywords)`, run front to back and stopping at the first hit, holds exactly when some keyword of the list occurs in `s`. |
| Classifier.IsNonAcademic | pubmed_fetcher/pubmed_fetcher.py:63 | The line-63 test on an affiliation. An affiliation that passes is at least 3 characters long, the length of the shortest company keywords ("inc", "ltd"). |
| Classifier.KeywordInLowered | pubmed_fetcher/pubmed_fetcher.py:63 | A keyword written in any case inside an affiliation is found by the lower-cased `in` test. |
| Classifier.AcademicOverrides | pubmed_fetcher/pubmed_fetcher.py:15 | An academic keyword in the lower-cased affiliation excludes it, whatever company keywords it also holds. |
| Classifier.CompanyKeywordNeeded | pubmed_fetcher/pubmed_fetcher.py:14 | Without a company keyword an affiliation never qualifies. |
| Classifier.EmptyAffiliationExcluded | pubmed_fetcher/pubmed_fetcher.py:58 | The default `""` for a missing `Affiliation` never qualifies. |
| Classifier.CaseInsensitive | pubmed_fetcher/pubmed_fetcher.py:63 | The test gives the same answer for an affiliation and its lower-cased form. |
| Classifier.NoAcademicLetters | pubmed_fetcher/pubmed_fetcher.py:15 | A lower-cased text without any of the letters u, l, h and m holds no academic keyword. |
| Classifier.PfizerQualifies | pubmed_fetcher/pubmed_fetcher.py:63-65 | "Pfizer Inc, New York" qualifies, through "inc". |
| Classifier.HarvardExcluded | pubmed_fetcher/pubmed_fetcher.py:63 | "Department of Biotech, Harvard University" is excluded: "university" overrides "biotech". |
| Classifier.HarvardHasCompanyKeyword | pubmed_fetcher/pubmed_fetcher.py:14 | The same Harvard affiliation does match a company keyword, so its exclusion is the academic override at work. |
| Details.TextOr | pubmed_fetcher/pubmed_fetcher.py:50-51 | An absent element gives the default. A present one gives its text, which is None or non-empty, never `""`. |
| Details.NameOf | pubmed_fetcher/pubmed_fetcher.py:57 | The name is "Unknown" without a `LastName` element and that element's text otherwise. It is None when the element has no text, and never the empty string. |
| Details.AffiliationOf | pubmed_fetcher/pubmed_fetcher.py:58 | The affiliation is `""` exactly when there is no `Affiliation` element, and that element's text otherwise (None when it has no text). |
| Details.Qualifies | pubmed_fetcher/pubmed_fetcher.py:58-63 | The test on line 63 for one author. Only an author whose `Affiliation` element is present and has text can pass it: the `""` default never does. |
| Details.NonAcademicAuthors | pubmed_fetcher/pubmed_fetcher.py:56-65 | Every selected author passes the test and has readable affiliation text. There are no more of them than authors. |
| Details.NonAcademicAuthorsInOrder | pubmed_fetcher/pubmed_fetcher.py:56-65 | The selected authors are a subsequence of the document's authors, in document order. |
| Details.NonAcademicAuthorsSelect | pubmed_fetcher/pubmed_fetcher.py:56-65 | An author is selected exactly when it is one of the document's authors and passes the test. |
| Details.NonAcademicAuthorsCount | pubmed_fetcher/pubmed_fetcher.py:56-65 | Every author occurs in the selection exactly as many times as in the document when it qualifies, and not at all otherwise. Two identical qualifying authors are both kept. |
| Details.NonAcademicAuthorsEmptyIff | pubmed_fetcher/pubmed_fetcher.py:63-67 | The selection is non-empty exactly when some author passes the test. |
| Details.AllTexts | pubmed_fetcher/pubmed_fetcher.py:72 | `", ".join` gets strings exactly when no entry is None, and then gets those strings in order. |
| Details.PaperFor | pubmed_fetcher/pubmed_fetcher.py:50-75 | The per-document result. It raises only AttributeError (`.lower()` on a missing text) or TypeError (`join` over None). It succeeds only when every affiliation is readable. |
| Details.ExtractPaper | pubmed_fetcher/pubmed_fetcher.py:50-75 | The per-document body (title, date, the author loop building the two parallel lists, the record) returns exactly `PaperFor(pmid, doc)`. |
| Details.PaperEmittedIff | pubmed_fetcher/pubmed_fetcher.py:56-75 | A record is emitted exactly when every affiliation is readable, some author qualifies and every qualifying author's name has text. |
| Details.TextlessAffiliationRaises | pubmed_fetcher/pubmed_fetcher.py:58-63 | One `Affiliation` element without text makes the document raise AttributeError. |
| Details.SelectedNameMissing | pubmed_fetcher/pubmed_fetcher.py:57-72 | A qualifying author whose `LastName` has no text puts None among the names that line 72 joins. |
| Details.PaperFailsIff | pubmed_fetcher/pubmed_fetcher.py:56-75 | The document raises exactly when some affiliation has no text (line 63), or some qualifying author's `LastName` has no text (line 72). |
| Details.TextlessNameRaises | pubmed_fetcher/pubmed_fetcher.py:57-72 | When every affiliation is readable, a qualifying author whose `LastName` has no text makes the document raise TypeError. |
| Details.NoQualifyingAuthorNoRecord | pubmed_fetcher/pubmed_fetcher.py:63-67 | A document whose affiliations are all readable and where no author qualifies yields no record and raises nothing. |
| Details.PaperFields | pubmed_fetcher/pubmed_fetcher.py:50-75 | An emitted record carries: the input ID; the document's own title and date text, or "Unknown" when the element is absent; the `", "`-joins of the selected authors' names and of their affiliations; the email placeholder "Unknown". The author field is non-empty. |
| Details.PaperListsAuthors | pubmed_fetcher/pubmed_fetcher.py:56-73 | Each qualifying author has a position in the selection. The name list and the affiliation list joined into the record hold, at that same position, the author's name and original-case affiliation, and both occur in the record's fields. |
| Details.PaperForReply | pubmed_fetcher/pubmed_fetcher.py:40-75 | One iteration for one ID. No reply gives ConnectionError; an error status gives HttpError with that status; a body that does not parse gives the decode error; an accepted body gives the per-document result. |
| Details.PapersFor | pubmed_fetcher/pubmed_fetcher.py:32-77 | The `for pmid` loop: on success there are at most as many records as IDs. |
| Details.FetchPaperDetails | pubmed_fetcher/pubmed_fetcher.py:30-77 | The `for pmid` loop returns exactly `PapersFor` over the IDs: the emitted records in ID order, or the first exception raised. |
| Details.FailurePersists | pubmed_fetcher/pubmed_fetcher.py:34-41 | Once the iteration for some ID has raised, the whole call raises that exception. |
| Details.OutcomesWellFormed | pubmed_fetcher/pubmed_fetcher.py:67-75 | Every record the loop body can emit carries its own ID, a non-empty author field and the email placeholder. |
| Details.PapersOrdered | pubmed_fetcher/pubmed_fetcher.py:32-34 | On success, the records' IDs are a subsequence of the input IDs and there are at most as many records as IDs. Every record has a non-empty author field and the email placeholder. |
| Details.FetchedPapersOrdered | pubmed_fetcher/pubmed_fetcher.py:30-77 | For the real loop body: records in ID order, at most one per position of the ID list, each with a non-empty author field. |
| Details.PapersFailIff | pubmed_fetcher/pubmed_fetcher.py:34-48 | The call raises exactly when the iteration for some ID raises. |
| Details.PapersKept | pubmed_fetcher/pubmed_fetcher.py:67-77 | On success, every emitted record is returned, and every returned record was emitted for one of the IDs. |
| Details.PapersCount | pubmed_fetcher/pubmed_fetcher.py:34-77 | On success the number of records equals the number of positions in the ID list whose iteration emits one. Each position makes its own request, so a repeated ID yields a record for each of its occurrences whose reply emits one. |
| Sequences.SubsequenceBounds | pubmed_fetcher/pubmed_fetcher.py:64-65 | A subsequence is no longer than its source and holds only its elements. |

## Left out

- The network: `requests.get` and the reply's contents are inputs: `Reply<T>`, and for EFetch the function `fetch(i, pmid)`, the reply to the request made at position `i` of the ID list. Every pass of the loop has its own reply, even for a repeated ID. The URLs and query parameters, including `retmax: 10`, are not modelled. So the model does not bound the length of the id list: the server applies that bound.
- XML parsing: `ET.fromstring` and the `.//` path lookups are not modelled. The parsed document is the `Doc` datatype, holding the elements the code reads. A body that does not parse is `None` in the reply.
- JSON decoding: `response.json()` yields the `Json` datatype. Its numbers are integers, because the core never reads a number.
- `print` calls (lines 6, 44, 60) are left out: they only write to standard output.
- `Text.Lower`: does not model full Unicode `str.lower`, only ASCII letters. All keywords are ASCII. A non-ASCII upper-case letter in an affiliation is left unchanged, where Python would lower-case it.
- The code after the `return` on line 77 (lines 79-167) is unreachable and is not part of this model. Nor are `save_to_csv` (the pandas CSV export), `main` and the command-line entry point `cli.py`. They only connect the two modelled calls to I/O.
