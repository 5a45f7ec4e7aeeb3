/** The affiliation heuristic: `COMPANY_KEYWORDS`, `ACADEMIC_KEYWORDS` and the
    test that decides whether an author counts as non-academic. */
module Classifier {
  import opened Text

  /** Substrings that mark a commercial affiliation. */
  const CompanyKeywords: seq<string> :=
    ["inc", "pharma", "biotech", "corp", "ltd", "gmbh", "s.a.", "research institute", "therapeutics", "biosciences"]

  /** Substrings that mark an academic affiliation; they override a company match. */
  const AcademicKeywords: seq<string> :=
    ["university", "college", "school", "institute of technology", "hospital", "med school"]

  /** `any(word in s for word in keywords)`: some keyword occurs in `s`. */
  predicate ContainsAny(s: string, keywords: seq<string>)
  {
    exists k :: k in keywords && Contains(s, k)
  }

  /** `any` as Python runs it: test the keywords front to back and stop at the
      first one that occurs. */
  predicate AnyInOrder(s: string, keywords: seq<string>)
    decreases |keywords|
  {
    if |keywords| == 0 then false
    else if Contains(s, keywords[0]) then true
    else AnyInOrder(s, keywords[1..])
  }

  /** The front-to-back scan answers the same as "some keyword occurs". */
  lemma {:induction false} AnyInOrderIff(s: string, keywords: seq<string>)
    ensures AnyInOrder(s, keywords) <==> ContainsAny(s, keywords)
    decreases |keywords|
  {
    if |keywords| > 0 {
      AnyInOrderIff(s, keywords[1..]);
      assert keywords[0] in keywords;
      assert forall k :: k in keywords[1..] ==> k in keywords;
      assert forall k :: k in keywords ==> k == keywords[0] || k in keywords[1..];
    }
  }

  /** The test of one affiliation: some company keyword and no academic keyword
      occurs in its lower-cased text. */
  predicate IsNonAcademic(affiliation: string)
    ensures IsNonAcademic(affiliation) ==> |affiliation| >= 3
  {
    assert forall k :: k in CompanyKeywords ==> |k| >= 3;
    var lowered := Lower(affiliation);
    ContainsAny(lowered, CompanyKeywords) && !ContainsAny(lowered, AcademicKeywords)
  }

  /** An academic keyword excludes the affiliation, whatever company keywords it has. */
  lemma AcademicOverrides(affiliation: string, k: string)
    requires k in AcademicKeywords && Contains(Lower(affiliation), k)
    ensures !IsNonAcademic(affiliation)
  {
  }

  /** One company keyword is enough for the company half of the test. */
  lemma CompanyKeywordFound(lowered: string, k: string)
    requires k in CompanyKeywords && Contains(lowered, k)
    ensures ContainsAny(lowered, CompanyKeywords)
  {
  }

  /** Without a company keyword an affiliation never qualifies. */
  lemma CompanyKeywordNeeded(affiliation: string)
    requires forall k :: k in CompanyKeywords ==> !Contains(Lower(affiliation), k)
    ensures !IsNonAcademic(affiliation)
  {
  }

  /** The missing-affiliation default `""` never qualifies. */
  lemma EmptyAffiliationExcluded()
    ensures !IsNonAcademic("")
  {
    assert Lower("") == [];
    forall k | k in CompanyKeywords
      ensures !Contains([], k)
    {
      EmptyContainsNothing(k);
    }
    CompanyKeywordNeeded("");
  }

  /** The test ignores ASCII case. */
  lemma CaseInsensitive(affiliation: string)
    ensures IsNonAcademic(Lower(affiliation)) == IsNonAcademic(affiliation)
  {
    LowerIdempotent(affiliation);
  }

  /** Every academic keyword has one of the letters u, l, h, m, so a text
      lacking all four has no academic keyword. */
  lemma NoAcademicLetters(lowered: string)
    requires 'u' !in lowered && 'l' !in lowered && 'h' !in lowered && 'm' !in lowered
    ensures !ContainsAny(lowered, AcademicKeywords)
  {
    MissingCharNotContained(lowered, "university", 'u');
    MissingCharNotContained(lowered, "college", 'l');
    MissingCharNotContained(lowered, "school", 'h');
    MissingCharNotContained(lowered, "institute of technology", 'h');
    MissingCharNotContained(lowered, "hospital", 'h');
    MissingCharNotContained(lowered, "med school", 'm');
  }

  /** A keyword written in any case inside an affiliation is found by the
      lower-cased `in` test. */
  lemma KeywordInLowered(affiliation: string, p: string, w: string, q: string, k: string)
    requires affiliation == p + w + q && Lower(w) == k
    ensures Contains(Lower(affiliation), k)
  {
    ContainsLowered(p, w, q);
  }

  /** The Pfizer affiliation has none of the letters u, l, h, m in either case. */
  lemma PfizerLacksAcademicLetter(affiliation: string, c: char)
    requires affiliation == "Pfizer Inc, New York"
    requires c in "ulhm"
    ensures c !in Lower(affiliation)
  {
    LowerLacks(affiliation, c);
  }

  /** "Pfizer Inc, New York" contains "inc" and no academic keyword. */
  lemma PfizerQualifies(affiliation: string)
    requires affiliation == "Pfizer Inc, New York"
    ensures IsNonAcademic(affiliation)
  {
    KeywordInLowered(affiliation, "Pfizer ", "Inc", ", New York", "inc");
    PfizerLacksAcademicLetter(affiliation, 'u');
    PfizerLacksAcademicLetter(affiliation, 'l');
    PfizerLacksAcademicLetter(affiliation, 'h');
    PfizerLacksAcademicLetter(affiliation, 'm');
    NoAcademicLetters(Lower(affiliation));
    CompanyKeywordFound(Lower(affiliation), "inc");
  }

  /** "Department of Biotech, Harvard University" has a company keyword ("biotech") ... */
  lemma HarvardHasCompanyKeyword(affiliation: string)
    requires affiliation == "Department of Biotech, Harvard University"
    ensures ContainsAny(Lower(affiliation), CompanyKeywords)
  {
    KeywordInLowered(affiliation, "Department of ", "Biotech", ", Harvard University", "biotech");
    CompanyKeywordFound(Lower(affiliation), "biotech");
  }

  /** ... but also an academic one ("university"), so it is excluded. */
  lemma HarvardExcluded(affiliation: string)
    requires affiliation == "Department of Biotech, Harvard University"
    ensures !IsNonAcademic(affiliation)
  {
    KeywordInLowered(affiliation, "Department of Biotech, Harvard ", "University", "", "university");
    AcademicOverrides(affiliation, "university");
  }
}
