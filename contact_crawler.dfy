/** The contact-information crawler (crawlers/contactCrawler.js): on every page it visits it
    collects the distinct e-mail addresses and phone numbers that occur anywhere in the page's
    raw HTML and stores them with the page's URL. Fetching the HTML (`page.content()`) is
    outside the model: the HTML is an input. */
module ContactCrawler {
  import opened Wrappers
  import opened Seqs
  import opened Js
  import opened Patterns

  /** The record pushed for each page: no contact flag, unlike the text-and-links crawler. */
  datatype ContactRecord = ContactRecord(url: string, emails: seq<string>, phones: seq<string>)

  /** One handled page: `[...new Set(html.match(rx) || [])]` for both expressions. */
  function HandlePage(url: string, html: string): ContactRecord {
    ContactRecord(url, DistinctMatches(Email, html), DistinctMatches(Phone, html))
  }

  /** One list of the record: duplicate-free, exactly the matches of the expression in the raw
      HTML, each in its language and a piece of the HTML, in order of first occurrence, and
      empty exactly when no piece of the HTML is in the expression's language. */
  lemma DistinctListSpec(pat: Pattern, html: string)
    ensures var d := DistinctMatches(pat, html);
      && NoDuplicates(d)
      && (forall m :: m in d ==> m in Matches(pat, html) && Shape(pat, m))
      && (forall m :: m in d ==> exists i :: 0 <= i <= |html| && OccursAt(html, m, i))
      && (forall m :: m in Matches(pat, html) ==> m in d)
      && IsSubsequence(d, Matches(pat, html))
      && (forall i, j :: 0 <= i < j < |d| ==> IndexOf(Matches(pat, html), d[i]) < IndexOf(Matches(pat, html), d[j]))
      && (d == [] <==> forall i :: 0 <= i < |html| ==> MatchAt(pat, html, i).None?)
      && (d == [] <==> forall i, j :: 0 <= i < j <= |html| ==> !Shape(pat, html[i..j]))
  {
    DistinctMatchesSpec(pat, html);
    NoMatchNoResult(pat, html);
  }

  /** What the record of a page promises: its URL, and two lists of the kind
      `DistinctListSpec` describes, of e-mail addresses and of phone numbers. */
  lemma RecordSpec(url: string, html: string)
    ensures var r := HandlePage(url, html);
      && r.url == url
      && NoDuplicates(r.emails) && NoDuplicates(r.phones)
      && (forall m :: m in r.emails ==> EmailShape(m) && exists i :: 0 <= i <= |html| && OccursAt(html, m, i))
      && (forall m :: m in r.phones ==> PhoneShape(m) && exists i :: 0 <= i <= |html| && OccursAt(html, m, i))
      && (forall m :: m in Matches(Email, html) ==> m in r.emails)
      && (forall m :: m in Matches(Phone, html) ==> m in r.phones)
  {
    DistinctListSpec(Email, html);
    DistinctListSpec(Phone, html);
  }

  // ---------------------------------------------------------------------------------------
  // Dedup is by exact string: addresses that differ only in case are both kept.

  const MixedCase := "A@B.com a@b.com"

  lemma MixedCaseFirstMatch()
    ensures MatchAt(Email, MixedCase, 0) == Some(7)
  {
    var s := MixedCase;
    RunEndIs(IsLocalChar, s, 0, 1);
    RunEndIs(IsDomainChar, s, 2, 7);
    assert LastTldDot(s, 3, 7) == Some(3) by {
      assert !TldDotAt(s, 6) && !TldDotAt(s, 5) && !TldDotAt(s, 4) && TldDotAt(s, 3);
    }
    RunEndIs(IsAsciiLetter, s, 4, 7);
  }

  lemma MixedCaseNoMatchAtSpace()
    ensures MatchAt(Email, MixedCase, 7) == None
  {
    RunEndIs(IsLocalChar, MixedCase, 7, 7);
  }

  lemma MixedCaseSecondMatch()
    ensures MatchAt(Email, MixedCase, 8) == Some(15)
  {
    var s := MixedCase;
    RunEndIs(IsLocalChar, s, 8, 9);
    RunEndIs(IsDomainChar, s, 10, 15);
    assert LastTldDot(s, 11, 15) == Some(11) by {
      assert !TldDotAt(s, 14) && !TldDotAt(s, 13) && !TldDotAt(s, 12) && TldDotAt(s, 11);
    }
    RunEndIs(IsAsciiLetter, s, 12, 15);
  }

  lemma MixedCaseSpans()
    ensures Spans(Email, MixedCase, 0) == [(0, 7), (8, 15)]
  {
    MixedCaseFirstMatch();
    MixedCaseNoMatchAtSpace();
    MixedCaseSecondMatch();
    SpansCons(Email, MixedCase, 0, 7);
    SpansSkip(Email, MixedCase, 7);
    SpansCons(Email, MixedCase, 8, 15);
    assert Spans(Email, MixedCase, 15) == [];
  }

  lemma MixedCasePieces()
    ensures MixedCase[0..7] == "A@B.com" && MixedCase[8..15] == "a@b.com"
  {
  }

  /** The two e-mail matches of the mixed-case page, as text. */
  lemma MixedCaseMatches()
    ensures Matches(Email, MixedCase) == ["A@B.com", "a@b.com"]
  {
    MixedCaseSpans();
    SubstringsPair(MixedCase, (0, 7), (8, 15));
    MixedCasePieces();
  }

  /** `A@B.com` and `a@b.com` in one page give two addresses, in page order. */
  lemma CaseVariantsBothKept()
    ensures HandlePage("", MixedCase).emails == ["A@B.com", "a@b.com"]
  {
    MixedCaseMatches();
    DedupOfDistinctPair("A@B.com", "a@b.com");
  }
}
