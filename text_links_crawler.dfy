/** The page handler of the text-and-links crawler (crawlers/textLinksCrawler.js): from the
    page's visible text and the raw `href` attributes of its anchors it derives the link list,
    the e-mail addresses and phone numbers in the text, a contact flag and up to five
    candidate links worth visiting next, and stores one record. Reading the DOM is outside the
    model: the page's `innerText` and its `href` attributes are inputs. */
module TextLinksCrawler {
  import opened Seqs
  import opened Js
  import opened Patterns

  /** The record pushed to the dataset for each handled page. */
  datatype PageRecord = PageRecord(
    url: string,
    text: string,
    links: seq<string>,
    emails: seq<string>,
    phones: seq<string>,
    contactFound: nat,
    candidateLinks: seq<string>
  )

  // ---------------------------------------------------------------------------------------
  // links

  /** `h && !h.startsWith('javascript:') && !h.startsWith('#')`: both prefix tests are
      case-sensitive. */
  predicate IsFollowableHref(h: string) {
    h != "" && !StartsWith(h, "javascript:") && !StartsWith(h, "#")
  }

  /** `[...new Set(hrefs.filter(IsFollowableHref))]` over the raw attribute values. */
  function Links(hrefs: seq<string>): seq<string> {
    Dedup(Filter(IsFollowableHref, hrefs))
  }

  /** The link list: every followable raw href, unmodified, once, in the order of its first
      occurrence on the page; nothing else. */
  lemma LinksSpec(hrefs: seq<string>)
    ensures NoDuplicates(Links(hrefs))
    ensures forall l :: l in Links(hrefs) ==>
              l in hrefs && l != "" && !StartsWith(l, "javascript:") && !StartsWith(l, "#")
    ensures forall h :: h in hrefs && IsFollowableHref(h) ==> h in Links(hrefs)
    ensures IsSubsequence(Links(hrefs), hrefs)
    ensures forall i, j :: 0 <= i < j < |Links(hrefs)| ==>
              IndexOf(hrefs, Links(hrefs)[i]) < IndexOf(hrefs, Links(hrefs)[j])
  {
    var f := Filter(IsFollowableHref, hrefs);
    var r := Links(hrefs);
    DedupSpec(f);
    FilterMembers(IsFollowableHref, hrefs);
    FilterIsSubsequence(IsFollowableHref, hrefs);
    DedupIsSubsequence(f);
    SubsequenceTransitive(r, f, hrefs);
    forall i, j | 0 <= i < j < |r| ensures IndexOf(hrefs, r[i]) < IndexOf(hrefs, r[j]) {
      DedupFirstOccurrenceOrder(f, i, j);
      FilterFirstOccurrences(IsFollowableHref, hrefs, r[i], r[j]);
    }
  }

  /** The prefix tests are case-sensitive: `JavaScript:` links are kept. */
  lemma MixedCaseJavascriptKept()
    ensures Links(["JavaScript:void(0)", "javascript:void(0)", "#top"]) == ["JavaScript:void(0)"]
  {
    var hrefs := ["JavaScript:void(0)", "javascript:void(0)", "#top"];
    assert IsFollowableHref(hrefs[0]) by {
      assert hrefs[0][..11] != "javascript:" by { assert hrefs[0][0] != 'j'; }
    }
    assert !IsFollowableHref(hrefs[1]) by { assert hrefs[1][..11] == "javascript:"; }
    assert !IsFollowableHref(hrefs[2]) by { assert hrefs[2][..1] == "#"; }
    assert hrefs[..2][..1] == [hrefs[0]];
    assert hrefs[..2] == hrefs[..3][..2];
    assert Filter(IsFollowableHref, hrefs) == [hrefs[0]];
  }

  // ---------------------------------------------------------------------------------------
  // emails, phones, contactFound

  /** `[...new Set(text.match(emailRx) || [])]` */
  function Emails(text: string): seq<string> {
    DistinctMatches(Email, text)
  }

  /** `[...new Set(text.match(phoneRx) || [])]` */
  function Phones(text: string): seq<string> {
    DistinctMatches(Phone, text)
  }

  /** `emails.length || phones.length`: a number, not a boolean. */
  function ContactFound(emails: seq<string>, phones: seq<string>): (n: nat)
    ensures n != 0 <==> emails != [] || phones != []
    ensures emails != [] ==> n == |emails|
    ensures emails == [] ==> n == |phones|
  {
    if |emails| != 0 then |emails| else |phones|
  }

  /** The contact flag is truthy exactly when the text holds an e-mail or phone match
      somewhere: a piece of the text in the language of either expression. */
  lemma ContactFoundIffMatch(text: string)
    ensures ContactFound(Emails(text), Phones(text)) != 0 <==>
              exists i :: 0 <= i < |text| && (MatchAt(Email, text, i).Some? || MatchAt(Phone, text, i).Some?)
    ensures ContactFound(Emails(text), Phones(text)) != 0 <==>
              exists i, j :: 0 <= i < j <= |text| && (Shape(Email, text[i..j]) || Shape(Phone, text[i..j]))
  {
    NoMatchNoResult(Email, text);
    NoMatchNoResult(Phone, text);
  }

  // ---------------------------------------------------------------------------------------
  // candidateLinks

  /** `/contact|about|over|impressum|legal|team/i.test(l)`: one of the words occurs in `l`,
      ignoring ASCII case. */
  predicate IsCandidateLink(l: string) {
    var t := Lower(l);
    Contains(t, "contact") || Contains(t, "about") || Contains(t, "over")
    || Contains(t, "impressum") || Contains(t, "legal") || Contains(t, "team")
  }

  /** `links.filter(IsCandidateLink).slice(0, 5)` */
  function CandidateLinks(links: seq<string>): seq<string> {
    var c := Filter(IsCandidateLink, links);
    if |c| <= 5 then c else c[..5]
  }

  function Min(a: int, b: int): int {
    if a <= b then a else b
  }

  /** The candidates are the first five (or fewer) keyword links, in link order: as many as
      there are keyword links up to five, each a keyword link, and no keyword link is passed
      over in favour of a later one. */
  lemma CandidateLinksSpec(links: seq<string>)
    ensures |CandidateLinks(links)| == Min(5, CountWhere(IsCandidateLink, links))
    ensures forall l :: l in CandidateLinks(links) ==> IsCandidateLink(l) && l in links
    ensures IsSubsequence(CandidateLinks(links), links)
    ensures NoDuplicates(links) ==>
              forall i, j :: 0 <= i < j < |links| && IsCandidateLink(links[i]) && links[j] in CandidateLinks(links)
                ==> links[i] in CandidateLinks(links)
  {
    var c := Filter(IsCandidateLink, links);
    var r := CandidateLinks(links);
    FilterMembers(IsCandidateLink, links);
    FilterLength(IsCandidateLink, links);
    FilterIsSubsequence(IsCandidateLink, links);
    SubsequencePrefix(c, links, |r|);
    assert c[..|r|] == r;
    SubsequenceElements(r, links);
    if NoDuplicates(links) {
      forall i, j | 0 <= i < j < |links| && IsCandidateLink(links[i]) && links[j] in r
        ensures links[i] in r
      {
        CandidateNotSkipped(links, i, j);
      }
    }
  }

  /** A keyword link before a chosen one is chosen too. */
  lemma CandidateNotSkipped(links: seq<string>, i: nat, j: nat)
    requires NoDuplicates(links)
    requires i < j < |links| && IsCandidateLink(links[i]) && links[j] in CandidateLinks(links)
    ensures links[i] in CandidateLinks(links)
  {
    var c := Filter(IsCandidateLink, links);
    var r := CandidateLinks(links);
    FilterMembers(IsCandidateLink, links);
    assert c[..|r|] == r;
    FilterKeepsOrder(IsCandidateLink, links, i, j);
    var m := IndexOf(c, links[j]);
    assert m < |r| by {
      var m' :| 0 <= m' < |r| && r[m'] == links[j];
      assert c[m'] == links[j];
    }
    assert c[IndexOf(c, links[i])] == links[i];
    assert r[IndexOf(c, links[i])] == links[i];
  }

  // ---------------------------------------------------------------------------------------
  // the handler

  /** One handled page: the text is the trimmed `innerText` of the content root, the links
      come from the raw `href` attributes. */
  function HandlePage(url: string, innerText: string, hrefs: seq<string>): PageRecord {
    var text := Trim(innerText);
    var links := Links(hrefs);
    var emails := Emails(text);
    var phones := Phones(text);
    PageRecord(url, text, links, emails, phones, ContactFound(emails, phones), CandidateLinks(links))
  }

  /** What the record of a page promises, field by field. */
  lemma PageRecordSpec(url: string, innerText: string, hrefs: seq<string>)
    ensures var r := HandlePage(url, innerText, hrefs);
      && r.url == url
      && r.text == Trim(innerText)
      && NoDuplicates(r.links) && IsSubsequence(r.links, hrefs)
      && NoDuplicates(r.emails) && (forall m :: m in r.emails ==> EmailShape(m) && Contains(r.text, m))
      && NoDuplicates(r.phones) && (forall m :: m in r.phones ==> PhoneShape(m) && Contains(r.text, m))
      && (r.contactFound != 0 <==> r.emails != [] || r.phones != [])
      && |r.candidateLinks| <= 5 && IsSubsequence(r.candidateLinks, r.links)
      && (forall l :: l in r.candidateLinks ==> IsCandidateLink(l))
  {
    var r := HandlePage(url, innerText, hrefs);
    LinksSpec(hrefs);
    DistinctMatchesSpec(Email, r.text);
    DistinctMatchesSpec(Phone, r.text);
    CandidateLinksSpec(r.links);
  }
}
