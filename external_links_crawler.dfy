/** The page crawler with link buckets (crawlers/simplePageCrawlerWithExternalLinks.js): for each
    page it stores the trimmed body text, the Dutch mobile numbers in it, the page's absolute
    http(s) links without fragments split into links on the start URL's host and links
    elsewhere, and two page facts.

    What the browser does is outside the model and enters as inputs: the body's `innerText`,
    the document's `outerHTML`, the detected jQuery version, the anchors' raw `href` attributes,
    and `resolve`, which stands for `new URL(raw, location.href)` (`None` is the exception it
    throws). The start URL's hostname (`new URL(startUrl).hostname`) is an input too. */
module ExternalLinksCrawler {
  import opened Wrappers
  import opened Seqs
  import opened Js
  import opened Urls
  import opened Patterns

  /** `new URL(raw, location.href)` for the page being handled; `None` when it throws. */
  type Resolver = string -> Option<Url>

  // ---------------------------------------------------------------------------------------
  // Collecting the links

  /** The string one anchor adds to the set of links, or `None` when the loop skips it: the
      raw href is trimmed, an empty one is skipped, one that does not resolve is skipped, and
      so is one whose scheme is not `http:` or `https:`; otherwise the URL without its fragment
      is added. */
  function Collect(raw: string, resolve: Resolver): Option<string> {
    var t := Trim(raw);
    if t == "" then None
    else
      match resolve(t)
      case None => None
      case Some(u) => if IsHttp(u) then Some(Serialize(StripFragment(u))) else None
  }

  function Collector(resolve: Resolver): string -> Option<string> {
    raw => Collect(raw, resolve)
  }

  /** The strings the loop adds to the set, in order, repeats included. */
  function Collected(hrefs: seq<string>, resolve: Resolver): seq<string> {
    FilterMap(Collector(resolve), hrefs)
  }

  /** `[...urls]`: the set's insertion order. */
  function AllLinks(hrefs: seq<string>, resolve: Resolver): seq<string> {
    Dedup(Collected(hrefs, resolve))
  }

  /** The collecting loop over the anchors. `urls` is the `Set`: `add` appends a value that is
      not yet present and ignores one that is. */
  method CollectAllLinks(hrefs: seq<string>, resolve: Resolver) returns (allLinks: seq<string>)
    ensures allLinks == AllLinks(hrefs, resolve)
  {
    var urls: seq<string> := [];
    for i := 0 to |hrefs|
      invariant urls == Dedup(Collected(hrefs[..i], resolve))
    {
      DedupFilterMapStep(Collector(resolve), hrefs, i);
      var raw := Trim(hrefs[i]);
      if raw == "" {
        assert Collect(hrefs[i], resolve) == None;
        continue;
      }
      var parsed := resolve(raw);
      if parsed.None? {
        assert Collect(hrefs[i], resolve) == None;
        continue;
      }
      var u := parsed.value;
      if u.scheme != "http:" && u.scheme != "https:" {
        assert Collect(hrefs[i], resolve) == None;
        continue;
      }
      var s := Serialize(StripFragment(u));
      assert Collect(hrefs[i], resolve) == Some(s);
      if s !in urls {
        urls := urls + [s];
      }
    }
    assert hrefs[..|hrefs|] == hrefs;
    allLinks := urls;
  }

  /** A serialised http(s) URL starts with `http://` or `https://`. */
  lemma SchemePrefix(v: UrlRecord)
    requires IsHttp(v)
    ensures StartsWith(Serialize(v), "http://") || StartsWith(Serialize(v), "https://")
  {
    var head := v.scheme + "//";
    var rest := v.userinfo + v.host + v.port + v.path + FragmentSuffix(v.fragment);
    assert Serialize(v) == head + rest;
    StartsWithConcat(head, rest);
    if v.scheme == "http:" {
      assert head == "http://";
    } else {
      assert head == "https://";
    }
  }

  /** The link an http(s) URL contributes: an `http://` or `https://` URL without a `#`
      whose hostname is the URL's host. */
  lemma LinkOf(u: Url)
    requires IsHttp(u)
    ensures var l := Serialize(StripFragment(u));
      && (StartsWith(l, "http://") || StartsWith(l, "https://"))
      && '#' !in l
      && Hostname(l) == Some(u.host)
  {
    var v := StripFragment(u);
    SerializeWithoutFragment(v);
    HostnameOfSerialize(v);
    SchemePrefix(v);
  }

  /** An anchor contributes exactly when its href is not all white space, resolves, and has an
      http(s) scheme; what it contributes is the link of the resolved URL. */
  lemma CollectSpec(raw: string, resolve: Resolver)
    ensures Collect(raw, resolve).Some? <==>
              !AllSpace(raw) && resolve(Trim(raw)).Some? && IsHttp(resolve(Trim(raw)).value)
    ensures Collect(raw, resolve).Some? ==>
              var l := Collect(raw, resolve).value;
              && (StartsWith(l, "http://") || StartsWith(l, "https://"))
              && '#' !in l
              && Hostname(l) == Some(resolve(Trim(raw)).value.host)
  {
    TrimEmpty(raw);
    if Collect(raw, resolve).Some? {
      LinkOf(resolve(Trim(raw)).value);
    }
  }

  /** White-space-only hrefs are skipped. */
  lemma BlankHrefSkipped(raw: string, resolve: Resolver)
    requires AllSpace(raw)
    ensures Collect(raw, resolve) == None
  {
    TrimEmpty(raw);
  }

  /** `allLinks`: each link once, in the order of first occurrence among the contributions
      of the anchors; a string is a link exactly when some anchor contributes it; and every
      link is an `http://` or `https://` URL without a `#` whose hostname can be read back. */
  lemma AllLinksSpec(hrefs: seq<string>, resolve: Resolver)
    ensures NoDuplicates(AllLinks(hrefs, resolve))
    ensures forall l :: l in AllLinks(hrefs, resolve) ==>
              exists i :: 0 <= i < |hrefs| && Collect(hrefs[i], resolve) == Some(l)
    ensures forall i :: 0 <= i < |hrefs| && Collect(hrefs[i], resolve).Some? ==>
              Collect(hrefs[i], resolve).value in AllLinks(hrefs, resolve)
    ensures IsSubsequence(AllLinks(hrefs, resolve), Collected(hrefs, resolve))
    ensures forall l :: l in AllLinks(hrefs, resolve) ==> l in Collected(hrefs, resolve)
    ensures forall i, j :: 0 <= i < j < |AllLinks(hrefs, resolve)| ==>
              IndexOf(Collected(hrefs, resolve), AllLinks(hrefs, resolve)[i])
                < IndexOf(Collected(hrefs, resolve), AllLinks(hrefs, resolve)[j])
    ensures forall l :: l in AllLinks(hrefs, resolve) ==>
              (StartsWith(l, "http://") || StartsWith(l, "https://")) && '#' !in l && Hostname(l).Some?
  {
    var c := Collected(hrefs, resolve);
    var r := AllLinks(hrefs, resolve);
    DedupSpec(c);
    forall l | l in r
      ensures exists i :: 0 <= i < |hrefs| && Collect(hrefs[i], resolve) == Some(l)
      ensures (StartsWith(l, "http://") || StartsWith(l, "https://")) && '#' !in l && Hostname(l).Some?
    {
      FilterMapMembers(Collector(resolve), hrefs, l);
      var i :| 0 <= i < |hrefs| && Collect(hrefs[i], resolve) == Some(l);
      CollectSpec(hrefs[i], resolve);
    }
    forall i | 0 <= i < |hrefs| && Collect(hrefs[i], resolve).Some?
      ensures Collect(hrefs[i], resolve).value in r
    {
      FilterMapMembers(Collector(resolve), hrefs, Collect(hrefs[i], resolve).value);
    }
  }

  /** An href that is skipped (blank, unresolvable or not http(s)) leaves the links exactly as
      they would be without it: the loop goes on with the next anchor. */
  lemma SkippedHrefChangesNothing(before: seq<string>, raw: string, after: seq<string>, resolve: Resolver)
    requires Collect(raw, resolve) == None
    ensures AllLinks(before + [raw] + after, resolve) == AllLinks(before + after, resolve)
  {
    FilterMapSkip(Collector(resolve), before, raw, after);
  }

  /** Two hrefs whose URLs differ at most in their fragment give one link. */
  lemma FragmentVariantsMerge(a: string, b: string, resolve: Resolver, u: Url, v: Url)
    requires !AllSpace(a) && !AllSpace(b)
    requires resolve(Trim(a)) == Some(u) && resolve(Trim(b)) == Some(v) && IsHttp(u)
    requires StripFragment(u) == StripFragment(v)
    ensures AllLinks([a, b], resolve) == [Serialize(StripFragment(u))]
  {
    TrimEmpty(a);
    TrimEmpty(b);
    DedupFilterMapPair(Collector(resolve), a, b, Serialize(StripFragment(u)));
  }

  // ---------------------------------------------------------------------------------------
  // Splitting by host

  /** `new URL(href).hostname === startHost` */
  function HostIs(startHost: string): string -> bool {
    href => Hostname(href) == Some(startHost)
  }

  /** The hostname can be read and differs from `startHost`. */
  function HostIsOther(startHost: string): string -> bool {
    href => Hostname(href).Some? && Hostname(href) != Some(startHost)
  }

  /** The split loop: each link goes to the internal or the external bucket by its hostname;
      one whose hostname cannot be read (the `catch`) goes to neither. */
  method SplitByHost(allLinks: seq<string>, startHost: string) returns (internal: seq<string>, external: seq<string>)
    ensures internal == Filter(HostIs(startHost), allLinks)
    ensures external == Filter(HostIsOther(startHost), allLinks)
  {
    internal, external := [], [];
    for i := 0 to |allLinks|
      invariant internal == Filter(HostIs(startHost), allLinks[..i])
      invariant external == Filter(HostIsOther(startHost), allLinks[..i])
    {
      assert allLinks[..i + 1][..i] == allLinks[..i];
      var href := allLinks[i];
      match Hostname(href)
      case None =>
      case Some(host) =>
        if host == startHost {
          internal := internal + [href];
        } else {
          external := external + [href];
        }
    }
    assert allLinks[..|allLinks|] == allLinks;
  }

  /** The two buckets: disjoint, each an order-preserving selection of the links, internal
      exactly when the hostname equals `startHost`; when every hostname can be read, which
      holds for collected links, together they hold every link exactly once. */
  lemma SplitSpec(links: seq<string>, startHost: string)
    ensures var internal, external := Filter(HostIs(startHost), links), Filter(HostIsOther(startHost), links);
      && (forall l :: l in internal ==> l !in external)
      && IsSubsequence(internal, links) && IsSubsequence(external, links)
      && (forall l :: l in internal ==> Hostname(l) == Some(startHost))
      && (forall l :: l in links && Hostname(l) == Some(startHost) ==> l in internal)
      && (forall l :: l in external ==> Hostname(l).Some? && Hostname(l).value != startHost)
      && (forall l :: l in links && Hostname(l).Some? && Hostname(l).value != startHost ==> l in external)
      && (NoDuplicates(links) ==> NoDuplicates(internal) && NoDuplicates(external))
      && ((forall i :: 0 <= i < |links| ==> Hostname(links[i]).Some?) ==>
            |internal| + |external| == |links| && multiset(internal) + multiset(external) == multiset(links))
  {
    var p, q := HostIs(startHost), HostIsOther(startHost);
    FilterMembers(p, links);
    FilterMembers(q, links);
    FilterIsSubsequence(p, links);
    FilterIsSubsequence(q, links);
    if NoDuplicates(links) {
      FilterNoDuplicates(p, links);
      FilterNoDuplicates(q, links);
    }
    if forall i :: 0 <= i < |links| ==> Hostname(links[i]).Some? {
      FilterPartition(p, q, links);
    }
  }

  /** Every collected link has a readable hostname, so the buckets hold all of them. */
  lemma CollectedLinksSplitFully(hrefs: seq<string>, resolve: Resolver, startHost: string)
    ensures var links := AllLinks(hrefs, resolve);
      var internal, external := Filter(HostIs(startHost), links), Filter(HostIsOther(startHost), links);
      && |internal| + |external| == |links|
      && multiset(internal) + multiset(external) == multiset(links)
  {
    var links := AllLinks(hrefs, resolve);
    AllLinksSpec(hrefs, resolve);
    assert forall i :: 0 <= i < |links| ==> Hostname(links[i]).Some? by {
      forall i | 0 <= i < |links| ensures Hostname(links[i]).Some? {
        assert links[i] in links;
      }
    }
    FilterPartition(HostIs(startHost), HostIsOther(startHost), links);
  }

  /** The link an anchor contributes is internal exactly when the host of the URL its href
      resolved to is `startHost`, and external otherwise. */
  lemma BucketOfAnchor(hrefs: seq<string>, resolve: Resolver, startHost: string, i: nat)
    requires i < |hrefs| && Collect(hrefs[i], resolve).Some?
    ensures var links := AllLinks(hrefs, resolve);
      var l := Collect(hrefs[i], resolve).value;
      && (l in Filter(HostIs(startHost), links) <==> resolve(Trim(hrefs[i])).value.host == startHost)
      && (l in Filter(HostIsOther(startHost), links) <==> resolve(Trim(hrefs[i])).value.host != startHost)
  {
    var links := AllLinks(hrefs, resolve);
    AllLinksSpec(hrefs, resolve);
    CollectSpec(hrefs[i], resolve);
    FilterMembers(HostIs(startHost), links);
    FilterMembers(HostIsOther(startHost), links);
  }

  /** Only the host decides the bucket: URLs that differ in scheme, credentials, port, path or
      fragment but share a host land in the same bucket. */
  lemma OnlyHostDecides(u: Url, v: Url, startHost: string)
    requires u.host == v.host
    ensures HostIs(startHost)(Serialize(StripFragment(u))) == HostIs(startHost)(Serialize(StripFragment(v)))
    ensures HostIsOther(startHost)(Serialize(StripFragment(u))) == HostIsOther(startHost)(Serialize(StripFragment(v)))
  {
    HostnameOfSerialize(StripFragment(u));
    HostnameOfSerialize(StripFragment(v));
  }

  /** Host equality is exact: the `www.` variant of the start host is external. */
  lemma WwwVariantExternal(u: Url, startHost: string)
    requires u.host == "www." + startHost
    ensures HostIsOther(startHost)(Serialize(StripFragment(u)))
  {
    HostnameOfSerialize(StripFragment(u));
    assert |u.host| != |startHost|;
  }

  // ---------------------------------------------------------------------------------------
  // Phones

  /** `textContent.match(/(\+31|0)6\s?\d{8}/g) || []`: every match as found, repeats kept. */
  function Phones(textContent: string): seq<string> {
    Matches(DutchMobile, textContent)
  }

  /** One phone: the Dutch mobile shape, hence ten to thirteen characters long. */
  lemma PhoneShapeAndLength(textContent: string, k: nat)
    requires k < |Phones(textContent)|
    ensures DutchMobileShape(Phones(textContent)[k])
    ensures 10 <= |Phones(textContent)[k]| <= 13
  {
    MatchIsShapedPiece(DutchMobile, textContent, k);
  }

  /** Every phone is `+31` or `0`, then `6`, at most one white-space character and eight
      digits, ten to thirteen characters in all, and occurs in the text; there are none
      exactly when no position matches. */
  lemma PhonesSpec(textContent: string)
    ensures forall m :: m in Phones(textContent) ==> DutchMobileShape(m) && 10 <= |m| <= 13
    ensures forall m :: m in Phones(textContent) ==>
              exists i :: 0 <= i <= |textContent| && OccursAt(textContent, m, i)
    ensures Phones(textContent) == [] <==> forall i :: 0 <= i < |textContent| ==> MatchAt(DutchMobile, textContent, i).None?
    ensures Phones(textContent) == [] <==>
              forall i, j :: 0 <= i < j <= |textContent| ==> !DutchMobileShape(textContent[i..j])
  {
    var ph := Phones(textContent);
    forall m | m in ph ensures DutchMobileShape(m) && 10 <= |m| <= 13 {
      var k :| 0 <= k < |ph| && ph[k] == m;
      PhoneShapeAndLength(textContent, k);
    }
    MatchesAreShapedPieces(DutchMobile, textContent);
    NoMatchNoResult(DutchMobile, textContent);
  }

  const TwicePhone := "0612345678 0612345678"

  lemma TwicePhoneDigits(p: nat)
    requires p == 0 || p == 11
    ensures StartsWith(TwicePhone[p..], "06")
    ensures !StartsWith(TwicePhone[p..], "+316") && !IsSpace(TwicePhone[p + 2])
    ensures AllDigitsIn(TwicePhone, p + 2, p + 10)
  {
    assert TwicePhone[p..][..2] == "06";
    assert TwicePhone[p..][0] == '0' && TwicePhone[p + 2] == '1';
    forall k | p + 2 <= k < p + 10 ensures IsDigit(TwicePhone[k]) {
      assert k - p == 2 || k - p == 3 || k - p == 4 || k - p == 5 || k - p == 6 || k - p == 7 || k - p == 8 || k - p == 9;
    }
  }

  lemma TwicePhoneSpans()
    ensures Spans(DutchMobile, TwicePhone, 0) == [(0, 10), (11, 21)]
  {
    TwicePhoneDigits(0);
    TwicePhoneDigits(11);
    assert MatchAt(DutchMobile, TwicePhone, 0) == Some(10);
    assert MatchAt(DutchMobile, TwicePhone, 10) == None by {
      assert TwicePhone[10..][..4][0] == ' ' && TwicePhone[10..][..2][0] == ' ';
    }
    assert MatchAt(DutchMobile, TwicePhone, 11) == Some(21);
    SpansCons(DutchMobile, TwicePhone, 0, 10);
    SpansSkip(DutchMobile, TwicePhone, 10);
    SpansCons(DutchMobile, TwicePhone, 11, 21);
    assert Spans(DutchMobile, TwicePhone, 21) == [];
  }

  /** A number that occurs twice is listed twice: the phones are not deduplicated. */
  lemma RepeatedPhoneKept()
    ensures Phones(TwicePhone) == ["0612345678", "0612345678"]
  {
    TwicePhoneSpans();
    SubstringsPair(TwicePhone, (0, 10), (11, 21));
    assert TwicePhone[0..10] == "0612345678" && TwicePhone[11..21] == "0612345678";
  }

  // ---------------------------------------------------------------------------------------
  // The handler

  /** The record pushed for each page. `jqueryVersion` is `None` where the page yields `null`. */
  datatype PageRecord = PageRecord(
    url: string,
    textContent: string,
    phones: seq<string>,
    internal: seq<string>,
    external: seq<string>,
    jqueryVersion: Option<string>,
    isWordPress: bool
  )

  /** One handled page. `bodyText` is `document.body.innerText`, `outerHtml` the document's
      `outerHTML`. */
  method HandlePage(url: string, bodyText: string, outerHtml: string, jqueryVersion: Option<string>,
                    hrefs: seq<string>, resolve: Resolver, startHost: string) returns (r: PageRecord)
    ensures r.url == url && r.textContent == Trim(bodyText) && r.jqueryVersion == jqueryVersion
    ensures r.phones == Phones(Trim(bodyText))
    ensures r.isWordPress <==> Contains(outerHtml, "wp-content")
    ensures r.internal == Filter(HostIs(startHost), AllLinks(hrefs, resolve))
    ensures r.external == Filter(HostIsOther(startHost), AllLinks(hrefs, resolve))
    ensures forall l :: l in r.internal ==> l !in r.external
    ensures |r.internal| + |r.external| == |AllLinks(hrefs, resolve)|
  {
    var textContent := Trim(bodyText);
    var phones := Phones(textContent);
    var isWordPress := Contains(outerHtml, "wp-content");
    var allLinks := CollectAllLinks(hrefs, resolve);
    var internal, external := SplitByHost(allLinks, startHost);
    CollectedLinksSplitFully(hrefs, resolve, startHost);
    SplitSpec(allLinks, startHost);
    r := PageRecord(url, textContent, phones, internal, external, jqueryVersion, isWordPress);
  }
}
