/** The simple page crawler (crawlers/simplePageCrawler.js): its crawler settings drawn from
    the caller's options, and the page handler that stores the visible text and the page's
    absolute links. The `a.href` values are already resolved by the browser and are inputs. */
module SimplePageCrawler {
  import opened Seqs
  import opened Js

  /** The two settings handed to the crawler library. */
  datatype CrawlerSettings = CrawlerSettings(navigationTimeoutSecs: JsValue, maxRequestRetries: JsValue)

  /** `options.navigationTimeoutSecs ?? 30` and `options.maxRequestRetries ?? 3`, where
      `options` is the caller's object (`{}` when the argument is omitted). */
  function Settings(options: map<string, JsValue>): CrawlerSettings {
    CrawlerSettings(
      Coalesce(Get(options, "navigationTimeoutSecs"), Num(30.0)),
      Coalesce(Get(options, "maxRequestRetries"), Num(3.0)))
  }

  /** A setting takes its default exactly when the option is absent, `null` or `undefined`
      (or already equal to the default); any other value, falsy ones such as 0, `false` and
      `""` included, is passed through unchanged. */
  lemma SettingsDefaults(options: map<string, JsValue>)
    ensures var t := Get(options, "navigationTimeoutSecs");
      (Settings(options).navigationTimeoutSecs == Num(30.0) <==> Nullish(t) || t == Num(30.0))
      && (!Nullish(t) ==> Settings(options).navigationTimeoutSecs == t)
    ensures var r := Get(options, "maxRequestRetries");
      (Settings(options).maxRequestRetries == Num(3.0) <==> Nullish(r) || r == Num(3.0))
      && (!Nullish(r) ==> Settings(options).maxRequestRetries == r)
    ensures options == map[] ==> Settings(options) == CrawlerSettings(Num(30.0), Num(3.0))
  {
  }

  /** An explicit 0 is kept: `??` is not `||`. */
  lemma ExplicitZeroKept()
    ensures Settings(map["navigationTimeoutSecs" := Num(0.0), "maxRequestRetries" := Num(0.0)])
              == CrawlerSettings(Num(0.0), Num(0.0))
  {
    var o := map["navigationTimeoutSecs" := Num(0.0), "maxRequestRetries" := Num(0.0)];
    assert Get(o, "navigationTimeoutSecs") == Num(0.0);
    assert Get(o, "maxRequestRetries") == Num(0.0);
  }

  // ---------------------------------------------------------------------------------------

  /** `h.startsWith('http')`: a textual prefix test, not a scheme check. */
  predicate StartsWithHttp(h: string) {
    StartsWith(h, "http")
  }

  /** `hrefs.map(h => h.trim())` */
  function TrimAll(hrefs: seq<string>): (r: seq<string>)
    ensures |r| == |hrefs|
    ensures forall i :: 0 <= i < |hrefs| ==> r[i] == Trim(hrefs[i])
  {
    if hrefs == [] then [] else TrimAll(hrefs[..|hrefs| - 1]) + [Trim(hrefs[|hrefs| - 1])]
  }

  /** `[...new Set(hrefs.map(h => h.trim()).filter(StartsWithHttp))]` */
  function Links(hrefs: seq<string>): seq<string> {
    Dedup(Filter(StartsWithHttp, TrimAll(hrefs)))
  }

  /** Every link is the trimmed value of some `a.href` and starts with `http`. */
  lemma LinksAreTrimmedHttpHrefs(hrefs: seq<string>)
    ensures forall l :: l in Links(hrefs) ==>
              StartsWith(l, "http") && exists i :: 0 <= i < |hrefs| && l == Trim(hrefs[i])
  {
    var t := TrimAll(hrefs);
    DedupMembers(Filter(StartsWithHttp, t));
    FilterMembers(StartsWithHttp, t);
    forall l | l in Links(hrefs) ensures StartsWith(l, "http") && exists i :: 0 <= i < |hrefs| && l == Trim(hrefs[i]) {
      assert l in Filter(StartsWithHttp, t);
      var i :| 0 <= i < |t| && t[i] == l;
      assert l == Trim(hrefs[i]);
    }
  }

  /** Every trimmed value that starts with `http` is a link. */
  lemma LinksComplete(hrefs: seq<string>)
    ensures forall i :: 0 <= i < |hrefs| && StartsWith(Trim(hrefs[i]), "http") ==> Trim(hrefs[i]) in Links(hrefs)
  {
    var t := TrimAll(hrefs);
    DedupMembers(Filter(StartsWithHttp, t));
    FilterMembers(StartsWithHttp, t);
    forall i | 0 <= i < |hrefs| && StartsWith(Trim(hrefs[i]), "http") ensures Trim(hrefs[i]) in Links(hrefs) {
      assert t[i] == Trim(hrefs[i]);
      assert t[i] in Filter(StartsWithHttp, t);
    }
  }

  /** The links keep the order of their first occurrences among the trimmed values. */
  lemma LinksOrder(hrefs: seq<string>)
    ensures IsSubsequence(Links(hrefs), TrimAll(hrefs))
    ensures forall l :: l in Links(hrefs) ==> l in TrimAll(hrefs)
    ensures forall i, j :: 0 <= i < j < |Links(hrefs)| ==>
              IndexOf(TrimAll(hrefs), Links(hrefs)[i]) < IndexOf(TrimAll(hrefs), Links(hrefs)[j])
  {
    var t := TrimAll(hrefs);
    var f := Filter(StartsWithHttp, t);
    var r := Links(hrefs);
    DedupMembers(f);
    FilterMembers(StartsWithHttp, t);
    FilterIsSubsequence(StartsWithHttp, t);
    DedupIsSubsequence(f);
    SubsequenceTransitive(r, f, t);
    forall i, j | 0 <= i < j < |r| ensures IndexOf(t, r[i]) < IndexOf(t, r[j]) {
      DedupFirstOccurrenceOrder(f, i, j);
      FilterFirstOccurrences(StartsWithHttp, t, r[i], r[j]);
    }
  }

  /** Every link is the trimmed value of some `a.href` that starts with `http`, each appears
      once, in the order of first occurrence among the trimmed values, and every trimmed value
      that starts with `http` is present. */
  lemma LinksSpec(hrefs: seq<string>)
    ensures NoDuplicates(Links(hrefs))
    ensures forall l :: l in Links(hrefs) ==>
              StartsWith(l, "http") && exists i :: 0 <= i < |hrefs| && l == Trim(hrefs[i])
    ensures forall i :: 0 <= i < |hrefs| && StartsWith(Trim(hrefs[i]), "http") ==> Trim(hrefs[i]) in Links(hrefs)
    ensures IsSubsequence(Links(hrefs), TrimAll(hrefs))
    ensures forall l :: l in Links(hrefs) ==> l in TrimAll(hrefs)
    ensures forall i, j :: 0 <= i < j < |Links(hrefs)| ==>
              IndexOf(TrimAll(hrefs), Links(hrefs)[i]) < IndexOf(TrimAll(hrefs), Links(hrefs)[j])
  {
    LinksAreTrimmedHttpHrefs(hrefs);
    LinksComplete(hrefs);
    LinksOrder(hrefs);
  }

  lemma TrimPair(a: string, b: string)
    ensures TrimAll([a, b]) == [Trim(a), Trim(b)]
  {
    assert [a, b][..1] == [a];
  }

  lemma DedupPair(x: string, y: string)
    requires x != y
    ensures Dedup([x, y]) == [x, y]
  {
    assert [x, y][..1] == [x];
  }

  /** Two hrefs whose trimmed values differ and start with `http` give two links, in order:
      nothing beyond trimming and exact duplicates is merged. */
  lemma DistinctLinksKept(a: string, b: string)
    requires StartsWith(Trim(a), "http") && StartsWith(Trim(b), "http") && Trim(a) != Trim(b)
    ensures Links([a, b]) == [Trim(a), Trim(b)]
  {
    TrimPair(a, b);
    FilterAll(StartsWithHttp, [Trim(a), Trim(b)]);
    DedupPair(Trim(a), Trim(b));
  }

  // ---------------------------------------------------------------------------------------

  /** The record pushed for each handled page. */
  datatype PageRecord = PageRecord(url: string, textContent: string, links: seq<string>)

  /** One handled page; the text is the trimmed `innerText` of the content root. */
  function HandlePage(url: string, innerText: string, hrefs: seq<string>): (r: PageRecord)
    ensures r.url == url && r.textContent == Trim(innerText)
    ensures NoDuplicates(r.links)
    ensures forall l :: l in r.links ==> StartsWith(l, "http") && exists i :: 0 <= i < |hrefs| && l == Trim(hrefs[i])
  {
    LinksSpec(hrefs);
    PageRecord(url, Trim(innerText), Links(hrefs))
  }
}
