/** The decisions the control API (api-server.js) takes before and after the I/O it delegates:
    whether a request passes the token check, whether a `/run` body starts a crawl, what the
    `/run` reply lists, and which stored datasets "delete all" removes. The HTTP server, the
    router, the dataset store and the directory listing are outside the model; the header
    values, the parsed JSON body, the clock reading, the crawl's outcome and the directory
    entries enter as inputs, and Node's base64 decoder (`Buffer.from(b64, 'base64').toString()`)
    is the parameter `decode`. */
module ApiServer {
  import opened Wrappers
  import opened Js
  import opened Seqs
  import TextLinksCrawler

  // ---------------------------------------------------------------------------------------
  // Authentication

  /** `process.env.API_TOKEN ?? ''`: an unset variable disables authentication. */
  function ConfiguredToken(env: Option<string>): (token: string)
    ensures env.None? ==> token == ""
    ensures env.Some? ==> token == env.value
  {
    env.GetOr("")
  }

  /** `Buffer.from(b64, 'base64').toString()` */
  type Base64Decoder = string -> string

  /** What the middleware does with a request: pass it on (`next()`), or answer it. */
  datatype AuthDecision =
    | Next
    | Reject(status: nat, wwwAuthenticate: string, body: JsValue)

  /** The answer to every request that is not let through. */
  const Unauthorized: AuthDecision :=
    Reject(401, "Basic realm=\"Crawler\"", Obj(map["error" := Str("unauthorized")]))

  /** `const [, x] = s.split(sep)`: the second field, `undefined` when there is none. */
  function SecondField(s: string, sep: char): (r: Option<string>)
    ensures r.Some? ==> sep !in r.value
    ensures r.None? <==> sep !in s
  {
    var fields := Split(s, sep);
    SplitNoSeparator(s, sep);
    JoinSplit(s, sep);
    if |fields| >= 2 then Some(fields[1]) else None
  }

  /** A string without the separator is one field. */
  lemma SplitNoSeparator(s: string, sep: char)
    ensures sep !in s <==> |Split(s, sep)| == 1
    ensures sep !in s ==> Split(s, sep) == [s]
  {
    if sep !in s {
      SplitJoin([s], sep);
    } else {
      JoinSplit(s, sep);
    }
  }

  /** Splitting a string whose first field is `a`: `a`, then the fields after the separator. */
  lemma {:induction false} SplitFirstField(a: string, b: string, sep: char)
    requires sep !in a
    requires b == [] || b[0] == sep
    ensures Split(a + b, sep) == [a] + (if b == [] then [] else Split(b[1..], sep))
    decreases |a|
  {
    if a == [] {
      assert a + b == b;
    } else {
      SplitFirstField(a[1..], b, sep);
      assert (a + b)[1..] == a[1..] + b;
      assert [a[0]] + a[1..] == a;
    }
  }

  /** The password of a `Basic` header: the second space-separated field is decoded and its
      second `:`-separated field taken; `undefined` when the decoded text has no colon. The
      header holds a space, so the credential field always exists. */
  function BasicPassword(authorization: string, decode: Base64Decoder): (pass: Option<string>)
    requires StartsWith(authorization, "Basic ")
    ensures pass.Some? ==> ':' !in pass.value
  {
    assert authorization[5] == ' ';
    SplitNoSeparator(authorization, ' ');
    var b64 := Split(authorization, ' ')[1];
    SecondField(decode(b64), ':')
  }

  /** The middleware: no token configured lets everything through; otherwise an `x-api-token`
      header equal to the token, or a `Basic` authorization whose password equals it. Header
      names reach the server lower-cased, so `X-API-Token` is the same header; an absent header
      is `None`. */
  function Authorize(token: string, apiTokenHeader: Option<string>, authorizationHeader: Option<string>,
                     decode: Base64Decoder): (d: AuthDecision)
    ensures token == "" ==> d == Next
    ensures apiTokenHeader == Some(token) ==> d == Next
    ensures d != Next ==> d == Unauthorized
    ensures d == Next && token != "" && apiTokenHeader != Some(token) ==>
              authorizationHeader.Some? && StartsWith(authorizationHeader.value, "Basic ")
  {
    if token == "" then Next
    else if apiTokenHeader == Some(token) then Next
    else
      var auth := authorizationHeader.GetOr("");
      if StartsWith(auth, "Basic ") && BasicPassword(auth, decode) == Some(token) then Next
      else Unauthorized
  }

  /** The scheme test is case-sensitive: `basic …` is refused whatever its credential, unless
      the token is empty or the `x-api-token` header carries it. */
  lemma LowerCaseSchemeRejected(token: string, apiTokenHeader: Option<string>, authorization: string,
                                decode: Base64Decoder)
    requires token != "" && apiTokenHeader != Some(token)
    requires StartsWith(authorization, "basic ")
    ensures Authorize(token, apiTokenHeader, Some(authorization), decode) == Unauthorized
  {
    assert !StartsWith(authorization, "Basic ") by {
      assert authorization[0] == 'b';
    }
  }

  /** A `Basic` header splits into `Basic` and the fields of what follows its space. */
  lemma BasicSplit(auth: string)
    requires StartsWith(auth, "Basic ")
    ensures Split(auth, ' ') == ["Basic"] + Split(auth[6..], ' ')
  {
    var t := auth[6..];
    assert auth == "Basic" + ([' '] + t) by {
      assert auth[..6] == "Basic ";
    }
    SplitFirstField("Basic", [' '] + t, ' ');
    assert ([' '] + t)[1..] == t;
  }

  /** A credential field followed by nothing or by further space-separated text: the field is
      what gets decoded. */
  lemma CredentialField(credential: string, rest: string)
    requires ' ' !in credential
    requires rest == [] || rest[0] == ' '
    ensures StartsWith("Basic " + credential + rest, "Basic ")
    ensures Split("Basic " + credential + rest, ' ') ==
              ["Basic", credential] + (if rest == [] then [] else Split(rest[1..], ' '))
  {
    var t := credential + rest;
    var auth := "Basic " + t;
    assert auth == "Basic " + credential + rest;
    StartsWithConcat("Basic ", t);
    BasicSplit(auth);
    assert auth[6..] == t;
    SplitFirstField(credential, rest, ' ');
  }

  /** The decoded credential `user:password` followed by nothing or by `:`-separated text
      yields `password`. */
  lemma PasswordField(user: string, password: string, extra: string)
    requires ':' !in user && ':' !in password
    requires extra == [] || extra[0] == ':'
    ensures SecondField(user + ":" + password + extra, ':') == Some(password)
  {
    var decoded := user + ":" + password + extra;
    assert decoded == user + (":" + password + extra);
    SplitFirstField(user, ":" + password + extra, ':');
    assert (":" + password + extra)[1..] == password + extra;
    SplitFirstField(password, extra, ':');
  }

  /** RFC 7617 section 2: a client sending `Basic` with the base64 of `user-id ":" password`
      gets in when the password is the token, whatever the user-id (the server ignores it);
      text after a further colon, and a further space-separated field after the credential,
      are ignored too. */
  lemma BasicCredentialsAccepted(token: string, apiTokenHeader: Option<string>, credential: string,
                                 rest: string, user: string, extra: string, decode: Base64Decoder)
    requires ' ' !in credential && (rest == [] || rest[0] == ' ')
    requires ':' !in user && ':' !in token
    requires extra == [] || extra[0] == ':'
    requires decode(credential) == user + ":" + token + extra
    ensures Authorize(token, apiTokenHeader, Some("Basic " + credential + rest), decode) == Next
  {
    CredentialField(credential, rest);
    PasswordField(user, token, extra);
  }

  /** `auth` is `Basic `, a credential, and nothing or more space-separated text, and the
      credential decodes to a user-id without a colon, a colon, the token, and nothing or more
      colon-separated text. */
  predicate BasicForm(auth: string, decode: Base64Decoder, token: string,
                      credential: string, rest: string, user: string, extra: string)
  {
    && auth == "Basic " + credential + rest
    && ' ' !in credential && (rest == [] || rest[0] == ' ')
    && ':' !in user && ':' !in token && (extra == [] || extra[0] == ':')
    && decode(credential) == user + ":" + token + extra
  }

  /** `fields.join(sep)` is the first field, then the separator and the rest when there is more. */
  lemma JoinFirst(fields: seq<string>, sep: char)
    requires |fields| >= 1
    ensures Join(fields, sep) == fields[0] + (if |fields| == 1 then [] else [sep] + Join(fields[1..], sep))
  {
  }

  /** A string is its first `sep`-separated field followed by nothing or a separator and more. */
  lemma FirstFieldThenRest(t: string, sep: char) returns (rest: string)
    ensures t == Split(t, sep)[0] + rest && (rest == [] || rest[0] == sep)
  {
    var f := Split(t, sep);
    JoinSplit(t, sep);
    JoinFirst(f, sep);
    rest := if |f| == 1 then [] else [sep] + Join(f[1..], sep);
  }

  /** A string with at least two `sep`-separated fields is the first, a separator, the second,
      then nothing or a separator and more. */
  lemma SecondFieldThenRest(d: string, sep: char) returns (extra: string)
    requires |Split(d, sep)| >= 2
    ensures d == Split(d, sep)[0] + [sep] + Split(d, sep)[1] + extra && (extra == [] || extra[0] == sep)
  {
    var g := Split(d, sep);
    JoinSplit(d, sep);
    JoinFirst(g, sep);
    JoinFirst(g[1..], sep);
    extra := if |g| == 2 then [] else [sep] + Join(g[2..], sep);
    assert g[1..][1..] == g[2..];
  }

  /** An accepted `Basic` header, taken apart into the pieces `BasicForm` names. */
  lemma AcceptedBasicForm(token: string, apiTokenHeader: Option<string>, auth: string, decode: Base64Decoder)
      returns (credential: string, rest: string, user: string, extra: string)
    requires token != "" && apiTokenHeader != Some(token)
    requires Authorize(token, apiTokenHeader, Some(auth), decode) == Next
    ensures BasicForm(auth, decode, token, credential, rest, user, extra)
  {
    BasicSplit(auth);
    var t := auth[6..];
    credential := Split(t, ' ')[0];
    rest := FirstFieldThenRest(t, ' ');
    assert auth == "Basic " + credential + rest by {
      assert auth[..6] == "Basic ";
      assert auth == auth[..6] + t;
    }
    assert Split(auth, ' ')[1] == credential;
    var decoded := decode(credential);
    assert |Split(decoded, ':')| >= 2 && Split(decoded, ':')[1] == token;
    user := Split(decoded, ':')[0];
    extra := SecondFieldThenRest(decoded, ':');
  }

  /** When the `x-api-token` header does not carry a (non-empty) token, a request passes
      exactly when its authorization header has the `Basic` form for the token. */
  lemma BasicAcceptedExactly(token: string, apiTokenHeader: Option<string>, auth: string, decode: Base64Decoder)
    requires token != "" && apiTokenHeader != Some(token)
    ensures Authorize(token, apiTokenHeader, Some(auth), decode) == Next <==>
              exists credential, rest, user, extra :: BasicForm(auth, decode, token, credential, rest, user, extra)
  {
    if Authorize(token, apiTokenHeader, Some(auth), decode) == Next {
      var credential, rest, user, extra := AcceptedBasicForm(token, apiTokenHeader, auth, decode);
    } else {
      forall credential, rest, user, extra | BasicForm(auth, decode, token, credential, rest, user, extra)
        ensures false
      {
        BasicCredentialsAccepted(token, apiTokenHeader, credential, rest, user, extra, decode);
      }
    }
  }

  /** An unset `API_TOKEN` (or an empty one) turns authentication off: every request passes,
      whatever headers it carries. */
  lemma UnsetTokenDisablesAuth(env: Option<string>, apiTokenHeader: Option<string>,
                               authorizationHeader: Option<string>, decode: Base64Decoder)
    requires env.None? || env == Some("")
    ensures Authorize(ConfiguredToken(env), apiTokenHeader, authorizationHeader, decode) == Next
  {
  }

  /** A set, non-empty `API_TOKEN` is enforced: a request without credentials is refused. */
  lemma SetTokenEnforced(token: string, decode: Base64Decoder)
    requires token != ""
    ensures Authorize(ConfiguredToken(Some(token)), None, None, decode) == Unauthorized
  {
  }

  /** The password is cut at a second colon, so `user:tok:extra` passes for the token `tok`. */
  lemma ColonTruncatedPasswordAccepted(credential: string, decode: Base64Decoder)
    requires ' ' !in credential
    requires decode(credential) == "user:tok:extra"
    ensures Authorize("tok", None, Some("Basic " + credential), decode) == Next
  {
    assert "user:tok:extra" == "user" + ":" + "tok" + ":extra";
    BasicCredentialsAccepted("tok", None, credential, "", "user", ":extra", decode);
    assert "Basic " + credential + "" == "Basic " + credential;
  }

  /** A token that contains a colon can never be presented through `Basic`: only the
      `x-api-token` header lets such requests through. */
  lemma ColonTokenOnlyByHeader(token: string, apiTokenHeader: Option<string>, authorizationHeader: Option<string>,
                               decode: Base64Decoder)
    requires ':' in token
    ensures Authorize(token, apiTokenHeader, authorizationHeader, decode) == Next <==> apiTokenHeader == Some(token)
  {
    var auth := authorizationHeader.GetOr("");
    if StartsWith(auth, "Basic ") {
      var p := BasicPassword(auth, decode);
      assert p.Some? ==> p.value != token;
    }
  }

  // ---------------------------------------------------------------------------------------
  // POST /run

  /** The error message of a rejected `/run` body. */
  const RunBodyError := "crawler_type must be \"text\" and startUrl required"

  /** What a `/run` body yields when it is accepted: the start URL and the options handed to
      the crawler (`options = {}` in the destructuring, which replaces `undefined` only). */
  datatype RunRequest = RunRequest(startUrl: JsValue, options: JsValue)

  /** `const { crawler_type, startUrl, options = {} } = req.body` and the 400 test. `None`
      stands for the 400 answer. The parsed body is an object's fields; an array body has none
      of these properties and is an empty map here. */
  function ValidateRun(body: map<string, JsValue>): (r: Option<RunRequest>)
    ensures r.Some? <==> Get(body, "crawler_type") == Str("text") && Truthy(Get(body, "startUrl"))
    ensures r.Some? ==> r.value.startUrl == Get(body, "startUrl") && Truthy(r.value.startUrl)
    ensures r.Some? && "options" !in body ==> r.value.options == Obj(map[])
    ensures r.Some? && "options" in body && body["options"] != Undefined ==> r.value.options == body["options"]
  {
    var crawlerType := Get(body, "crawler_type");
    var startUrl := Get(body, "startUrl");
    var options := Get(body, "options");
    if crawlerType != Str("text") || !Truthy(startUrl) then None
    else Some(RunRequest(startUrl, if options == Undefined then Obj(map[]) else options))
  }

  /** A run is rejected when the crawler type is another string or missing, and when the start
      URL is missing or falsy (`""`, `0`, `null`, `false`); an explicit `null` for the options
      is passed on, not replaced by `{}`. */
  lemma ValidateRunExamples(startUrl: string)
    requires startUrl != ""
    ensures ValidateRun(map["crawler_type" := Str("links"), "startUrl" := Str(startUrl)]) == None
    ensures ValidateRun(map["startUrl" := Str(startUrl)]) == None
    ensures ValidateRun(map["crawler_type" := Str("text"), "startUrl" := Str("")]) == None
    ensures ValidateRun(map["crawler_type" := Str("text")]) == None
    ensures ValidateRun(map["crawler_type" := Str("text"), "startUrl" := Str(startUrl), "options" := Null])
              == Some(RunRequest(Str(startUrl), Null))
  {
    var a := map["crawler_type" := Str("links"), "startUrl" := Str(startUrl)];
    assert Get(a, "crawler_type") == Str("links");
    var c := map["crawler_type" := Str("text"), "startUrl" := Str("")];
    assert Get(c, "startUrl") == Str("");
    var e := map["crawler_type" := Str("text"), "startUrl" := Str(startUrl), "options" := Null];
    assert Get(e, "crawler_type") == Str("text") && Get(e, "startUrl") == Str(startUrl) && Get(e, "options") == Null;
  }

  /** `run-${Date.now()}`: the decimal digits of the clock reading after `run-`. */
  function RunId(now: nat): (id: string)
    ensures StartsWith(id, "run-") && |id| > 4
    ensures forall k :: 4 <= k < |id| ==> IsDigit(id[k])
  {
    StartsWithConcat("run-", DecimalString(now));
    "run-" + DecimalString(now)
  }

  /** A non-negative integer's decimal digits, as `Number.prototype.toString` writes them. */
  function DecimalString(n: nat): (s: string)
    ensures |s| >= 1 && forall k :: 0 <= k < |s| ==> IsDigit(s[k])
    ensures (s[0] == '0') ==> n == 0
  {
    if n < 10 then ["0123456789"[n]]
    else DecimalString(n / 10) + ["0123456789"[n % 10]]
  }

  /** `result.items.map(i => i.url)` */
  function Pages(items: seq<TextLinksCrawler.PageRecord>): (pages: seq<string>)
    ensures |pages| == |items|
    ensures forall i :: 0 <= i < |items| ==> pages[i] == items[i].url
  {
    if items == [] then [] else [items[0].url] + Pages(items[1..])
  }

  /** How the awaited crawl ended: the dataset's items, or the message of the error it threw. */
  datatype CrawlOutcome = Crawled(items: seq<TextLinksCrawler.PageRecord>) | CrawlFailed(message: string)

  /** The answers of `/run`: `code` is the HTTP status of the error answers (the success
      answer is sent with 200), `status` the JSON field of the success answer. */
  datatype RunReply =
    | BadRequest(code: nat, error: string)
    | RunDone(status: string, datasetId: string, pages: seq<string>, items: seq<TextLinksCrawler.PageRecord>)
    | RunFailed(code: nat, error: string)

  /** The `/run` handler. `crawl` stands for running the text crawler on the accepted request
      under the dataset id and reading the dataset back; it is consulted only for a valid body. */
  function RunHandler(body: map<string, JsValue>, now: nat, crawl: (RunRequest, string) -> CrawlOutcome): (r: RunReply)
    ensures r.BadRequest? <==> ValidateRun(body).None?
    ensures r.BadRequest? ==> r.code == 400 && r.error == RunBodyError
    ensures r.RunDone? ==> r.status == "ok" && StartsWith(r.datasetId, "run-")
    ensures r.RunDone? ==> |r.pages| == |r.items| && forall i :: 0 <= i < |r.items| ==> r.pages[i] == r.items[i].url
    ensures r.RunFailed? ==> r.code == 500
    ensures ValidateRun(body).Some? ==>
              var outcome := crawl(ValidateRun(body).value, RunId(now));
              && (outcome.Crawled? <==> r.RunDone?)
              && (r.RunDone? ==> r.items == outcome.items && r.datasetId == RunId(now))
              && (r.RunFailed? ==> r.error == outcome.message)
  {
    match ValidateRun(body)
    case None => BadRequest(400, RunBodyError)
    case Some(req) =>
      var runId := RunId(now);
      match crawl(req, runId)
      case Crawled(items) => RunDone("ok", runId, Pages(items), items)
      case CrawlFailed(message) => RunFailed(500, message)
  }

  /** No crawl runs for a rejected body: the reply does not depend on the crawl at all. */
  lemma BadRequestRunsNoCrawl(body: map<string, JsValue>, now: nat,
                              crawl1: (RunRequest, string) -> CrawlOutcome, crawl2: (RunRequest, string) -> CrawlOutcome)
    requires ValidateRun(body).None?
    ensures RunHandler(body, now, crawl1) == RunHandler(body, now, crawl2) == BadRequest(400, RunBodyError)
  {
  }

  /** The pages of a run are the URLs of the pages the text crawler handled, in dataset order. */
  lemma PagesAreHandledUrls(visits: seq<(string, string, seq<string>)>)
    ensures Pages(Map((v: (string, string, seq<string>)) => TextLinksCrawler.HandlePage(v.0, v.1, v.2), visits))
              == Map((v: (string, string, seq<string>)) => v.0, visits)
  {
  }

  // ---------------------------------------------------------------------------------------
  // DELETE /datasets

  /** `d.startsWith('run-')` */
  predicate IsRunDir(name: string) {
    StartsWith(name, "run-")
  }

  /** `entries.filter(d => d.startsWith('run-'))`: the datasets delete-all removes. */
  function RunDirs(entries: seq<string>): seq<string> {
    Filter(IsRunDir, entries)
  }

  /** The reply `{ status: 'deleted-all', count }` once every run directory has been deleted. */
  datatype DeleteAllReply = DeleteAllReply(status: string, count: nat)

  function DeleteAll(entries: seq<string>): (r: DeleteAllReply)
    ensures r.status == "deleted-all"
    ensures r.count == CountWhere(IsRunDir, entries)
  {
    FilterLength(IsRunDir, entries);
    DeleteAllReply("deleted-all", |RunDirs(entries)|)
  }

  /** Delete-all removes exactly the entries whose names start with `run-`, in listing order,
      and the count delete-all reports is how many it removes. */
  lemma DeleteAllSpec(entries: seq<string>)
    ensures forall d :: d in RunDirs(entries) <==> d in entries && StartsWith(d, "run-")
    ensures IsSubsequence(RunDirs(entries), entries)
    ensures DeleteAll(entries).count == |RunDirs(entries)|
  {
    FilterMembers(IsRunDir, entries);
    FilterIsSubsequence(IsRunDir, entries);
    FilterLength(IsRunDir, entries);
  }

  /** Every dataset a `/run` created is one that delete-all removes; datasets under other
      names (the store's `default`, say) are left alone. */
  lemma RunDatasetsAreDeleted(now: nat, entries: seq<string>)
    requires RunId(now) in entries
    ensures RunId(now) in RunDirs(entries)
    ensures "default" !in RunDirs(entries)
  {
    FilterMembers(IsRunDir, entries);
    assert !StartsWith("default", "run-") by {
      assert "default"[0] != 'r';
    }
  }
}
