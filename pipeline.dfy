/** The request handler of main.go:37-60 with `fetch_data` (main.go:139-173)
    and `validate_captcha` (main.go:69-107): a pure function from the inbound
    query and the outcome of each outbound stage to the outbound calls made and
    the reply written. The network and the solving service are not modelled;
    what they answer is an input. */
module Pipeline {
  import opened Wrappers
  import opened ByteStrings
  import opened QueryEscaping
  import opened TokenExtractor
  import opened Scraper

  /** `url.Values`: each key maps to its list of values. */
  type Values = map<Bytes, seq<Bytes>>

  /** `Values.Get`: the first value of the key, or the empty string. */
  function Get(v: Values, key: Bytes): (r: Bytes)
    ensures !Has(v, key) || v[key] == [] ==> r == []
    ensures Has(v, key) && v[key] != [] ==> r == v[key][0]
  {
    if key in v && |v[key]| > 0 then v[key][0] else []
  }

  /** `Values.Has`: whether the key is present, even with no value. */
  predicate Has(v: Values, key: Bytes) {
    key in v
  }

  /** `Values.Set`: the key's values become exactly `[value]`; every other key
      keeps what it had. */
  function Set(v: Values, key: Bytes, value: Bytes): (r: Values)
    ensures Has(r, key) && r[key] == [value] && Get(r, key) == value
    ensures r.Keys == v.Keys + {key}
    ensures forall k :: k in v && k != key ==> r[k] == v[k]
  {
    v[key := [value]]
  }

  /** A key that `Set` did not name reads as before, for `Has` and `Get`. */
  lemma SetLeavesOtherKeys(v: Values, key: Bytes, value: Bytes, other: Bytes)
    requires other != key
    ensures Has(Set(v, key, value), other) == Has(v, other)
    ensures Get(Set(v, key, value), other) == Get(v, other)
  {
  }

  const UrlKey: Bytes := Ascii("url")
  const PlatformKey: Bytes := Ascii("platformID")

  const LoginBase: Bytes := Ascii("https://www.growtopiagame.com/player/login?token=")
  const PlatformParam: Bytes := Ascii("&platformID=")
  /** The solver is always handed platform `0r`, whatever the request said. */
  const SolverPlatformParam: Bytes := Ascii("&platformID=0r")
  const ValidateUrl: Bytes := Ascii("https://www.growtopiagame.com/player/validate")

  /** The login page address, built with `fmt.Sprintf` for the fetch
      (main.go:141) and for the submission's Referer header (main.go:86). */
  function LoginUrl(token: Bytes, platform: Bytes): (u: Bytes)
    ensures |u| == |LoginBase| + |token| + |PlatformParam| + |platform|
    ensures u[..|LoginBase|] == LoginBase
    ensures u[|LoginBase|..|LoginBase| + |token|] == token
    ensures u[|LoginBase| + |token|..|u| - |platform|] == PlatformParam
    ensures u[|u| - |platform|..] == platform
  {
    var u := LoginBase + token + PlatformParam + platform;
    assert u[|LoginBase| + |token|..|u| - |platform|] == PlatformParam;
    u
  }

  /** The page address handed to the solving service (main.go:49): the login
      page address with the platform fixed to `0r`. */
  function SolverPageUrl(token: Bytes): (u: Bytes)
    ensures u == LoginUrl(token, Ascii("0r"))
  {
    assert PlatformParam + Ascii("0r") == SolverPlatformParam;
    LoginBase + token + SolverPlatformParam
  }

  const PrimaryField: Bytes := Ascii("_token")
  const ResponseField: Bytes := Ascii("g-recaptcha-response")
  const SecondaryField: Bytes := Ascii("token")

  /** The form of main.go:72-75: three `Set` calls on an empty `url.Values`. */
  function Payload(primary: Bytes, captcha: Bytes, secondary: Bytes): (payload: Values)
    ensures payload.Keys == {PrimaryField, ResponseField, SecondaryField}
    ensures payload[PrimaryField] == [primary]
    ensures payload[ResponseField] == [captcha]
    ensures payload[SecondaryField] == [secondary]
    ensures Get(payload, PrimaryField) == primary
    ensures Get(payload, ResponseField) == captcha
    ensures Get(payload, SecondaryField) == secondary
  {
    assert PrimaryField != ResponseField && PrimaryField != SecondaryField && ResponseField != SecondaryField
    by {
      assert PrimaryField[0] != SecondaryField[0];
      assert |PrimaryField| != |ResponseField| && |ResponseField| != |SecondaryField|;
    }
    Set(Set(Set(map[], PrimaryField, primary), ResponseField, captcha), SecondaryField, secondary)
  }

  /** What one HTTP exchange came to, in the order of the Go error checks:
      `http.NewRequest`, `client.Do`, `io.ReadAll`. */
  datatype Transport = BuildFailed | SendFailed | ReadFailed | Completed(body: Bytes)

  /** A request issued to the outside world. */
  datatype Call =
    | GetPage(url: Bytes)
    | SolveChallenge(pageUrl: Bytes, siteKey: Bytes)
    | PostForm(url: Bytes, payload: Values, referer: Bytes)

  /** What `fetch_data` hands back: the three values and whether an error came
      with them, or a panic from indexing a missing match. */
  datatype FetchResult =
    | Harvested(state: FormState, failed: bool)
    | Panicked

  datatype Step<T> = Step(calls: seq<Call>, result: T)

  /** `fetch_data`: GET the login page, then harvest the three values. On a
      transport error it returns three empty strings and the error; when the
      page lacks one of the patterns it panics. */
  function FetchData(token: Bytes, platform: Bytes, page: Transport): (r: Step<FetchResult>)
    ensures r.calls == (if page.BuildFailed? then [] else [GetPage(LoginUrl(token, platform))])
    ensures r.result.Panicked? <==> page.Completed? && Scrape(page.body).None?
    ensures r.result.Harvested? && r.result.failed <==> !page.Completed?
    ensures r.result.Harvested? && r.result.failed ==> r.result.state == FormState([], [], [])
    ensures r.result.Harvested? && !r.result.failed ==> Some(r.result.state) == Scrape(page.body)
  {
    var calls := if page.BuildFailed? then [] else [GetPage(LoginUrl(token, platform))];
    match page
    case Completed(body) =>
      (match Scrape(body)
       case None => Step(calls, Panicked)
       case Some(state) => Step(calls, Harvested(state, false)))
    case _ => Step(calls, Harvested(FormState([], [], []), true))
  }

  /** `validate_captcha`: POST the three-field form with the Referer rebuilt
      from the token and platform. True exactly when building, sending and
      reading the POST all succeeded; the answer's body is not looked at. */
  function ValidateCaptcha(primary: Bytes, secondary: Bytes, captcha: Bytes,
                           token: Bytes, platform: Bytes, post: Transport): (r: Step<bool>)
    ensures r.result <==> post.Completed?
    ensures r.calls == [] <==> post.BuildFailed?
    ensures r.calls != [] ==> r.calls == [PostForm(ValidateUrl, Payload(primary, captcha, secondary), LoginUrl(token, platform))]
  {
    if post.BuildFailed? then Step([], false)
    else
      var call := PostForm(ValidateUrl, Payload(primary, captcha, secondary), LoginUrl(token, platform));
      Step([call], post.Completed?)
  }

  /** What the handler writes back. `NoReply` is an empty 200 answer; `Aborted`
      is the panic, after which net/http drops the connection without a body. */
  datatype Reply = UsageHint | NoReply | Validated | NotValidated | Aborted

  /** The body written for each reply; only the usage hint and the two
      verdicts have one. */
  function ReplyText(reply: Reply): (t: Bytes)
    ensures t == [] <==> reply.NoReply? || reply.Aborted?
  {
    match reply
    case UsageHint => Ascii("Add your url as a query parameter. Example: http://localhost:3000?url=https://www.google.com")
    case NoReply => []
    case Validated => Ascii("Captcha validated!")
    case NotValidated => Ascii("Captcha failed to validate!")
    case Aborted => []
  }

  /** A caller can tell the usage hint and the two verdicts apart by the body. */
  lemma ReplyTextsDistinct(a: Reply, b: Reply)
    requires ReplyText(a) != [] && ReplyText(a) == ReplyText(b)
    ensures a == b
  {
    var n := |ReplyText(a)|;
    match a
    case UsageHint => assert n == 92;
    case Validated => assert n == 18;
    case NotValidated => assert n == 27;
    case _ =>
  }

  /** One request: the calls it made, in order, and its reply. */
  datatype Run = Run(calls: seq<Call>, reply: Reply)

  /** The `/` handler. `page` is what the login-page GET came to, `solved` what
      the solving service returned (empty on its failure), `post` what the
      submission came to. */
  function Handle(query: Values, page: Transport, solved: Bytes, post: Transport): (run: Run)
    ensures !Has(query, UrlKey) ==> run == Run([], UsageHint)
    ensures Has(query, UrlKey) && ParseUrlToken(Get(query, UrlKey)) == [] ==> run == Run([], NoReply)
    ensures Has(query, UrlKey) && ParseUrlToken(Get(query, UrlKey)) != [] ==>
      run.reply in {Validated, NotValidated, Aborted}
  {
    if !Has(query, UrlKey) then Run([], UsageHint)
    else
      var data := Get(query, UrlKey);
      var platform := Get(query, PlatformKey);
      var token := ParseUrlToken(data);
      if token == [] then Run([], NoReply)
      else
        var fetched := FetchData(token, platform, page);
        match fetched.result
        case Panicked => Run(fetched.calls, Aborted)
        case Harvested(state, _) =>
          var solve := SolveChallenge(SolverPageUrl(token), state.siteKey);
          var validated := ValidateCaptcha(state.primaryToken, state.secondaryToken, solved, token, platform, post);
          Run(fetched.calls + [solve] + validated.calls,
              if validated.result then Validated else NotValidated)
  }

  /** The session token of the request, when it carries a `url` parameter. */
  function RequestToken(query: Values): Bytes {
    ParseUrlToken(Get(query, UrlKey))
  }

  /** The handler panics exactly when the page was read but lacks a pattern. */
  predicate PagePanics(page: Transport) {
    page.Completed? && Scrape(page.body).None?
  }

  /** "Captcha validated!" is written exactly when there is a `url` with a
      non-empty token, the page did not make the handler panic, and the POST
      was built, sent and read. */
  lemma ValidatedIff(query: Values, page: Transport, solved: Bytes, post: Transport)
    ensures Handle(query, page, solved, post).reply == Validated <==>
      Has(query, UrlKey) && RequestToken(query) != [] && !PagePanics(page) && post.Completed?
  {
  }

  /** The handler dies exactly when a read page lacks one of the three values;
      it then has made the page request and nothing after it. */
  lemma AbortedIff(query: Values, page: Transport, solved: Bytes, post: Transport)
    ensures Handle(query, page, solved, post).reply == Aborted <==>
      Has(query, UrlKey) && RequestToken(query) != [] && PagePanics(page)
    ensures Handle(query, page, solved, post).reply == Aborted ==>
      Handle(query, page, solved, post).calls == [GetPage(LoginUrl(RequestToken(query), Get(query, PlatformKey)))]
  {
  }

  /** Neither a failed page fetch nor an empty answer from the solver stops the
      pipeline or changes the reply: only the submission decides it. */
  lemma ReplyIgnoresFetchErrorAndSolver(query: Values, page1: Transport, page2: Transport,
                                        solved1: Bytes, solved2: Bytes, post: Transport)
    requires !PagePanics(page1) && !PagePanics(page2)
    ensures Handle(query, page1, solved1, post).reply == Handle(query, page2, solved2, post).reply
  {
  }

  /** With a token and a page that does not panic, the stages run in order:
      fetch (unless its request could not be built), solve, submit (unless its
      request could not be built). The submission carries whatever the fetch
      and the solver gave, empty strings included. */
  lemma StagesInOrder(query: Values, page: Transport, solved: Bytes, post: Transport)
    requires Has(query, UrlKey) && RequestToken(query) != [] && !PagePanics(page)
    ensures
      var token, platform := RequestToken(query), Get(query, PlatformKey);
      var state := if page.Completed? then Scrape(page.body).value else FormState([], [], []);
      Handle(query, page, solved, post).calls ==
        (if page.BuildFailed? then [] else [GetPage(LoginUrl(token, platform))])
        + [SolveChallenge(SolverPageUrl(token), state.siteKey)]
        + (if post.BuildFailed? then [] else
            [PostForm(ValidateUrl, Payload(state.primaryToken, solved, state.secondaryToken), LoginUrl(token, platform))])
  {
  }

  /** A request without a usable token makes no outbound call at all; one with
      a token makes at least one. */
  lemma NoTokenNoCalls(query: Values, page: Transport, solved: Bytes, post: Transport)
    ensures Handle(query, page, solved, post).calls == [] <==>
      !Has(query, UrlKey) || RequestToken(query) == []
  {
  }

  /** Some call of the run goes to the solving service. */
  predicate CallsSolver(calls: seq<Call>) {
    exists i :: 0 <= i < |calls| && calls[i].SolveChallenge?
  }

  /** The solving service is called exactly when there is a token and the page
      did not make the handler panic; a failed fetch does not prevent it. */
  lemma SolverReachedIff(query: Values, page: Transport, solved: Bytes, post: Transport)
    ensures CallsSolver(Handle(query, page, solved, post).calls) <==>
      Has(query, UrlKey) && RequestToken(query) != [] && !PagePanics(page)
  {
    if !Has(query, UrlKey) || RequestToken(query) == [] {
      NoTokenNoCalls(query, page, solved, post);
    } else if PagePanics(page) {
      SolverSkippedOnPanic(query, page, solved, post);
    } else {
      SolverCalled(query, page, solved, post);
    }
  }

  lemma SolverSkippedOnPanic(query: Values, page: Transport, solved: Bytes, post: Transport)
    requires Has(query, UrlKey) && RequestToken(query) != [] && PagePanics(page)
    ensures !CallsSolver(Handle(query, page, solved, post).calls)
  {
    var calls := Handle(query, page, solved, post).calls;
    AbortedIff(query, page, solved, post);
    assert calls == [GetPage(LoginUrl(RequestToken(query), Get(query, PlatformKey)))];
  }

  lemma SolverCalled(query: Values, page: Transport, solved: Bytes, post: Transport)
    requires Has(query, UrlKey) && RequestToken(query) != [] && !PagePanics(page)
    ensures CallsSolver(Handle(query, page, solved, post).calls)
  {
    var calls := Handle(query, page, solved, post).calls;
    StagesInOrder(query, page, solved, post);
    var k := if page.BuildFailed? then 0 else 1;
    assert calls[k].SolveChallenge?;
  }

  /** The token sits in its own query parameter of every address built from
      it: it holds no delimiter, and the `&` right after it is the next one. */
  lemma TokenStaysInItsParameter(data: Bytes, platform: Bytes)
    ensures
      var token := ParseUrlToken(data);
      var u, v := LoginUrl(token, platform), SolverPageUrl(token);
      var stop := |LoginBase| + |token|;
      && u[..stop] == v[..stop] == LoginBase + token
      && (forall i :: |LoginBase| <= i < stop ==> u[i] !in {38, 61, 63, 35})
      && stop < |u| && stop < |v| && u[stop] == v[stop] == 38
  {
    var token := ParseUrlToken(data);
    SafeTokenInAddress(token, platform);
    SafeTokenInAddress(token, Ascii("0r"));
  }

  /** A token of safe bytes sits between the fixed base and the `&` that starts
      the platform parameter, with no delimiter inside it. */
  lemma SafeTokenInAddress(token: Bytes, platform: Bytes)
    requires forall i :: 0 <= i < |token| ==> SafeByte(token[i])
    ensures
      var u := LoginUrl(token, platform);
      var stop := |LoginBase| + |token|;
      && u[..stop] == LoginBase + token
      && (forall i :: |LoginBase| <= i < stop ==> u[i] !in {38, 61, 63, 35})
      && stop < |u| && u[stop] == 38
  {
    var u := LoginUrl(token, platform);
    var stop := |LoginBase| + |token|;
    assert u[..stop] == LoginBase + token;
    assert u[stop] == PlatformParam[0];
    forall i | |LoginBase| <= i < stop ensures u[i] !in {38, 61, 63, 35} {
      assert u[i] == token[i - |LoginBase|];
      assert SafeByte(token[i - |LoginBase|]);
    }
  }

  /** The calls of a run whose page was read and yielded all three values. */
  lemma HarvestedCalls(query: Values, body: Bytes, solved: Bytes, post: Transport)
    requires Has(query, UrlKey) && RequestToken(query) != [] && Scrape(body).Some? && post.Completed?
    ensures
      var token, platform, state := RequestToken(query), Get(query, PlatformKey), Scrape(body).value;
      Handle(query, Completed(body), solved, post).calls == [
        GetPage(LoginUrl(token, platform)),
        SolveChallenge(SolverPageUrl(token), state.siteKey),
        PostForm(ValidateUrl, Payload(state.primaryToken, solved, state.secondaryToken), LoginUrl(token, platform))]
  {
    var token, platform, state := RequestToken(query), Get(query, PlatformKey), Scrape(body).value;
    var fetch, solve := GetPage(LoginUrl(token, platform)), SolveChallenge(SolverPageUrl(token), state.siteKey);
    var submit := PostForm(ValidateUrl, Payload(state.primaryToken, solved, state.secondaryToken), LoginUrl(token, platform));
    StagesInOrder(query, Completed(body), solved, post);
    ThreeCalls(fetch, solve, submit);
  }

  lemma ThreeCalls(a: Call, b: Call, c: Call)
    ensures [a] + [b] + [c] == [a, b, c]
  {
  }

  /** The happy path: a token, a page that yields all three values and a
      completed POST give "Captcha validated!" after exactly three calls. */
  lemma HarvestedRun(query: Values, body: Bytes, solved: Bytes, answer: Bytes)
    requires Has(query, UrlKey) && RequestToken(query) != [] && Scrape(body).Some?
    ensures Handle(query, Completed(body), solved, Completed(answer)).reply == Validated
    ensures
      var token, platform, state := RequestToken(query), Get(query, PlatformKey), Scrape(body).value;
      Handle(query, Completed(body), solved, Completed(answer)).calls == [
        GetPage(LoginUrl(token, platform)),
        SolveChallenge(SolverPageUrl(token), state.siteKey),
        PostForm(ValidateUrl, Payload(state.primaryToken, solved, state.secondaryToken), LoginUrl(token, platform))]
  {
    ValidatedIff(query, Completed(body), solved, Completed(answer));
    HarvestedCalls(query, body, solved, Completed(answer));
  }

  /** A request of the usual shape: `url=https://example.com/login?token=abc123` with
      `platformID=0`, the login page of `ThreeFieldPage` (harvest `SK1`, `T1`,
      `T2`), a solver answer `RESP1` and a completed POST give
      "Captcha validated!" after exactly the three expected calls. */
  lemma ExampleRequest(query: Values, answer: Bytes)
    requires Has(query, UrlKey) && Get(query, PlatformKey) == Ascii("0")
    requires Get(query, UrlKey) == Ascii("https://example.com/login") + TokenMarker + Ascii("abc123")
    ensures
      var token := Ascii("abc123");
      var run := Handle(query, Completed(ExamplePage()), Ascii("RESP1"), Completed(answer));
      && ReplyText(run.reply) == Ascii("Captcha validated!")
      && run.calls == [
           GetPage(LoginUrl(token, Ascii("0"))),
           SolveChallenge(SolverPageUrl(token), Ascii("SK1")),
           PostForm(ValidateUrl, Payload(Ascii("T1"), Ascii("RESP1"), Ascii("T2")), LoginUrl(token, Ascii("0")))]
  {
    ExampleToken();
    ThreeFieldPage();
    assert RequestToken(query) == Ascii("abc123");
    assert |Ascii("abc123")| == 6;
    HarvestedRun(query, ExamplePage(), Ascii("RESP1"), answer);
  }

  /** Without a `url` parameter the reply is the usage hint and nothing is
      fetched, solved or posted. */
  lemma UsageWithoutUrl(query: Values, page: Transport, solved: Bytes, post: Transport)
    requires !Has(query, UrlKey)
    ensures Handle(query, page, solved, post).calls == []
    ensures ReplyText(Handle(query, page, solved, post).reply) ==
      Ascii("Add your url as a query parameter. Example: http://localhost:3000?url=https://www.google.com")
  {
  }
}
