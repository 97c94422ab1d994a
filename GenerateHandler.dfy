/**
 * The decisions of the `/api/generate` handler (functions/api/generate.ts):
 * the configuration and password guards, the environment defaults, the
 * normalisation of the upstream URL, the choice of prompt, the payload
 * sent upstream and how the upstream answer is passed back.
 *
 * The upstream `fetch` is a parameter of `Handle`; an outcome records the
 * request the handler sent, if it sent one.
 */
module GenerateHandler {
  import opened Wrappers
  import opened JsString
  import opened Fetch

  /** The environment of the function; None is an unset variable. */
  datatype Env = Env(
    accessPassword: Option<string>,
    apiKey: Option<string>,
    apiBaseUrl: Option<string>,
    modelId: Option<string>)

  /**
   * One field destructured from the parsed JSON body: absent (`undefined`),
   * a string, or any other JSON value (`null`, a number, a boolean, an
   * array or an object), kept as the text `String(value)` gives it, since
   * that text is all a template literal uses of it.
   */
  datatype Field = Absent | Text(text: string) | NonText(rendering: string)

  /** The parsed JSON body of the request. */
  datatype RequestBody = RequestBody(
    password: Field,
    imageBase64: Field,
    mimeType: Field,
    mode: Field)

  /** The two instruction texts, kept apart without their wording. */
  datatype Prompt = ChristmasHat | StickerSheet

  datatype ContentPart = TextPart(text: Prompt) | ImageUrlPart(url: string)

  datatype Message = Message(role: string, content: seq<ContentPart>)

  datatype Payload = Payload(model: string, messages: seq<Message>, stream: bool)

  /** The POST the handler makes upstream: URL, `Authorization` header and JSON payload. */
  datatype UpstreamRequest = UpstreamRequest(url: string, authorization: string, payload: Payload)

  /** What `fetch` returned: its status and its body (text or event stream). */
  datatype UpstreamReply = UpstreamReply(status: nat, body: string)

  datatype Response =
    | JsonError(status: nat, error: string)                      // `{ error }` with that status
    | UpstreamError(status: nat, error: string, details: string) // `{ error, details }` with the upstream status
    | EventStream(body: string)                                  // the upstream body streamed through
  {
    function Status(): int {
      match this
      case JsonError(status, _) => status
      case UpstreamError(status, _, _) => status
      case EventStream(_) => 200
    }

    /** The headers set explicitly; a JSON error gets the runtime's default for a string body. */
    function Headers(): seq<(string, string)> {
      if EventStream? then
        [("Content-Type", "text/event-stream"), ("Cache-Control", "no-cache"), ("Connection", "keep-alive")]
      else
        [("Content-Type", "text/plain;charset=UTF-8")]
    }
  }

  /** The response and the upstream request that was sent to produce it, if any. */
  datatype Outcome = Outcome(response: Response, sent: Option<UpstreamRequest>)

  const PasswordNotSet := "Server misconfigured: ACCESS_PASSWORD not set"
  const Unauthorized := "Unauthorized: Invalid Password"
  const KeyNotSet := "Server misconfigured: GEMINI_API_KEY not set"
  const DefaultBaseUrl := "https://generativelanguage.googleapis.com"
  const DefaultModel := "gemini-2.0-flash-exp"
  const ChatPath := "/chat/completions"
  const VersionedChatPath := "/v1/chat/completions"

  /** `replace(/\/+$/, "")`: the string without its run of trailing slashes. */
  function StripTrailingSlashes(s: string): (r: string)
    ensures |r| <= |s| && s[..|r|] == r
    ensures r == [] || r[|r| - 1] != '/'
    ensures forall k :: |r| <= k < |s| ==> s[k] == '/'
  {
    if s != [] && s[|s| - 1] == '/' then
      var r := StripTrailingSlashes(s[..|s| - 1]);
      assert s[..|s| - 1][..|r|] == s[..|r|];
      r
    else s
  }

  lemma StripWithoutTrailingSlash(s: string)
    requires s == [] || s[|s| - 1] != '/'
    ensures StripTrailingSlashes(s) == s
  {
  }

  /** The base URL trimmed and without trailing slashes: the string the endpoint is appended to. */
  function StrippedBase(baseUrl: string): string {
    StripTrailingSlashes(Trim(baseUrl))
  }

  /** A string ends with what was just appended to it. */
  lemma EndsWithAppended(s: string, suffix: string)
    ensures EndsWith(s + suffix, suffix) && StartsWith(s + suffix, s)
  {
    assert (s + suffix)[|s|..] == suffix;
    assert (s + suffix)[..|s|] == s;
  }

  lemma VersionedChatPathEndsWithChatPath()
    ensures VersionedChatPath == "/v1" + ChatPath
  {
  }

  /**
   * The `if` after the strip: nothing when the URL already ends in
   * `/chat/completions`, `/chat/completions` when it ends in `/v1`, and
   * `/v1/chat/completions` otherwise.
   */
  function AppendEndpoint(fetchUrl: string): string {
    if EndsWith(fetchUrl, ChatPath) then fetchUrl
    else if EndsWith(fetchUrl, "/v1") then fetchUrl + ChatPath
    else fetchUrl + VersionedChatPath
  }

  /** The upstream endpoint built from the configured base URL. */
  function NormalizeUrl(baseUrl: string): string {
    AppendEndpoint(StrippedBase(baseUrl))
  }

  /**
   * The result always ends with `/chat/completions` and starts with the
   * URL it was given; it is that URL exactly when it already ends with
   * `/chat/completions`. Otherwise a URL ending in `/v1` gets only
   * `/chat/completions`, any other URL `/v1/chat/completions`, so the
   * result ends with `/v1/chat/completions` and `/v1` is never doubled.
   */
  lemma AppendEndpointShape(fetchUrl: string)
    ensures var r := AppendEndpoint(fetchUrl);
      && EndsWith(r, ChatPath)
      && StartsWith(r, fetchUrl)
      && (r == fetchUrl <==> EndsWith(fetchUrl, ChatPath))
      && (!EndsWith(fetchUrl, ChatPath) && EndsWith(fetchUrl, "/v1") ==> r == fetchUrl + ChatPath)
      && (!EndsWith(fetchUrl, ChatPath) && !EndsWith(fetchUrl, "/v1") ==> r == fetchUrl + VersionedChatPath)
      && (r != fetchUrl ==> EndsWith(r, VersionedChatPath))
  {
    if EndsWith(fetchUrl, ChatPath) {
      assert fetchUrl[..|fetchUrl|] == fetchUrl;
    } else if EndsWith(fetchUrl, "/v1") {
      AppendAfterVersion(fetchUrl);
    } else {
      AppendVersioned(fetchUrl);
    }
  }

  /**
   * A URL ending in `/v1` (and not already in `/chat/completions`) gets
   * only `/chat/completions`, which completes `/v1/chat/completions`.
   */
  lemma AppendAfterVersion(fetchUrl: string)
    requires !EndsWith(fetchUrl, ChatPath) && EndsWith(fetchUrl, "/v1")
    ensures var r := AppendEndpoint(fetchUrl);
      r == fetchUrl + ChatPath && EndsWith(r, ChatPath) && StartsWith(r, fetchUrl) && EndsWith(r, VersionedChatPath)
  {
    EndsWithAppended(fetchUrl, ChatPath);
    var stem := fetchUrl[..|fetchUrl| - 3];
    assert fetchUrl == stem + "/v1";
    VersionedChatPathEndsWithChatPath();
    assert fetchUrl + ChatPath == stem + VersionedChatPath;
    EndsWithAppended(stem, VersionedChatPath);
  }

  /**
   * Any other URL not yet ending in `/chat/completions` gets the whole
   * `/v1/chat/completions`, which ends in `/chat/completions` too.
   */
  lemma AppendVersioned(fetchUrl: string)
    requires !EndsWith(fetchUrl, ChatPath) && !EndsWith(fetchUrl, "/v1")
    ensures var r := AppendEndpoint(fetchUrl);
      r == fetchUrl + VersionedChatPath && EndsWith(r, ChatPath) && StartsWith(r, fetchUrl) && EndsWith(r, VersionedChatPath)
  {
    EndsWithAppended(fetchUrl, VersionedChatPath);
    VersionedChatPathEndsWithChatPath();
    assert fetchUrl + VersionedChatPath == (fetchUrl + "/v1") + ChatPath;
    EndsWithAppended(fetchUrl + "/v1", ChatPath);
  }

  /**
   * `/v1` is never doubled: the endpoint ends in `/v1/v1/chat/completions`
   * only when the URL already ended in `/chat/completions` or in
   * `/v1/v1` before anything was appended.
   */
  lemma VersionNotDoubled(fetchUrl: string)
    ensures EndsWith(AppendEndpoint(fetchUrl), "/v1/v1" + ChatPath)
      ==> EndsWith(fetchUrl, ChatPath) || EndsWith(fetchUrl, "/v1/v1")
  {
    var r := AppendEndpoint(fetchUrl);
    var doubled := "/v1/v1" + ChatPath;
    if EndsWith(r, doubled) && !EndsWith(fetchUrl, ChatPath) {
      var n := |fetchUrl|;
      assert r[|r| - |doubled|..] == doubled;
      if EndsWith(fetchUrl, "/v1") {
        assert r == fetchUrl + ChatPath && |r| == n + 17;
        forall k | 0 <= k < 6
          ensures fetchUrl[n - 6 + k] == "/v1/v1"[k]
        {
          assert r[n - 6 + k] == doubled[k];
        }
        assert fetchUrl[n - 6..] == "/v1/v1";
      } else {
        assert r == fetchUrl + VersionedChatPath && |r| == n + 20;
        forall k | 0 <= k < 3
          ensures fetchUrl[n - 3 + k] == "/v1"[k]
        {
          assert r[n - 3 + k] == doubled[3 + k];
        }
        assert false;
      }
    }
  }

  /**
   * The normalised URL has the shape above, built on the trimmed base
   * without trailing slashes; as that base never ends in `/`, appending
   * the endpoint forms no `//` at the junction.
   */
  lemma NormalizeUrlShape(baseUrl: string)
    ensures var r, base := NormalizeUrl(baseUrl), StrippedBase(baseUrl);
      && EndsWith(r, ChatPath)
      && StartsWith(r, base)
      && (r == base <==> EndsWith(base, ChatPath))
      && (!EndsWith(base, ChatPath) && EndsWith(base, "/v1") ==> r == base + ChatPath)
      && (!EndsWith(base, ChatPath) && !EndsWith(base, "/v1") ==> r == base + VersionedChatPath)
      && (r != base ==> EndsWith(r, VersionedChatPath))
      && (base == [] || base[|base| - 1] != '/')
  {
    AppendEndpointShape(StrippedBase(baseUrl));
  }

  /** The stripped base never starts with whitespace. */
  lemma StrippedBaseStart(baseUrl: string)
    ensures var base := StrippedBase(baseUrl); base == [] || !IsTrimmable(base[0])
  {
    var t := Trim(baseUrl);
    TrimSpec(baseUrl);
    var base := StripTrailingSlashes(t);
    if base != [] {
      assert base[0] == t[0];
    }
  }

  /** Appending the endpoint to such a base gives a trimmed URL ending in `s`. */
  lemma AppendedIsTrimmed(base: string, r: string)
    requires base == [] || !IsTrimmable(base[0])
    requires r == AppendEndpoint(base)
    ensures r != [] && r[|r| - 1] == 's' && IsTrimmed(r)
  {
    AppendEndpointShape(base);
    assert r[|r| - 1] == ChatPath[|ChatPath| - 1];
    if base == [] {
      assert r == VersionedChatPath;
    } else {
      assert r[0] == base[0];
    }
  }

  /** A trimmed URL not ending in `/` comes through trimming and stripping unchanged. */
  lemma StrippedBaseOfTrimmed(r: string)
    requires r != [] && r[|r| - 1] != '/' && IsTrimmed(r)
    ensures StrippedBase(r) == r
  {
    TrimOfTrimmed(r);
    StripWithoutTrailingSlash(r);
  }

  /** Normalising an already normalised URL changes nothing. */
  lemma NormalizeUrlIdempotent(baseUrl: string)
    ensures NormalizeUrl(NormalizeUrl(baseUrl)) == NormalizeUrl(baseUrl)
  {
    var base := StrippedBase(baseUrl);
    var r := AppendEndpoint(base);
    StrippedBaseStart(baseUrl);
    AppendedIsTrimmed(base, r);
    StrippedBaseOfTrimmed(r);
    AppendEndpointShape(base);
    AppendEndpointShape(r);
  }

  /**
   * `mode === 'christmas-hat'` selects the hat prompt; any other mode, a
   * value that is not a string, or none, the sticker sheet.
   */
  function SelectPrompt(mode: Field): (p: Prompt)
    ensures p == ChristmasHat <==> mode == Text("christmas-hat")
  {
    if mode == Text("christmas-hat") then ChristmasHat else StickerSheet
  }

  /** A template literal's rendering of a body field: an absent one reads `undefined`, any other value its text. */
  function Interpolated(field: Field): string {
    match field
    case Absent => "undefined"
    case Text(s) => s
    case NonText(rendering) => rendering
  }

  /** The image as a data URI: `data:<mimeType>;base64,<imageBase64>`. */
  function DataUri(mimeType: Field, imageBase64: Field): string {
    "data:" + Interpolated(mimeType) + ";base64," + Interpolated(imageBase64)
  }

  /** The chat-completion payload: one user message holding the prompt and the image, streamed. */
  function BuildPayload(env: Env, body: RequestBody): (p: Payload)
    ensures p.stream && |p.messages| == 1 && p.messages[0].role == "user"
    ensures p.messages[0].content == [TextPart(SelectPrompt(body.mode)), ImageUrlPart(DataUri(body.mimeType, body.imageBase64))]
    ensures p.model == OrElse(env.modelId, DefaultModel)
  {
    Payload(
      OrElse(env.modelId, DefaultModel),
      [Message("user", [TextPart(SelectPrompt(body.mode)), ImageUrlPart(DataUri(body.mimeType, body.imageBase64))])],
      true)
  }

  /** The request sent upstream once the guards have passed. */
  function BuildUpstreamRequest(env: Env, body: RequestBody, apiKey: string): UpstreamRequest {
    UpstreamRequest(
      NormalizeUrl(OrElse(env.apiBaseUrl, DefaultBaseUrl)),
      "Bearer " + apiKey,
      BuildPayload(env, body))
  }

  predicate IsDigit(c: char) {
    '0' <= c <= '9'
  }

  /** A number as a template literal writes it: decimal, without leading zeros. */
  function Decimal(n: nat): (s: string)
    ensures |s| >= 1 && (|s| > 1 ==> s[0] != '0')
    ensures forall k :: 0 <= k < |s| ==> IsDigit(s[k])
  {
    var last := ['0' + (n % 10) as char];
    if n < 10 then last else Decimal(n / 10) + last
  }

  /** The number a string of decimal digits denotes. */
  function DecimalValue(s: string): nat
    requires forall k :: 0 <= k < |s| ==> IsDigit(s[k])
  {
    if s == [] then 0
    else
      assert IsDigit(s[|s| - 1]);
      DecimalValue(s[..|s| - 1]) * 10 + (s[|s| - 1] as int - '0' as int)
  }

  /** The status in the error message reads back as that status. */
  lemma {:induction false} DecimalRoundTrip(n: nat)
    ensures DecimalValue(Decimal(n)) == n
  {
    var s := Decimal(n);
    assert s[..|s| - 1] == if n < 10 then [] else Decimal(n / 10);
    if n >= 10 {
      DecimalRoundTrip(n / 10);
    }
  }

  /** The `error` field of a passed-back upstream failure. */
  function UpstreamErrorMessage(status: nat): string {
    "Upstream API Error: " + Decimal(status)
  }

  /**
   * `password !== env.ACCESS_PASSWORD` is false exactly when the caller's
   * field is the configured string itself: an absent field or a value
   * that is not a string never equals it.
   */
  predicate PasswordMatches(env: Env, body: RequestBody)
    requires env.accessPassword.Some?
  {
    body.password == Text(env.accessPassword.value)
  }

  /** The passed guards: the password is configured, the caller's matches it, and the key is configured. */
  predicate Authorized(env: Env, body: RequestBody) {
    Truthy(env.accessPassword) && PasswordMatches(env, body) && Truthy(env.apiKey)
  }

  /**
   * `onRequestPost` after the body has been parsed: the guards in their
   * order, then one upstream request, whose failure status is passed back
   * and whose success body is streamed through.
   */
  function Handle(env: Env, body: RequestBody, fetch: UpstreamRequest -> UpstreamReply): (o: Outcome)
    ensures o.sent.Some? <==> Authorized(env, body)
    ensures o.sent.Some? ==> o.sent == Some(BuildUpstreamRequest(env, body, env.apiKey.value))
    ensures o.sent.None? ==> o.response.JsonError? && o.response.Status() in {401, 500}
    ensures IsOk(o.response.Status()) <==> o.sent.Some? && IsOk(fetch(o.sent.value).status)
    ensures o.sent.Some? ==> o.response.Status() == fetch(o.sent.value).status || o.response.EventStream?
  {
    if !Truthy(env.accessPassword) then
      Outcome(JsonError(500, PasswordNotSet), None)
    else if !PasswordMatches(env, body) then
      Outcome(JsonError(401, Unauthorized), None)
    else if !Truthy(env.apiKey) then
      Outcome(JsonError(500, KeyNotSet), None)
    else
      var request := BuildUpstreamRequest(env, body, env.apiKey.value);
      var reply := fetch(request);
      if !IsOk(reply.status) then
        Outcome(UpstreamError(reply.status, UpstreamErrorMessage(reply.status), reply.body), Some(request))
      else
        Outcome(EventStream(reply.body), Some(request))
  }

  /** An unset or empty password setting is a 500, whatever the caller sent and whatever the key. */
  lemma PasswordUnsetFirst(env: Env, body: RequestBody, fetch: UpstreamRequest -> UpstreamReply)
    requires !Truthy(env.accessPassword)
    ensures Handle(env, body, fetch) == Outcome(JsonError(500, PasswordNotSet), None)
  {
  }

  /** A wrong password is a 401, even when the key is unset, and nothing is sent upstream. */
  lemma WrongPasswordRejected(env: Env, body: RequestBody, fetch: UpstreamRequest -> UpstreamReply)
    requires Truthy(env.accessPassword) && !PasswordMatches(env, body)
    ensures Handle(env, body, fetch) == Outcome(JsonError(401, Unauthorized), None)
  {
  }

  /**
   * A password field that is absent or not a string never passes the
   * strict comparison: once a password is configured, such a request is a
   * 401 and nothing is sent upstream.
   */
  lemma NonTextPasswordRejected(env: Env, body: RequestBody, fetch: UpstreamRequest -> UpstreamReply)
    requires Truthy(env.accessPassword) && !body.password.Text?
    ensures Handle(env, body, fetch) == Outcome(JsonError(401, Unauthorized), None)
  {
  }

  /** An unset key is a 500 only once the password has matched. */
  lemma KeyUnsetAfterPassword(env: Env, body: RequestBody, fetch: UpstreamRequest -> UpstreamReply)
    ensures var o := Handle(env, body, fetch);
      o.response == JsonError(500, KeyNotSet)
      <==> Truthy(env.accessPassword) && PasswordMatches(env, body) && !Truthy(env.apiKey)
  {
  }

  /**
   * Once the guards pass, an upstream failure comes back with its own
   * status, its message naming that status and its text as the details,
   * and a success is streamed back as an event stream.
   */
  lemma UpstreamPassthrough(env: Env, body: RequestBody, fetch: UpstreamRequest -> UpstreamReply)
    requires Authorized(env, body)
    ensures var o, reply := Handle(env, body, fetch), fetch(BuildUpstreamRequest(env, body, env.apiKey.value));
      && (!IsOk(reply.status) ==>
            && o.response.UpstreamError?
            && o.response.Status() == reply.status
            && DecimalValue(o.response.error[|"Upstream API Error: "|..]) == reply.status
            && o.response.details == reply.body)
      && (IsOk(reply.status) ==>
            o.response == EventStream(reply.body) && o.response.Headers()[0] == ("Content-Type", "text/event-stream"))
  {
    var reply := fetch(BuildUpstreamRequest(env, body, env.apiKey.value));
    if !IsOk(reply.status) {
      var msg := UpstreamErrorMessage(reply.status);
      assert msg[|"Upstream API Error: "|..] == Decimal(reply.status);
      DecimalRoundTrip(reply.status);
    }
  }

  /**
   * With `API_BASE_URL` and `MODEL_ID` unset or empty, the request goes
   * to Google's endpoint with the default model, authorised by the key.
   */
  lemma DefaultsApplied(env: Env, body: RequestBody, apiKey: string)
    requires !Truthy(env.apiBaseUrl) && !Truthy(env.modelId)
    ensures var req := BuildUpstreamRequest(env, body, apiKey);
      && req.url == DefaultBaseUrl + VersionedChatPath
      && req.payload.model == DefaultModel
      && req.authorization == "Bearer " + apiKey
  {
    DefaultBaseUrlNormalized();
  }

  lemma DefaultBaseUrlNormalized()
    ensures NormalizeUrl(DefaultBaseUrl) == DefaultBaseUrl + VersionedChatPath
  {
    DefaultBaseUrlStripped();
    DefaultBaseUrlUnversioned();
  }

  lemma DefaultBaseUrlStripped()
    ensures StrippedBase(DefaultBaseUrl) == DefaultBaseUrl
  {
    var b := DefaultBaseUrl;
    assert b[0] == 'h' && b[|b| - 1] == 'm';
    StrippedBaseOfTrimmed(b);
  }

  lemma DefaultBaseUrlUnversioned()
    ensures !EndsWith(DefaultBaseUrl, ChatPath) && !EndsWith(DefaultBaseUrl, "/v1")
  {
    NotEndsWith(DefaultBaseUrl, ChatPath, 6);
    NotEndsWith(DefaultBaseUrl, "/v1", 0);
  }

  /** A string whose tail differs from the suffix at one position does not end with it. */
  lemma NotEndsWith(s: string, suffix: string, k: nat)
    requires k < |suffix| <= |s| && s[|s| - |suffix| + k] != suffix[k]
    ensures !EndsWith(s, suffix)
  {
  }
}
