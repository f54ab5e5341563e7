/**
 * `AiMetadataRefiner`: an optional call to an OpenAI-style chat-completions endpoint that
 * normalizes a title and description. The model covers the gating, the request it builds,
 * the reading of the reply and the collapse of every failure into "no change". Sending the
 * request and parsing JSON text are parameters.
 */
module Refiner {
  import opened Wrappers
  import opened Text
  import opened Configuration

  /** A parsed JSON value (`JsonElement`); an object maps each property name to its value. */
  datatype Json =
    | JNull
    | JBool(b: bool)
    | JNumber(literal: string)
    | JString(s: string)
    | JArray(items: seq<Json>)
    | JObject(fields: map<string, Json>)

  /** The outcome of a step that may throw. */
  datatype Attempt<T> = Ok(value: T) | Thrown

  /** What sending the request gives: a status and the body read from it, or an exception. */
  datatype HttpOutcome = Response(status: int, body: string) | Failed

  /** A chat message of the request body. */
  datatype ChatMessage = ChatMessage(role: string, content: string)

  /** `ChatCompletionRequest` without its fixed temperature. */
  datatype ChatRequest = ChatRequest(model: NString, messages: seq<ChatMessage>)

  /** The POST request: endpoint, bearer token and body. */
  datatype HttpRequest = HttpRequest(endpoint: string, bearerToken: NString, payload: ChatRequest)

  /** The refined pair. */
  type Refined = (string, string)

  // ---------------------------------------------------------------- endpoint

  const DefaultBaseUrl := "https://api.openai.com/v1"
  const ChatCompletionsPath := "/chat/completions"

  /** The base URL used: the default for a blank one, else trimmed and without trailing slashes. */
  function SanitizedBase(baseUrl: NString): (r: string)
    ensures IsNullOrWhiteSpace(baseUrl) ==> r == DefaultBaseUrl
    ensures !IsNullOrWhiteSpace(baseUrl) ==> r == [] || r[|r| - 1] != '/'
    ensures !IsNullOrWhiteSpace(baseUrl) ==>
      var t := Trim(baseUrl.value);
      |r| <= |t| && r == t[..|r|] && forall i :: |r| <= i < |t| ==> t[i] == '/'
  {
    if IsNullOrWhiteSpace(baseUrl) then DefaultBaseUrl else TrimEndChar(Trim(baseUrl.value), '/')
  }

  /** `BuildEndpoint`. */
  function BuildEndpoint(baseUrl: NString): (r: string)
    ensures |r| >= |ChatCompletionsPath| && r[|r| - |ChatCompletionsPath|..] == ChatCompletionsPath
    ensures IsNullOrWhiteSpace(baseUrl) ==> r == DefaultBaseUrl + ChatCompletionsPath
  {
    var b := SanitizedBase(baseUrl);
    assert (b + ChatCompletionsPath)[|b|..] == ChatCompletionsPath;
    b + ChatCompletionsPath
  }

  /** `n` slashes. */
  function Slashes(n: nat): (r: string)
    ensures |r| == n && forall i :: 0 <= i < n ==> r[i] == '/'
  {
    if n == 0 then "" else Slashes(n - 1) + "/"
  }

  /** `TrimEnd('/')` removes the slashes appended to a text. */
  lemma {:induction false} TrimEndCharSlashes(s: string, n: nat)
    ensures TrimEndChar(s + Slashes(n), '/') == TrimEndChar(s, '/')
    decreases n
  {
    if n > 0 {
      var x := s + Slashes(n);
      assert x[|x| - 1] == '/';
      assert x[..|x| - 1] == s + Slashes(n - 1);
      TrimEndCharSlashes(s, n - 1);
    } else {
      assert s + Slashes(0) == s;
    }
  }

  /**
   * A base URL with non-space characters at both ends gives the same endpoint with any number
   * of slashes appended.
   */
  lemma EndpointIgnoresTrailingSlashes(b: string, n: nat)
    requires b != [] && !IsSpace(b[0]) && !IsSpace(b[|b| - 1])
    ensures BuildEndpoint(Some(b + Slashes(n))) == BuildEndpoint(Some(b))
  {
    var s := b + Slashes(n);
    assert s[0] == b[0];
    assert !IsSpace(s[|s| - 1]) by {
      if n == 0 { assert s == b; }
    }
    assert !IsBlank(s) && !IsBlank(b) by { assert !IsSpace(s[0]); assert !IsSpace(b[0]); }
    TrimKeeps(s);
    TrimKeeps(b);
    TrimEndCharSlashes(b, n);
  }

  /**
   * A base URL with non-space characters at both ends and no final slash is used as it is,
   * whatever number of slashes follow it.
   */
  lemma EndpointOfPlainBase(b: string, n: nat)
    requires b != [] && !IsSpace(b[0]) && !IsSpace(b[|b| - 1]) && b[|b| - 1] != '/'
    ensures BuildEndpoint(Some(b + Slashes(n))) == b + ChatCompletionsPath
  {
    EndpointIgnoresTrailingSlashes(b, n);
    assert !IsBlank(b) by { assert !IsSpace(b[0]); }
    TrimKeeps(b);
  }

  /** "https://x/v1" gives "https://x/v1/chat/completions". */
  lemma EndpointExample(b: string)
    requires b == "https://x/v1"
    ensures BuildEndpoint(Some(b)) == b + "/chat/completions"
  {
    assert b + Slashes(0) == b;
    EndpointOfPlainBase(b, 0);
  }

  /** White space before the base URL is trimmed away. */
  lemma EndpointIgnoresLeadingSpace(w: string, b: string)
    requires IsBlank(w)
    ensures BuildEndpoint(Some(w + b)) == BuildEndpoint(Some(b))
  {
    TrimStartSkipsSpaces(w, b);
    assert IsBlank(w + b) <==> IsBlank(b) by {
      if IsBlank(b) {
        assert forall i :: 0 <= i < |w + b| ==> IsSpace((w + b)[i]) by {
          forall i | 0 <= i < |w + b| ensures IsSpace((w + b)[i]) {
            if i >= |w| { assert (w + b)[i] == b[i - |w|]; }
          }
        }
      } else {
        var k :| 0 <= k < |b| && !IsSpace(b[k]);
        assert (w + b)[|w| + k] == b[k];
      }
    }
  }

  /**
   * White space before a trailing slash is kept: with `t` not ending in a slash, `t + " "`
   * gives the endpoint of `t` but `t + " /"` one with the space in it.
   */
  lemma EndpointKeepsSpaceBeforeSlash(t: string)
    requires t != [] && !IsSpace(t[0]) && !IsSpace(t[|t| - 1]) && t[|t| - 1] != '/'
    ensures BuildEndpoint(Some(t + " ")) == t + ChatCompletionsPath
    ensures BuildEndpoint(Some(t + " /")) == t + " " + ChatCompletionsPath
  {
    var b := t + " ";
    var c := t + " /";
    assert b[0] == t[0] && c[0] == t[0];
    assert !IsBlank(b) && !IsBlank(c) by { assert !IsSpace(b[0]); assert !IsSpace(c[0]); }
    TrimStartKeeps(b);
    assert b[..|b| - 1] == t;
    TrimEndKeeps(t);
    assert Trim(b) == t;
    TrimKeeps(c);
    assert c[..|c| - 1] == t + " ";
    assert TrimEndChar(c, '/') == t + " ";
  }

  // ---------------------------------------------------------------- request

  const DescriptionSystemPrompt := "Normalize YouTube metadata. Return compact JSON with keys title and description."
  const TitleSystemPrompt := "Normalize YouTube metadata title. Return compact JSON with keys title and description."

  /** The system prompt: one of two fixed texts, chosen by the description-cleanup flag. */
  function SystemPrompt(refineDescription: bool): string {
    if refineDescription then DescriptionSystemPrompt else TitleSystemPrompt
  }

  /** The user prompt, a null title or description written as empty. */
  function UserPrompt(title: NString, description: NString): string {
    "Title:\n" + title.GetOr("") + "\n\nDescription:\n" + description.GetOr("") + "\n\nReturn only JSON."
  }

  /** `BuildRequestPayload`: the model, then a system and a user message. */
  function BuildRequestPayload(model: NString, title: NString, description: NString, refineDescription: bool): (r: ChatRequest)
    ensures r.model == model && |r.messages| == 2
    ensures r.messages[0] == ChatMessage("system", SystemPrompt(refineDescription))
    ensures r.messages[1] == ChatMessage("user", UserPrompt(title, description))
  {
    ChatRequest(model, [
      ChatMessage("system", SystemPrompt(refineDescription)),
      ChatMessage("user", UserPrompt(title, description))])
  }

  /** The two system prompts differ, so the flag is visible in every request. */
  lemma SystemPromptsDiffer()
    ensures SystemPrompt(true) != SystemPrompt(false)
  {
    assert |DescriptionSystemPrompt| != |TitleSystemPrompt|;
  }

  /** The user prompt opens with the title and closes with the instruction. */
  lemma UserPromptLayout(title: string, description: string)
    ensures var p := UserPrompt(Some(title), Some(description));
      p[..7 + |title|] == "Title:\n" + title &&
      p[|p| - 19..] == "\n\nReturn only JSON." &&
      UserPrompt(None, None) == UserPrompt(Some(""), Some(""))
  {
    var p := UserPrompt(Some(title), Some(description));
    var head := "Title:\n" + title;
    var mid := "\n\nDescription:\n" + description;
    var tail := "\n\nReturn only JSON.";
    assert p == head + mid + tail;
    assert |tail| == 19;
  }

  // ---------------------------------------------------------------- reading the reply

  /** `ExtractJsonObject`: from the first `{` to the last `}`, or empty. */
  function ExtractJsonObject(text: string): (r: string)
    ensures r == "" <==> '{' !in text || '}' !in text || LastIndexOf(text, '}') < IndexOf(text, '{')
    ensures r != "" ==> |r| >= 2 && r[0] == '{' && r[|r| - 1] == '}'
    ensures r != "" ==> exists i :: OccursAt(text, r, i) && '{' !in text[..i] && '}' !in text[i + |r|..]
  {
    var start := IndexOf(text, '{');
    var end := LastIndexOf(text, '}');
    if start < 0 || end <= start then ""
    else
      var r := text[start..end + 1];
      assert OccursAt(text, r, start);
      r
  }

  /** Extracting again changes nothing. */
  lemma ExtractJsonObjectIdempotent(text: string)
    ensures ExtractJsonObject(ExtractJsonObject(text)) == ExtractJsonObject(text)
  {
    var r := ExtractJsonObject(text);
    if r != "" {
      IndexOfIs(r, '{', 0);
      LastIndexOfIs(r, '}', |r| - 1);
      assert r[0..|r|] == r;
    }
  }

  /** `element.GetString()`: a string, null for a JSON null, and it throws for anything else. */
  function GetString(e: Json): Attempt<NString> {
    match e
    case JNull => Ok(None)
    case JString(s) => Ok(Some(s))
    case _ => Thrown
  }

  /** `element.GetProperty(name)`: throws when the element is no object or lacks the property. */
  function GetProperty(e: Json, name: string): Attempt<Json> {
    if e.JObject? && name in e.fields then Ok(e.fields[name]) else Thrown
  }

  /** `TryGetProperty(name, out v) ? v.GetString() ?? "" : ""` on an object. */
  function StringProperty(fields: map<string, Json>, name: string): Attempt<string> {
    if name !in fields then Ok("")
    else match GetString(fields[name])
      case Ok(s) => Ok(s.GetOr(""))
      case Thrown => Thrown
  }

  /** `choices[0].GetProperty("message").GetProperty("content").GetString()`. */
  function MessageContent(choice: Json): Attempt<NString> {
    match GetProperty(choice, "message")
    case Thrown => Thrown
    case Ok(message) =>
      match GetProperty(message, "content")
      case Thrown => Thrown
      case Ok(content) => GetString(content)
  }

  /** The refined pair read from the extracted object. */
  function RefinedFromObject(e: Json): (r: Attempt<Option<Refined>>)
    ensures r.Ok? && r.value.Some? ==> !(IsBlank(r.value.value.0) && IsBlank(r.value.value.1))
  {
    if !e.JObject? then Thrown
    else match (StringProperty(e.fields, "title"), StringProperty(e.fields, "description"))
      case (Ok(title), Ok(description)) =>
        if IsBlank(title) && IsBlank(description) then Ok(None) else Ok(Some((title, description)))
      case _ => Thrown
  }

  /**
   * `ParseRefinedPayload`: `parse` stands for `JsonDocument.Parse`, `None` where it throws;
   * `Thrown` is an exception leaving the method, `Ok(None)` its null.
   */
  function ParseRefinedPayload(responseContent: string, parse: string -> Option<Json>): (r: Attempt<Option<Refined>>)
    ensures r.Ok? && r.value.Some? ==> !(IsBlank(r.value.value.0) && IsBlank(r.value.value.1))
  {
    match parse(responseContent)
    case None => Thrown
    case Some(root) =>
      if !root.JObject? then Thrown
      else if "choices" !in root.fields || !root.fields["choices"].JArray? || |root.fields["choices"].items| == 0 then Ok(None)
      else
        match MessageContent(root.fields["choices"].items[0])
        case Thrown => Thrown
        case Ok(content) =>
          if IsNullOrWhiteSpace(content) then Ok(None)
          else
            var cleanJson := ExtractJsonObject(content.value);
            if IsBlank(cleanJson) then Ok(None)
            else
              match parse(cleanJson)
              case None => Thrown
              case Some(parsed) => RefinedFromObject(parsed)
  }

  /** A reply object without usable choices gives no result. */
  lemma NoChoicesNoResult(responseContent: string, parse: string -> Option<Json>, fields: map<string, Json>)
    requires parse(responseContent) == Some(JObject(fields))
    requires "choices" !in fields || !fields["choices"].JArray? || fields["choices"].items == []
    ensures ParseRefinedPayload(responseContent, parse) == Ok(None)
  {
  }

  /**
   * A first choice whose content is null or white space, or holds no object to extract,
   * gives no result.
   */
  lemma UnusableContentNoResult(responseContent: string, parse: string -> Option<Json>, fields: map<string, Json>, content: NString)
    requires parse(responseContent) == Some(JObject(fields))
    requires "choices" in fields && fields["choices"].JArray? && |fields["choices"].items| > 0
    requires MessageContent(fields["choices"].items[0]) == Ok(content)
    requires IsNullOrWhiteSpace(content) || IsBlank(ExtractJsonObject(content.value))
    ensures ParseRefinedPayload(responseContent, parse) == Ok(None)
  {
  }

  /** The reply shape of a chat-completions endpoint whose first choice carries `content`. */
  function ReplyWithContent(content: string): Json {
    JObject(map["choices" := JArray([JObject(map["message" := JObject(map["content" := JString(content)])])])])
  }

  /** The first choice of such a reply yields its content. */
  lemma ReplyContent(content: string)
    ensures var root := ReplyWithContent(content);
      && root.JObject? && "choices" in root.fields && root.fields["choices"].JArray?
      && |root.fields["choices"].items| == 1
      && MessageContent(root.fields["choices"].items[0]) == Ok(Some(content))
  {
    var message := JObject(map["content" := JString(content)]);
    var choice := JObject(map["message" := message]);
    assert GetProperty(choice, "message") == Ok(message);
    assert GetProperty(message, "content") == Ok(JString(content));
  }

  /** A reply whose content is blank, or has no `{ ... }` span, gives no result. */
  lemma UnusableReplyNoResult(responseContent: string, parse: string -> Option<Json>, content: string)
    requires parse(responseContent) == Some(ReplyWithContent(content))
    requires IsBlank(content) || ExtractJsonObject(content) == ""
    ensures ParseRefinedPayload(responseContent, parse) == Ok(None)
  {
    ReplyContent(content);
    var root := ReplyWithContent(content);
    UnusableContentNoResult(responseContent, parse, root.fields, Some(content));
  }

  /** An object of strings is read as its title and description, each missing one as empty. */
  lemma StringObject(fields: map<string, Json>)
    requires forall k :: k in fields ==> fields[k].JString?
    ensures StringProperty(fields, "title") == Ok(if "title" in fields then fields["title"].s else "")
    ensures StringProperty(fields, "description") == Ok(if "description" in fields then fields["description"].s else "")
  {
  }

  /**
   * A well-formed reply: the object in its content is read as its title and description,
   * each missing one read as empty.
   */
  lemma WellFormedReply(responseContent: string, parse: string -> Option<Json>, content: string, fields: map<string, Json>)
    requires parse(responseContent) == Some(ReplyWithContent(content))
    requires !IsBlank(content) && ExtractJsonObject(content) != ""
    requires parse(ExtractJsonObject(content)) == Some(JObject(fields))
    requires forall k :: k in fields ==> fields[k].JString?
    ensures var title := if "title" in fields then fields["title"].s else "";
      var description := if "description" in fields then fields["description"].s else "";
      ParseRefinedPayload(responseContent, parse) ==
        if IsBlank(title) && IsBlank(description) then Ok(None) else Ok(Some((title, description)))
  {
    ReplyContent(content);
    var clean := ExtractJsonObject(content);
    assert !IsBlank(clean) by { assert !IsSpace(clean[0]); }
    assert ParseRefinedPayload(responseContent, parse) == RefinedFromObject(JObject(fields));
    StringObject(fields);
  }

  // ---------------------------------------------------------------- the whole step

  /** `response.IsSuccessStatusCode`. */
  predicate IsSuccessStatusCode(status: int) {
    200 <= status <= 299
  }

  /** The step is switched off, or the key or the model is missing. */
  predicate Gated(config: PluginConfiguration) {
    !config.enableAiMetadataCleanup || IsNullOrWhiteSpace(config.aiApiKey) || IsNullOrWhiteSpace(config.aiModel)
  }

  /** The request `TryRefineAsync` sends, or none when the step is gated. */
  function RefineRequest(title: NString, description: NString, config: PluginConfiguration): (r: Option<HttpRequest>)
    ensures r.None? <==> Gated(config)
    ensures r.Some? ==> r.value.bearerToken == config.aiApiKey && r.value.payload.model == config.aiModel
    ensures r.Some? ==> r.value.endpoint == BuildEndpoint(config.aiBaseUrl)
  {
    if !config.enableAiMetadataCleanup then None
    else if IsNullOrWhiteSpace(config.aiApiKey) || IsNullOrWhiteSpace(config.aiModel) then None
    else
      var endpoint := BuildEndpoint(config.aiBaseUrl);
      var payload := BuildRequestPayload(config.aiModel, title, description, config.enableAiDescriptionCleanup);
      Some(HttpRequest(endpoint, config.aiApiKey, payload))
  }

  /** What the reply to a sent request gives: only a successful, usable reply gives a pair. */
  function OutcomeResult(outcome: HttpOutcome, parse: string -> Option<Json>): Option<Refined> {
    match outcome
    case Failed => None
    case Response(status, body) =>
      if !IsSuccessStatusCode(status) then None
      else
        match ParseRefinedPayload(body, parse)
        case Thrown => None
        case Ok(r) => r
  }

  /**
   * `TryRefineAsync`: `send` stands for sending the request and reading the reply body, with
   * `Failed` for any exception there, cancellation included.
   */
  function TryRefine(
    title: NString, description: NString, config: PluginConfiguration,
    send: HttpRequest -> HttpOutcome, parse: string -> Option<Json>): (r: Option<Refined>)
    ensures Gated(config) ==> r.None?
    ensures r.Some? ==> !(IsBlank(r.value.0) && IsBlank(r.value.1))
  {
    match RefineRequest(title, description, config)
    case None => None
    case Some(request) => OutcomeResult(send(request), parse)
  }

  /** With the default configuration the step is gated: no request is sent and nothing changes. */
  lemma DefaultConfigurationRefinesNothing(
    title: NString, description: NString,
    send: HttpRequest -> HttpOutcome, parse: string -> Option<Json>)
    ensures Gated(DefaultConfiguration)
    ensures RefineRequest(title, description, DefaultConfiguration).None?
    ensures TryRefine(title, description, DefaultConfiguration, send, parse).None?
  {
    DefaultConfigurationDisablesAi();
  }

  /** A pair comes back exactly when a request was built, answered with success, and read without error. */
  lemma TryRefineSomeIff(
    title: NString, description: NString, config: PluginConfiguration,
    send: HttpRequest -> HttpOutcome, parse: string -> Option<Json>, pair: Refined)
    ensures TryRefine(title, description, config, send, parse) == Some(pair) <==>
      !Gated(config) &&
      var outcome := send(RefineRequest(title, description, config).value);
      outcome.Response? && IsSuccessStatusCode(outcome.status) && ParseRefinedPayload(outcome.body, parse) == Ok(Some(pair))
  {
  }

  /** Every failure after the gate, a thrown exception included, is no change. */
  lemma FailuresAreNoChange(
    title: NString, description: NString, config: PluginConfiguration,
    send: HttpRequest -> HttpOutcome, parse: string -> Option<Json>)
    requires !Gated(config)
    ensures var outcome := send(RefineRequest(title, description, config).value);
      (outcome.Failed? ||
       (outcome.Response? && !IsSuccessStatusCode(outcome.status)) ||
       (outcome.Response? && ParseRefinedPayload(outcome.body, parse).Thrown?)) ==>
      TryRefine(title, description, config, send, parse).None?
  {
  }

  /** The request carries the configured key and model, the endpoint, and the prompts. */
  lemma RequestContents(title: NString, description: NString, config: PluginConfiguration)
    requires !Gated(config)
    ensures var request := RefineRequest(title, description, config).value;
      var e := request.endpoint;
      && e[|e| - |ChatCompletionsPath|..] == ChatCompletionsPath
      && request.payload.messages ==
           [ChatMessage("system", SystemPrompt(config.enableAiDescriptionCleanup)),
            ChatMessage("user", UserPrompt(title, description))]
  {
  }
}
