/**
  The Gemini backend of the Rust app (`GeminiClient`): one `generateContent`
  request per recognition, one message back to the app on every path.
  The HTTP transport, base64 encoding and JSON text parsing are foreign: the
  model takes them as function parameters and states what is handed to them and
  what is made of their answers.
*/
module Gemini {
  import opened Common
  import opened Json
  import Text

  const MODEL := "gemini-2.5-flash-lite"
  const EXTRACT_PROMPT := "Extrae cualquier texto visible en esta imagen. Responde únicamente con el texto extraído."
  const TRANSLATE_PROMPT := "Traduce el texto en la imagen al español, solo responde con la traducción"
  const MIME_PNG := "image/png"
  const URL_PREFIX := "https://generativelanguage.googleapis.com/v1beta/models/"
  const URL_SUFFIX := ":generateContent"
  const KEY_HEADER := "X-goog-api-key"
  const DECODE_ERROR_PREFIX := "[gemini.rs] Error al decodificar JSON: "
  const API_ERROR_PREFIX := "[gemini.rs] Error de API: "
  const NETWORK_ERROR_PREFIX := "[gemini.rs] Error de red: "
  const UNREADABLE_BODY := "Cuerpo del error ilegible"

  datatype Client = Client(model: string, prompt: string)

  /** `GeminiClient::new`; `translate` is the `gemini_translate` feature. */
  function New(translate: bool): (c: Client)
    ensures c.model == MODEL
    ensures c.prompt == if translate then TRANSLATE_PROMPT else EXTRACT_PROMPT
  {
    Client(MODEL, if translate then TRANSLATE_PROMPT else EXTRACT_PROMPT)
  }

  // ---------------------------------------------------------------- request

  datatype InlineData = InlineData(mimeType: string, data: string)
  datatype Part = Part(text: Option<string>, inlineData: Option<InlineData>)
  datatype Content = Content(parts: seq<Part>)
  datatype GeminiRequest = GeminiRequest(contents: seq<Content>)

  /** The request body built in `generate` around the prompt and the base64 image. */
  function BuildRequest(c: Client, base64Image: string): (r: GeminiRequest)
    ensures |r.contents| == 1 && |r.contents[0].parts| == 2
    ensures r.contents[0].parts[0] == Part(Some(c.prompt), None)
    ensures r.contents[0].parts[1] == Part(None, Some(InlineData(MIME_PNG, base64Image)))
  {
    GeminiRequest([Content([Part(Some(c.prompt), None), Part(None, Some(InlineData(MIME_PNG, base64Image)))])])
  }

  /** The serde form of `InlineData` (`rename_all = "camelCase"`). */
  function InlineDataJson(d: InlineData): (j: Json)
    ensures j.JObject? && j.members.Keys == {"mimeType", "data"}
  {
    JObject(map["mimeType" := JString(d.mimeType), "data" := JString(d.data)])
  }

  /** The serde form of `Part`: a field that is `None` is left out (`skip_serializing_if`). */
  function PartJson(p: Part): (j: Json)
    ensures j.JObject?
    ensures "text" in j.members <==> p.text.Some?
    ensures "inline_data" in j.members <==> p.inlineData.Some?
    ensures j.members.Keys <= {"text", "inline_data"}
  {
    var t: map<string, Json> := if p.text.Some? then map["text" := JString(p.text.value)] else map[];
    var d: map<string, Json> := if p.inlineData.Some? then map["inline_data" := InlineDataJson(p.inlineData.value)] else map[];
    JObject(t + d)
  }

  function PartsJson(ps: seq<Part>): (j: Json)
    ensures j.JArray? && |j.items| == |ps|
  {
    JArray(seq(|ps|, i requires 0 <= i < |ps| => PartJson(ps[i])))
  }

  function ContentJson(c: Content): Json {
    JObject(map["parts" := PartsJson(c.parts)])
  }

  function ContentsJson(cs: seq<Content>): (j: Json)
    ensures j.JArray? && |j.items| == |cs|
  {
    JArray(seq(|cs|, i requires 0 <= i < |cs| => ContentJson(cs[i])))
  }

  /** The body `reqwest` posts: `{"contents":[{"parts":[...]}]}`. */
  function RequestJson(r: GeminiRequest): Json {
    JObject(map["contents" := ContentsJson(r.contents)])
  }

  /** A reader of request bodies, the inverse the serialisation is checked against. */
  function InlineDataOf(j: Json): Option<InlineData> {
    if HasMember(j, "mimeType") && HasMember(j, "data")
       && Member(j, "mimeType").JString? && Member(j, "data").JString?
    then Some(InlineData(Member(j, "mimeType").s, Member(j, "data").s))
    else None
  }

  function PartOf(j: Json): Option<Part> {
    if !j.JObject? then None
    else if HasMember(j, "text") && !Member(j, "text").JString? then None
    else if HasMember(j, "inline_data") && InlineDataOf(Member(j, "inline_data")).None? then None
    else Some(Part(
      if HasMember(j, "text") then Some(Member(j, "text").s) else None,
      if HasMember(j, "inline_data") then InlineDataOf(Member(j, "inline_data")) else None))
  }

  function PartsOf(items: seq<Json>): Option<seq<Part>> {
    if items == [] then Some([])
    else match (PartOf(items[0]), PartsOf(items[1..]))
      case (Some(p), Some(ps)) => Some([p] + ps)
      case _ => None
  }

  function ContentsOf(items: seq<Json>): Option<seq<Content>> {
    if items == [] then Some([])
    else if !HasMember(items[0], "parts") || !Member(items[0], "parts").JArray? then None
    else match (PartsOf(Member(items[0], "parts").items), ContentsOf(items[1..]))
      case (Some(ps), Some(cs)) => Some([Content(ps)] + cs)
      case _ => None
  }

  function RequestOf(j: Json): Option<GeminiRequest> {
    if HasMember(j, "contents") && Member(j, "contents").JArray? then
      match ContentsOf(Member(j, "contents").items)
      case Some(cs) => Some(GeminiRequest(cs))
      case None => None
    else None
  }

  lemma PartRoundTrip(p: Part)
    ensures PartOf(PartJson(p)) == Some(p)
  {
    var j := PartJson(p);
    if p.text.Some? {
      assert Member(j, "text") == JString(p.text.value);
    }
    if p.inlineData.Some? {
      assert Member(j, "inline_data") == InlineDataJson(p.inlineData.value);
    }
  }

  lemma {:induction false} PartsRoundTrip(ps: seq<Part>)
    ensures PartsOf(PartsJson(ps).items) == Some(ps)
  {
    if ps != [] {
      var items := PartsJson(ps).items;
      PartRoundTrip(ps[0]);
      assert items[1..] == PartsJson(ps[1..]).items;
      PartsRoundTrip(ps[1..]);
      assert [ps[0]] + ps[1..] == ps;
    }
  }

  lemma {:induction false} ContentsRoundTrip(cs: seq<Content>)
    ensures ContentsOf(ContentsJson(cs).items) == Some(cs)
  {
    if cs != [] {
      var items := ContentsJson(cs).items;
      assert items[0] == ContentJson(cs[0]);
      PartsRoundTrip(cs[0].parts);
      assert items[1..] == ContentsJson(cs[1..]).items;
      ContentsRoundTrip(cs[1..]);
      assert [cs[0]] + cs[1..] == cs;
    }
  }

  /** The serialised body carries the request exactly: reading it back gives the request. */
  lemma RequestRoundTrip(r: GeminiRequest)
    ensures RequestOf(RequestJson(r)) == Some(r)
  {
    ContentsRoundTrip(r.contents);
  }

  /** The endpoint of `generate`, with the model name in its path. */
  function Url(model: string): (u: string)
    ensures |u| == |URL_PREFIX| + |model| + |URL_SUFFIX|
    ensures u[..|URL_PREFIX|] == URL_PREFIX && u[|URL_PREFIX|..|URL_PREFIX| + |model|] == model
  {
    URL_PREFIX + model + URL_SUFFIX
  }

  /** Different models are posted to different endpoints. */
  lemma UrlInjective(a: string, b: string)
    requires Url(a) == Url(b)
    ensures a == b
  {
    assert |a| == |b|;
    assert a == Url(a)[|URL_PREFIX|..|URL_PREFIX| + |a|];
  }

  /** The header list of the post; the key from the key file is sent trimmed. */
  function Headers(apiKey: string): (hs: seq<(string, string)>)
    ensures |hs| == 2 && hs[0].0 == KEY_HEADER && hs[1] == ("Content-Type", "application/json")
    ensures hs[0].1 == Text.Trim(apiKey)
  {
    [(KEY_HEADER, Text.Trim(apiKey)), ("Content-Type", "application/json")]
  }

  /** The key header value has no whitespace at either end, and is a piece of the key file. */
  lemma KeyHeaderTrimmed(apiKey: string)
    ensures var v := Headers(apiKey)[0].1;
      && (v != [] ==> !Text.IsWhitespace(v[0]) && !Text.IsWhitespace(v[|v| - 1]))
      && (exists i, k :: 0 <= i <= k <= |apiKey| && v == apiKey[i..k])
  {
    Text.TrimShape(apiKey);
  }

  // --------------------------------------------------------------- response

  /** The fields `generate` reads: each candidate's `content.parts[*].text`. */
  datatype Candidate = Candidate(parts: seq<string>)
  datatype GeminiResponse = GeminiResponse(candidates: seq<Candidate>)

  /**
    serde's reading of the success body. Each of `GeminiResponse`, `Candidate`,
    `ResponseContent` and `ResponsePart` has one field, so each is read from an object
    (members it does not name ignored) or from an array of exactly one element.
  */
  function TextsOf(items: seq<Json>): Option<seq<string>> {
    if items == [] then Some([])
    else
      var text := StructField(items[0], "text", 0, 1);
      if text.None? || !text.value.JString? then None
      else match TextsOf(items[1..])
        case Some(ts) => Some([text.value.s] + ts)
        case None => None
  }

  function CandidatesOf(items: seq<Json>): Option<seq<Candidate>> {
    if items == [] then Some([])
    else
      var content := StructField(items[0], "content", 0, 1);
      if content.None? then None
      else
        var parts := StructField(content.value, "parts", 0, 1);
        if parts.None? || !parts.value.JArray? then None
        else match (TextsOf(parts.value.items), CandidatesOf(items[1..]))
          case (Some(ts), Some(cs)) => Some([Candidate(ts)] + cs)
          case _ => None
  }

  function ResponseOf(j: Json): Option<GeminiResponse> {
    var candidates := StructField(j, "candidates", 0, 1);
    if candidates.Some? && candidates.value.JArray? then
      match CandidatesOf(candidates.value.items)
      case Some(cs) => Some(GeminiResponse(cs))
      case None => None
    else None
  }

  /** The smallest body that carries a response, for stating what serde accepts. */
  function TextsJson(ts: seq<string>): (j: Json)
    ensures j.JArray? && |j.items| == |ts|
  {
    JArray(seq(|ts|, i requires 0 <= i < |ts| => JObject(map["text" := JString(ts[i])])))
  }

  function CandidatesJson(cs: seq<Candidate>): (j: Json)
    ensures j.JArray? && |j.items| == |cs|
  {
    JArray(seq(|cs|, i requires 0 <= i < |cs| =>
      JObject(map["content" := JObject(map["parts" := TextsJson(cs[i].parts)])])))
  }

  function ResponseJson(r: GeminiResponse): Json {
    JObject(map["candidates" := CandidatesJson(r.candidates)])
  }

  lemma {:induction false} TextsRoundTrip(ts: seq<string>)
    ensures TextsOf(TextsJson(ts).items) == Some(ts)
  {
    if ts != [] {
      var items := TextsJson(ts).items;
      assert StructField(items[0], "text", 0, 1) == Some(JString(ts[0]));
      assert items[1..] == TextsJson(ts[1..]).items;
      TextsRoundTrip(ts[1..]);
      assert [ts[0]] + ts[1..] == ts;
    }
  }

  lemma {:induction false} CandidatesRoundTrip(cs: seq<Candidate>)
    ensures CandidatesOf(CandidatesJson(cs).items) == Some(cs)
  {
    if cs != [] {
      var items := CandidatesJson(cs).items;
      var content := JObject(map["parts" := TextsJson(cs[0].parts)]);
      assert StructField(items[0], "content", 0, 1) == Some(content);
      assert StructField(content, "parts", 0, 1) == Some(TextsJson(cs[0].parts));
      TextsRoundTrip(cs[0].parts);
      assert items[1..] == CandidatesJson(cs[1..]).items;
      CandidatesRoundTrip(cs[1..]);
      assert [cs[0]] + cs[1..] == cs;
    }
  }

  /** Every response has a body serde reads back as that response. */
  lemma ResponseRoundTrip(r: GeminiResponse)
    ensures ResponseOf(ResponseJson(r)) == Some(r)
  {
    CandidatesRoundTrip(r.candidates);
  }

  /** The same response written in serde's array form: every struct as the array of its fields. */
  function TextsArrayJson(ts: seq<string>): (j: Json)
    ensures j.JArray? && |j.items| == |ts|
  {
    JArray(seq(|ts|, i requires 0 <= i < |ts| => JArray([JString(ts[i])])))
  }

  function CandidatesArrayJson(cs: seq<Candidate>): (j: Json)
    ensures j.JArray? && |j.items| == |cs|
  {
    JArray(seq(|cs|, i requires 0 <= i < |cs| => JArray([JArray([TextsArrayJson(cs[i].parts)])])))
  }

  function ResponseArrayJson(r: GeminiResponse): Json {
    JArray([CandidatesArrayJson(r.candidates)])
  }

  lemma {:induction false} TextsArrayRoundTrip(ts: seq<string>)
    ensures TextsOf(TextsArrayJson(ts).items) == Some(ts)
  {
    if ts != [] {
      var items := TextsArrayJson(ts).items;
      assert StructField(items[0], "text", 0, 1) == Some(JString(ts[0]));
      assert items[1..] == TextsArrayJson(ts[1..]).items;
      TextsArrayRoundTrip(ts[1..]);
      assert [ts[0]] + ts[1..] == ts;
    }
  }

  lemma {:induction false} CandidatesArrayRoundTrip(cs: seq<Candidate>)
    ensures CandidatesOf(CandidatesArrayJson(cs).items) == Some(cs)
  {
    if cs != [] {
      var items := CandidatesArrayJson(cs).items;
      var content := JArray([TextsArrayJson(cs[0].parts)]);
      assert StructField(items[0], "content", 0, 1) == Some(content);
      assert StructField(content, "parts", 0, 1) == Some(TextsArrayJson(cs[0].parts));
      TextsArrayRoundTrip(cs[0].parts);
      assert items[1..] == CandidatesArrayJson(cs[1..]).items;
      CandidatesArrayRoundTrip(cs[1..]);
      assert [cs[0]] + cs[1..] == cs;
    }
  }

  /** serde also reads every response back from its array form. */
  lemma ResponseArrayRoundTrip(r: GeminiResponse)
    ensures ResponseOf(ResponseArrayJson(r)) == Some(r)
  {
    CandidatesArrayRoundTrip(r.candidates);
  }

  /** `{"candidates":[[[[["hola"]]]]]}`: a candidate, its content and its part each in array form. */
  lemma ArrayFormCandidateRead()
    ensures var j := JObject(map["candidates" := JArray([JArray([JArray([JArray([JArray([JString("hola")])])])])])]);
      ResponseOf(j) == Some(GeminiResponse([Candidate(["hola"])]))
      && FirstText(ResponseOf(j).value) == "hola"
  {
    var cs := [Candidate(["hola"])];
    var candidate := JArray([JArray([JArray([JArray([JString("hola")])])])]);
    assert TextsArrayJson(["hola"]).items == [JArray([JString("hola")])];
    assert CandidatesArrayJson(cs).items == [candidate];
    CandidatesArrayRoundTrip(cs);
  }

  /** The text sent on success: the first candidate's first part, or "" when either is missing. */
  function FirstText(r: GeminiResponse): (t: string)
    ensures |r.candidates| > 0 && |r.candidates[0].parts| > 0 ==> t == r.candidates[0].parts[0]
    ensures r.candidates == [] || r.candidates[0].parts == [] ==> t == ""
  {
    if |r.candidates| > 0 && |r.candidates[0].parts| > 0 then r.candidates[0].parts[0] else ""
  }

  // ---------------------------------------------------------------- generate

  /** What the transport is given: endpoint, headers and JSON body. */
  datatype Post = Post(url: string, headers: seq<(string, string)>, body: Json)

  /** The body of an answer as `reqwest` reads it, or the read error. */
  datatype Body = Read(text: string) | Unreadable(error: string)

  /**
    What the transport makes of a post: an HTTP answer (its status code, the
    status as `StatusCode`'s `Display` prints it, its body) or a network error.
  */
  datatype Answer = Answered(status: nat, statusText: string, body: Body) | NetworkError(error: string)

  predicate IsSuccess(status: nat) {
    200 <= status < 300
  }

  /**
    `generate`: the one message it sends to the app. `parse` is serde_json's
    text parser and `describe` the text of serde's error for a body that does not
    decode.
  */
  function Generate(c: Client, image: seq<uint8>, apiKey: string, encode: seq<uint8> -> string,
                    send: Post -> Answer, parse: string -> Option<Json>, describe: string -> string): (m: string)
  {
    var post := Post(Url(c.model), Headers(apiKey), RequestJson(BuildRequest(c, encode(image))));
    match send(post)
    case NetworkError(e) => NETWORK_ERROR_PREFIX + e
    case Answered(status, statusText, body) =>
      if !IsSuccess(status) then
        API_ERROR_PREFIX + statusText + " - " + (if body.Read? then body.text else UNREADABLE_BODY)
      else if body.Unreadable? then DECODE_ERROR_PREFIX + body.error
      else if parse(body.text).None? || ResponseOf(parse(body.text).value).None? then
        DECODE_ERROR_PREFIX + describe(body.text)
      else FirstText(ResponseOf(parse(body.text).value).value)
  }

  /**
    The message on each path: a well-formed success body gives its first text;
    a failure status reports status and body; a bad body or a network error is
    reported with its own prefix. The post that is sent carries the client's
    model in the URL, the trimmed key and the two-part request.
  */
  lemma GenerateOutcome(c: Client, image: seq<uint8>, apiKey: string, encode: seq<uint8> -> string,
                        send: Post -> Answer, parse: string -> Option<Json>, describe: string -> string)
    ensures var post := Post(Url(c.model), Headers(apiKey), RequestJson(BuildRequest(c, encode(image))));
      var m := Generate(c, image, apiKey, encode, send, parse, describe);
      && RequestOf(post.body) == Some(BuildRequest(c, encode(image)))
      && (send(post).NetworkError? ==> m == NETWORK_ERROR_PREFIX + send(post).error)
      && (send(post).Answered? && !IsSuccess(send(post).status) ==>
            m == API_ERROR_PREFIX + send(post).statusText + " - "
                 + (if send(post).body.Read? then send(post).body.text else UNREADABLE_BODY))
      && (send(post).Answered? && IsSuccess(send(post).status) && send(post).body.Read?
          && parse(send(post).body.text).Some? && ResponseOf(parse(send(post).body.text).value).Some? ==>
            m == FirstText(ResponseOf(parse(send(post).body.text).value).value))
      && (send(post).Answered? && IsSuccess(send(post).status) && send(post).body.Unreadable? ==>
            m == DECODE_ERROR_PREFIX + send(post).body.error)
      && (send(post).Answered? && IsSuccess(send(post).status) && send(post).body.Read?
          && (parse(send(post).body.text).None? || ResponseOf(parse(send(post).body.text).value).None?) ==>
            m == DECODE_ERROR_PREFIX + describe(send(post).body.text))
  {
    RequestRoundTrip(BuildRequest(c, encode(image)));
  }

  /**
    A success answer whose body holds the response `r` delivers `r`'s first
    text, whatever else the body holds.
  */
  lemma SuccessDeliversFirstText(c: Client, image: seq<uint8>, apiKey: string, encode: seq<uint8> -> string,
                                 send: Post -> Answer, parse: string -> Option<Json>, describe: string -> string,
                                 r: GeminiResponse)
    requires var post := Post(Url(c.model), Headers(apiKey), RequestJson(BuildRequest(c, encode(image))));
      && send(post).Answered? && IsSuccess(send(post).status) && send(post).body.Read?
      && parse(send(post).body.text) == Some(ResponseJson(r))
    ensures Generate(c, image, apiKey, encode, send, parse, describe) == FirstText(r)
  {
    ResponseRoundTrip(r);
  }
}
