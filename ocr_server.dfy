/**
  servidorOcr/ocr_server.py: the OCR server with a choice of engine. Each
  request is decoded as an image; PaddleOCR answers with the JSON of its first
  result, and the two vision-language models (LightOnOCR and GLM-OCR) answer
  with their text as a single result spanning the whole image. An image that
  does not decode, or an engine that raises, is answered with an `error`
  object, so no request ever goes unanswered.

  Decoding the image, running the engines and `json.dumps` are libraries; they
  are parameters here.
*/
module OcrServer {
  import opened Common
  import opened Json
  import opened Geometry
  import opened SocketServer
  import Ocr
  import PaddleCpp
  import PaddleRust

  /** The `--model` choices. */
  datatype Engine = Paddle | LightOn | GlmOcr

  function EngineName(e: Engine): string {
    match e
    case Paddle => "paddle"
    case LightOn => "lighton"
    case GlmOcr => "glm-ocr"
  }

  /** argparse: no `--model` means paddle; a name outside the choices stops the program (None). */
  function EngineOf(arg: Option<string>): (e: Option<Engine>)
    ensures arg.None? ==> e == Some(Paddle)
    ensures arg.Some? ==> (e.Some? <==> arg.value in {"paddle", "lighton", "glm-ocr"})
  {
    if arg.None? then Some(Paddle)
    else if arg.value == "paddle" then Some(Paddle)
    else if arg.value == "lighton" then Some(LightOn)
    else if arg.value == "glm-ocr" then Some(GlmOcr)
    else None
  }

  lemma EngineNameRoundTrip(e: Engine)
    ensures EngineOf(Some(EngineName(e))) == Some(e)
  {
  }

  /** A decoded picture: `shape[1]` is its width and `shape[0]` its height. */
  datatype Image = Image(width: nat, height: nat, pixels: seq<uint8>)

  /** What a call into a library comes to: a value, or an exception with its `str`. */
  datatype Outcome<T> = Returned(value: T) | Raised(message: string)

  /** What `PaddleOCR.predict` returns: a list of results, each None or one with a `.json`. */
  type Prediction = seq<Option<Json>>

  /** `result[0].json` when the list is not empty and its head is not None, else `{}`. */
  function PredictionJson(result: Prediction): (j: Json)
    ensures j != EMPTY_OBJECT ==> |result| > 0 && result[0] == Some(j)
    ensures |result| > 0 && result[0].Some? ==> j == result[0].value
  {
    if |result| > 0 && result[0].Some? then result[0].value else EMPTY_OBJECT
  }

  /** The corners of the whole image, clockwise from the top left. */
  function Corners(img: Image): seq<(real, real)> {
    var w, h := img.width as real, img.height as real;
    [(0.0, 0.0), (w, 0.0), (w, h), (0.0, h)]
  }

  /** The reply of the vision-language models: one text, boxed by the whole image. */
  function WholeImageJson(text: string, img: Image): Json {
    JObject(map["rec_texts" := JArray([JString(text)]), "dt_polys" := JArray([PointsJson(Corners(img))])])
  }

  /** `do_ocr`: the engine's answer as JSON, or the exception it raised. */
  function DoOcr(engine: Engine, img: Image, predict: Image -> Outcome<Prediction>,
                 generate: (Engine, Image) -> Outcome<string>): (r: Outcome<Json>)
    ensures engine == Paddle ==> (r.Raised? <==> predict(img).Raised?)
    ensures engine != Paddle ==> (r.Raised? <==> generate(engine, img).Raised?)
    ensures engine != Paddle && r.Returned? ==> r.value == WholeImageJson(generate(engine, img).value, img)
  {
    if engine == Paddle then
      match predict(img)
      case Returned(result) => Returned(PredictionJson(result))
      case Raised(m) => Raised(m)
    else
      match generate(engine, img)
      case Returned(text) => Returned(WholeImageJson(text, img))
      case Raised(m) => Raised(m)
  }

  const INVALID_IMAGE := "IMAGEN INVALIDA"

  /** `{"error": message}`. */
  function ErrorJson(message: string): Json {
    JObject(map["error" := JString(message)])
  }

  /**
    The reply to one payload. `dumps(j, asciiOnly)` is `json.dumps`, with
    `ensure_ascii` left at its default (True) for errors and turned off for results.
  */
  function Respond(engine: Engine, payload: seq<uint8>, decode: seq<uint8> -> Option<Image>,
                   predict: Image -> Outcome<Prediction>, generate: (Engine, Image) -> Outcome<string>,
                   dumps: (Json, bool) -> string): string
  {
    var img := decode(payload);
    if img.None? then dumps(ErrorJson(INVALID_IMAGE), true)
    else
      match DoOcr(engine, img.value, predict, generate)
      case Returned(res) => dumps(res, false)
      case Raised(m) => dumps(ErrorJson(m), true)
  }

  /** The server as the shared connection loop sees it: no state, and every request answered. */
  function Handler(engine: Engine, decode: seq<uint8> -> Option<Image>, predict: Image -> Outcome<Prediction>,
                   generate: (Engine, Image) -> Outcome<string>, dumps: (Json, bool) -> string): ((), seq<uint8>) -> Handled<()>
  {
    (u: (), payload: seq<uint8>) => Reply(u, Respond(engine, payload, decode, predict, generate, dumps))
  }

  /** The replies the server means to give: one per request, in order. */
  function Replies(engine: Engine, payloads: seq<seq<uint8>>, decode: seq<uint8> -> Option<Image>,
                   predict: Image -> Outcome<Prediction>, generate: (Engine, Image) -> Outcome<string>,
                   dumps: (Json, bool) -> string): (rs: seq<string>)
    ensures |rs| == |payloads|
    ensures forall i :: 0 <= i < |payloads| ==> rs[i] == Respond(engine, payloads[i], decode, predict, generate, dumps)
  {
    seq(|payloads|, i requires 0 <= i < |payloads| => Respond(engine, payloads[i], decode, predict, generate, dumps))
  }

  /**
    Every request on a connection is answered, in order. The handler itself
    never raises: given replies `struct.pack` can frame, the connection ends in
    an exception exactly when some request announces `RECV_LIMIT` bytes or more,
    on which `recvall` raises `OverflowError`.
  */
  lemma {:induction false} AlwaysAnswers(engine: Engine, payloads: seq<seq<uint8>>, decode: seq<uint8> -> Option<Image>,
                                         predict: Image -> Outcome<Prediction>, generate: (Engine, Image) -> Outcome<string>,
                                         dumps: (Json, bool) -> string)
    requires forall i :: 0 <= i < |payloads| ==> !TooLong(Respond(engine, payloads[i], decode, predict, generate, dumps))
    ensures var r := Conversation(payloads, (), Handler(engine, decode, predict, generate, dumps));
      && (r.crashed <==> exists i :: 0 <= i < |payloads| && |payloads[i]| >= RECV_LIMIT)
      && (!r.crashed ==> r.replies == Replies(engine, payloads, decode, predict, generate, dumps))
  {
    if payloads != [] && |payloads[0]| < RECV_LIMIT {
      AlwaysAnswers(engine, payloads[1..], decode, predict, generate, dumps);
      var rest := Replies(engine, payloads[1..], decode, predict, generate, dumps);
      assert Replies(engine, payloads, decode, predict, generate, dumps)
          == [Respond(engine, payloads[0], decode, predict, generate, dumps)] + rest;
    }
  }

  /** The same, read off the bytes of a connection whose client sends framed requests and stops. */
  lemma ConnectionAnswersAll(engine: Engine, payloads: seq<seq<uint8>>, decode: seq<uint8> -> Option<Image>,
                             predict: Image -> Outcome<Prediction>, generate: (Engine, Image) -> Outcome<string>,
                             dumps: (Json, bool) -> string)
    requires forall i :: 0 <= i < |payloads| ==> 0 < |payloads[i]| < TWO_TO_THE_64
    requires forall i :: 0 <= i < |payloads| ==> !TooLong(Respond(engine, payloads[i], decode, predict, generate, dumps))
    ensures var r := Served(Requests(payloads), (), true, Handler(engine, decode, predict, generate, dumps));
      && (r.crashed <==> exists i :: 0 <= i < |payloads| && |payloads[i]| >= RECV_LIMIT)
      && (!r.crashed ==> r.replies == Replies(engine, payloads, decode, predict, generate, dumps))
  {
    ServedRequests(payloads, (), Handler(engine, decode, predict, generate, dumps));
    AlwaysAnswers(engine, payloads, decode, predict, generate, dumps);
  }

  /** A payload that is not an image is answered with the error object, whatever the engine. */
  lemma InvalidImageAnswered(engine: Engine, payload: seq<uint8>, decode: seq<uint8> -> Option<Image>,
                             predict: Image -> Outcome<Prediction>, generate: (Engine, Image) -> Outcome<string>,
                             dumps: (Json, bool) -> string)
    requires decode(payload).None?
    ensures Handler(engine, decode, predict, generate, dumps)((), payload)
         == Reply((), dumps(ErrorJson(INVALID_IMAGE), true))
  {
  }

  /** An engine that raises is answered with its message in the error object. */
  lemma EngineErrorAnswered(engine: Engine, payload: seq<uint8>, decode: seq<uint8> -> Option<Image>,
                            predict: Image -> Outcome<Prediction>, generate: (Engine, Image) -> Outcome<string>,
                            dumps: (Json, bool) -> string)
    requires decode(payload).Some?
    requires var img := decode(payload).value;
      if engine == Paddle then predict(img).Raised? else generate(engine, img).Raised?
    ensures var img := decode(payload).value;
      var m := if engine == Paddle then predict(img).message else generate(engine, img).message;
      Respond(engine, payload, decode, predict, generate, dumps) == dumps(ErrorJson(m), true)
  {
  }

  // ------------------------------------------------------------ what the clients make of it

  /**
    The C++ client reads a vision-language reply as one result: the text,
    boxed by the whole image.
  */
  lemma WholeImageReadByCpp(text: string, img: Image, numText: real -> string)
    ensures PaddleCpp.Describes(WholeImageJson(text, img), numText,
      PaddleCpp.Walked([Ocr.OcrResult(text, Point(0.0, 0.0), Point(img.width as real, img.height as real))]))
  {
    var root := WholeImageJson(text, img);
    var polys := root.members["dt_polys"];
    assert PaddleCpp.ResObj(root) == root;
    assert PaddleCpp.At(polys, 0) == PointsJson(Corners(img));
    WholeImageBox(img);
    var texts := root.members["rec_texts"];
    assert PaddleCpp.Pairs(texts, polys) == 1;
    assert PaddleCpp.PairOk(texts, polys, 0);
    assert PaddleCpp.BoxedResult(PaddleCpp.At(texts, 0), PaddleCpp.At(polys, 0), numText,
      Ocr.OcrResult(text, Point(0.0, 0.0), Point(img.width as real, img.height as real)));
  }

  /** The C++ client reads the whole-image polygon as the box of the whole image. */
  lemma WholeImageBox(img: Image)
    ensures PaddleCpp.Corners(PointsJson(Corners(img)))
    ensures PaddleCpp.IsBoundingBox(PointsJson(Corners(img)), Point(0.0, 0.0), Point(img.width as real, img.height as real))
  {
    var poly := PointsJson(Corners(img));
    var w, h := img.width as real, img.height as real;
    assert PaddleCpp.Corners(poly);
    assert PaddleCpp.Points(poly) == [Point(0.0, 0.0), Point(w, 0.0), Point(w, h), Point(0.0, h)];
  }

  /**
    The Rust client expects the results under `res` with `rec_polys`, so it
    cannot read a vision-language reply at all.
  */
  lemma WholeImageRejectedByRust(text: string, img: Image)
    ensures PaddleRust.DecodeRaw(WholeImageJson(text, img)).None?
  {
  }
}
