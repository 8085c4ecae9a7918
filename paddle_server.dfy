/**
  servidorOcr/server.py: the older PaddleOCR-only server. It differs from
  ocr_server.py in what it does with a request: an exception from the engine
  is not caught, so it ends the server, and the image-decoding failure is not
  answered the way the code plainly sets out to answer it (see `HandleAsWritten`).

  `result`, the engine's last prediction, is a module-level variable: it
  outlives the request and the connection that set it, and before the first
  prediction it does not exist at all. That is the state the handler threads.
*/
module PaddleServer {
  import opened Common
  import opened Json
  import opened SocketServer
  import opened OcrServer

  /** The value of the global `result`: None until the first prediction assigns it. */
  type Last = Option<Prediction>

  /** The JSON text sent for a prediction: its head's JSON as is, or `{}`. */
  function PredictionText(result: Prediction, dumps: (Json, bool) -> string): string {
    if |result| > 0 && result[0].Some? then dumps(result[0].value, false) else dumps(EMPTY_OBJECT, true)
  }

  /** The message meant for a payload that is not an image. */
  const INVALID_IMAGE_TEXT := "ERROR: " + INVALID_IMAGE

  /**
    The request handling as written. When the image does not decode, the
    error message is put in a variable that is never sent; the code then goes
    on to the reply built from `result`, which is the previous request's
    prediction, or, before any prediction, a name that does not exist, whose
    NameError nothing catches. An exception from the engine is not caught
    either.
  */
  function HandleAsWritten(decode: seq<uint8> -> Option<Image>, predict: Image -> Outcome<Prediction>,
                           dumps: (Json, bool) -> string, last: Last, payload: seq<uint8>): (h: Handled<Last>)
    ensures h.Reply? ==> h.next.Some? && h.text == PredictionText(h.next.value, dumps)
    ensures h.Crash? <==>
      || (decode(payload).None? && last.None?)
      || (decode(payload).Some? && predict(decode(payload).value).Raised?)
  {
    var img := decode(payload);
    if img.None? then
      if last.None? then Crash else Reply(last, PredictionText(last.value, dumps))
    else
      match predict(img.value)
      case Returned(r) => Reply(Some(r), PredictionText(r, dumps))
      case Raised(_) => Crash
  }

  /**
    The request handling as evidently intended: a payload that is not an
    image is answered with the error message, and `result` is left alone.
  */
  function Handle(decode: seq<uint8> -> Option<Image>, predict: Image -> Outcome<Prediction>,
                  dumps: (Json, bool) -> string, last: Last, payload: seq<uint8>): (h: Handled<Last>)
    ensures decode(payload).None? ==> h == Reply(last, INVALID_IMAGE_TEXT)
    ensures h.Crash? <==> decode(payload).Some? && predict(decode(payload).value).Raised?
  {
    var img := decode(payload);
    if img.None? then Reply(last, INVALID_IMAGE_TEXT)
    else
      match predict(img.value)
      case Returned(r) => Reply(Some(r), PredictionText(r, dumps))
      case Raised(_) => Crash
  }

  /** The two agree on every payload that decodes as an image. */
  lemma AgreeOnImages(decode: seq<uint8> -> Option<Image>, predict: Image -> Outcome<Prediction>,
                      dumps: (Json, bool) -> string, last: Last, payload: seq<uint8>)
    requires decode(payload).Some?
    ensures Handle(decode, predict, dumps, last, payload) == HandleAsWritten(decode, predict, dumps, last, payload)
  {
  }

  function HandlerAsWritten(decode: seq<uint8> -> Option<Image>, predict: Image -> Outcome<Prediction>,
                            dumps: (Json, bool) -> string): (Last, seq<uint8>) -> Handled<Last>
  {
    (last: Last, payload: seq<uint8>) => HandleAsWritten(decode, predict, dumps, last, payload)
  }

  function Handler(decode: seq<uint8> -> Option<Image>, predict: Image -> Outcome<Prediction>,
                   dumps: (Json, bool) -> string): (Last, seq<uint8>) -> Handled<Last>
  {
    (last: Last, payload: seq<uint8>) => Handle(decode, predict, dumps, last, payload)
  }

  /** A client that sends one request and stops. */
  function OneRequest(payload: seq<uint8>): Client
    requires |payload| < TWO_TO_THE_64
  {
    Client(Requests([payload]), true)
  }

  /**
    As written: once some client's image has been read, a later client whose
    payload is not an image gets that earlier client's text back.
  */
  lemma StaleReplyAsWritten(decode: seq<uint8> -> Option<Image>, predict: Image -> Outcome<Prediction>,
                            dumps: (Json, bool) -> string, first: seq<uint8>, second: seq<uint8>)
    requires 0 < |first| < RECV_LIMIT && 0 < |second| < RECV_LIMIT
    requires decode(first).Some? && predict(decode(first).value).Returned?
    requires decode(second).None?
    requires !TooLong(PredictionText(predict(decode(first).value).value, dumps))
    ensures var t := PredictionText(predict(decode(first).value).value, dumps);
      var sessions := Lifetime([OneRequest(first), OneRequest(second)], None, HandlerAsWritten(decode, predict, dumps));
      |sessions| == 2 && sessions[0].replies == [t] && sessions[1].replies == [t]
  {
    var h := HandlerAsWritten(decode, predict, dumps);
    var clients := [OneRequest(first), OneRequest(second)];
    ServedRequests([first], None, h);
    var last := Some(predict(decode(first).value).value);
    ServedRequests([second], last, h);
    assert clients[1..] == [OneRequest(second)];
    assert clients[1..][1..] == [];
  }

  /**
    As written: if the very first payload the server receives is not an
    image, the NameError escapes, the connection is closed unanswered and
    the server stops; no later client is served.
  */
  lemma FirstInvalidStopsServerAsWritten(decode: seq<uint8> -> Option<Image>, predict: Image -> Outcome<Prediction>,
                                         dumps: (Json, bool) -> string, payload: seq<uint8>, later: seq<Client>)
    requires 0 < |payload| < TWO_TO_THE_64
    requires decode(payload).None?
    ensures Lifetime([OneRequest(payload)] + later, None, HandlerAsWritten(decode, predict, dumps))
         == [Session([], true, None)]
  {
    ServedRequests([payload], None, HandlerAsWritten(decode, predict, dumps));
  }

  /**
    As intended: a payload that is not an image is answered with the error
    message, the prediction kept for later is untouched, and the connection
    goes on.
  */
  lemma InvalidImageAnswered(decode: seq<uint8> -> Option<Image>, predict: Image -> Outcome<Prediction>,
                             dumps: (Json, bool) -> string, last: Last, payload: seq<uint8>, rest: seq<seq<uint8>>)
    requires decode(payload).None?
    ensures |payload| < RECV_LIMIT ==>
      Conversation([payload] + rest, last, Handler(decode, predict, dumps))
        == Continue([INVALID_IMAGE_TEXT], Conversation(rest, last, Handler(decode, predict, dumps)))
    ensures |payload| >= RECV_LIMIT ==>
      Conversation([payload] + rest, last, Handler(decode, predict, dumps)) == Session([], true, last)
  {
    var h := Handler(decode, predict, dumps);
    ShortNotTooLong(INVALID_IMAGE_TEXT);
    assert h(last, payload) == Reply(last, INVALID_IMAGE_TEXT);
    assert ([payload] + rest)[0] == payload;
    assert ([payload] + rest)[1..] == rest;
  }

  /**
    As intended, a client never gets another client's text: every reply is
    either the error message or the text of the prediction made for that
    very request.
  */
  lemma {:induction false} RepliesAreOwn(decode: seq<uint8> -> Option<Image>, predict: Image -> Outcome<Prediction>,
                                         dumps: (Json, bool) -> string, last: Last, payloads: seq<seq<uint8>>)
    ensures var r := Conversation(payloads, last, Handler(decode, predict, dumps));
      forall i :: 0 <= i < |r.replies| ==>
        (decode(payloads[i]).None? ==> r.replies[i] == INVALID_IMAGE_TEXT) &&
        (decode(payloads[i]).Some? ==>
           predict(decode(payloads[i]).value).Returned? &&
           r.replies[i] == PredictionText(predict(decode(payloads[i]).value).value, dumps))
    decreases |payloads|
  {
    ShortNotTooLong(INVALID_IMAGE_TEXT);
    if payloads != [] {
      var h := Handler(decode, predict, dumps)(last, payloads[0]);
      if h.Reply? && !TooLong(h.text) {
        RepliesAreOwn(decode, predict, dumps, h.next, payloads[1..]);
        var more := Conversation(payloads[1..], h.next, Handler(decode, predict, dumps));
        assert forall i :: 1 <= i < |more.replies| + 1 ==> ([h.text] + more.replies)[i] == more.replies[i - 1];
      }
    }
  }
}
