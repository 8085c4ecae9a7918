/**
  `OllamaClient` of the Rust app (src/ollama.rs, and the earlier v1/src/ollama.rs,
  whose `generate_stream` is the same code): one generation request with the
  image, whose streamed responses are forwarded one by one over the job's channel.
  The HTTP stream is given in advance as what `generate_stream` of the Ollama
  library returns; base64 encoding is a parameter. The app's receiver may hang up
  at any moment: `hangUpAfter` is the number of messages it takes before it does.
*/
module Ollama {
  import opened Common
  import opened Channels

  const EXTRACT_PROMPT: string := "Extrae cualquier texto visible en esta imagen. Responde únicamente con el texto extraído."
  const TRANSLATE_PROMPT: string := "Traduce el texto en la imagen al español, solo responde con la traducción"
  const STREAM_ERROR_PREFIX: string := "[ollama.rs] Error en el stream: "
  const START_ERROR_PREFIX: string := "[ollama.rs] No se pudo iniciar el stream: "

  datatype Client = Client(model: string, prompt: string)

  /** `GenerationRequest::new(model, prompt).add_image(image)`. */
  datatype Request = Request(model: string, prompt: string, images: seq<string>)

  /** `OllamaClient::new` of the current app. */
  function New(): (c: Client)
    ensures c.model == "gemma3:4b" && c.prompt == EXTRACT_PROMPT
  {
    Client("gemma3:4b", EXTRACT_PROMPT)
  }

  /** `OllamaClient::new` of v1: a bigger model, and a prompt chosen by the `ollama_translate` feature. */
  function NewV1(translate: bool): (c: Client)
    ensures c.model == "gemma3:12b"
    ensures c.prompt == TRANSLATE_PROMPT <==> translate
    ensures c.prompt == EXTRACT_PROMPT <==> !translate
  {
    Client("gemma3:12b", if translate then TRANSLATE_PROMPT else EXTRACT_PROMPT)
  }

  /** The request carries the client's model and prompt and exactly one image, the encoded PNG. */
  function BuildRequest(c: Client, base64Image: string): (r: Request)
    ensures r.model == c.model && r.prompt == c.prompt && r.images == [base64Image]
  {
    Request(c.model, c.prompt, [base64Image])
  }

  /** One item of the response stream: a batch of responses or an error (its `Display` text). */
  datatype StreamItem = Batch(responses: seq<string>) | StreamError(error: string)

  /** What starting the stream gives: the items it will yield, or the error. */
  datatype Started = Stream(items: seq<StreamItem>) | StartError(error: string)

  /** A message for the app: a piece of generated text, or an error report. */
  datatype Message = Chunk(text: string) | Failure(text: string)

  function Chunks(rs: seq<string>): (ms: seq<Message>)
    ensures |ms| == |rs| && forall k :: 0 <= k < |rs| ==> ms[k] == Chunk(rs[k])
  {
    seq(|rs|, k requires 0 <= k < |rs| => Chunk(rs[k]))
  }

  lemma ChunksAppend(a: seq<string>, b: seq<string>)
    ensures Chunks(a + b) == Chunks(a) + Chunks(b)
  {
  }

  function Texts(ms: seq<Message>): (ts: seq<string>)
    ensures |ts| == |ms| && forall k :: 0 <= k < |ms| ==> ts[k] == ms[k].text
  {
    seq(|ms|, k requires 0 <= k < |ms| => ms[k].text)
  }

  /** The messages the forwarding loop produces from a stream: batches in order, up to the first error. */
  function StreamMessages(items: seq<StreamItem>): seq<Message> {
    if items == [] then []
    else match items[0]
      case Batch(rs) => Chunks(rs) + StreamMessages(items[1..])
      case StreamError(e) => [Failure(STREAM_ERROR_PREFIX + e)]
  }

  /** The messages of a whole generation, start failure included. */
  function Messages(s: Started): seq<Message> {
    match s
    case StartError(e) => [Failure(START_ERROR_PREFIX + e)]
    case Stream(items) => StreamMessages(items)
  }

  predicate NoError(items: seq<StreamItem>) {
    forall k :: 0 <= k < |items| ==> items[k].Batch?
  }

  /** The batches before the first error, and that error if there is one. */
  function OkPrefix(items: seq<StreamItem>): (p: nat)
    ensures p <= |items| && NoError(items[..p])
    ensures p < |items| ==> items[p].StreamError?
  {
    if items == [] || items[0].StreamError? then 0
    else
      var p := OkPrefix(items[1..]);
      assert items[..p + 1] == [items[0]] + items[1..][..p];
      p + 1
  }

  function Flatten(items: seq<StreamItem>): seq<string>
    requires NoError(items)
  {
    if items == [] then [] else items[0].responses + Flatten(items[1..])
  }

  /**
    What the app can receive, stated without the loop: every response of the
    batches before the first error, in stream order, then one report of that
    error if there was one.
  */
  lemma {:induction false} StreamMessagesShape(items: seq<StreamItem>)
    ensures var p := OkPrefix(items);
      StreamMessages(items) == Chunks(Flatten(items[..p]))
        + (if p < |items| then [Failure(STREAM_ERROR_PREFIX + items[p].error)] else [])
  {
    if items != [] && items[0].Batch? {
      var p := OkPrefix(items);
      var q := OkPrefix(items[1..]);
      assert p == q + 1;
      StreamMessagesShape(items[1..]);
      assert items[..p][1..] == items[1..][..q];
      var rs := items[0].responses;
      var tail := Flatten(items[1..][..q]);
      assert Flatten(items[..p]) == rs + tail;
      ChunksAppend(rs, tail);
      var last := if q < |items[1..]| then [Failure(STREAM_ERROR_PREFIX + items[1..][q].error)] else [];
      assert StreamMessages(items) == Chunks(rs) + (Chunks(tail) + last);
      assert (Chunks(rs) + Chunks(tail)) + last == Chunks(rs) + (Chunks(tail) + last);
    }
  }

  /** At most one error report reaches the app, and nothing follows it. */
  lemma {:induction false} FailureIsLast(s: Started)
    ensures forall k :: 0 <= k < |Messages(s)| && Messages(s)[k].Failure? ==> k == |Messages(s)| - 1
  {
    if s.Stream? {
      StreamMessagesShape(s.items);
    }
  }

  lemma {:induction false} StreamMessagesAppend(a: seq<StreamItem>, b: seq<StreamItem>)
    requires NoError(a)
    ensures StreamMessages(a + b) == StreamMessages(a) + StreamMessages(b)
  {
    if a == [] {
      assert a + b == b;
    } else {
      assert (a + b)[0] == a[0];
      assert (a + b)[1..] == a[1..] + b;
      StreamMessagesAppend(a[1..], b);
    }
  }

  /** The receiver's hang-up as seen by the worker: it comes before the next send. */
  method Deliver(sender: Channel<string>, msg: string, hangUp: bool) returns (ok: bool)
    modifies sender
    ensures sender.receiverGone == (old(sender.receiverGone) || hangUp)
    ensures sender.senderGone == old(sender.senderGone)
    ensures ok == !sender.receiverGone
    ensures sender.queue == if hangUp then [] else if ok then old(sender.queue) + [msg] else old(sender.queue)
    ensures sender.attempts == old(sender.attempts) + 1
  {
    if hangUp {
      sender.DropReceiver();
    }
    ok := sender.Send(msg);
  }

  /**
    `generate_stream`. With `hangUpAfter` unset (or not reached) the app receives
    every message of the generation, in order. When the receiver hangs up after
    `h` of them, the next send fails and is the last one: the worker returns (or, if
    it was the error report, the loop ends) and nothing more is sent.
  */
  method GenerateStream(c: Client, image: seq<uint8>, encode: seq<uint8> -> string,
                        generate: Request -> Started, sender: Channel<string>, hangUpAfter: Option<nat>)
    returns (ghost delivered: seq<string>)
    requires !sender.receiverGone
    modifies sender
    ensures var ms := Texts(Messages(generate(BuildRequest(c, encode(image)))));
      && sender.senderGone == old(sender.senderGone)
      && (hangUpAfter.None? || hangUpAfter.value >= |ms| ==>
            && delivered == ms && !sender.receiverGone
            && sender.queue == old(sender.queue) + ms
            && sender.attempts == old(sender.attempts) + |ms|)
      && (hangUpAfter.Some? && hangUpAfter.value < |ms| ==>
            && delivered == ms[..hangUpAfter.value] && sender.receiverGone
            && sender.attempts == old(sender.attempts) + hangUpAfter.value + 1)
  {
    var request := BuildRequest(c, encode(image));
    var started := generate(request);
    match started {
      case StartError(e) =>
        var _ := Deliver(sender, START_ERROR_PREFIX + e, hangUpAfter == Some(0));
        delivered := if hangUpAfter == Some(0) then [] else [START_ERROR_PREFIX + e];
      case Stream(items) =>
        delivered := ForwardStream(items, sender, hangUpAfter);
    }
  }

  /** The `while let Some(item) = stream.next()` loop of `generate_stream`. */
  method ForwardStream(items: seq<StreamItem>, sender: Channel<string>, hangUpAfter: Option<nat>)
    returns (ghost delivered: seq<string>)
    requires !sender.receiverGone
    modifies sender
    ensures var ms := Texts(StreamMessages(items));
      && sender.senderGone == old(sender.senderGone)
      && (hangUpAfter.None? || hangUpAfter.value >= |ms| ==>
            && delivered == ms && !sender.receiverGone
            && sender.queue == old(sender.queue) + ms
            && sender.attempts == old(sender.attempts) + |ms|)
      && (hangUpAfter.Some? && hangUpAfter.value < |ms| ==>
            && delivered == ms[..hangUpAfter.value] && sender.receiverGone
            && sender.attempts == old(sender.attempts) + hangUpAfter.value + 1)
  {
    delivered := [];
    var sent := 0;
    var i := 0;
    while i < |items|
      invariant 0 <= i <= |items| && NoError(items[..i])
      invariant delivered == Texts(StreamMessages(items[..i])) && sent == |delivered|
      invariant hangUpAfter.Some? ==> sent <= hangUpAfter.value
      invariant !sender.receiverGone && sender.senderGone == old(sender.senderGone)
      invariant sender.queue == old(sender.queue) + delivered
      invariant sender.attempts == old(sender.attempts) + sent
    {
      if items[i].Batch? {
        var rs := items[i].responses;
        BatchStep(items, i);
        var ok;
        ok, sent := ForwardBatch(sender, rs, hangUpAfter, sent);
        if !ok {
          PrefixOfMessages(items, i, hangUpAfter.value - |delivered|);
          delivered := delivered + rs[..hangUpAfter.value - |delivered|];
          return;
        }
        delivered := delivered + rs;
      } else {
        var report := STREAM_ERROR_PREFIX + items[i].error;
        var ok := Deliver(sender, report, hangUpAfter == Some(sent));
        ErrorEndsMessages(items, i);
        if ok {
          delivered := delivered + [report];
        }
        return;
      }
      i := i + 1;
    }
    assert items[..|items|] == items;
  }

  /** One batch extends the messages seen so far by its responses, in order. */
  lemma BatchStep(items: seq<StreamItem>, i: nat)
    requires i < |items| && items[i].Batch? && NoError(items[..i])
    ensures NoError(items[..i + 1])
    ensures Texts(StreamMessages(items[..i + 1])) == Texts(StreamMessages(items[..i])) + items[i].responses
  {
    var before := items[..i];
    assert items[..i + 1] == before + [items[i]];
    StreamMessagesAppend(before, [items[i]]);
    assert [items[i]][1..] == [];
    assert StreamMessages(items[..i + 1]) == StreamMessages(before) + Chunks(items[i].responses);
    assert Texts(StreamMessages(before) + Chunks(items[i].responses)) == Texts(StreamMessages(before)) + items[i].responses;
  }

  /**
    The inner `for resp in responses` loop, `sent0` messages into the job. `ok`
    false means a send failed and the worker returns.
  */
  method ForwardBatch(sender: Channel<string>, rs: seq<string>, hangUpAfter: Option<nat>, sent0: nat)
    returns (ok: bool, sent: nat)
    requires !sender.receiverGone
    requires hangUpAfter.Some? ==> sent0 <= hangUpAfter.value
    modifies sender
    ensures sender.senderGone == old(sender.senderGone)
    ensures ok ==>
      && sent == sent0 + |rs| && !sender.receiverGone
      && (hangUpAfter.Some? ==> sent <= hangUpAfter.value)
      && sender.queue == old(sender.queue) + rs
      && sender.attempts == old(sender.attempts) + |rs|
    ensures !ok ==>
      && hangUpAfter.Some? && sent0 <= hangUpAfter.value < sent0 + |rs| && sender.receiverGone
      && sender.attempts == old(sender.attempts) + (hangUpAfter.value - sent0) + 1
  {
    sent := sent0;
    for j := 0 to |rs|
      invariant sent == sent0 + j && (hangUpAfter.Some? ==> sent <= hangUpAfter.value)
      invariant !sender.receiverGone && sender.senderGone == old(sender.senderGone)
      invariant sender.queue == old(sender.queue) + rs[..j]
      invariant sender.attempts == old(sender.attempts) + j
    {
      ok := Deliver(sender, rs[j], hangUpAfter == Some(sent));
      if !ok {
        return;
      }
      assert rs[..j + 1] == rs[..j] + [rs[j]];
      sent := sent + 1;
    }
    assert rs[..|rs|] == rs;
    ok := true;
  }

  /** The messages delivered so far, inside batch i at response j, are a prefix of the whole. */
  lemma PrefixOfMessages(items: seq<StreamItem>, i: nat, j: nat)
    requires i < |items| && NoError(items[..i]) && items[i].Batch? && j < |items[i].responses|
    ensures var done := Texts(StreamMessages(items[..i])) + items[i].responses[..j];
      var ms := Texts(StreamMessages(items));
      |done| < |ms| && ms[..|done|] == done
  {
    var rs := items[i].responses;
    assert items == items[..i] + items[i..];
    StreamMessagesAppend(items[..i], items[i..]);
    assert items[i..][1..] == items[i + 1..];
    var ms := StreamMessages(items[..i]) + Chunks(rs) + StreamMessages(items[i + 1..]);
    assert StreamMessages(items) == ms;
    var done := Texts(StreamMessages(items[..i])) + rs[..j];
    assert Texts(ms)[..|done|] == done;
  }

  /** An error in item i makes the error report the last message. */
  lemma ErrorEndsMessages(items: seq<StreamItem>, i: nat)
    requires i < |items| && NoError(items[..i]) && items[i].StreamError?
    ensures Texts(StreamMessages(items)) == Texts(StreamMessages(items[..i])) + [STREAM_ERROR_PREFIX + items[i].error]
  {
    assert items == items[..i] + items[i..];
    StreamMessagesAppend(items[..i], items[i..]);
    var a := StreamMessages(items[..i]);
    var b := [Failure(STREAM_ERROR_PREFIX + items[i].error)];
    assert Texts(a + b) == Texts(a) + Texts(b);
  }
}
