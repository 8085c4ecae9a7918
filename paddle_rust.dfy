/**
  `PaddleClient::recognize`, the Rust app's client of the PaddleOCR socket server.
  It frames the PNG, reads the reply frame with `read_exact`, insists on UTF-8 and
  on the shape `{"res": {"rec_texts": [...], "rec_polys": [...]}}`, and sends the
  zipped results over a channel; every failure sends one empty vector instead.
  `UnixStream::connect` failing is the socket being absent (null); serde_json's
  text parser is a parameter, the shape check is modelled.
*/
module PaddleRust {
  import opened Common
  import opened Json
  import opened Wire
  import opened Sockets
  import opened Utf8
  import opened Channels
  import PaddleCpp
  import Ocr
  import Geometry

  /** `OcrResult` of the Rust client: a text and its polygon as given. */
  datatype PaddleResult = PaddleResult(text: string, coordinates: seq<(real, real)>)

  /** `RawOcrData`. */
  datatype RawOcrData = RawOcrData(texts: seq<string>, coordinates: seq<seq<(real, real)>>)

  // ------------------------------------------------------------ the shape check

  /** `Vec<String>`: every element is a string. */
  function Strings(items: seq<Json>): (r: Option<seq<string>>)
    ensures r.Some? <==> forall k :: 0 <= k < |items| ==> items[k].JString?
    ensures r.Some? ==> |r.value| == |items| && forall k :: 0 <= k < |items| ==> items[k] == JString(r.value[k])
  {
    if items == [] then Some([])
    else if !items[0].JString? then None
    else
      var rest := Strings(items[1..]);
      if rest.None? then None else Some([items[0].s] + rest.value)
  }

  /** `[f32; 2]`: an array of exactly two numbers. */
  function PointOf(j: Json): Option<(real, real)> {
    if j.JArray? && |j.items| == 2 && j.items[0].JNumber? && j.items[1].JNumber? then
      Some((j.items[0].n, j.items[1].n))
    else None
  }

  /** `Vec<[f32; 2]>`. */
  function PolygonOf(items: seq<Json>): (r: Option<seq<(real, real)>>)
    ensures r.Some? ==> |r.value| == |items| && forall k :: 0 <= k < |items| ==> PointOf(items[k]) == Some(r.value[k])
    ensures r.None? ==> exists k :: 0 <= k < |items| && PointOf(items[k]).None?
  {
    if items == [] then Some([])
    else
      var p, rest := PointOf(items[0]), PolygonOf(items[1..]);
      if p.None? then None
      else if rest.None? then (assert items[1..][0] == items[1]; None)
      else Some([p.value] + rest.value)
  }

  /** `Vec<Vec<[f32; 2]>>`. */
  function PolygonsOf(items: seq<Json>): (r: Option<seq<seq<(real, real)>>>)
    ensures r.Some? ==> |r.value| == |items| && forall k :: 0 <= k < |items| ==>
      items[k].JArray? && PolygonOf(items[k].items) == Some(r.value[k])
  {
    if items == [] then Some([])
    else if !items[0].JArray? then None
    else
      var p, rest := PolygonOf(items[0].items), PolygonsOf(items[1..]);
      if p.None? || rest.None? then None else Some([p.value] + rest.value)
  }

  /**
    Deserialising `RawResponse` (one field, `res`) and `RawOcrData` (two fields,
    `rec_texts` then `rec_polys`): each struct is an object, whose other members are
    ignored, or an array of exactly its fields in declaration order.
  */
  function DecodeRaw(j: Json): Option<RawOcrData> {
    var res := StructField(j, "res", 0, 1);
    if res.None? then None
    else
      var texts, polys := StructField(res.value, "rec_texts", 0, 2), StructField(res.value, "rec_polys", 1, 2);
      if texts.None? || polys.None? || !texts.value.JArray? || !polys.value.JArray? then None
      else
        var ts, ps := Strings(texts.value.items), PolygonsOf(polys.value.items);
        if ts.None? || ps.None? then None else Some(RawOcrData(ts.value, ps.value))
  }

  /** The JSON of a reply carrying `raw`, as the server writes it. */
  function RawJson(raw: RawOcrData): Json {
    JObject(map["res" := JObject(map["rec_texts" := TextsJson(raw.texts), "rec_polys" := PolygonsJson(raw.coordinates)])])
  }

  function TextsJson(ss: seq<string>): Json {
    JArray(seq(|ss|, i requires 0 <= i < |ss| => JString(ss[i])))
  }

  function PolygonsJson(pss: seq<seq<(real, real)>>): Json {
    JArray(seq(|pss|, i requires 0 <= i < |pss| => PointsJson(pss[i])))
  }

  lemma {:induction false} StringsOfStrings(ss: seq<string>)
    ensures Strings(TextsJson(ss).items) == Some(ss)
  {
    var items := TextsJson(ss).items;
    var r := Strings(items);
    assert r.Some?;
    assert r.value == ss;
  }

  lemma {:induction false} PolygonOfPoints(ps: seq<(real, real)>)
    ensures PolygonOf(PointsJson(ps).items) == Some(ps)
  {
    var items := PointsJson(ps).items;
    forall k | 0 <= k < |items|
      ensures PointOf(items[k]) == Some(ps[k])
    {
    }
    var r := PolygonOf(items);
    assert r.Some?;
    assert r.value == ps;
  }

  lemma {:induction false} PolygonsOfPoints(pss: seq<seq<(real, real)>>)
    ensures PolygonsOf(PolygonsJson(pss).items) == Some(pss)
  {
    if pss != [] {
      var items := PolygonsJson(pss).items;
      assert items[1..] == PolygonsJson(pss[1..]).items;
      PolygonsOfPoints(pss[1..]);
      assert items[0] == PointsJson(pss[0]);
      PolygonOfPoints(pss[0]);
      assert [pss[0]] + pss[1..] == pss;
    }
  }

  /** The shape check accepts exactly what a well-shaped reply carries. */
  lemma DecodeRawJson(raw: RawOcrData)
    ensures DecodeRaw(RawJson(raw)) == Some(raw)
  {
    var j := RawJson(raw);
    assert "rec_texts"[4] != "rec_polys"[4];
    var res := JObject(map["rec_texts" := TextsJson(raw.texts), "rec_polys" := PolygonsJson(raw.coordinates)]);
    assert StructField(j, "res", 0, 1) == Some(res);
    assert StructField(res, "rec_texts", 0, 2) == Some(TextsJson(raw.texts));
    assert StructField(res, "rec_polys", 1, 2) == Some(PolygonsJson(raw.coordinates));
    StringsOfStrings(raw.texts);
    PolygonsOfPoints(raw.coordinates);
  }

  /** The same reply in serde's array form: `[[texts, polys]]`, or `res` given as `[texts, polys]`. */
  lemma DecodeRawArrayForm(raw: RawOcrData)
    ensures var res := JArray([TextsJson(raw.texts), PolygonsJson(raw.coordinates)]);
      && DecodeRaw(JArray([res])) == Some(raw)
      && DecodeRaw(JObject(map["res" := res])) == Some(raw)
  {
    var res := JArray([TextsJson(raw.texts), PolygonsJson(raw.coordinates)]);
    assert StructField(JArray([res]), "res", 0, 1) == Some(res);
    assert StructField(JObject(map["res" := res]), "res", 0, 1) == Some(res);
    StringsOfStrings(raw.texts);
    PolygonsOfPoints(raw.coordinates);
  }

  /** `{"res":[["a"],[[[1.0,2.0]]]]}` decodes to one text with a one-point polygon. */
  lemma ArrayFormResRead()
    ensures DecodeRaw(JObject(map["res" := JArray([JArray([JString("a")]),
              JArray([JArray([JArray([JNumber(1.0), JNumber(2.0)])])])])]))
      == Some(RawOcrData(["a"], [[(1.0, 2.0)]]))
  {
    DecodeRawArrayForm(RawOcrData(["a"], [[(1.0, 2.0)]]));
    assert TextsJson(["a"]) == JArray([JString("a")]);
    assert PointsJson([(1.0, 2.0)]) == JArray([JArray([JNumber(1.0), JNumber(2.0)])]);
    assert PolygonsJson([[(1.0, 2.0)]]) == JArray([JArray([JArray([JNumber(1.0), JNumber(2.0)])])]);
  }

  /** An array form with a field missing or one too many is refused. */
  lemma ArrayFormExactLength(texts: Json, polys: Json, extra: Json)
    ensures DecodeRaw(JObject(map["res" := JArray([texts])])).None?
    ensures DecodeRaw(JObject(map["res" := JArray([texts, polys, extra])])).None?
    ensures DecodeRaw(JArray([])).None?
  {
  }

  /** `zip` then `map`: text i with polygon i, as many as the shorter list. */
  function Zip(texts: seq<string>, polys: seq<seq<(real, real)>>): (rs: seq<PaddleResult>)
    ensures |rs| == if |texts| <= |polys| then |texts| else |polys|
    ensures forall k :: 0 <= k < |rs| ==> rs[k] == PaddleResult(texts[k], polys[k])
  {
    if texts == [] || polys == [] then []
    else [PaddleResult(texts[0], polys[0])] + Zip(texts[1..], polys[1..])
  }

  // ------------------------------------------------------------ the exchange

  /** What reading the reply comes to: a failure, an announced length of 0, or results. */
  datatype Delivery = Unread | ZeroLength | Results(rs: seq<PaddleResult>)

  /**
    The reading half of `recognize_internal`, given what the server will deliver:
    the header and then the body by `read_exact`, UTF-8, the JSON parse and the
    shape check, any of which can fail.
  */
  function Delivered(inbound: seq<Segment>, parse: seq<uint8> -> Option<Json>): Delivery {
    match ReadExactly(inbound, HEADER_SIZE)
    case Full(h) =>
      var n := DecodeBE(h);
      if n == 0 then ZeroLength
      else (match ReadExactly(AfterRead(inbound, HEADER_SIZE), n)
        case Full(body) =>
          if !Valid(body) || parse(body).None? then Unread
          else (match DecodeRaw(parse(body).value)
            case None => Unread
            case Some(raw) => Results(Zip(raw.texts, raw.coordinates)))
        case _ => Unread)
    case _ => Unread
  }

  /**
    The vector a connected client ends up sending: an empty one on every failure
    and for an announced length of 0, otherwise the zipped results of the
    decoded reply.
  */
  function Outcome(inbound: seq<Segment>, writable: bool, parse: seq<uint8> -> Option<Json>): seq<PaddleResult> {
    if !writable then [] else Payload(Delivered(inbound, parse))
  }

  /** The vector sent for a reading: the results, or an empty one. */
  function Payload(d: Delivery): seq<PaddleResult> {
    if d.Results? then d.rs else []
  }

  /** A frame in one segment reads back as its header and then its whole payload. */
  lemma ReadFrame(body: seq<uint8>, rest: seq<Segment>)
    requires |body| < TWO_TO_THE_64
    ensures var s := [Data(Frame(body))] + rest;
      && ReadExactly(s, HEADER_SIZE) == Full(Header(|body|))
      && ReadExactly(AfterRead(s, HEADER_SIZE), |body|) == Full(body)
  {
    var s := [Data(Frame(body))] + rest;
    assert s[1..] == rest;
    assert Avail(s) == Frame(body) + Avail(rest);
    assert Avail(s)[..HEADER_SIZE] == Header(|body|);
    AvailAfterRead(s, HEADER_SIZE);
    assert Avail(AfterRead(s, HEADER_SIZE)) == body + Avail(rest);
    assert (body + Avail(rest))[..|body|] == body;
  }

  /** A server reply frame carrying `raw` yields exactly the zipped results. */
  lemma OutcomeOfReply(raw: RawOcrData, text: string, rest: seq<Segment>, parse: seq<uint8> -> Option<Json>)
    requires 0 < |Encode(text)| < TWO_TO_THE_64 && parse(Encode(text)) == Some(RawJson(raw))
    ensures Outcome([Data(Frame(Encode(text)))] + rest, true, parse) == Zip(raw.texts, raw.coordinates)
  {
    var body := Encode(text);
    var s := [Data(Frame(body))] + rest;
    ReadFrame(body, rest);
    EncodeValid(text);
    DecodeRawJson(raw);
    assert DecodeBE(Header(|body|)) == |body| != 0;
    assert Delivered(s, parse) == Results(Zip(raw.texts, raw.coordinates));
  }

  /**
    `recognize_internal`. `err` is its `Err`; `sent` says whether it called
    `send` itself (for a zero length, ignoring the outcome; on success, with `?`).
  */
  method RecognizeInternal(sock: Socket?, image: seq<uint8>, parse: seq<uint8> -> Option<Json>,
                           sender: Channel<seq<PaddleResult>>)
    returns (err: bool, sent: bool)
    requires |image| < TWO_TO_THE_64
    requires sock != null ==> WellFormed(sock.inbound)
    modifies sock, sender
    ensures sender.senderGone == old(sender.senderGone) && sender.receiverGone == old(sender.receiverGone)
    ensures sock != null ==> sock.outbound == old(sock.outbound) + (if sock.writable then Frame(image) else [])
    ensures !sent ==>
      && err && sender.queue == old(sender.queue) && sender.attempts == old(sender.attempts)
      && (sock != null ==> Outcome(old(sock.inbound), sock.writable, parse) == [])
    ensures sent ==>
      && sock != null && sender.attempts == old(sender.attempts) + 1
      && sender.queue == old(sender.queue) +
           (if sender.receiverGone then [] else [Outcome(old(sock.inbound), sock.writable, parse)])
    ensures sent && err ==> sender.receiverGone
  {
    if sock == null {
      return true, false;
    }
    var ok := sock.SendFrame(image);
    if !ok {
      return true, false;
    }
    var d := Receive(sock, parse);
    err, sent := Deliver(d, sender);
  }

  /**
    The sending half of `recognize_internal`: nothing after a failed read; the
    empty vector for a zero length, its outcome ignored; the results with `?`.
  */
  method Deliver(d: Delivery, sender: Channel<seq<PaddleResult>>) returns (err: bool, sent: bool)
    modifies sender
    ensures sender.senderGone == old(sender.senderGone) && sender.receiverGone == old(sender.receiverGone)
    ensures sent <==> !d.Unread?
    ensures !sent ==> err && sender.queue == old(sender.queue) && sender.attempts == old(sender.attempts)
    ensures sent ==>
      && sender.attempts == old(sender.attempts) + 1
      && sender.queue == old(sender.queue) + (if sender.receiverGone then [] else [Payload(d)])
    ensures err && sent <==> d.Results? && sender.receiverGone
  {
    match d
    case Unread =>
      return true, false;
    case ZeroLength =>
      var _ := sender.Send([]);
      return false, true;
    case Results(results) =>
      var ok := sender.Send(results);
      return !ok, true;
  }

  /** The reads of `recognize_internal`, up to the zipped results. */
  method Receive(sock: Socket, parse: seq<uint8> -> Option<Json>) returns (d: Delivery)
    requires WellFormed(sock.inbound)
    modifies sock`inbound
    ensures d == Delivered(old(sock.inbound), parse)
  {
    var head := sock.RecvAll(HEADER_SIZE);
    if !head.Full? {
      return Unread;
    }
    var size := DecodeBE(head.bytes);
    if size == 0 {
      return ZeroLength;
    }
    var body := sock.RecvAll(size);
    if !body.Full? || !Valid(body.bytes) {
      return Unread;
    }
    var root := parse(body.bytes);
    if root.None? {
      return Unread;
    }
    var raw := DecodeRaw(root.value);
    if raw.None? {
      return Unread;
    }
    return Results(Zip(raw.value.texts, raw.value.coordinates));
  }

  /**
    `recognize`: whatever happens, the receiver (while it listens) gets exactly
    one vector, the one `Outcome` describes; a client that cannot connect sends
    an empty one.
  */
  method Recognize(sock: Socket?, image: seq<uint8>, parse: seq<uint8> -> Option<Json>,
                   sender: Channel<seq<PaddleResult>>)
    requires |image| < TWO_TO_THE_64
    requires sock != null ==> WellFormed(sock.inbound)
    modifies sock, sender
    ensures sender.senderGone == old(sender.senderGone) && sender.receiverGone == old(sender.receiverGone)
    ensures old(sender.receiverGone) ==> sender.queue == old(sender.queue)
    ensures !old(sender.receiverGone) ==> sender.attempts == old(sender.attempts) + 1
    ensures !old(sender.receiverGone) && sock == null ==> sender.queue == old(sender.queue) + [[]]
    ensures !old(sender.receiverGone) && sock != null ==>
      sender.queue == old(sender.queue) + [Outcome(old(sock.inbound), sock.writable, parse)]
    ensures sock != null ==> sock.outbound == old(sock.outbound) + (if sock.writable then Frame(image) else [])
  {
    var err, sent := RecognizeInternal(sock, image, parse, sender);
    if err {
      var _ := sender.Send([]);
    }
  }

  // ------------------------------------------------------------ the two clients

  /**
    The two clients read different shapes. A `res`-wrapped reply with `rec_polys`
    is fully read by this client, while the C++ one, looking for `dt_polys`, keeps
    only the texts with zero boxes.
  */
  lemma ResReplyBoxesLostByCpp(raw: RawOcrData, numText: real -> string)
    ensures DecodeRaw(RawJson(raw)) == Some(raw)
    ensures forall w: PaddleCpp.Walk :: PaddleCpp.Describes(RawJson(raw), numText, w) ==>
      && w.Walked? && |w.results| == |raw.texts|
      && forall k :: 0 <= k < |w.results| ==> w.results[k] == Ocr.OcrResult(raw.texts[k], Geometry.ORIGIN, Geometry.ORIGIN)
  {
    DecodeRawJson(raw);
    var j := RawJson(raw);
    var r := PaddleCpp.ResObj(j);
    assert r == j.members["res"];
    assert !HasMember(r, "dt_polys") && HasMember(r, "rec_texts");
    var texts := PaddleCpp.Elements(Member(r, "rec_texts"));
    assert |texts| == |raw.texts|;
    assert forall k :: 0 <= k < |texts| ==> texts[k] == JString(raw.texts[k]);
  }

  /**
    A reply with `dt_polys` and no `res` (what the server's single-text backends
    write) is read by the C++ client, unless the polygons cannot be read, and
    rejected here.
  */
  lemma DtPolysReplyRejected(polys: Json, numText: real -> string)
    ensures var j := JObject(map["rec_texts" := JArray([JString("texto")]), "dt_polys" := polys]);
      && DecodeRaw(j).None?
      && forall w: PaddleCpp.Walk :: PaddleCpp.Describes(j, numText, w) && w.Walked? ==>
           |w.results| == (if PaddleCpp.Size(polys) >= 1 then 1 else 0)
           && forall k :: 0 <= k < |w.results| ==> w.results[k].text == "texto"
  {
    var j := JObject(map["rec_texts" := JArray([JString("texto")]), "dt_polys" := polys]);
    assert !HasMember(j, "res");
    assert PaddleCpp.ResObj(j) == j;
    assert HasMember(j, "rec_texts") && HasMember(j, "dt_polys");
    assert PaddleCpp.Size(Member(j, "rec_texts")) == 1;
  }
}
