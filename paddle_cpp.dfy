/**
  `CPaddleOCR::recognize`, the Wayland front-end's client of the PaddleOCR socket
  server: it sends the PNG as one frame, reads the reply frame and turns the JSON
  in it into results. `socket`/`connect` failing is the socket being absent
  (null); jsoncpp's text parser is a parameter.
*/
module PaddleCpp {
  import opened Common
  import opened Geometry
  import opened Json
  import opened Wire
  import opened Sockets
  import opened Ocr

  // ------------------------------------------------------------ reading the reply

  /** What `recv` returns as `ssize_t`: the byte count, 0 at end of stream, -1 on failure. */
  function RecvCount(r: RecvResult): int {
    match r
    case Received(b) => |b|
    case Eof => 0
    case Failed => -1
  }

  /**
    The header check as compiled: `recv(...) < sizeof(respSizeBE)` compares a
    signed count with an unsigned size, so the count is first taken modulo 2^64.
  */
  predicate ShortHeaderAsWritten(count: int) {
    count % TWO_TO_THE_64 < HEADER_SIZE as int
  }

  /** The header check as intended: fewer than eight bytes, or a failure, is an error. */
  predicate ShortHeader(count: int) {
    count < HEADER_SIZE as int
  }

  /**
    As written a failed `recv` (-1, which becomes 2^64 - 1) passes the check, and
    the uninitialised header is then used as the reply length. With the signed
    comparison only a full eight-byte header goes on.
  */
  lemma HeaderCheck(r: RecvResult)
    requires r.Received? ==> |r.bytes| <= HEADER_SIZE
    ensures !ShortHeaderAsWritten(RecvCount(r)) <==> r.Failed? || (r.Received? && |r.bytes| == HEADER_SIZE)
    ensures !ShortHeader(RecvCount(r)) <==> r.Received? && |r.bytes| == HEADER_SIZE
  {
  }

  function Zeros(k: nat): (z: seq<uint8>)
    ensures |z| == k && forall i :: 0 <= i < k ==> z[i] == 0
  {
    seq(k, _ => 0)
  }

  /**
    The reply body: `respBody` is sized to the announced length and zero-filled;
    whatever arrives before the stream ends or fails is written over its start.
  */
  function Padded(a: seq<uint8>, n: nat): (b: seq<uint8>)
    ensures |b| == n
  {
    if |a| >= n then a[..n] else a + Zeros(n - |a|)
  }

  /**
    The body the client reads from a stream, or None where it returns no results
    before parsing: the first `recv` brings fewer than eight bytes (or fails), or
    the reply is announced as empty.
  */
  function ReplyBody(s: seq<Segment>): Option<seq<uint8>> {
    if s == [] || s[0].Reset? || |s[0].bytes| < HEADER_SIZE then None
    else
      var n := DecodeBE(s[0].bytes[..HEADER_SIZE]);
      if n == 0 then None else Some(Padded(Avail(AfterRead(s, HEADER_SIZE)), n))
  }

  /** A complete reply frame in one segment is read back whole, whatever follows it. */
  lemma ReplyBodyOfFrame(payload: seq<uint8>, rest: seq<Segment>)
    requires 0 < |payload| < TWO_TO_THE_64
    ensures ReplyBody([Data(Frame(payload))] + rest) == Some(payload)
  {
    var s := [Data(Frame(payload))] + rest;
    var f := Frame(payload);
    assert s[0].bytes[..HEADER_SIZE] == Header(|payload|);
    var after := AfterRead(s, HEADER_SIZE);
    assert after == [Data(f[HEADER_SIZE..])] + rest;
    assert after[1..] == rest;
    assert Avail(after) == payload + Avail(rest);
    assert (payload + Avail(rest))[..|payload|] == payload;
  }

  // ------------------------------------------------------------ jsoncpp access

  /*
    jsoncpp's accessors check the type of the value they are applied to and
    throw `Json::LogicError` on a wrong one. `recognize` catches nothing, and
    neither does its caller, so such a throw ends the program. Each predicate
    below is what one accessor accepts, and the accessor requires it.
  */

  /** `isMember(key)` accepts an object, or null, which has no members. */
  predicate Keyed(j: Json) {
    j.JNull? || j.JObject?
  }

  /** `operator[](index)` accepts an array, or null. */
  predicate Indexable(j: Json) {
    j.JNull? || j.JArray?
  }

  /** `asFloat()` accepts null, a boolean or a number. */
  predicate Numeric(j: Json) {
    j.JNull? || j.JBool? || j.JNumber?
  }

  /** `asString()` accepts anything but an array or an object. */
  predicate Scalar(j: Json) {
    !j.JArray? && !j.JObject?
  }

  /** `size()`: the items of an array, the members of an object, otherwise 0. */
  function Size(j: Json): nat {
    match j
    case JArray(items) => |items|
    case JObject(members) => |members|
    case _ => 0
  }

  /** `operator[](i)`: the item, or the null value out of range and on null. */
  function At(j: Json, i: nat): Json
    requires Indexable(j)
  {
    if j.JArray? && i < |j.items| then j.items[i] else JNull
  }

  /** `asFloat()`: a number as it is, a boolean as 1 or 0, null as 0. */
  function AsFloat(j: Json): real
    requires Numeric(j)
  {
    match j
    case JNumber(n) => n
    case JBool(b) => if b then 1.0 else 0.0
    case _ => 0.0
  }

  /**
    `asString()`: a string as it is, a boolean spelled out, null as the empty
    string, and a number as jsoncpp writes it, which is `numText`.
  */
  function AsString(j: Json, numText: real -> string): string
    requires Scalar(j)
  {
    match j
    case JString(s) => s
    case JBool(b) => if b then "true" else "false"
    case JNumber(n) => numText(n)
    case _ => ""
  }

  /** The object holding the results: `res` when the root has one, else the root itself. */
  function ResObj(root: Json): Json {
    if HasMember(root, "res") then Member(root, "res") else root
  }

  // ------------------------------------------------------------ member order

  /**
    jsoncpp keeps an object's members in a `std::map` ordered by `memcmp` of the
    UTF-8 keys, a proper prefix first. UTF-8 keeps code point order, so this is
    the lexicographic order of the characters.
  */
  predicate KeyBefore(a: string, b: string) {
    if a == [] || b == [] then a == [] && b != []
    else a[0] < b[0] || (a[0] == b[0] && KeyBefore(a[1..], b[1..]))
  }

  /** Two different keys are ordered one way, and only one; no key comes before itself. */
  lemma {:induction false} KeyOrderTotal(a: string, b: string)
    ensures a == b || KeyBefore(a, b) || KeyBefore(b, a)
    ensures !(KeyBefore(a, b) && KeyBefore(b, a))
    ensures !KeyBefore(a, a)
  {
    if a != [] {
      KeyOrderTotal(a[1..], a[1..]);
      if b != [] {
        KeyOrderTotal(a[1..], b[1..]);
        if a[0] == b[0] && a[1..] == b[1..] {
          assert a == [a[0]] + a[1..] && b == [b[0]] + b[1..];
        }
      }
    }
  }

  lemma {:induction false} KeyOrderTransitive(a: string, b: string, c: string)
    requires KeyBefore(a, b) && KeyBefore(b, c)
    ensures KeyBefore(a, c)
  {
    if a != [] && a[0] == b[0] && b[0] == c[0] {
      KeyOrderTransitive(a[1..], b[1..], c[1..]);
    }
  }

  /** `k` is the first of the keys `ks`. */
  predicate First(k: string, ks: set<string>) {
    k in ks && forall j :: j in ks && j != k ==> KeyBefore(k, j)
  }

  lemma FirstExists(ks: set<string>)
    requires ks != {}
    ensures exists k :: First(k, ks)
    decreases |ks|
  {
    var x :| x in ks;
    var rest := ks - {x};
    if rest == {} {
      assert ks == {x};
      assert First(x, ks);
    } else {
      FirstExists(rest);
      var m :| First(m, rest);
      KeyOrderTotal(x, m);
      if KeyBefore(x, m) {
        forall j | j in ks && j != x
          ensures KeyBefore(x, j)
        {
          if j != m {
            KeyOrderTransitive(x, m, j);
          }
        }
        assert First(x, ks);
      } else {
        assert First(m, ks);
      }
    }
  }

  lemma FirstUnique(a: string, b: string, ks: set<string>)
    requires First(a, ks) && First(b, ks)
    ensures a == b
  {
    if a != b {
      KeyOrderTotal(a, b);
    }
  }

  /** The first of a non-empty set of keys. */
  ghost function FirstOf(ks: set<string>): (k: string)
    requires ks != {}
    ensures First(k, ks)
  {
    FirstExists(ks);
    var k :| First(k, ks);
    k
  }

  /** The keys of an object in the order jsoncpp visits them. */
  ghost function InKeyOrder(ks: set<string>): (s: seq<string>)
    ensures |s| == |ks|
    decreases |ks|
  {
    if ks == {} then [] else [FirstOf(ks)] + InKeyOrder(ks - {FirstOf(ks)})
  }

  /** The first key leads the order, and the rest follow in their own order. */
  lemma InKeyOrderFirst(ks: set<string>, k: string)
    requires First(k, ks)
    ensures InKeyOrder(ks) == [k] + InKeyOrder(ks - {k})
  {
    FirstUnique(k, FirstOf(ks), ks);
  }

  /** Each key is visited once, and before every key that follows it. */
  lemma {:induction false} InKeyOrderSorted(ks: set<string>)
    ensures forall i :: 0 <= i < |InKeyOrder(ks)| ==> InKeyOrder(ks)[i] in ks
    ensures forall i, j :: 0 <= i < j < |InKeyOrder(ks)| ==> KeyBefore(InKeyOrder(ks)[i], InKeyOrder(ks)[j])
    decreases |ks|
  {
    if ks != {} {
      var k := FirstOf(ks);
      InKeyOrderSorted(ks - {k});
    }
  }

  /** The members of `m` under the keys `ks`, in that order. */
  function Values(m: map<string, Json>, ks: seq<string>): (vs: seq<Json>)
    ensures |vs| == |ks|
  {
    if ks == [] then [] else [if ks[0] in m then m[ks[0]] else JNull] + Values(m, ks[1..])
  }

  /**
    The values a range-for visits: an array's items, an object's member values
    in key order, and nothing for any other value.
  */
  ghost function Elements(j: Json): (es: seq<Json>)
    ensures j.JArray? ==> es == j.items
    ensures !j.JArray? && !j.JObject? ==> es == []
  {
    match j
    case JArray(items) => items
    case JObject(m) => Values(m, InKeyOrder(m.Keys))
    case _ => []
  }

  /** The range-for over an object: the member of the first key not yet visited, repeatedly. */
  method MemberValues(m: map<string, Json>) returns (vs: seq<Json>)
    ensures vs == Elements(JObject(m))
  {
    var ks := m.Keys;
    vs := [];
    while ks != {}
      invariant ks <= m.Keys
      invariant vs + Values(m, InKeyOrder(ks)) == Elements(JObject(m))
      decreases |ks|
    {
      var k :| k in ks && First(k, ks);
      InKeyOrderFirst(ks, k);
      assert Values(m, InKeyOrder(ks)) == [m[k]] + Values(m, InKeyOrder(ks - {k}));
      assert vs + ([m[k]] + Values(m, InKeyOrder(ks - {k}))) == (vs + [m[k]]) + Values(m, InKeyOrder(ks - {k}));
      vs := vs + [m[k]];
      ks := ks - {k};
    }
    assert vs + [] == vs;
  }

  // ------------------------------------------------------------ boxes

  /** Point k of a polygon `[[x, y], ...]` can be read: an array (or null) of numbers (or null). */
  predicate VertexOk(poly: Json, k: nat)
    requires Indexable(poly)
  {
    Indexable(At(poly, k)) && Numeric(At(At(poly, k), 0)) && Numeric(At(At(poly, k), 1))
  }

  /** The first four points of a polygon can be read. */
  predicate Corners(poly: Json) {
    Indexable(poly) && forall k :: 0 <= k < 4 ==> VertexOk(poly, k)
  }

  /** Point k of a polygon. */
  function Vertex(poly: Json, k: nat): Point
    requires Indexable(poly) && VertexOk(poly, k)
  {
    Point(AsFloat(At(At(poly, k), 0)), AsFloat(At(At(poly, k), 1)))
  }

  /** The first four points of a polygon. */
  function Points(poly: Json): (ps: seq<Point>)
    requires Corners(poly)
    ensures |ps| == 4 && forall k :: 0 <= k < 4 ==> ps[k] == Vertex(poly, k)
  {
    [Vertex(poly, 0), Vertex(poly, 1), Vertex(poly, 2), Vertex(poly, 3)]
  }

  /**
    `pos` and `size` describe the smallest axis-aligned box holding the points:
    every point is inside, and each side touches one of them.
  */
  predicate Spans(ps: seq<Point>, pos: Point, size: Point) {
    && (forall k :: 0 <= k < |ps| ==>
          pos.x <= ps[k].x <= pos.x + size.x && pos.y <= ps[k].y <= pos.y + size.y)
    && (exists k :: 0 <= k < |ps| && ps[k].x == pos.x)
    && (exists k :: 0 <= k < |ps| && ps[k].x == pos.x + size.x)
    && (exists k :: 0 <= k < |ps| && ps[k].y == pos.y)
    && (exists k :: 0 <= k < |ps| && ps[k].y == pos.y + size.y)
  }

  /** The box of a polygon spans its first four points. */
  predicate IsBoundingBox(poly: Json, pos: Point, size: Point)
    requires Corners(poly)
  {
    Spans(Points(poly), pos, size)
  }

  /** There is only one such box. */
  lemma BoundingBoxUnique(poly: Json, p1: Point, s1: Point, p2: Point, s2: Point)
    requires Corners(poly)
    requires IsBoundingBox(poly, p1, s1) && IsBoundingBox(poly, p2, s2)
    ensures p1 == p2 && s1 == s2
  {
    SpansUnique(Points(poly), p1, s1, p2, s2);
  }

  /** Points span one box only: its sides are the least and greatest coordinates. */
  lemma SpansUnique(ps: seq<Point>, p1: Point, s1: Point, p2: Point, s2: Point)
    requires Spans(ps, p1, s1) && Spans(ps, p2, s2)
    ensures p1 == p2 && s1 == s2
  {
    var a :| 0 <= a < |ps| && ps[a].x == p1.x;
    var b :| 0 <= b < |ps| && ps[b].x == p2.x;
    var c :| 0 <= c < |ps| && ps[c].y == p1.y;
    var d :| 0 <= d < |ps| && ps[d].y == p2.y;
    var e :| 0 <= e < |ps| && ps[e].x == p1.x + s1.x;
    var f :| 0 <= f < |ps| && ps[f].x == p2.x + s2.x;
    var g :| 0 <= g < |ps| && ps[g].y == p1.y + s1.y;
    var h :| 0 <= h < |ps| && ps[h].y == p2.y + s2.y;
  }

  /** The box loop: minimum and maximum of the first four points' coordinates. */
  method PolyBox(poly: Json) returns (pos: Point, size: Point)
    requires Corners(poly)
    ensures IsBoundingBox(poly, pos, size)
  {
    var ps := Points(poly);
    var minX, minY := ps[0].x, ps[0].y;
    var maxX, maxY := minX, minY;
    for j := 1 to 4
      invariant forall k :: 0 <= k < j ==> minX <= ps[k].x <= maxX && minY <= ps[k].y <= maxY
      invariant exists k :: 0 <= k < j && ps[k].x == minX
      invariant exists k :: 0 <= k < j && ps[k].x == maxX
      invariant exists k :: 0 <= k < j && ps[k].y == minY
      invariant exists k :: 0 <= k < j && ps[k].y == maxY
    {
      minX := Min(minX, ps[j].x);
      minY := Min(minY, ps[j].y);
      maxX := Max(maxX, ps[j].x);
      maxY := Max(maxY, ps[j].y);
    }
    pos := Point(minX, minY);
    size := Point(maxX - minX, maxY - minY);
  }

  /**
    Iteration k of the paired loop runs without a throw: both lists can be
    indexed, a polygon of four or more points has four readable points, and the
    text is not an array or an object.
  */
  predicate PairOk(texts: Json, polys: Json, k: nat) {
    && Indexable(texts) && Indexable(polys)
    && (Size(At(polys, k)) >= 4 ==> Corners(At(polys, k)))
    && Scalar(At(texts, k))
  }

  /** One result of the paired loop: a polygon of fewer than four points gives a zero box. */
  predicate BoxedResult(text: Json, poly: Json, numText: real -> string, r: OcrResult)
    requires Scalar(text) && (Size(poly) >= 4 ==> Corners(poly))
  {
    && r.text == AsString(text, numText)
    && (if Size(poly) >= 4 then IsBoundingBox(poly, r.pos, r.size) else r.pos == ORIGIN && r.size == ORIGIN)
  }

  /** How many times the paired loop runs: the size of the shorter list. */
  function Pairs(texts: Json, polys: Json): nat {
    if Size(texts) <= Size(polys) then Size(texts) else Size(polys)
  }

  /** How the JSON walk ends: with results, or with jsoncpp's `Json::LogicError`. */
  datatype Walk = Walked(results: seq<OcrResult>) | LogicError

  /**
    What a reply means. `isMember` on the root, then on the object holding the
    results, throws unless each is an object or null. With both `rec_texts` and
    `dt_polys`, one result per pair, as many as the shorter list, unless one of
    those iterations throws; with `rec_texts` only, every text it holds with a
    zero box, unless one of them is an array or object; otherwise nothing.
  */
  ghost predicate Describes(root: Json, numText: real -> string, w: Walk) {
    if !Keyed(root) then w == LogicError
    else
      var r := ResObj(root);
      if !Keyed(r) then w == LogicError
      else if HasMember(r, "rec_texts") && HasMember(r, "dt_polys") then
        var texts, polys := Member(r, "rec_texts"), Member(r, "dt_polys");
        var n := Pairs(texts, polys);
        if exists k :: 0 <= k < n && !PairOk(texts, polys, k) then w == LogicError
        else
          && w.Walked? && |w.results| == n
          && forall k :: 0 <= k < n ==>
               PairOk(texts, polys, k) && BoxedResult(At(texts, k), At(polys, k), numText, w.results[k])
      else if HasMember(r, "rec_texts") then
        var texts := Elements(Member(r, "rec_texts"));
        if exists k :: 0 <= k < |texts| && !Scalar(texts[k]) then w == LogicError
        else
          && w.Walked? && |w.results| == |texts|
          && forall k :: 0 <= k < |texts| ==>
               Scalar(texts[k]) && w.results[k] == OcrResult(AsString(texts[k], numText), ORIGIN, ORIGIN)
      else w == Walked([])
  }

  /** A reply has one meaning: the outcome is determined by the JSON. */
  lemma DescribesUnique(root: Json, numText: real -> string, w1: Walk, w2: Walk)
    requires Describes(root, numText, w1) && Describes(root, numText, w2)
    ensures w1 == w2
  {
    var r := ResObj(root);
    if Keyed(root) && Keyed(r) && HasMember(r, "rec_texts") && HasMember(r, "dt_polys") {
      var texts, polys := Member(r, "rec_texts"), Member(r, "dt_polys");
      if w1.Walked? {
        var r1, r2 := w1.results, w2.results;
        forall k | 0 <= k < |r1|
          ensures r1[k] == r2[k]
        {
          assert PairOk(texts, polys, k);
          assert BoxedResult(At(texts, k), At(polys, k), numText, r1[k]);
          assert BoxedResult(At(texts, k), At(polys, k), numText, r2[k]);
          if Size(At(polys, k)) >= 4 {
            BoundingBoxUnique(At(polys, k), r1[k].pos, r1[k].size, r2[k].pos, r2[k].size);
          }
        }
      }
    }
  }

  /** The box of the first four points, minimum and maximum taken in the loop's order. */
  function BoxOf(poly: Json): (b: (Point, Point))
    requires Corners(poly)
    ensures IsBoundingBox(poly, b.0, b.1)
  {
    var v0, v1, v2, v3 := Vertex(poly, 0), Vertex(poly, 1), Vertex(poly, 2), Vertex(poly, 3);
    var minX, minY := Min(Min(Min(v0.x, v1.x), v2.x), v3.x), Min(Min(Min(v0.y, v1.y), v2.y), v3.y);
    var maxX, maxY := Max(Max(Max(v0.x, v1.x), v2.x), v3.x), Max(Max(Max(v0.y, v1.y), v2.y), v3.y);
    (Point(minX, minY), Point(maxX - minX, maxY - minY))
  }

  /** The result the paired loop makes of one text and one polygon. */
  function Boxed(text: Json, poly: Json, numText: real -> string): (r: OcrResult)
    requires Scalar(text) && (Size(poly) >= 4 ==> Corners(poly))
    ensures BoxedResult(text, poly, numText, r)
  {
    if Size(poly) >= 4 then OcrResult(AsString(text, numText), BoxOf(poly).0, BoxOf(poly).1)
    else OcrResult(AsString(text, numText), ORIGIN, ORIGIN)
  }

  /** The outcome a reply describes, the only one (`DescribesUnique`). */
  ghost function Described(root: Json, numText: real -> string): (w: Walk)
    ensures Describes(root, numText, w)
  {
    if !Keyed(root) then LogicError
    else
      var r := ResObj(root);
      if !Keyed(r) then LogicError
      else if HasMember(r, "rec_texts") && HasMember(r, "dt_polys") then
        var texts, polys := Member(r, "rec_texts"), Member(r, "dt_polys");
        var n := Pairs(texts, polys);
        if exists k :: 0 <= k < n && !PairOk(texts, polys, k) then LogicError
        else
          Walked(seq(n, k requires 0 <= k < n && PairOk(texts, polys, k) =>
            Boxed(At(texts, k), At(polys, k), numText)))
      else if HasMember(r, "rec_texts") then
        var texts := Elements(Member(r, "rec_texts"));
        if exists k :: 0 <= k < |texts| && !Scalar(texts[k]) then LogicError
        else
          Walked(seq(|texts|, k requires 0 <= k < |texts| && Scalar(texts[k]) =>
            OcrResult(AsString(texts[k], numText), ORIGIN, ORIGIN)))
      else Walked([])
  }

  /** A reply whose root is an array throws at the first `isMember`. */
  lemma RootArrayThrows(numText: real -> string)
    ensures Described(JArray([JNumber(1.0)]), numText) == LogicError
  {
  }

  /** A text that is an array throws at `asString`. */
  lemma ArrayTextThrows(numText: real -> string)
    ensures Described(JObject(map["rec_texts" := JArray([JArray([])])]), numText) == LogicError
  {
    var bad := JObject(map["rec_texts" := JArray([JArray([])])]);
    assert Elements(Member(bad, "rec_texts"))[0] == JArray([]);
  }

  /** A number among the texts is written out as text. */
  lemma NumberTextWritten(numText: real -> string)
    ensures Described(JObject(map["rec_texts" := JArray([JNumber(7.0)])]), numText)
         == Walked([OcrResult(numText(7.0), ORIGIN, ORIGIN)])
  {
    var num := JObject(map["rec_texts" := JArray([JNumber(7.0)])]);
    assert Elements(Member(num, "rec_texts")) == [JNumber(7.0)];
  }

  /** A polygon that is an object of four members throws at `operator[]`. */
  lemma ObjectPolygonThrows(numText: real -> string)
    ensures var poly := JObject(map["a" := JNull, "b" := JNull, "c" := JNull, "d" := JNull]);
      Described(JObject(map["rec_texts" := JArray([JString("x")]), "dt_polys" := JArray([poly])]), numText) == LogicError
  {
    var poly := JObject(map["a" := JNull, "b" := JNull, "c" := JNull, "d" := JNull]);
    assert |poly.members| == 4 by {
      assert poly.members.Keys == {"a", "b", "c", "d"};
    }
    var texts, polys := JArray([JString("x")]), JArray([poly]);
    assert At(polys, 0) == poly && Size(poly) >= 4 && !Corners(poly);
    assert !PairOk(texts, polys, 0);
  }

  /**
    The JSON walk of `recognize`, after a successful parse. Where an accessor
    would throw, the walk stops with `LogicError`.
  */
  method Extract(root: Json, numText: real -> string) returns (w: Walk)
    ensures Describes(root, numText, w)
  {
    if !Keyed(root) {
      return LogicError;
    }
    var resObj := ResObj(root);
    if !Keyed(resObj) {
      return LogicError;
    }
    var results := [];
    if HasMember(resObj, "rec_texts") && HasMember(resObj, "dt_polys") {
      var texts, polys := Member(resObj, "rec_texts"), Member(resObj, "dt_polys");
      var i := 0;
      while i < Size(texts) && i < Size(polys)
        invariant 0 <= i <= Size(texts) && i <= Size(polys) && |results| == i
        invariant forall k :: 0 <= k < i ==>
          PairOk(texts, polys, k) && BoxedResult(At(texts, k), At(polys, k), numText, results[k])
      {
        if !Indexable(polys) {
          assert !PairOk(texts, polys, i);
          return LogicError;
        }
        var poly := At(polys, i);
        var pos, size := ORIGIN, ORIGIN;
        if Size(poly) >= 4 {
          if !Corners(poly) {
            assert !PairOk(texts, polys, i);
            return LogicError;
          }
          pos, size := PolyBox(poly);
        }
        if !Indexable(texts) || !Scalar(At(texts, i)) {
          assert !PairOk(texts, polys, i);
          return LogicError;
        }
        results := results + [OcrResult(AsString(At(texts, i), numText), pos, size)];
        i := i + 1;
      }
      w := Walked(results);
    } else if HasMember(resObj, "rec_texts") {
      var texts := Member(resObj, "rec_texts");
      var items := if texts.JArray? then texts.items else [];
      if texts.JObject? {
        items := MemberValues(texts.members);
      }
      assert items == Elements(texts);
      for i := 0 to |items|
        invariant |results| == i
        invariant forall k :: 0 <= k < i ==>
          Scalar(items[k]) && results[k] == OcrResult(AsString(items[k], numText), ORIGIN, ORIGIN)
      {
        if !Scalar(items[i]) {
          return LogicError;
        }
        results := results + [OcrResult(AsString(items[i], numText), ORIGIN, ORIGIN)];
      }
      w := Walked(results);
    } else {
      w := Walked([]);
    }
  }

  // ------------------------------------------------------------ the exchange

  /**
    How `recognize` ends: it returns with the walk of the reply, or the process
    is killed by `SIGPIPE`. Both `send` calls pass flags 0, without
    `MSG_NOSIGNAL`, and the program installs a handler for `SIGTERM` only, so a
    write to a peer that has gone away kills the program instead of failing.
  */
  datatype Ending = Ended(walk: Walk) | BrokenPipe

  /**
    `recognize`. No connection (`sock == null`) gives no results. The PNG goes
    out as a frame (header, then data); a peer that has gone away means
    `SIGPIPE` at the first `send`. The first `recv` must bring the whole
    eight-byte header, with the signed comparison; an announced length of 0
    gives no results. Otherwise the body is read until it is complete or the
    stream stops, the socket is closed and the body is parsed; a parse error
    gives no results. `LogicError` is the walk of the JSON throwing, which also
    ends the program.
  */
  method Recognize(sock: Socket?, image: seq<uint8>, parse: seq<uint8> -> Option<Json>, numText: real -> string)
    returns (outcome: Ending)
    requires |image| < TWO_TO_THE_64
    requires sock != null ==> WellFormed(sock.inbound)
    modifies sock
    ensures sock == null ==> outcome == Ended(Walked([]))
    ensures sock != null && !sock.writable ==>
      outcome == BrokenPipe && sock.outbound == old(sock.outbound) && sock.closed == old(sock.closed)
    ensures sock != null && sock.writable ==>
      && outcome == Ended(ParsedReply(ReplyBody(old(sock.inbound)), parse, numText))
      && sock.closed
      && sock.outbound == old(sock.outbound) + Frame(image)
  {
    outcome := Ended(Walked([]));
    if sock != null {
      var sent := sock.SendFrame(image);
      if !sent {
        return BrokenPipe;
      }
      var body := ReadReply(sock);
      sock.Close();
      var walk := Interpret(body, parse, numText);
      outcome := Ended(walk);
    }
  }

  /** The outcome of a reply body: no results without a body or when it does not parse, else what the JSON describes. */
  ghost function ParsedReply(body: Option<seq<uint8>>, parse: seq<uint8> -> Option<Json>, numText: real -> string): Walk {
    if body.None? || parse(body.value).None? then Walked([])
    else Described(parse(body.value).value, numText)
  }

  /** The parsing half of `recognize`. */
  method Interpret(body: Option<seq<uint8>>, parse: seq<uint8> -> Option<Json>, numText: real -> string)
    returns (outcome: Walk)
    ensures outcome == ParsedReply(body, parse, numText)
    ensures body.None? ==> outcome == Walked([])
    ensures body.Some? && parse(body.value).Some? ==> Describes(parse(body.value).value, numText, outcome)
  {
    outcome := Walked([]);
    if body.None? {
      return;
    }
    var root := parse(body.value);
    if root.None? {
      return;
    }
    outcome := Extract(root.value, numText);
    DescribesUnique(root.value, numText, outcome, Described(root.value, numText));
  }

  /** The reading half of `recognize`: the header check, then the body; None where it gives up. */
  method ReadReply(sock: Socket) returns (body: Option<seq<uint8>>)
    requires WellFormed(sock.inbound)
    modifies sock`inbound
    ensures body == ReplyBody(old(sock.inbound))
  {
    ghost var orig := sock.inbound;
    var head := sock.Recv(HEADER_SIZE);
    if ShortHeader(RecvCount(head)) {
      return None;
    }
    var respSize := DecodeBE(head.bytes);
    if respSize == 0 {
      return None;
    }
    assert sock.inbound == AfterRead(orig, HEADER_SIZE);
    var b := ReadBody(sock, respSize);
    body := Some(b);
  }

  /**
    The body loop: `recv` what is missing into the zero-filled buffer until it is
    full or a `recv` returns 0 or less.
  */
  method ReadBody(sock: Socket, n: nat) returns (body: seq<uint8>)
    requires WellFormed(sock.inbound)
    modifies sock`inbound
    ensures body == Padded(Avail(old(sock.inbound)), n)
  {
    ghost var orig := sock.inbound;
    var received: seq<uint8> := [];
    while |received| < n
      invariant WellFormed(sock.inbound)
      invariant |received| <= n
      invariant received + Avail(sock.inbound) == Avail(orig)
      decreases n - |received|
    {
      ghost var before := sock.inbound;
      var m := n - |received|;
      var r := sock.Recv(m);
      if !r.Received? {
        EndFacts(before, m);
        PaddedPrefix(received, [], n);
        return received + Zeros(n - |received|);
      }
      StepFacts(before, m);
      AppendStep(received, r.bytes, Avail(sock.inbound), Avail(orig));
      received := received + r.bytes;
    }
    PaddedPrefix(received, Avail(sock.inbound), n);
    body := received + Zeros(n - |received|);
  }

  lemma AppendStep(received: seq<uint8>, bytes: seq<uint8>, rest: seq<uint8>, total: seq<uint8>)
    requires received + (bytes + rest) == total
    ensures (received + bytes) + rest == total
  {
  }

  /** What was received, zero-filled, is the padded stream once it is full or nothing more can come. */
  lemma PaddedPrefix(received: seq<uint8>, rest: seq<uint8>, n: nat)
    requires |received| == n || (rest == [] && |received| <= n)
    ensures received + Zeros(n - |received|) == Padded(received + rest, n)
  {
    if |received| == n {
      assert (received + rest)[..n] == received;
      assert Zeros(0) == [];
    } else {
      assert received + rest == received;
    }
  }
}
