/**
 * The HTTP payload middleware (pkg/middleware.go): an interceptor that sits
 * between the server and the wrapped handler, keeps a copy of the request
 * body the handler reads and of every response byte it writes, remembers the
 * status code, and renders the whole exchange as one log message.
 *
 * The wrapped http.ResponseWriter is a `ResponseRecorder` that accepts every
 * write. Go's map iteration order is unspecified, so rendering a header is
 * specified for every arrangement of its keys. http.StatusText is a
 * parameter.
 */
module Middleware {
  import opened Errors
  import opened Text
  import opened Logging

  /** An http.Header: each key with its list of values. */
  type Header = map<Bytes, seq<Bytes>>

  /** The parts of an *http.Request the middleware reads. */
  datatype Request = Request(verb: Bytes, path: Bytes, rawQuery: Bytes, proto: Bytes,
                             header: Header, body: Bytes)

  // The punctuation of the message, as byte strings.
  const Space: Bytes := " "
  const NewLine: Bytes := "\n"
  const QuestionMark: Bytes := "?"
  const Colon: Bytes := ":"
  const ColonSpace: Bytes := ": "
  const ValueSeparator: Bytes := "; "

  // ------------------------------------------------------------ containment

  /** `s` is `a`, then `t`, then `b`. */
  predicate Splits(s: Bytes, a: Bytes, t: Bytes, b: Bytes) {
    s == a + t + b
  }

  /** `t` occurs in `s` as a contiguous piece. */
  ghost predicate Contains(s: Bytes, t: Bytes) {
    exists a, b :: Splits(s, a, t, b)
  }

  lemma ContainsLeftPart(a: Bytes, b: Bytes)
    ensures Contains(a + b, a)
  {
    assert Splits(a + b, [], a, b);
  }

  lemma ContainsRightPart(a: Bytes, b: Bytes)
    ensures Contains(a + b, b)
  {
    assert Splits(a + b, a, b, []);
  }

  lemma ContainsTrans(s: Bytes, t: Bytes, u: Bytes)
    requires Contains(s, t) && Contains(t, u)
    ensures Contains(s, u)
  {
    var a, b :| Splits(s, a, t, b);
    var c, d :| Splits(t, c, u, d);
    assert Splits(s, a + c, u, d + b);
  }

  /** Trimming the ends of `s` cannot cut into a piece that is not white
      space at either of its own ends. */
  lemma TrimSpaceKeeps(s: Bytes, t: Bytes)
    requires Contains(s, t) && t != [] && Trimmed(t)
    ensures Contains(TrimSpace(s), t)
  {
    var a, b :| Splits(s, a, t, b);
    var x := SkipSpaces(s, 0);
    var y := DropSpaces(s, x, |s|);
    assert TrimSpace(s) == s[x..y];
    var i, j := |a|, |a| + |t|;
    assert s[i..j] == t;
    assert x <= i by {
      assert s[i] == t[0];
    }
    assert j <= y by {
      assert s[j - 1] == t[|t| - 1];
    }
    assert Splits(s[x..y], s[x..i], t, s[j..y]) by {
      assert s[x..y] == s[x..i] + s[i..j] + s[j..y];
    }
  }

  // ------------------------------------------------------------ headers

  /** The (already trimmed) keys headerToString drops: credentials, and blank
      keys. The comparison is exact, so a key spelled in other case is kept. */
  predicate Redacted(key: Bytes) {
    key == "Authorization" || key == "Cookie" || key == "Set-Cookie" || key == []
  }

  predicate Kept(key: Bytes) {
    !Redacted(TrimSpace(key))
  }

  /** The keys of `h` whose line is written. */
  function KeptKeys(h: Header): set<Bytes> {
    set k | k in h && Kept(k)
  }

  /** The line written for one key: the trimmed key, ": ", the trimmed
      values joined by "; ", and a line break. */
  function HeaderLine(key: Bytes, values: seq<Bytes>): Bytes {
    TrimSpace(key) + ColonSpace + TrimSpace(JoinWith(values, ValueSeparator)) + NewLine
  }

  /** The lines written when the keys are visited in the order `order`. */
  function KeptLines(h: Header, order: seq<Bytes>): seq<Bytes>
    requires forall k :: k in order ==> k in h
  {
    if order == [] then []
    else
      var k := order[|order| - 1];
      KeptLines(h, order[..|order| - 1]) + (if Kept(k) then [HeaderLine(k, h[k])] else [])
  }

  /** The pieces of `pieces`, one after another. */
  function Concat(pieces: seq<Bytes>): Bytes {
    if pieces == [] then [] else Concat(pieces[..|pieces| - 1]) + pieces[|pieces| - 1]
  }

  /** `order` visits every key of `h` exactly once. */
  ghost predicate IsArrangement(order: seq<Bytes>, h: Header) {
    && (forall i, j :: 0 <= i < j < |order| ==> order[i] != order[j])
    && (forall k :: k in order <==> k in h)
  }

  /** `text` is what headerToString can return for `h`, in some iteration
      order of its keys. */
  ghost predicate Rendered(text: Bytes, h: Header) {
    exists order :: IsArrangement(order, h) && text == Concat(KeptLines(h, order))
  }

  lemma KeptLinesSnoc(h: Header, order: seq<Bytes>, k: Bytes)
    requires forall x :: x in order ==> x in h
    requires k in h
    ensures KeptLines(h, order + [k]) == KeptLines(h, order) + (if Kept(k) then [HeaderLine(k, h[k])] else [])
  {
    assert (order + [k])[..|order|] == order;
  }

  lemma ConcatSnoc(pieces: seq<Bytes>, p: Bytes)
    ensures Concat(pieces + [p]) == Concat(pieces) + p
  {
    assert (pieces + [p])[..|pieces|] == pieces;
  }

  /** Go's headerToString: one "key: value" line per key that is not
      redacted, in the map's iteration order. */
  method HeaderToString(header: Header) returns (res: Bytes)
    ensures Rendered(res, header)
  {
    res := [];
    var rest := header.Keys;
    ghost var order: seq<Bytes> := [];
    while rest != {}
      invariant forall i, j :: 0 <= i < j < |order| ==> order[i] != order[j]
      invariant forall k :: k in order ==> k in header && k !in rest
      invariant forall k :: k in header ==> k in order || k in rest
      invariant rest <= header.Keys
      invariant res == Concat(KeptLines(header, order))
      decreases rest
    {
      var k :| k in rest;
      var key := TrimSpace(k);
      var val := JoinWith(header[k], ValueSeparator);
      val := TrimSpace(val);
      rest := rest - {k};
      ghost var visited := order;
      KeptLinesSnoc(header, visited, k);
      order := order + [k];
      if key == "Authorization" || key == "Cookie" || key == "Set-Cookie" || key == "" {
        assert KeptLines(header, order) == KeptLines(header, visited) + [];
        assert KeptLines(header, visited) + [] == KeptLines(header, visited);
        continue;
      }
      ConcatSnoc(KeptLines(header, visited), HeaderLine(k, header[k]));
      res := res + (key + ColonSpace + val + NewLine);
    }
    assert IsArrangement(order, header);
  }

  /** The lines are exactly the "key: value" lines of the keys visited whose
      trimmed key is neither a credential header nor blank. */
  lemma {:induction false} KeptLinesMembers(h: Header, order: seq<Bytes>)
    requires forall k :: k in order ==> k in h
    ensures forall line :: line in KeptLines(h, order) <==>
              exists k :: k in order && Kept(k) && line == HeaderLine(k, h[k])
  {
    if order != [] {
      var init := order[..|order| - 1];
      var k := order[|order| - 1];
      KeptLinesMembers(h, init);
      assert order == init + [k];
    }
  }

  /** The kept keys among those of `order`. */
  function KeptIn(order: seq<Bytes>): set<Bytes> {
    set x | x in order && Kept(x)
  }

  lemma KeptInSnoc(init: seq<Bytes>, k: Bytes)
    ensures KeptIn(init + [k]) == KeptIn(init) + (if Kept(k) then {k} else {})
  {
  }

  lemma LastIsNew(order: seq<Bytes>)
    requires order != []
    requires forall i, j :: 0 <= i < j < |order| ==> order[i] != order[j]
    ensures order[|order| - 1] !in order[..|order| - 1]
  {
    var init, last := order[..|order| - 1], order[|order| - 1];
    forall i | 0 <= i < |init|
      ensures init[i] != last
    {
      assert init[i] == order[i];
    }
  }

  /** Visiting distinct keys writes one line per kept key. */
  lemma {:induction false} KeptLinesCount(h: Header, order: seq<Bytes>)
    requires forall k :: k in order ==> k in h
    requires forall i, j :: 0 <= i < j < |order| ==> order[i] != order[j]
    ensures |KeptLines(h, order)| == |KeptIn(order)|
  {
    if order != [] {
      var init := order[..|order| - 1];
      var k := order[|order| - 1];
      assert order == init + [k];
      LastIsNew(order);
      KeptLinesCount(h, init);
      KeptLinesSnoc(h, init, k);
      KeptInSnoc(init, k);
    }
  }

  /** Whatever order the keys are visited in, the header text has exactly one
      line per kept key, each line is that key's "key: value" line, and no
      line belongs to a credential header or a blank key. */
  lemma HeaderLinesSpec(h: Header, order: seq<Bytes>)
    requires IsArrangement(order, h)
    ensures |KeptLines(h, order)| == |KeptKeys(h)|
    ensures forall k :: k in KeptKeys(h) ==> HeaderLine(k, h[k]) in KeptLines(h, order)
    ensures forall line :: line in KeptLines(h, order) ==>
              exists k :: k in h && !Redacted(TrimSpace(k)) && line == HeaderLine(k, h[k])
  {
    KeptLinesCount(h, order);
    assert KeptIn(order) == KeptKeys(h);
    KeptLinesMembers(h, order);
  }

  /** A header whose keys are all redacted renders as nothing. */
  lemma AllRedactedIsEmpty(h: Header, order: seq<Bytes>)
    requires IsArrangement(order, h)
    requires forall k :: k in h ==> !Kept(k)
    ensures Concat(KeptLines(h, order)) == []
  {
    HeaderLinesSpec(h, order);
    assert KeptKeys(h) == {};
  }

  /** Every line is a piece of the header text. */
  lemma {:induction false} LineContained(lines: seq<Bytes>, i: nat)
    requires i < |lines|
    ensures Contains(Concat(lines), lines[i])
  {
    var init := lines[..|lines| - 1];
    var last := lines[|lines| - 1];
    if i == |lines| - 1 {
      ContainsRightPart(Concat(init), last);
    } else {
      assert init[i] == lines[i];
      LineContained(init, i);
      ContainsLeftPart(Concat(init), last);
      ContainsTrans(Concat(lines), Concat(init), lines[i]);
    }
  }

  /** Within one "key: value" line with a non-blank trimmed key and trimmed
      values, the stretch from the key to the last value byte (or to the
      colon, without values) has no white space at either end. */
  lemma LineCore(key: Bytes, val: Bytes)
    requires key != [] && Trimmed(key) && Trimmed(val)
    ensures var core := if val == [] then key + Colon else key + ColonSpace + val;
            && core != [] && Trimmed(core)
            && Contains(key + ColonSpace + val + NewLine, core)
            && Contains(core, key) && Contains(core, val)
  {
    if val == [] {
      LineCoreBare(key);
      assert key + ColonSpace + val + NewLine == key + ColonSpace + NewLine;
    } else {
      LineCoreValues(key, val);
    }
  }

  lemma LineCoreBare(key: Bytes)
    requires key != [] && Trimmed(key)
    ensures var core := key + Colon;
            && Trimmed(core) && Contains(key + ColonSpace + NewLine, core)
            && Contains(core, key) && Contains(core, [])
  {
    var core := key + Colon;
    assert core[0] == key[0] && core[|core| - 1] == ':';
    assert ColonSpace + NewLine == Colon + (Space + NewLine);
    assert Splits(key + ColonSpace + NewLine, [], core, Space + NewLine);
    assert Splits(core, [], key, Colon);
    assert Splits(core, core, [], []);
  }

  lemma LineCoreValues(key: Bytes, val: Bytes)
    requires key != [] && Trimmed(key) && val != [] && Trimmed(val)
    ensures var core := key + ColonSpace + val;
            && Trimmed(core) && Contains(core + NewLine, core)
            && Contains(core, key) && Contains(core, val)
  {
    var core := key + ColonSpace + val;
    assert core[0] == key[0] && core[|core| - 1] == val[|val| - 1];
    assert Splits(core + NewLine, [], core, NewLine);
    assert Splits(core, [], key, ColonSpace + val);
    assert Splits(core, key + ColonSpace, val, []);
  }

  /** After the outer trimming Bytes applies, the header text still holds the
      trimmed key and the trimmed values of every kept key. */
  lemma HeaderLogged(h: Header, order: seq<Bytes>, k: Bytes)
    requires IsArrangement(order, h)
    requires k in h && Kept(k)
    ensures Contains(TrimSpace(Concat(KeptLines(h, order))), TrimSpace(k))
    ensures Contains(TrimSpace(Concat(KeptLines(h, order))), TrimSpace(JoinWith(h[k], ValueSeparator)))
  {
    var lines := KeptLines(h, order);
    var text := Concat(lines);
    var key, val := TrimSpace(k), TrimSpace(JoinWith(h[k], ValueSeparator));
    var core := if val == [] then key + Colon else key + ColonSpace + val;
    assert Contains(text, HeaderLine(k, h[k])) by {
      HeaderLinesSpec(h, order);
      assert k in KeptKeys(h);
      var i :| 0 <= i < |lines| && lines[i] == HeaderLine(k, h[k]);
      LineContained(lines, i);
    }
    TrimSpaceIsSlice(k);
    TrimSpaceIsSlice(JoinWith(h[k], ValueSeparator));
    LineCore(key, val);
    ContainsTrans(text, HeaderLine(k, h[k]), core);
    TrimSpaceKeeps(text, core);
    ContainsTrans(TrimSpace(text), core, key);
    ContainsTrans(TrimSpace(text), core, val);
  }

  // ------------------------------------------------------------ the message

  /** The request line: method, path, and "?" with the raw query only when
      there is one. */
  function RequestHead(verb: Bytes, path: Bytes, rawQuery: Bytes): Bytes {
    verb + Space + path + (if rawQuery == [] then [] else QuestionMark + rawQuery) + NewLine
  }

  /** The status line: protocol, the code in decimal, and its status text. */
  function ResponseHead(proto: Bytes, code: int, statusText: Bytes): Bytes {
    proto + Space + Decimal(code) + Space + statusText + NewLine
  }

  /** The message Bytes assembles from the rendered request and response
      headers (before trimming) and the captured bodies. */
  function Summary(r: Request, code: int, statusText: Bytes, requestHeaders: Bytes,
                   payload: Bytes, responseHeaders: Bytes, response: Bytes): Bytes
  {
    Layout(RequestHead(r.verb, r.path, r.rawQuery), TrimSpace(requestHeaders), TrimSpace(payload),
           ResponseHead(r.proto, code, statusText), TrimSpace(responseHeaders), TrimSpace(response))
  }

  /** The order of the parts: request line, request headers, a line break,
      payload, a line break, status line, response headers, a line break,
      response. */
  function Layout(rq: Bytes, th: Bytes, tp: Bytes, rs: Bytes, ts: Bytes, tr: Bytes): Bytes {
    rq + th + NewLine + tp + NewLine + rs + ts + NewLine + tr
  }

  /** A query mark appears in the request line exactly when there is a raw
      query (as long as neither the method nor the path has one). */
  lemma QueryMarkIff(verb: Bytes, path: Bytes, rawQuery: Bytes)
    requires '?' !in verb && '?' !in path
    ensures '?' in RequestHead(verb, path, rawQuery) <==> rawQuery != []
  {
    if rawQuery != [] {
      assert RequestHead(verb, path, rawQuery)[|verb| + 1 + |path|] == '?';
    }
  }

  /** Each part of a message laid out as Bytes lays it out occurs in it. */
  lemma LayoutContains(rq: Bytes, th: Bytes, tp: Bytes, rs: Bytes, ts: Bytes, tr: Bytes)
    ensures var s := Layout(rq, th, tp, rs, ts, tr);
            && Contains(s, rq) && Contains(s, th) && Contains(s, tp)
            && Contains(s, rs) && Contains(s, ts) && Contains(s, tr)
  {
    var l1 := rq + th;
    var l3 := l1 + NewLine + tp;
    var l5 := l3 + NewLine + rs;
    var l6 := l5 + ts;
    var s := l6 + NewLine + tr;
    assert s == l6 + (NewLine + tr) && l5 == l3 + NewLine + rs && l3 == (l1 + NewLine) + tp;
    ContainsRightPart(l6 + NewLine, tr);
    ContainsLeftPart(l6, NewLine + tr);
    ContainsRightPart(l5, ts);
    ContainsTrans(s, l6, ts);
    ContainsLeftPart(l5, ts);
    ContainsTrans(s, l6, l5);
    ContainsRightPart(l3 + NewLine, rs);
    ContainsTrans(s, l5, rs);
    assert l5 == l3 + (NewLine + rs);
    ContainsLeftPart(l3, NewLine + rs);
    ContainsTrans(s, l5, l3);
    ContainsRightPart(l1 + NewLine, tp);
    ContainsTrans(s, l3, tp);
    assert l3 == l1 + (NewLine + tp);
    ContainsLeftPart(l1, NewLine + tp);
    ContainsTrans(s, l3, l1);
    ContainsLeftPart(rq, th);
    ContainsRightPart(rq, th);
    ContainsTrans(s, l1, rq);
    ContainsTrans(s, l1, th);
  }

  /** The request line holds the method, the path and the raw query. */
  lemma RequestHeadContains(verb: Bytes, path: Bytes, rawQuery: Bytes)
    ensures var rq := RequestHead(verb, path, rawQuery);
            Contains(rq, verb) && Contains(rq, path) && Contains(rq, rawQuery)
  {
    var q := if rawQuery == [] then [] else QuestionMark + rawQuery;
    var rq := RequestHead(verb, path, rawQuery);
    assert Splits(rq, [], verb, Space + path + q + NewLine);
    assert Splits(rq, verb + Space, path, q + NewLine);
    if rawQuery == [] {
      assert Splits(rq, rq, rawQuery, []);
    } else {
      assert Splits(rq, verb + Space + path + QuestionMark, rawQuery, NewLine);
    }
  }

  /** A line of three words holds each of them. */
  lemma WordsContain(a: Bytes, b: Bytes, c: Bytes)
    ensures var s := a + Space + b + Space + c + NewLine;
            Contains(s, a) && Contains(s, b) && Contains(s, c)
  {
    var s := a + Space + b + Space + c + NewLine;
    assert Splits(s, [], a, Space + b + Space + c + NewLine);
    assert Splits(s, a + Space, b, Space + c + NewLine);
    assert Splits(s, a + Space + b + Space, c, NewLine);
  }

  /** The status line holds the protocol, the code and the status text. */
  lemma ResponseHeadContains(proto: Bytes, code: int, statusText: Bytes)
    ensures var rs := ResponseHead(proto, code, statusText);
            Contains(rs, proto) && Contains(rs, Decimal(code)) && Contains(rs, statusText)
  {
    WordsContain(proto, Decimal(code), statusText);
  }

  /** The message holds the method, path, raw query, protocol, status code
      and status text, and the trimmed header texts and bodies. */
  lemma SummaryContains(r: Request, code: int, statusText: Bytes, requestHeaders: Bytes,
                        payload: Bytes, responseHeaders: Bytes, response: Bytes)
    ensures var s := Summary(r, code, statusText, requestHeaders, payload, responseHeaders, response);
            && Contains(s, r.verb) && Contains(s, r.path) && Contains(s, r.rawQuery)
            && Contains(s, r.proto) && Contains(s, Decimal(code)) && Contains(s, statusText)
            && Contains(s, TrimSpace(requestHeaders)) && Contains(s, TrimSpace(payload))
            && Contains(s, TrimSpace(responseHeaders)) && Contains(s, TrimSpace(response))
  {
    var s := Summary(r, code, statusText, requestHeaders, payload, responseHeaders, response);
    var rq := RequestHead(r.verb, r.path, r.rawQuery);
    var rs := ResponseHead(r.proto, code, statusText);
    LayoutContains(rq, TrimSpace(requestHeaders), TrimSpace(payload), rs, TrimSpace(responseHeaders), TrimSpace(response));
    RequestHeadContains(r.verb, r.path, r.rawQuery);
    ResponseHeadContains(r.proto, code, statusText);
    ContainsTrans(s, rq, r.verb);
    ContainsTrans(s, rq, r.path);
    ContainsTrans(s, rq, r.rawQuery);
    ContainsTrans(s, rs, r.proto);
    ContainsTrans(s, rs, Decimal(code));
    ContainsTrans(s, rs, statusText);
  }

  // ------------------------------------------------------------ the writers

  /** The wrapped http.ResponseWriter: the header map the handler has filled
      by the time the exchange is logged, the status codes it is sent and the
      body bytes it receives. */
  class ResponseRecorder {
    const header: Header
    var codes: seq<int>
    var body: Bytes

    constructor (header: Header)
      ensures this.header == header && codes == [] && body == []
    {
      this.header := header;
      codes := [];
      body := [];
    }

    method Write(b: Bytes) returns (n: int, err: Option<Error>)
      modifies this`body
      ensures body == old(body) + b && n == |b| && err.None?
    {
      body := body + b;
      n := |b|;
      err := None;
    }

    method WriteHeader(code: int)
      modifies this`codes
      ensures codes == old(codes) + [code]
    {
      codes := codes + [code];
    }
  }

  /** Go's interceptor, with the request body behind the tee reader. */
  class Interceptor {
    var code: int
    var payload: Bytes
    var response: Bytes
    const request: Request
    const writer: ResponseRecorder
    /** The part of the request body the handler has not read yet. */
    var unread: Bytes
    /** What the handler wrote and which status codes it set, in order. */
    ghost var writes: seq<Bytes>
    ghost var statuses: seq<int>
    /** What the writer had received before the interceptor was made. */
    ghost const sentBefore: Bytes

    ghost predicate Valid()
      reads this, writer`body
    {
      && payload + unread == request.body
      && response == Concat(writes)
      && writer.body == sentBefore + response
      && code == (if statuses == [] then 0 else statuses[|statuses| - 1])
    }

    /** Go's newInterceptor: empty buffers, status code 0, and the request
        body routed through the payload copy. */
    constructor (w: ResponseRecorder, r: Request)
      ensures Valid()
      ensures request == r && writer == w && unread == r.body
      ensures code == 0 && payload == [] && response == [] && writes == [] && statuses == []
    {
      code := 0;
      payload := [];
      response := [];
      request := r;
      writer := w;
      unread := r.body;
      writes := [];
      statuses := [];
      sentBefore := w.body;
    }

    /** The handler reading at most `n` bytes of the request body: whatever
        the reader hands out is also appended to the payload. */
    method ReadBody(n: nat) returns (chunk: Bytes)
      requires Valid()
      modifies this`payload, this`unread
      ensures Valid()
      ensures chunk == old(unread)[..if n < |old(unread)| then n else |old(unread)|]
      ensures unread == old(unread)[|chunk|..] && payload == old(payload) + chunk
    {
      var m := if n < |unread| then n else |unread|;
      chunk := unread[..m];
      payload := payload + chunk;
      unread := unread[m..];
      assert old(unread) == chunk + unread;
    }

    /** Go's interceptor.Write: keep a copy, then pass the bytes on and
        return what the wrapped writer returns. */
    method Write(b: Bytes) returns (n: int, err: Option<Error>)
      requires Valid()
      modifies this`response, this`writes, writer`body
      ensures Valid()
      ensures writes == old(writes) + [b]
      ensures response == old(response) + b && writer.body == old(writer.body) + b
      ensures n == |b| && err.None?
    {
      ghost var before := writer.body;
      assert before == sentBefore + response;
      response := response + b;
      writes := writes + [b];
      assert response == Concat(writes) by {
        ConcatSnoc(old(writes), b);
      }
      n, err := writer.Write(b);
      assert writer.body == sentBefore + response by {
        assert writer.body == before + b;
      }
    }

    /** Go's interceptor.WriteHeader: remember the code, then pass it on. */
    method WriteHeader(statusCode: int)
      requires Valid()
      modifies this`code, this`statuses, writer`codes
      ensures Valid()
      ensures code == statusCode && statuses == old(statuses) + [statusCode]
      ensures writer.codes == old(writer.codes) + [statusCode]
    {
      code := statusCode;
      statuses := statuses + [statusCode];
      writer.WriteHeader(statusCode);
    }

    /** Go's interceptor.Bytes, with `statusText` for http.StatusText. */
    method Bytes(statusText: int -> Bytes) returns (r: Bytes)
      ensures exists rq, rs :: Rendered(rq, request.header) && Rendered(rs, writer.header)
                && r == Summary(request, code, statusText(code), rq, payload, rs, response)
    {
      var requestRawQuery := request.rawQuery;
      if requestRawQuery != [] {
        requestRawQuery := QuestionMark + requestRawQuery;
      }
      var requestHead := request.verb + Space + request.path + requestRawQuery + NewLine;
      var rq := HeaderToString(request.header);
      var requestHeaders := TrimSpace(rq);
      var responseHead := request.proto + Space + Decimal(code) + Space + statusText(code) + NewLine;
      var rs := HeaderToString(writer.header);
      var responseHeaders := TrimSpace(rs);
      var requestBody, responseBody := TrimSpace(payload), TrimSpace(response);
      r := requestHead + requestHeaders;
      r := r + NewLine;
      r := r + requestBody;
      r := r + NewLine;
      r := r + responseHead + responseHeaders;
      r := r + NewLine;
      r := r + responseBody;
      assert r == Layout(requestHead, requestHeaders, requestBody, responseHead, responseHeaders, responseBody);
      assert requestHead == RequestHead(request.verb, request.path, request.rawQuery);
      assert responseHead == ResponseHead(request.proto, code, statusText(code));
      assert r == Summary(request, code, statusText(code), rq, payload, rs, response);
      assert Rendered(rq, request.header) && Rendered(rs, writer.header);
    }
  }

  /** What one exchange logs when the interceptor has captured `payload`,
      `response` and `code`: every part the summary holds, and the trimmed
      key and values of each kept request and response header. */
  lemma ExchangeLogged(r: Request, code: int, statusText: Bytes, payload: Bytes, response: Bytes,
                       responseHeader: Header, rqOrder: seq<Bytes>, rsOrder: seq<Bytes>)
    requires IsArrangement(rqOrder, r.header) && IsArrangement(rsOrder, responseHeader)
    ensures var s := Summary(r, code, statusText, Concat(KeptLines(r.header, rqOrder)), payload,
                             Concat(KeptLines(responseHeader, rsOrder)), response);
            && Contains(s, r.verb) && Contains(s, r.path) && Contains(s, r.rawQuery)
            && Contains(s, r.proto) && Contains(s, statusText)
            && Contains(s, TrimSpace(payload)) && Contains(s, TrimSpace(response))
            && (forall k :: k in KeptKeys(r.header) ==>
                  Contains(s, TrimSpace(k)) && Contains(s, TrimSpace(JoinWith(r.header[k], ValueSeparator))))
            && (forall k :: k in KeptKeys(responseHeader) ==>
                  Contains(s, TrimSpace(k)) && Contains(s, TrimSpace(JoinWith(responseHeader[k], ValueSeparator))))
  {
    var rq := Concat(KeptLines(r.header, rqOrder));
    var rs := Concat(KeptLines(responseHeader, rsOrder));
    var s := Summary(r, code, statusText, rq, payload, rs, response);
    SummaryContains(r, code, statusText, rq, payload, rs, response);
    forall k | k in KeptKeys(r.header)
      ensures Contains(s, TrimSpace(k)) && Contains(s, TrimSpace(JoinWith(r.header[k], ValueSeparator)))
    {
      HeaderLogged(r.header, rqOrder, k);
      ContainsTrans(s, TrimSpace(rq), TrimSpace(k));
      ContainsTrans(s, TrimSpace(rq), TrimSpace(JoinWith(r.header[k], ValueSeparator)));
    }
    forall k | k in KeptKeys(responseHeader)
      ensures Contains(s, TrimSpace(k)) && Contains(s, TrimSpace(JoinWith(responseHeader[k], ValueSeparator)))
    {
      HeaderLogged(responseHeader, rsOrder, k);
      ContainsTrans(s, TrimSpace(rs), TrimSpace(k));
      ContainsTrans(s, TrimSpace(rs), TrimSpace(JoinWith(responseHeader[k], ValueSeparator)));
    }
  }

  // ------------------------------------------------------------ the handler

  /** The handler NewHttpPayloadHandler returns: a logger and a level. */
  class PayloadHandler {
    const logger: Logger
    const level: LogLevel

    constructor (logger: Logger, level: LogLevel)
      ensures this.logger == logger && this.level == level
    {
      this.logger := logger;
      this.level := level;
    }

    /** The deferred step after the wrapped handler returns: the exchange is
        sent through the logger at the handler's level; a logging error is
        only printed to the console, so it is not returned. */
    method LogExchange(i: Interceptor, statusText: int -> Bytes, fails: Oracle)
      returns (deliveries: seq<Delivery>)
      ensures exists m :: (exists rq, rs :: Rendered(rq, i.request.header) && Rendered(rs, i.writer.header)
                             && m == Summary(i.request, i.code, statusText(i.code), rq, i.payload, rs, i.response))
                        && deliveries == Dispatch(logger.minimumLogLevel, logger.handlers, logger.hooks,
                                                  level, m, fails).deliveries
    {
      var m := i.Bytes(statusText);
      var n, err;
      n, err, deliveries := logger.WriteLog(level, m, fails);
    }
  }

  /** Go's NewHttpPayloadHandler: without a logger it fails with "logger is
      nil" and returns no handler. */
  method NewHttpPayloadHandler(logger: Logger?, level: LogLevel) returns (h: PayloadHandler?, err: Option<Error>)
    ensures logger == null ==> h == null && err == Some(LoggerNil)
    ensures logger != null ==> h != null && fresh(h) && h.logger == logger && h.level == level && err.None?
  {
    if logger == null {
      return null, Some(LoggerNil);
    }
    h := new PayloadHandler(logger, level);
    err := None;
  }
}
