/** The keep-alive loop of the server. */
module Server {
  import opened Body
  import opened Bytes
  import opened Connection
  import opened HeadParser
  import opened HeadPrinters
  import opened HeadReads
  import opened Numerals
  import opened Search
  import opened Wrappers

  datatype ResponseData = ResponseData(status: nat, headers: seq<Field>, body: seq<Byte>)

  /** "GET". */
  const GET: seq<Byte> := [71, 69, 84]

  /** "close" and "keep-alive". */
  const CLOSE: seq<Byte> := [99, 108, 111, 115, 101]
  const KEEP_ALIVE: seq<Byte> := [107, 101, 101, 112, 45, 97, 108, 105, 118, 101]

  /** The reason phrases the server knows. */
  function Reason(status: nat): seq<Byte> {
    match status
    case 200 => [79, 75]
    case 201 => [67, 114, 101, 97, 116, 101, 100]
    case 204 => [78, 111, 32, 67, 111, 110, 116, 101, 110, 116]
    case 400 => [66, 97, 100, 32, 82, 101, 113, 117, 101, 115, 116]
    case 404 => [78, 111, 116, 32, 70, 111, 117, 110, 100]
    case 405 => [77, 101, 116, 104, 111, 100, 32, 78, 111, 116, 32, 65, 108, 108, 111, 119, 101, 100]
    case 500 => [73, 110, 116, 101, 114, 110, 97, 108, 32, 83, 101, 114, 118, 101, 114, 32, 69, 114, 114, 111, 114]
    case 501 => [78, 111, 116, 32, 73, 109, 112, 108, 101, 109, 101, 110, 116, 101, 100]
    case _ => []
  }

  /** Section 9.3 of RFC 9112. */
  predicate KeepAlive(head: Head) {
    var connection := Get(head.fields, CONNECTION);
    if head.version == Http11 then !(connection.Some? && EqIgnoreCase(connection.value, CLOSE))
    else connection.Some? && EqIgnoreCase(connection.value, KEEP_ALIVE)
  }

  function ResponseFields(r: ResponseData): seq<Field> {
    r.headers + if r.body != [] then [Field(CONTENT_LENGTH, Decimal(|r.body|))] else []
  }

  function ResponseText(r: ResponseData): seq<Byte> {
    HeadText(StatusLine(r.status, Reason(r.status)), ResponseFields(r)) + r.body
  }

  /** What the handler got of the body: it did not ask, it could not have all of it, or all of it. */
  datatype BodyRead = Unread | Partial | Whole(data: seq<Byte>)

  /** One call of the handler. */
  datatype Exchange = Exchange(head: Head, body: BodyRead)

  /**
   * A handler may keep state, so what it does depends on everything it was given so far: up to
   * how many bytes it wants of the body of the next request, if it reads the body at all, and
   * what it answers to the last one.
   */
  datatype Handler = Handler(limit: (seq<Exchange>, Head) -> Option<nat>, respond: seq<Exchange> -> ResponseData)

  function Responses(log: seq<Exchange>, handler: Handler): seq<Byte> {
    if log == [] then [] else Responses(log[..|log| - 1], handler) + ResponseText(handler.respond(log))
  }

  // ---- what a connection amounts to --------------------------------------------------------

  /** How serving ends. `Unclear` is the case in which the reads decide the fate of a head. */
  datatype End = Done | Failed(error: HttpError) | Unclear

  datatype Script = Script(exchanges: seq<Exchange>, end: End)

  function Then(first: seq<Exchange>, s: Script): Script {
    Script(first + s.exchanges, s.end)
  }

  /** What is read of a body, and the bytes behind it if that is all of the body. */
  datatype Taken = Taken(body: BodyRead, rest: Option<seq<Byte>>)

  function Take(kind: BodyKind, bytes: seq<Byte>, limit: Option<nat>): (t: Taken)
    ensures t.rest.Some? ==> |t.rest.value| <= |bytes|
  {
    match limit
    case None => Taken(Unread, if kind == Empty || kind == ContentLength(0) then Some(bytes) else None)
    case Some(max) =>
      match BodyOf(kind, bytes)
      case Err(_) => Taken(Partial, None)
      case Ok(f) => if |f.data| > max then Taken(Partial, None) else Taken(Whole(f.data), Some(f.rest))
  }

  /** The next request with what its handler gets, and the bytes of the requests behind it. */
  datatype Turn = Turn(exchange: Exchange, rest: Option<seq<Byte>>)

  /** One turn of the loop, by the bytes; an error or a clean end dispatches nothing. */
  function NextTurn(all: seq<Byte>, handler: Handler, log: seq<Exchange>): (r: Result<Option<Turn>, HttpError>)
    ensures r.Ok? && r.value.Some? && r.value.value.rest.Some? ==> |r.value.value.rest.value| < |all|
  {
    match HeadResult(all, Request)
    case Err(e) => Err(e)
    case Ok(None) => Ok(None)
    case Ok(Some(head)) =>
      match RequestBodyKind(head.fields)
      case Err(e) => Err(e)
      case Ok(kind) =>
        var t := Take(kind, all[HeadAt(all, Request).value.value.1..], handler.limit(log, head));
        Ok(Some(Turn(Exchange(head, t.body), if KeepAlive(head) then t.rest else None)))
  }

  /** The exchanges that the bytes of a connection contain for this handler, after those of `log`. */
  function Serve(all: seq<Byte>, handler: Handler, log: seq<Exchange>): Script
    decreases |all|
  {
    if !Certain(all, Request) then Script([], Unclear)
    else
      match NextTurn(all, handler, log)
      case Err(e) => Script([], Failed(e))
      case Ok(None) => Script([], Done)
      case Ok(Some(turn)) =>
        var x := [turn.exchange];
        if turn.rest.Some? then Then(x, Serve(turn.rest.value, handler, log + x)) else Script(x, Done)
  }

  /** What serving has done so far fits what the bytes contain, or the bytes leave it unclear. */
  ghost predicate Fits(s: Script, log: seq<Exchange>, now: Script) {
    s == Then(log, now) || (s.end == Unclear && s.exchanges <= log)
  }

  predicate EndsAs(end: End, r: Result<(), HttpError>) {
    match end
    case Done => r == Ok(())
    case Failed(e) => r == Err(e)
    case Unclear => true
  }

  /** Reads as much of the body as the handler wants; `whole` if the reader is finished with it. */
  method TakeBody(conn: HttpConnection, kind: BodyKind, limit: Option<nat>) returns (body: BodyRead, whole: bool)
    requires conn.Valid() && |conn.buf| < READ_CHUNK
    modifies conn`buf, conn`eof, conn.io`unread, conn.io`waited
    ensures conn.Valid()
    ensures var t := Take(kind, old(conn.Remaining()), limit);
            && body == t.body && whole == t.rest.Some?
            && (whole ==> conn.Remaining() == t.rest.value && |conn.buf| < READ_CHUNK)
    ensures BodyOf(kind, old(conn.Remaining())).Ok? && kind != UntilEof ==> conn.io.waited == old(conn.io.waited)
  {
    hide BodyOf;
    var reader := new BodyReader(conn, kind);
    body := Unread;
    if limit.Some? {
      var data := reader.ReadToVec(limit.value);
      body := if data.Ok? then Whole(data.value) else Partial;
    }
    whole := reader.finished;
  }

  /** A whole request is there, with its body, so that serving it needs no more bytes. */
  predicate Complete(all: seq<Byte>) {
    var h := HeadResult(all, Request);
    h.Ok? && h.value.Some? &&
    var kind := RequestBodyKind(h.value.value.fields);
    kind.Ok? && BodyOf(kind.value, all[HeadAt(all, Request).value.value.1..]).Ok?
  }

  /** Reads one request, has it handled, and writes the response; `done` if that was the last. */
  method ServeOne(conn: HttpConnection, handler: Handler, log: seq<Exchange>)
    returns (done: Option<Result<(), HttpError>>, more: seq<Exchange>)
    requires conn.Valid() && |conn.buf| < READ_CHUNK
    modifies conn`buf, conn`eof, conn.io
    ensures conn.Valid() && |more| <= 1
    ensures conn.io.written ==
              old(conn.io.written) + if more == [] then [] else ResponseText(handler.respond(log + more))
    ensures var s := Serve(old(conn.Remaining()), handler, log);
            s == Script([], Unclear) ||
            match done
            case Some(r) => s.exchanges == more && EndsAs(s.end, r)
            case None => s == Then(more, Serve(conn.Remaining(), handler, log + more))
    ensures done == None ==>
              |more| == 1 && |conn.buf| < READ_CHUNK && |conn.Remaining()| < |old(conn.Remaining())|
    ensures old(Certain(conn.Remaining(), Request) && Complete(conn.Remaining())) ==>
              |more| == 1 && conn.io.waited == old(conn.io.waited)
  {
    hide Certain;
    hide HeadAt;
    hide HeadResult;
    hide ByReads;
    hide RequestBodyKind;
    hide KeepAlive;
    hide ResponseText;
    hide Take;
    hide Serve;
    hide BodyOf;
    ghost var all := conn.Remaining();
    more := [];
    assert conn.io.written + [] == conn.io.written;
    ServeUnfolds(all, handler, log);
    var read, sizes := conn.ReadHead(Request);
    if read.Err? {
      return Some(Err(read.error)), more;
    }
    if read.value == None {
      return Some(Ok(())), more; // the peer is done
    }
    var head := read.value.value;
    var kind := RequestBodyKind(head.fields);
    if kind.Err? {
      return Some(Err(kind.error)), more;
    }
    RequestNotUntilEof(head.fields);
    var body, whole := TakeBody(conn, kind.value, handler.limit(log, head));
    more := [Exchange(head, body)];
    Respond(conn, handler.respond(log + more));
    if !KeepAlive(head) || !whole {
      return Some(Ok(())), more;
    }
    return None, more;
  }

  method Respond(conn: HttpConnection, response: ResponseData)
    modifies conn.io`written
    ensures conn.io.written == old(conn.io.written) + ResponseText(response)
  {
    hide HeadText;
    hide StatusLine;
    var head := RenderHead(
      response.status, Reason(response.status), response.headers, response.body != [], |response.body|);
    conn.io.WriteAll(head);
    if response.body != [] {
      conn.io.WriteAll(response.body);
    }
    assert head + [] == head;
  }

  /** `Serve`, one request deep, without its recursion. */
  lemma ServeUnfolds(all: seq<Byte>, handler: Handler, log: seq<Exchange>)
    ensures var s := Serve(all, handler, log);
            if !Certain(all, Request) then s == Script([], Unclear)
            else
              var turn := NextTurn(all, handler, log);
              if turn.Err? then s == Script([], Failed(turn.error))
              else if turn.value == None then s == Script([], Done)
              else
                var x := [turn.value.value.exchange];
                s == if turn.value.value.rest == None then Script(x, Done)
                     else Then(x, Serve(turn.value.value.rest.value, handler, log + x))
  {
    hide Certain;
    hide NextTurn;
  }

  /**
   * Serves a connection until the peer closes, keep-alive ends or an error stops it. Which
   * requests the handler sees, with which bodies, depends on the bytes alone and not on how
   * the transport hands them out; and what is written is the handler's responses, in order,
   * and nothing else.
   */
  method ServeConnection(io: Transport, handler: Handler)
    returns (r: Result<(), HttpError>, log: seq<Exchange>)
    modifies io
    ensures var s := Serve(old(io.unread), handler, []);
            if s.end == Unclear then s.exchanges <= log else log == s.exchanges && EndsAs(s.end, r)
    ensures io.written == old(io.written) + Responses(log, handler)
  {
    hide Serve;
    hide Responses;
    hide Fits;
    ghost var script := Serve(io.unread, handler, []);
    var conn := new HttpConnection(io);
    log := [];
    FitsAtFirst(script, io.unread, conn.buf);
    NoResponses(handler, io.written);
    while true
      invariant conn.Valid() && conn.io == io && |conn.buf| < READ_CHUNK
      invariant Fits(script, log, Serve(conn.Remaining(), handler, log))
      invariant io.written == old(io.written) + Responses(log, handler)
      decreases |conn.Remaining()|
    {
      ghost var s, before := Serve(conn.Remaining(), handler, log), log;
      var done, more := ServeOne(conn, handler, log);
      log := log + more;
      FitsAfter(script, before, s, more, done, Serve(conn.Remaining(), handler, log));
      MoreResponses(old(io.written), before, more, handler);
      if done.Some? {
        return done.value, log;
      }
    }
  }

  lemma NoResponses(handler: Handler, written: seq<Byte>)
    ensures written == written + Responses([], handler)
  {
  }

  lemma MoreResponses(start: seq<Byte>, log: seq<Exchange>, more: seq<Exchange>, handler: Handler)
    requires |more| <= 1
    ensures start + Responses(log + more, handler) ==
            start + Responses(log, handler) + if more == [] then [] else ResponseText(handler.respond(log + more))
  {
    hide ResponseText;
    if more == [] {
      assert log + more == log;
    } else {
      assert (log + more)[..|log|] == log;
    }
  }

  lemma FitsAtFirst(script: Script, unread: seq<Byte>, buf: seq<Byte>)
    requires buf == []
    ensures Fits(script, [], script) && buf + unread == unread
  {
    assert Then([], script) == script;
  }

  lemma FitsAfter(
      script: Script, log: seq<Exchange>, s: Script, more: seq<Exchange>, done: Option<Result<(), HttpError>>,
      now: Script)
    requires Fits(script, log, s)
    requires s == Script([], Unclear) ||
             match done
             case Some(r) => s.exchanges == more && EndsAs(s.end, r)
             case None => s == Then(more, now)
    ensures done == None ==> Fits(script, log + more, now)
    ensures done.Some? ==>
              if script.end == Unclear then script.exchanges <= log + more
              else script.exchanges == log + more && EndsAs(script.end, done.value)
  {
    if s == Script([], Unclear) {
      assert log + [] == log;
    } else if done == None {
      assert log + (more + now.exchanges) == (log + more) + now.exchanges;
    }
  }

  // ---- requests that are not answered --------------------------------------------------------

  /**
   * A malformed request is documented to be answered with status 400. It is not: the bytes of a
   * connection get an answer iff they begin with a head that parses and frames its body clearly.
   */
  lemma AnsweredIff(all: seq<Byte>, handler: Handler, log: seq<Exchange>)
    requires Certain(all, Request)
    ensures Serve(all, handler, log).exchanges != [] <==>
              HeadResult(all, Request).Ok? && HeadResult(all, Request).value.Some? &&
              RequestBodyKind(HeadResult(all, Request).value.value.fields).Ok?
    ensures HeadResult(all, Request).Err? ==>
              Serve(all, handler, log) == Script([], Failed(HeadResult(all, Request).error))
  {
    hide Certain;
    hide HeadAt;
    hide HeadResult;
    hide RequestBodyKind;
    hide KeepAlive;
    hide Take;
    hide Serve;
    ServeUnfolds(all, handler, log);
  }

  /** An empty line where a request should be ends the connection without a word. */
  method RefuseEmptyLine(io: Transport, handler: Handler) returns (r: Result<(), HttpError>)
    requires io.unread == HEADER_DELIM
    modifies io
    ensures r == Err(Malformed("empty head")) && io.written == old(io.written)
  {
    EmptyLineFails(handler);
    var log;
    r, log := ServeConnection(io, handler);
    NoResponses(handler, old(io.written));
  }

  lemma EmptyLineFails(handler: Handler)
    ensures Serve(HEADER_DELIM, handler, []) == Script([], Failed(Malformed("empty head")))
  {
    var all := HEADER_DELIM;
    assert all[..4] == all;
    FindIs(all, HEADER_DELIM, 0);
    NoFoldInNothing();
    assert all[..0] == [];
    assert HeadOf(all, Request) == Err(Malformed("empty head"));
    hide HeadOf;
    AnsweredIff(all, handler, []);
  }

  lemma NoFoldInNothing()
    ensures !HasFold([])
  {
  }

  // ---- pipelining ------------------------------------------------------------------------------

  /** The wire form of a request, and what there is in it for the handler to see. */
  datatype Wire = Wire(head: seq<Byte>, body: seq<Byte>, parsed: Head, data: seq<Byte>)

  /** A well-formed request with a head of at most MAX_HEAD - READ_CHUNK + 1 bytes. */
  predicate Good(w: Wire) {
    && |w.head| <= LATE
    && HeadOf(w.head, Request) == Ok(Some((w.parsed, |w.head|)))
    && RequestBodyKind(w.parsed.fields).Ok?
    && BodyOf(RequestBodyKind(w.parsed.fields).value, w.body) == Ok(Framed(w.data, []))
  }

  function WireText(ws: seq<Wire>): seq<Byte> {
    if ws == [] then [] else ws[0].head + ws[0].body + WireText(ws[1..])
  }

  /** What a handler with this limit gets of the body. */
  function Got(w: Wire, limit: Option<nat>): BodyRead {
    match limit
    case None => Unread
    case Some(max) => if |w.data| <= max then Whole(w.data) else Partial
  }

  /** The connection goes on behind this request: nobody asks for its end, and no body is left over. */
  predicate GoesOn(w: Wire, limit: Option<nat>) {
    KeepAlive(w.parsed) && match limit case None => w.body == [] case Some(max) => |w.data| <= max
  }

  /** The exchanges up to the first request behind which the connection does not go on. */
  function Dispatched(ws: seq<Wire>, handler: Handler, log: seq<Exchange>): seq<Exchange> {
    if ws == [] then []
    else
      var limit := handler.limit(log, ws[0].parsed);
      var x := [Exchange(ws[0].parsed, Got(ws[0], limit))];
      x + if GoesOn(ws[0], limit) then Dispatched(ws[1..], handler, log + x) else []
  }

  predicate AllGoOn(ws: seq<Wire>, handler: Handler, log: seq<Exchange>) {
    ws == [] ||
    var limit := handler.limit(log, ws[0].parsed);
    GoesOn(ws[0], limit) && AllGoOn(ws[1..], handler, log + [Exchange(ws[0].parsed, Got(ws[0], limit))])
  }

  /** A head that parses on its own parses the same, and promptly, whatever follows it. */
  lemma GoodHead(head: seq<Byte>, kind: HeadKind, parsed: Head, rest: seq<Byte>)
    requires |head| <= LATE && HeadOf(head, kind) == Ok(Some((parsed, |head|)))
    ensures Prompt(head + rest, kind) && HeadAt(head + rest, kind) == Ok(Some((parsed, |head|)))
  {
    hide HeadOf;
    var all := head + rest;
    assert all[..|head|] == head;
    Settled(all, kind, |head|, Least(|all|, LATE));
    Settled(all, kind, |head|, Least(|all|, MAX_HEAD));
  }

  lemma RequestNotUntilEof(fs: seq<Field>)
    ensures RequestBodyKind(fs) != Ok(UntilEof)
  {
    hide Get;
    hide EqIgnoreCase;
    hide TrimText;
  }

  /** A request has no body bytes iff its head says so. */
  lemma NoBodyIff(kind: BodyKind, body: seq<Byte>, data: seq<Byte>)
    requires kind != UntilEof && BodyOf(kind, body) == Ok(Framed(data, []))
    ensures body == [] <==> kind == Empty || kind == ContentLength(0)
  {
    if kind == Chunked && body == [] {
      assert Find(body, CRLF) == None;
    }
  }

  lemma TakeGood(kind: BodyKind, w: Wire, rest: seq<Byte>, limit: Option<nat>)
    requires kind != UntilEof && BodyOf(kind, w.body) == Ok(Framed(w.data, []))
    ensures Take(kind, w.body + rest, limit).body == Got(w, limit)
    ensures (if KeepAlive(w.parsed) then Take(kind, w.body + rest, limit).rest else None) ==
            if GoesOn(w, limit) then Some(rest) else None
  {
    hide BodyOf;
    hide KeepAlive;
    NoBodyIff(kind, w.body, w.data);
    BodyStable(kind, w.body, rest);
    assert [] + rest == rest;
  }

  lemma GoodRequestServed(w: Wire, rest: seq<Byte>, handler: Handler, log: seq<Exchange>)
    requires Good(w)
    ensures var limit := handler.limit(log, w.parsed);
            var x := [Exchange(w.parsed, Got(w, limit))];
            Serve(w.head + w.body + rest, handler, log) ==
            if GoesOn(w, limit) then Then(x, Serve(rest, handler, log + x)) else Script(x, Done)
  {
    hide HeadOf;
    hide HeadAt;
    hide Prompt;
    hide RequestBodyKind;
    hide KeepAlive;
    hide BodyOf;
    hide Serve;
    hide Take;
    hide GoesOn;
    hide Got;
    var all := w.head + w.body + rest;
    var tail := w.body + rest;
    assert all == w.head + tail && all[|w.head|..] == tail;
    GoodHead(w.head, Request, w.parsed, tail);
    RequestNotUntilEof(w.parsed.fields);
    TakeGood(RequestBodyKind(w.parsed.fields).value, w, rest, handler.limit(log, w.parsed));
    ServeUnfolds(all, handler, log);
  }

  /** Two lengths in one request: the server takes the first, and what is behind that much body for the next request. */
  lemma TwoLengthsServed(meth: seq<Byte>, target: seq<Byte>, m: nat, n: nat, body: seq<Byte>)
    requires GoodRequest(meth, target) && |body| == m && m < U64
    requires |HeadText(RequestLine(meth, target), TwoLengths(m, n))| <= LATE
    ensures Good(Wire(HeadText(RequestLine(meth, target), TwoLengths(m, n)), body,
                      Head(meth, target, Http11, None, TwoLengths(m, n)), body))
  {
    hide HeadText;
    hide RequestLine;
    hide GoodRequest;
    hide CleanFields;
    hide HeadOf;
    hide RequestBodyKind;
    hide TwoLengths;
    TwoLengthsRead(m, n);
    RequestParsed(meth, target, TwoLengths(m, n));
    assert body[..m] == body && body[m..] == [];
  }

  lemma TwoLengthsRead(m: nat, n: nat)
    requires m < U64
    ensures CleanFields(TwoLengths(m, n)) && RequestBodyKind(TwoLengths(m, n)) == Ok(ContentLength(m))
  {
    hide CleanField;
    hide RequestBodyKind;
    hide Decimal;
    hide IsLength;
    hide TrimText;
    hide EqIgnoreCase;
    var fs := TwoLengths(m, n);
    LengthFieldIsClean(m);
    LengthFieldIsClean(n);
    LengthNames();
    assert [] + [fs[0]] + [fs[1]] == fs && fs[1..] == [fs[1]] && fs[1..][1..] == [];
    assert Get(fs[1..], TRANSFER_ENCODING) == None;
    LengthsRejectedIff([], fs[0], [fs[1]]);
    DecimalIsLength(m);
  }

  function TwoLengths(m: nat, n: nat): seq<Field> {
    [Field(CONTENT_LENGTH, Decimal(m)), Field(CONTENT_LENGTH, Decimal(n))]
  }

  lemma LengthNames()
    ensures EqIgnoreCase(CONTENT_LENGTH, CONTENT_LENGTH) && !EqIgnoreCase(CONTENT_LENGTH, TRANSFER_ENCODING)
  {
  }

  lemma RequestParsed(meth: seq<Byte>, target: seq<Byte>, fs: seq<Field>)
    requires GoodRequest(meth, target) && CleanFields(fs)
    requires |HeadText(RequestLine(meth, target), fs)| <= MAX_HEAD
    ensures var text := HeadText(RequestLine(meth, target), fs);
            HeadOf(text, Request) == Ok(Some((Head(meth, target, Http11, None, fs), |text|)))
  {
    hide HeadOf;
    hide HeadText;
    hide ParseRequestLine;
    hide RequestLine;
    hide CleanLine;
    hide CleanFields;
    var line := RequestLine(meth, target);
    RequestLineReadBack(meth, target);
    RequestLineWords(meth, target);
    RequestLineIsClean(meth, target);
    assert PrintedHead(line, fs, Request) == Head(meth, target, Http11, None, fs);
    hide PrintedHead;
    hide ParseFirstLine;
    PrintedIsParsed(line, fs, [], Request);
    assert HeadText(line, fs) + [] == HeadText(line, fs);
  }

  /** A path of n bytes. */
  function LongPath(n: nat): (path: seq<Byte>)
    ensures |path| == n && forall i :: 0 <= i < n ==> path[i] == 97
  {
    seq(n, _ => 97)
  }

  /**
   * For instance a request for a path of 60000 bytes, with 6000 more bytes behind it: the reads
   * decide whether it is served.
   */
  lemma LongPathUndecided(rest: seq<Byte>)
    requires |rest| >= 6000
    ensures var path := LongPath(60000);
            var all := HeadText(RequestLine(GET, path), []) + rest;
            && !Certain(all, Request)
            && HeadResult(all, Request) == Ok(Some(Head(GET, path, Http11, None, [])))
            && (exists x :: ByReads(all, Request, 0, x) == Some(HeadResult(all, Request)))
            && (exists y :: ByReads(all, Request, 0, y) == Some(Err(HeadTooLong)))
  {
    var path := LongPath(60000);
    var head := HeadText(RequestLine(GET, path), []);
    assert |head| == 60017;
    assert forall i :: 0 <= i < 3 ==> IsTchar(GET[i]);
    hide HeadText;
    hide RequestLine;
    hide HeadOf;
    hide IsTchar;
    hide LongPath;
    hide Certain;
    hide ByReads;
    hide HeadResult;
    RequestParsed(GET, path, []);
    LateHeadUndecided(head, Request, Head(GET, path, Http11, None, []), rest);
    ReadsDecideIff(head + rest, Request, 0);
  }

  /** For instance "GET /" with lengths 0 and 5 is served as a request without a body. */
  lemma ConflictServed()
    ensures var text := HeadText(RequestLine(GET, [47]), TwoLengths(0, 5));
            Good(Wire(text, [], Head(GET, [47], Http11, None, TwoLengths(0, 5)), []))
  {
    ShortHead();
    assert forall i :: 0 <= i < 3 ==> IsTchar(GET[i]);
    hide *;
    assert GoodRequest(GET, [47]) by {
      hide IsTchar;
    }
    TwoLengthsServed(GET, [47], 0, 5, []);
  }

  lemma ShortHead()
    ensures |HeadText(RequestLine(GET, [47]), TwoLengths(0, 5))| <= LATE
  {
    assert Decimal(0) == [48] && Decimal(5) == [53];
    var fs := TwoLengths(0, 5);
    assert fs[1..] == [fs[1]] && fs[1..][1..] == [];
    assert |FieldLines(fs)| == 38;
  }

  lemma ThenFirst(s: Script)
    ensures Then([], s) == s
  {
    assert [] + s.exchanges == s.exchanges;
  }

  lemma ThenEnds(a: seq<Exchange>, b: seq<Exchange>)
    ensures Then(a, Script(b, Done)) == Script(a + b, Done)
  {
  }

  lemma ThenBoth(a: seq<Exchange>, b: seq<Exchange>, s: Script)
    ensures Then(a, Then(b, s)) == Then(a + b, s)
  {
    assert a + (b + s.exchanges) == (a + b) + s.exchanges;
  }

  /**
   * Pipelined requests are cut at exactly the right byte: whatever follows them, the handler
   * sees each of them with its own body, in order, up to the first behind which the connection
   * does not go on.
   */
  lemma {:induction false} Pipelining(ws: seq<Wire>, rest: seq<Byte>, handler: Handler, log: seq<Exchange>)
    requires forall i :: 0 <= i < |ws| ==> Good(ws[i])
    ensures var xs := Dispatched(ws, handler, log);
            Serve(WireText(ws) + rest, handler, log) ==
            if AllGoOn(ws, handler, log) then Then(xs, Serve(rest, handler, log + xs)) else Script(xs, Done)
    decreases |ws|
  {
    hide Good;
    hide GoesOn;
    hide Got;
    hide Serve;
    hide Then;
    if ws == [] {
      assert [] + rest == rest && log + [] == log;
      ThenFirst(Serve(rest, handler, log));
    } else {
      var w := ws[0];
      assert Good(w);
      var limit := handler.limit(log, w.parsed);
      var x := [Exchange(w.parsed, Got(w, limit))];
      var tail := WireText(ws[1..]) + rest;
      assert WireText(ws) + rest == w.head + w.body + tail;
      GoodRequestServed(w, tail, handler, log);
      Pipelining(ws[1..], rest, handler, log + x);
      var xs := Dispatched(ws[1..], handler, log + x);
      assert (log + x) + xs == log + (x + xs) && x + [] == x;
      ThenBoth(x, xs, Serve(rest, handler, log + (x + xs)));
      ThenEnds(x, xs);
    }
  }
}
