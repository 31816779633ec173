/** The client's half of an exchange, and what becomes of a message on its way to the other side. */
module Client {
  import opened Body
  import opened Bytes
  import opened Connection
  import opened HeadParser
  import opened HeadPrinters
  import opened HeadReads
  import opened Numerals
  import opened Server
  import opened Wrappers

  /** "HEAD". */
  const HEAD_METHOD: seq<Byte> := [72, 69, 65, 68]

  /** A response head, and the reader of its body. */
  datatype Reply = Reply(head: Head, body: BodyReader)

  /** What the client takes the body of a response to be. */
  function ReplyKind(head: Head, meth: seq<Byte>): Result<BodyKind, HttpError> {
    ResponseBodyKind(head.fields, if head.status.Some? then head.status.value else 200, EqIgnoreCase(meth, HEAD_METHOD))
  }

  /**
   * Writes one request and reads the head of the response. The head, and the body that the
   * reader will deliver, depend only on the bytes that the server sends.
   */
  method Send(
      conn: HttpConnection, meth: seq<Byte>, target: seq<Byte>, headers: seq<Field>, host: seq<Byte>, body: seq<Byte>)
    returns (r: Result<Reply, HttpError>)
    requires conn.Valid()
    modifies conn`buf, conn`eof, conn.io
    ensures conn.Valid()
    ensures conn.io.written == old(conn.io.written) +
              (HeadText(RequestLine(meth, target), SentFields(headers, host, |body|)) + body)
    ensures r.Ok? ==>
              var h := HeadAt(old(conn.Remaining()), Response);
              && h.Ok? && h.value.Some? && r.value.head == h.value.value.0
              && r.value.body.conn == conn && Ok(r.value.body.kind) == ReplyKind(r.value.head, meth)
              && r.value.body.Left() == BodyOf(r.value.body.kind, old(conn.Remaining())[h.value.value.1..])
    ensures r.Ok? ==> |conn.buf| < READ_CHUNK || |conn.buf| <= |old(conn.buf)|
    ensures r.Ok? ==>
              && fresh(r.value.body) && conn.io.waited == old(conn.io.waited)
              && (r.value.body.finished <==> r.value.body.kind == Empty || r.value.body.kind == ContentLength(0))
    ensures old(|conn.buf| < READ_CHUNK && Certain(conn.Remaining(), Response)) ==>
              match HeadResult(old(conn.Remaining()), Response)
              case Err(e) => r == Err(e)
              case Ok(None) => r == Err(ConnectionClosed)
              case Ok(Some(head)) =>
                match ReplyKind(head, meth)
                case Err(e) => r == Err(e)
                case Ok(_) => r.Ok?
  {
    hide HeadText;
    hide HeadAt;
    hide HeadResult;
    hide Certain;
    hide ByReads;
    hide ResponseBodyKind;
    hide BodyOf;
    hide BodyLeft;
    hide RequestLine;
    hide SentFields;
    hide EqIgnoreCase;
    WriteRequest(conn, meth, target, headers, host, body);
    var read, sizes := conn.ReadHead(Response);
    if read.Err? {
      return Err(read.error);
    }
    if read.value == None {
      return Err(ConnectionClosed);
    }
    var head := read.value.value;
    var kind := ReplyKind(head, meth);
    if kind.Err? {
      return Err(kind.error);
    }
    var reader := new BodyReader(conn, kind.value);
    r := Ok(Reply(head, reader));
  }

  method WriteRequest(
      conn: HttpConnection, meth: seq<Byte>, target: seq<Byte>, headers: seq<Field>, host: seq<Byte>, body: seq<Byte>)
    modifies conn.io`written
    ensures conn.io.written == old(conn.io.written) +
              (HeadText(RequestLine(meth, target), SentFields(headers, host, |body|)) + body)
  {
    hide HeadText;
    hide RequestLine;
    hide SentFields;
    var text := RenderRequest(meth, target, headers, host, |body|);
    conn.io.WriteAll(text);
    if body != [] {
      conn.io.WriteAll(body);
    }
    assert text + [] == text;
  }

  /** A reply with its whole body, and the bytes behind it. */
  datatype Fetched = Fetched(head: Head, data: seq<Byte>, rest: seq<Byte>)

  /** What the bytes of a server are to a client that reads one reply to a request of this method. */
  function FetchOne(all: seq<Byte>, meth: seq<Byte>): Result<Fetched, HttpError> {
    match HeadResult(all, Response)
    case Err(e) => Err(e)
    case Ok(None) => Err(ConnectionClosed)
    case Ok(Some(head)) =>
      match ReplyKind(head, meth)
      case Err(e) => Err(e)
      case Ok(kind) =>
        match BodyOf(kind, all[HeadAt(all, Response).value.value.1..])
        case Err(e) => Err(e)
        case Ok(f) => Ok(Fetched(head, f.data, f.rest))
  }

  /**
   * Sends a request and reads the whole reply. It waits for the server to end the connection
   * iff that is what frames the body.
   */
  method Fetch(
      conn: HttpConnection, meth: seq<Byte>, target: seq<Byte>, headers: seq<Field>, host: seq<Byte>, body: seq<Byte>,
      max: nat)
    returns (r: Result<(Head, seq<Byte>), HttpError>)
    requires conn.Valid() && |conn.buf| < READ_CHUNK
    modifies conn`buf, conn`eof, conn.io
    ensures conn.Valid() && (r.Ok? ==> |conn.buf| < READ_CHUNK)
    ensures r.Ok? ==>
              conn.io.waited == (old(conn.io.waited) || ReplyKind(r.value.0, meth) == Ok(UntilEof))
    ensures conn.io.written == old(conn.io.written) +
              (HeadText(RequestLine(meth, target), SentFields(headers, host, |body|)) + body)
    ensures old(Certain(conn.Remaining(), Response)) ==>
              match FetchOne(old(conn.Remaining()), meth)
              case Err(e) => r == Err(e) || r == Err(Malformed("body exceeds limit"))
              case Ok(f) =>
                if |f.data| > max then r == Err(Malformed("body exceeds limit"))
                else r == Ok((f.head, f.data)) && conn.Remaining() == f.rest
  {
    hide HeadText;
    hide HeadAt;
    hide Certain;
    hide ReplyKind;
    hide BodyOf;
    hide BodyLeft;
    hide RequestLine;
    hide SentFields;
    var reply := Send(conn, meth, target, headers, host, body);
    if reply.Err? {
      return Err(reply.error);
    }
    var data := reply.value.body.ReadToVec(max);
    if data.Err? {
      return Err(data.error);
    }
    r := Ok((reply.value.head, data.value));
  }

  // ---- fields -------------------------------------------------------------------------------

  lemma {:induction false} GetOfBoth(a: seq<Field>, b: seq<Field>, name: seq<Byte>)
    ensures Get(a + b, name) == if Get(a, name).Some? then Get(a, name) else Get(b, name)
    decreases |a|
  {
    hide EqIgnoreCase;
    if a == [] {
      assert a + b == b;
    } else {
      GetOfBoth(a[1..], b, name);
      assert (a + b)[1..] == a[1..] + b;
    }
  }

  /** A field that is there if the caller did not name it. */
  function OrElse(named: Option<seq<Byte>>, default: Option<seq<Byte>>): Option<seq<Byte>> {
    if named.Some? then named else default
  }

  lemma OnlyField(f: Field, name: seq<Byte>)
    ensures Get([f], name) == if EqIgnoreCase(f.name, name) then Some(f.value) else None
  {
    assert [f][1..] == [];
  }

  lemma {:induction false} NamesHostIff(fs: seq<Field>)
    ensures NamesHost(fs) <==> Get(fs, HOST).Some?
    decreases |fs|
  {
    hide EqIgnoreCase;
    if fs != [] {
      NamesHostIff(fs[1..]);
      assert forall i :: 0 <= i < |fs| - 1 ==> fs[1..][i] == fs[i + 1];
      if NamesHost(fs) && !EqIgnoreCase(fs[0].name, HOST) {
        var i :| 0 <= i < |fs| && EqIgnoreCase(fs[i].name, HOST);
        assert fs[1..][i - 1] == fs[i];
      }
    }
  }

  /**
   * The caller's fields are sent first and as they are; a field that it did not name is there iff
   * it is the host or the length of the body.
   */
  lemma SentFieldsAre(headers: seq<Field>, host: seq<Byte>, n: nat, name: seq<Byte>)
    ensures headers <= SentFields(headers, host, n)
    ensures Get(SentFields(headers, host, n), name) ==
            OrElse(Get(headers, name),
                   if EqIgnoreCase(HOST, name) then Some(host)
                   else if EqIgnoreCase(CONTENT_LENGTH, name) then Some(Decimal(n)) else None)
  {
    hide NamesHost;
    hide Decimal;
    NamesHostIff(headers);
    if EqIgnoreCase(HOST, name) {
      SameAnswer(headers, HOST, name);
    }
    hide Get;
    hide EqIgnoreCase;
    var given := Field(HOST, host);
    var length := Field(CONTENT_LENGTH, Decimal(n));
    OnlyField(given, name);
    OnlyField(length, name);
    GetOfBoth(headers, [given], name);
    GetOfBoth(headers + [given], [length], name);
    GetOfBoth(headers, [length], name);
    assert headers + [] == headers;
  }

  lemma {:induction false} SameAnswer(fs: seq<Field>, a: seq<Byte>, b: seq<Byte>)
    requires EqIgnoreCase(a, b)
    ensures Get(fs, a) == Get(fs, b)
    decreases |fs|
  {
    if fs != [] {
      SameAnswer(fs[1..], a, b);
    }
  }

  /** So are the handler's; the length is added iff there is a body. */
  lemma ReplyFieldsAre(r: ResponseData, name: seq<Byte>)
    ensures r.headers <= ResponseFields(r)
    ensures Get(ResponseFields(r), name) ==
            OrElse(Get(r.headers, name),
                   if r.body != [] && EqIgnoreCase(CONTENT_LENGTH, name) then Some(Decimal(|r.body|)) else None)
  {
    hide Decimal;
    hide Get;
    hide EqIgnoreCase;
    var length := Field(CONTENT_LENGTH, Decimal(|r.body|));
    OnlyField(length, name);
    GetOfBoth(r.headers, [length], name);
    assert r.headers + [] == r.headers;
  }

  lemma FieldNamesDiffer()
    ensures EqIgnoreCase(CONTENT_LENGTH, CONTENT_LENGTH)
    ensures !EqIgnoreCase(HOST, CONTENT_LENGTH) && !EqIgnoreCase(HOST, TRANSFER_ENCODING)
    ensures !EqIgnoreCase(CONTENT_LENGTH, TRANSFER_ENCODING)
  {
  }

  /** The caller leaves the framing of the body to the library. */
  predicate Unframed(headers: seq<Field>) {
    Get(headers, CONTENT_LENGTH) == None && Get(headers, TRANSFER_ENCODING) == None
  }

  lemma LengthLast(before: seq<Field>, n: nat)
    requires Unframed(before) && n < U64
    ensures var fs := before + [Field(CONTENT_LENGTH, Decimal(n))];
            && Get(fs, TRANSFER_ENCODING) == None && ContentLengthKind(fs) == Ok(ContentLength(n))
  {
    hide EqIgnoreCase;
    hide Decimal;
    var last := [Field(CONTENT_LENGTH, Decimal(n))];
    FieldNamesDiffer();
    GetOfBoth(before, last, CONTENT_LENGTH);
    GetOfBoth(before, last, TRANSFER_ENCODING);
    assert last[1..] == [];
    DecimalLength(before + last, n);
  }

  lemma HostIsUnframed(headers: seq<Field>, host: seq<Byte>)
    requires Unframed(headers)
    ensures Unframed(headers + [Field(HOST, host)])
  {
    hide EqIgnoreCase;
    FieldNamesDiffer();
    var last := [Field(HOST, host)];
    assert last[1..] == [];
    GetOfBoth(headers, last, CONTENT_LENGTH);
    GetOfBoth(headers, last, TRANSFER_ENCODING);
  }

  lemma SentKind(headers: seq<Field>, host: seq<Byte>, n: nat)
    requires Unframed(headers) && n < U64
    ensures RequestBodyKind(SentFields(headers, host, n)) == Ok(ContentLength(n))
  {
    hide EqIgnoreCase;
    hide Get;
    hide Decimal;
    hide ContentLengthKind;
    HostIsUnframed(headers, host);
    assert headers + [] == headers;
    LengthLast(headers, n);
    LengthLast(headers + [Field(HOST, host)], n);
  }

  // ---- there and back --------------------------------------------------------------------------

  lemma WholeBody(body: seq<Byte>)
    ensures BodyOf(ContentLength(|body|), body) == Ok(Framed(body, []))
  {
    assert body[..|body|] == body && body[|body|..] == [];
  }

  datatype Call = Call(meth: seq<Byte>, target: seq<Byte>, headers: seq<Field>, host: seq<Byte>, body: seq<Byte>) {
    function Sent(): seq<Field> {
      SentFields(headers, host, |body|)
    }

    function Text(): seq<Byte> {
      HeadText(RequestLine(meth, target), Sent())
    }

    /** What the client writes, and what the server is to make of it. */
    function Wired(): Wire {
      Wire(Text(), body, Head(meth, target, Http11, None, Sent()), body)
    }

    predicate Clean() {
      && GoodRequest(meth, target) && Unframed(headers) && |body| < U64
      && CleanFields(headers) && CleanField(Field(HOST, host)) && |Text()| <= LATE
    }
  }

  /** Every request the client writes is one that the server dispatches with exactly its body. */
  lemma ClientRequestIsGood(c: Call)
    requires c.Clean()
    ensures Good(c.Wired())
  {
    hide HeadText;
    hide SentFields;
    hide RequestLine;
    hide CleanFields;
    hide CleanField;
    hide GoodRequest;
    hide HeadOf;
    hide BodyOf;
    hide RequestBodyKind;
    RequestRoundTrip(c.meth, c.target, c.headers, c.host, |c.body|, []);
    assert c.Text() + [] == c.Text();
    SentKind(c.headers, c.host, |c.body|);
    WholeBody(c.body);
  }

  /** Statuses and methods whose responses have bodies. */
  predicate HasBody(status: nat, meth: seq<Byte>) {
    200 <= status && status != 204 && status != 304 && !EqIgnoreCase(meth, HEAD_METHOD)
  }

  predicate IsText(b: Byte) {
    b == SP || 33 <= b <= 126
  }

  lemma TextIsGood(s: seq<Byte>)
    requires forall b :: b in s ==> IsText(b)
    requires s == [] || (s[0] != SP && s[|s| - 1] != SP)
    ensures GoodReason(s)
  {
    forall i | 0 <= i < |s|
      ensures s[i] != CR && s[i] != LF
    {
      assert IsText(s[i]);
    }
    if s != [] {
      assert IsText(s[0]) && IsText(s[|s| - 1]);
    }
  }

  /** The two longest phrases, apart, keep the solver's work small. */
  lemma LongReasonIsGood(status: nat)
    requires status == 405 || status == 500
    ensures GoodReason(Reason(status))
  {
    hide GoodReason;
    TextIsGood(Reason(status));
  }

  lemma ReasonIsGood(status: nat)
    ensures GoodReason(Reason(status))
  {
    hide GoodReason;
    if status == 405 || status == 500 {
      LongReasonIsGood(status);
    } else {
      TextIsGood(Reason(status));
    }
  }

  /** A response whose head can be printed, and shows early; the framing of its body is left to the library. */
  predicate GoodReply(r: ResponseData) {
    && 100 <= r.status <= 599 && Unframed(r.headers) && |r.body| < U64 && CleanFields(r.headers)
    && |HeadText(StatusLine(r.status, Reason(r.status)), ResponseFields(r))| <= LATE
  }

  function ReplyHead(r: ResponseData): Head {
    Head(Reason(r.status), Reason(r.status), Http11, Some(r.status), ResponseFields(r))
  }

  /** The server frames the body as the client reads it; `closed` if it ends the connection behind it. */
  predicate Arrives(r: ResponseData, meth: seq<Byte>, closed: bool) {
    if HasBody(r.status, meth) then r.body != [] || closed else r.body == []
  }

  /** The client takes the end of the connection for the end of the body. */
  predicate EndsWithConnection(r: ResponseData, meth: seq<Byte>) {
    HasBody(r.status, meth) && r.body == []
  }

  /**
   * What the server writes, the client reads: status and headers always, and exactly the body iff
   * it `Arrives`, where `rest` is all that follows before the connection ends. An empty body gets
   * no length, although the length is documented to be added automatically, so the client takes
   * everything up to the end of the connection for it; and a body that the status or the method
   * forbids is written but not read.
   */
  lemma ResponseDelivered(r: ResponseData, meth: seq<Byte>, rest: seq<Byte>)
    requires GoodReply(r)
    ensures var all := ResponseText(r) + rest;
            && Prompt(all, Response)
            && var f := FetchOne(all, meth);
            && f.Ok? && f.value.head == ReplyHead(r)
            && (f.value.data == r.body <==> Arrives(r, meth, rest == []))
            && (f.value.data == r.body ==> f.value.rest == rest)
    ensures ReplyKind(ReplyHead(r), meth) == Ok(UntilEof) <==> EndsWithConnection(r, meth)
  {
    hide HeadText;
    hide StatusLine;
    hide CleanFields;
    hide HeadOf;
    hide HeadAt;
    hide Prompt;
    hide EqIgnoreCase;
    hide GoodReason;
    hide Reason;
    hide ResponseFields;
    hide ResponseBodyKind;
    hide BodyOf;
    hide Unframed;
    hide Arrives;
    hide EndsWithConnection;
    var fs := ResponseFields(r);
    var text := HeadText(StatusLine(r.status, Reason(r.status)), fs);
    var tail := r.body + rest;
    assert ResponseText(r) + rest == text + tail;
    assert (text + tail)[|text|..] == tail && text + [] == text;
    ReasonIsGood(r.status);
    ReplyFieldsAreClean(r);
    ResponseRoundTrip(r.status, Reason(r.status), fs, []);
    GoodHead(text, Response, ReplyHead(r), tail);
    ReplyFraming(r, meth, rest);
  }

  /** A reply that is read the same, and with nothing taken of what follows, whatever follows. */
  ghost predicate SelfDelimited(r: ResponseData, meth: seq<Byte>) {
    forall rest :: FetchOne(ResponseText(r) + rest, meth) == Ok(Fetched(ReplyHead(r), r.body, rest))
  }

  /** On a connection that stays open exactly these arrive. */
  lemma SelfDelimitedIff(r: ResponseData, meth: seq<Byte>)
    requires GoodReply(r)
    ensures SelfDelimited(r, meth) <==> Arrives(r, meth, false)
  {
    hide GoodReply;
    hide FetchOne;
    hide ResponseText;
    hide ReplyHead;
    hide Prompt;
    if Arrives(r, meth, false) {
      forall rest: seq<Byte>
        ensures FetchOne(ResponseText(r) + rest, meth) == Ok(Fetched(ReplyHead(r), r.body, rest))
      {
        ResponseDelivered(r, meth, rest);
      }
    } else {
      ResponseDelivered(r, meth, [0]);
    }
  }

  lemma ReplyFieldsAreClean(r: ResponseData)
    requires CleanFields(r.headers)
    ensures CleanFields(ResponseFields(r))
  {
    hide CleanField;
    hide Decimal;
    assert r.headers + [] == r.headers;
    WithLengthClean(r.headers, |r.body|);
  }

  lemma ReplyFraming(r: ResponseData, meth: seq<Byte>, rest: seq<Byte>)
    requires 100 <= r.status <= 599 && Unframed(r.headers) && |r.body| < U64
    ensures var kind := ResponseBodyKind(ResponseFields(r), r.status, EqIgnoreCase(meth, HEAD_METHOD));
            && kind.Ok?
            && var f := BodyOf(kind.value, r.body + rest);
            && f.Ok?
            && (f.value.data == r.body <==> Arrives(r, meth, rest == []))
            && (f.value.data == r.body ==> f.value.rest == rest)
            && (kind.value == UntilEof <==> EndsWithConnection(r, meth))
  {
    hide Get;
    hide Decimal;
    hide ContentLengthKind;
    hide EqIgnoreCase;
    var tail := r.body + rest;
    if !HasBody(r.status, meth) {
    } else if r.body != [] {
      LengthLast(r.headers, |r.body|);
      assert tail[..|r.body|] == r.body && tail[|r.body|..] == rest;
    } else {
      NoLength(r.headers);
      assert ResponseFields(r) == r.headers;
      assert tail == rest;
    }
  }

  lemma NoLength(fs: seq<Field>)
    requires Get(fs, CONTENT_LENGTH) == None
    ensures ContentLengthKind(fs) == Ok(Empty)
  {
  }

  // ---- replies on a connection that has ended ---------------------------------------------------

  function ResponseTexts(rs: seq<ResponseData>): seq<Byte> {
    if rs == [] then [] else ResponseText(rs[0]) + ResponseTexts(rs[1..])
  }

  /** The replies read one after the other of all that a server has sent, up to an error. */
  function FetchAll(all: seq<Byte>, meths: seq<seq<Byte>>): seq<(Head, seq<Byte>)>
    decreases |meths|
  {
    if meths == [] || !Certain(all, Response) then []
    else
      match FetchOne(all, meths[0])
      case Err(_) => []
      case Ok(f) => [(f.head, f.data)] + FetchAll(f.rest, meths[1..])
  }

  function Views(rs: seq<ResponseData>): seq<(Head, seq<Byte>)> {
    if rs == [] then [] else [(ReplyHead(rs[0]), rs[0].body)] + Views(rs[1..])
  }

  /** Every reply arrives; the connection ends behind the last if `closed`. */
  predicate AllArrive(rs: seq<ResponseData>, meths: seq<seq<Byte>>, closed: bool)
    requires |rs| <= |meths|
  {
    rs == [] || (Arrives(rs[0], meths[0], closed && |rs| == 1) && AllArrive(rs[1..], meths[1..], closed))
  }

  /** Nothing is read from a server that has written nothing more. */
  lemma NothingFetched(meths: seq<seq<Byte>>)
    ensures FetchAll([], meths) == []
  {
    var all: seq<Byte> := [];
    assert all[..0] == [];
    assert HeadResult(all, Response) == Ok(None);
  }

  /** Once the server has ended the connection its replies are read one by one iff they all arrive. */
  lemma {:induction false} RepliesRead(rs: seq<ResponseData>, meths: seq<seq<Byte>>)
    requires |rs| <= |meths| && forall i :: 0 <= i < |rs| ==> GoodReply(rs[i])
    ensures FetchAll(ResponseTexts(rs), meths) == Views(rs) <==> AllArrive(rs, meths, true)
    decreases |rs|
  {
    hide GoodReply;
    hide FetchOne;
    hide ResponseText;
    hide Prompt;
    hide Arrives;
    hide ReplyHead;
    if rs == [] {
      NothingFetched(meths);
    } else {
      var rest := ResponseTexts(rs[1..]);
      assert GoodReply(rs[0]);
      ResponseDelivered(rs[0], meths[0], rest);
      RepliesRead(rs[1..], meths[1..]);
      TextsAreSome(rs[1..]);
      var f := FetchOne(ResponseTexts(rs), meths[0]).value;
      assert FetchAll(ResponseTexts(rs), meths) == [(f.head, f.data)] + FetchAll(f.rest, meths[1..]);
      SameFirst((f.head, f.data), (ReplyHead(rs[0]), rs[0].body), FetchAll(f.rest, meths[1..]), Views(rs[1..]));
    }
  }

  lemma SameFirst<T>(x: T, y: T, xs: seq<T>, ys: seq<T>)
    ensures [x] + xs == [y] + ys <==> x == y && xs == ys
  {
    if [x] + xs == [y] + ys {
      assert ([x] + xs)[0] == ([y] + ys)[0];
      assert ([x] + xs)[1..] == ([y] + ys)[1..];
    }
  }

  lemma TextsAreSome(rs: seq<ResponseData>)
    ensures ResponseTexts(rs) == [] <==> rs == []
  {
    hide StatusLine;
    hide Reason;
    hide ResponseFields;
  }

  // ---- taking turns ------------------------------------------------------------------------------

  /** How a conversation ends; `Hangs` is that each side waits for the other to go on. */
  datatype TalkEnd = AllAnswered | ServerEnded | Hangs | ReadFails(error: HttpError) | ReadsDecide

  datatype Talk = Talk(replies: seq<(Head, seq<Byte>)>, end: TalkEnd)

  function More(reply: (Head, seq<Byte>), t: Talk): Talk {
    Talk([reply] + t.replies, t.end)
  }

  /** Reading a reply from these bytes goes on to wait for more, or for the end of the connection. */
  predicate Waits(all: seq<Byte>, meth: seq<Byte>) {
    match FetchOne(all, meth)
    case Ok(f) => ReplyKind(f.head, meth) == Ok(UntilEof)
    case Err(e) => e == ConnectionClosed
  }

  /**
   * Client and server taking turns on one connection: the client writes a call; the server, which
   * has `inbox` left from before, handles one request, answers it, and either goes on or ends the
   * connection; and the client, with `left` over from before, reads the reply and only then goes
   * on to the next call. A read that waits on a connection that the server keeps open never ends,
   * since the server waits for the next request.
   */
  function Conversation(calls: seq<Call>, handler: Handler, log: seq<Exchange>, inbox: seq<Byte>, left: seq<Byte>): Talk
    decreases |calls|
  {
    if calls == [] then Talk([], AllAnswered)
    else
      var received := inbox + (calls[0].Text() + calls[0].body);
      if !Certain(received, Request) then Talk([], ReadsDecide)
      else if !Complete(received) then Talk([], Hangs)
      else
        var turn := NextTurn(received, handler, log).value.value;
        var seen := log + [turn.exchange];
        var bytes := left + ResponseText(handler.respond(seen));
        if !Certain(bytes, Response) then Talk([], ReadsDecide)
        else if turn.rest.Some? && Waits(bytes, calls[0].meth) then Talk([], Hangs)
        else
          match FetchOne(bytes, calls[0].meth)
          case Err(e) => Talk([], ReadFails(e))
          case Ok(f) =>
            More((f.head, f.data),
                 if turn.rest == None then Talk([], if |calls| == 1 then AllAnswered else ServerEnded)
                 else Conversation(calls[1..], handler, seen, turn.rest.value, f.rest))
  }

  function Wires(calls: seq<Call>): seq<Wire> {
    if calls == [] then [] else [calls[0].Wired()] + Wires(calls[1..])
  }

  function Methods(calls: seq<Call>): (meths: seq<seq<Byte>>)
    ensures |meths| == |calls|
  {
    if calls == [] then [] else [calls[0].meth] + Methods(calls[1..])
  }

  /** The answers to these exchanges, after those of `log`. */
  function Answers(handler: Handler, log: seq<Exchange>, xs: seq<Exchange>): (rs: seq<ResponseData>)
    ensures |rs| == |xs|
    decreases |xs|
  {
    if xs == [] then [] else [handler.respond(log + xs[..1])] + Answers(handler, log + xs[..1], xs[1..])
  }

  lemma {:induction false} DispatchedAtMost(calls: seq<Call>, handler: Handler, log: seq<Exchange>)
    ensures |Dispatched(Wires(calls), handler, log)| <= |calls|
    decreases |calls|
  {
    hide GoesOn;
    hide Got;
    if calls != [] {
      var w := Wires(calls)[0];
      var x := [Exchange(w.parsed, Got(w, handler.limit(log, w.parsed)))];
      DispatchedAtMost(calls[1..], handler, log + x);
      assert Wires(calls)[1..] == Wires(calls[1..]);
    }
  }

  /** What the server makes of one call that it gets whole: it answers without waiting for more. */
  lemma CallServed(c: Call, handler: Handler, log: seq<Exchange>)
    requires c.Clean()
    ensures var limit := handler.limit(log, c.Wired().parsed);
            var received := c.Text() + c.body;
            && Certain(received, Request) && Complete(received)
            && NextTurn(received, handler, log) ==
               Ok(Some(Turn(Exchange(c.Wired().parsed, Got(c.Wired(), limit)),
                            if GoesOn(c.Wired(), limit) then Some([]) else None)))
  {
    ClientRequestIsGood(c);
    hide Call.Clean;
    hide Call.Text;
    hide HeadOf;
    hide HeadAt;
    hide Prompt;
    hide RequestBodyKind;
    hide KeepAlive;
    hide BodyOf;
    hide Take;
    hide GoesOn;
    hide Got;
    var w := c.Wired();
    assert (w.head + w.body)[|w.head|..] == w.body && w.body + [] == w.body;
    GoodHead(w.head, Request, w.parsed, w.body);
    RequestNotUntilEof(w.parsed.fields);
    TakeGood(RequestBodyKind(w.parsed.fields).value, w, [], handler.limit(log, w.parsed));
  }

  /** The reply to one call, on a connection that the server then ends or keeps open. */
  lemma ReplyRead(r: ResponseData, meth: seq<Byte>)
    requires GoodReply(r)
    ensures var bytes := ResponseText(r);
            && Certain(bytes, Response)
            && var f := FetchOne(bytes, meth);
            && f.Ok? && f.value.head == ReplyHead(r)
            && (f.value.data == r.body <==> Arrives(r, meth, true))
            && (f.value.data == r.body ==> f.value.rest == [])
            && (Waits(bytes, meth) <==> EndsWithConnection(r, meth))
  {
    hide FetchOne;
    hide Prompt;
    hide GoodReply;
    hide ResponseText;
    hide ReplyKind;
    hide ReplyHead;
    hide EndsWithConnection;
    ResponseDelivered(r, meth, []);
    assert ResponseText(r) + [] == ResponseText(r);
  }

  /** The answers that the handler gives while the connection lasts. */
  function Given(calls: seq<Call>, handler: Handler, log: seq<Exchange>): seq<ResponseData> {
    Answers(handler, log, Dispatched(Wires(calls), handler, log))
  }

  lemma GivenUnfolds(calls: seq<Call>, handler: Handler, log: seq<Exchange>)
    requires calls != []
    ensures var w := calls[0].Wired();
            var limit := handler.limit(log, w.parsed);
            var seen := log + [Exchange(w.parsed, Got(w, limit))];
            && Given(calls, handler, log) == [handler.respond(seen)] +
               (if GoesOn(w, limit) then Given(calls[1..], handler, seen) else [])
            && (AllGoOn(Wires(calls), handler, log) <==>
                GoesOn(w, limit) && AllGoOn(Wires(calls[1..]), handler, seen))
  {
    hide GoesOn;
    hide Got;
    var w := calls[0].Wired();
    assert Wires(calls)[0] == w && Wires(calls)[1..] == Wires(calls[1..]);
    var limit := handler.limit(log, w.parsed);
    var x := [Exchange(w.parsed, Got(w, limit))];
    var xs := Dispatched(Wires(calls), handler, log);
    assert xs[..1] == x;
    assert xs[1..] == if GoesOn(w, limit) then Dispatched(Wires(calls[1..]), handler, log + x) else [];
  }

  /** One turn of the conversation, with nothing left over on either side. */
  lemma ConversationUnfolds(calls: seq<Call>, handler: Handler, log: seq<Exchange>)
    requires calls != [] && calls[0].Clean() && Given(calls, handler, log) != []
    requires GoodReply(Given(calls, handler, log)[0])
    ensures FetchOne(ResponseText(Given(calls, handler, log)[0]), calls[0].meth).Ok?
    ensures var w := calls[0].Wired();
            var limit := handler.limit(log, w.parsed);
            var r := Given(calls, handler, log)[0];
            var f := FetchOne(ResponseText(r), calls[0].meth).value;
            Conversation(calls, handler, log, [], []) ==
            if GoesOn(w, limit) && EndsWithConnection(r, calls[0].meth) then Talk([], Hangs)
            else
              More((f.head, f.data),
                   if !GoesOn(w, limit) then Talk([], if |calls| == 1 then AllAnswered else ServerEnded)
                   else Conversation(calls[1..], handler, log + [Exchange(w.parsed, Got(w, limit))], [], f.rest))
  {
    hide Call.Clean;
    hide Call.Wired;
    hide GoodReply;
    hide ReplyHead;
    hide Certain;
    hide Complete;
    hide NextTurn;
    hide FetchOne;
    hide Waits;
    hide GoesOn;
    hide Got;
    hide Given;
    hide ResponseText;
    hide EndsWithConnection;
    var c := calls[0];
    CallServed(c, handler, log);
    GivenUnfolds(calls, handler, log);
    var r := Given(calls, handler, log)[0];
    ReplyRead(r, c.meth);
    assert [] + (c.Text() + c.body) == c.Text() + c.body && [] + ResponseText(r) == ResponseText(r);
  }

  lemma GivenSome(calls: seq<Call>, handler: Handler, log: seq<Exchange>)
    ensures Given(calls, handler, log) == [] <==> calls == []
    ensures |Given(calls, handler, log)| <= |calls|
  {
    DispatchedAtMost(calls, handler, log);
    if calls != [] {
      GivenUnfolds(calls, handler, log);
    }
  }

  /** The client reads the answers iff each arrives, and how the conversation ends then. */
  ghost predicate RoundTrips(calls: seq<Call>, handler: Handler, log: seq<Exchange>)
    requires |Given(calls, handler, log)| <= |calls|
  {
    var rs := Given(calls, handler, log);
    var talk := Conversation(calls, handler, log, [], []);
    var arrive := AllArrive(rs, Methods(calls), !AllGoOn(Wires(calls), handler, log));
    && (talk.replies == Views(rs) <==> arrive)
    && (arrive ==> talk.end == if |rs| == |calls| then AllAnswered else ServerEnded)
  }

  /** A turn after which the server ends the connection. */
  lemma LastTurn(calls: seq<Call>, handler: Handler, log: seq<Exchange>)
    requires calls != [] && calls[0].Clean() && |Given(calls, handler, log)| == 1
    requires GoodReply(Given(calls, handler, log)[0])
    requires !GoesOn(calls[0].Wired(), handler.limit(log, calls[0].Wired().parsed))
    ensures RoundTrips(calls, handler, log)
  {
    hide Call.Clean;
    hide Call.Wired;
    hide Conversation;
    hide GoodReply;
    hide ReplyHead;
    hide FetchOne;
    hide GoesOn;
    hide Got;
    hide Given;
    hide Arrives;
    hide ResponseText;
    var rs := Given(calls, handler, log);
    GivenUnfolds(calls, handler, log);
    ReplyRead(rs[0], calls[0].meth);
    ConversationUnfolds(calls, handler, log);
    hide AllGoOn;
    hide EndsWithConnection;
    assert rs[1..] == [] && Views(rs[1..]) == [];
    var f := FetchOne(ResponseText(rs[0]), calls[0].meth).value;
    SameFirst((f.head, f.data), (ReplyHead(rs[0]), rs[0].body), [], []);
    assert !AllGoOn(Wires(calls), handler, log);
    assert Methods(calls)[0] == calls[0].meth;
    assert AllArrive(rs, Methods(calls), true) <==> Arrives(rs[0], calls[0].meth, true);
    assert Views(rs) == [(ReplyHead(rs[0]), rs[0].body)] + [];
    assert Conversation(calls, handler, log, [], []).replies == [(f.head, f.data)] + [];
  }

  /** A turn after which it goes on. */
  lemma InnerTurn(calls: seq<Call>, handler: Handler, log: seq<Exchange>, seen: seq<Exchange>)
    requires calls != [] && calls[0].Clean()
    requires var w := calls[0].Wired();
             var limit := handler.limit(log, w.parsed);
             GoesOn(w, limit) && seen == log + [Exchange(w.parsed, Got(w, limit))]
    requires var rs := Given(calls, handler, log);
             0 < |rs| <= |calls| && GoodReply(rs[0]) && rs[1..] == Given(calls[1..], handler, seen)
    requires |calls| > 1 ==> |Given(calls, handler, log)| > 1
    requires RoundTrips(calls[1..], handler, seen)
    ensures RoundTrips(calls, handler, log)
  {
    hide Call.Clean;
    hide Call.Wired;
    hide Conversation;
    hide GoodReply;
    hide ReplyHead;
    hide FetchOne;
    hide GoesOn;
    hide Got;
    hide Given;
    hide ResponseText;
    var c := calls[0];
    var rs := Given(calls, handler, log);
    var later := Given(calls[1..], handler, seen);
    GivenUnfolds(calls, handler, log);
    ReplyRead(rs[0], c.meth);
    ConversationUnfolds(calls, handler, log);
    assert Methods(calls)[1..] == Methods(calls[1..]);
    var f := FetchOne(ResponseText(rs[0]), c.meth).value;
    var talk := Conversation(calls[1..], handler, seen, [], f.rest);
    SameFirst((f.head, f.data), (ReplyHead(rs[0]), rs[0].body), talk.replies, Views(later));
  }

  /**
   * The round trip of any number of calls, each written once the reply to the one before has been
   * read: the client reads exactly the answers of the handler, each with its body, iff each of
   * them is self-delimited, or is the last because the server then ends the connection itself.
   */
  lemma {:induction false} KeepAliveRoundTrip(calls: seq<Call>, handler: Handler, log: seq<Exchange>)
    requires forall i :: 0 <= i < |calls| ==> calls[i].Clean()
    requires forall i :: 0 <= i < |Given(calls, handler, log)| ==> GoodReply(Given(calls, handler, log)[i])
    ensures |Given(calls, handler, log)| <= |calls| && RoundTrips(calls, handler, log)
    decreases |calls|
  {
    hide Call.Clean;
    hide Call.Wired;
    hide GoodReply;
    hide GoesOn;
    hide Got;
    GivenSome(calls, handler, log);
    if calls != [] {
      hide Given;
      hide RoundTrips;
      var rs := Given(calls, handler, log);
      var w := calls[0].Wired();
      var limit := handler.limit(log, w.parsed);
      var seen := log + [Exchange(w.parsed, Got(w, limit))];
      GivenUnfolds(calls, handler, log);
      GivenSome(calls[1..], handler, seen);
      if GoesOn(w, limit) {
        var later := Given(calls[1..], handler, seen);
        assert rs[1..] == later && forall i :: 0 <= i < |later| ==> later[i] == rs[i + 1];
        KeepAliveRoundTrip(calls[1..], handler, seen);
        InnerTurn(calls, handler, log, seen);
      } else {
        LastTurn(calls, handler, log);
      }
    }
  }

  lemma {:induction false} WiresAreGood(calls: seq<Call>)
    requires forall i :: 0 <= i < |calls| ==> calls[i].Clean()
    ensures |Wires(calls)| == |calls| && forall i :: 0 <= i < |calls| ==> Good(Wires(calls)[i])
  {
    hide Good;
    hide Call.Clean;
    hide Call.Wired;
    if calls != [] {
      WiresAreGood(calls[1..]);
      ClientRequestIsGood(calls[0]);
    }
  }

  lemma {:induction false} ResponsesAre(handler: Handler, log: seq<Exchange>, xs: seq<Exchange>)
    ensures Responses(log + xs, handler) == Responses(log, handler) + ResponseTexts(Answers(handler, log, xs))
    decreases |xs|
  {
    hide ResponseText;
    if xs == [] {
      assert log + xs == log;
    } else {
      ResponsesAre(handler, log + xs[..1], xs[1..]);
      assert (log + xs[..1]) + xs[1..] == log + xs;
      assert (log + xs[..1])[..|log|] == log;
    }
  }

  /**
   * Taking turns makes no difference to the server: the bytes of all calls in one piece are the
   * same exchanges, and what it writes is the answers given in the conversation.
   */
  lemma SameInOnePiece(calls: seq<Call>, handler: Handler, log: seq<Exchange>)
    requires forall i :: 0 <= i < |calls| ==> calls[i].Clean()
    ensures var xs := Dispatched(Wires(calls), handler, log);
            && Serve(WireText(Wires(calls)), handler, log) == Script(xs, Done)
            && Responses(log + xs, handler) == Responses(log, handler) + ResponseTexts(Given(calls, handler, log))
  {
    hide Good;
    hide Call.Clean;
    hide Serve;
    hide Responses;
    hide ResponseTexts;
    hide Dispatched;
    hide Wires;
    hide WireText;
    hide Answers;
    WiresAreGood(calls);
    var text, xs := WireText(Wires(calls)), Dispatched(Wires(calls), handler, log);
    Pipelining(Wires(calls), [], handler, log);
    assert text + [] == text;
    NothingServed(handler, log + xs);
    ThenNothing(xs);
    ResponsesAre(handler, log, xs);
  }

  lemma NothingServed(handler: Handler, log: seq<Exchange>)
    ensures Serve([], handler, log) == Script([], Done)
  {
    var all: seq<Byte> := [];
    assert all[..0] == [];
    assert HeadResult(all, Request) == Ok(None);
    hide HeadOf;
    ServeUnfolds(all, handler, log);
  }

  lemma ThenNothing(xs: seq<Exchange>)
    ensures Server.Then(xs, Script([], Done)) == Script(xs, Done)
  {
    assert xs + [] == xs;
  }

  /** For instance a status 200 without a body: the client waits, and so does the server. */
  lemma EmptyReplyHangs(c: Call, handler: Handler, log: seq<Exchange>)
    requires c.Clean() && !EqIgnoreCase(c.meth, HEAD_METHOD)
    requires GoesOn(c.Wired(), handler.limit(log, c.Wired().parsed))
    requires Given([c], handler, log) == [ResponseData(200, [], [])]
    ensures Conversation([c], handler, log, [], []) == Talk([], Hangs)
  {
    OkIsGood();
    hide Call.Clean;
    hide Call.Wired;
    hide GoodReply;
    hide GoesOn;
    hide Given;
    hide Conversation;
    ConversationUnfolds([c], handler, log);
  }

  lemma OkIsGood()
    ensures GoodReply(ResponseData(200, [], []))
  {
    hide Decimal;
    ThreeDigits(200);
    hide CleanField;
    hide EqIgnoreCase;
    assert |StatusLine(200, Reason(200))| == 15;
  }
}
