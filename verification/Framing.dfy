/** What printed requests and responses amount to by their version and framing fields, in any spelling. */
module Framing {
  import opened Body
  import opened BodyRules
  import opened Bytes
  import opened Client
  import opened HeadParser
  import opened HeadPrinters
  import opened HeadReads
  import opened HeadRules
  import opened Numerals
  import opened Server
  import opened Spelling
  import opened Wrappers

  // ---- the keywords --------------------------------------------------------------------------

  lemma Keywords()
    ensures Text(CHUNKED) == "chunked" && Text(CLOSE) == "close"
    ensures Text(KEEP_ALIVE) == "keep-alive" && Text(HEAD_METHOD) == "HEAD"
  {
  }

  lemma GoodReasons()
    ensures Text(Reason(200)) == "OK" && Text(Reason(201)) == "Created" && Text(Reason(204)) == "No Content"
  {
  }

  lemma BadReasons()
    ensures Text(Reason(400)) == "Bad Request" && Text(Reason(404)) == "Not Found"
  {
  }

  lemma MethodReason()
    ensures Text(Reason(405)) == "Method Not Allowed"
  {
  }

  lemma ServerReasons()
    ensures Text(Reason(501)) == "Not Implemented"
  {
  }

  lemma ErrorReason()
    ensures Text(Reason(500)) == "Internal Server Error"
  {
  }

  /** The eight reason phrases, and no other. */
  lemma ReasonPhrases(status: nat)
    ensures Text(Reason(status)) ==
            match status
            case 200 => "OK"
            case 201 => "Created"
            case 204 => "No Content"
            case 400 => "Bad Request"
            case 404 => "Not Found"
            case 405 => "Method Not Allowed"
            case 500 => "Internal Server Error"
            case 501 => "Not Implemented"
            case _ => ""
  {
    GoodReasons();
    BadReasons();
    MethodReason();
    ServerReasons();
    ErrorReason();
    if status in {200, 201, 204, 400, 404, 405, 500, 501} {
      hide Text;
    }
  }

  // ---- printed requests of either version -----------------------------------------------------

  /** A request that can be printed, with a head that shows early. */
  predicate Printable(v: Version, meth: seq<Byte>, target: seq<Byte>, fs: seq<Field>) {
    && GoodRequest(meth, target) && CleanFields(fs) && |HeadText(RequestLineOf(v, meth, target), fs)| <= LATE
  }

  lemma RequestLineClean(v: Version, meth: seq<Byte>, target: seq<Byte>)
    requires GoodRequest(meth, target)
    ensures CleanLine(RequestLineOf(v, meth, target))
  {
    hide CleanLine;
    hide IsTchar;
    var rest := target + [SP] + VersionText(v);
    VersionHasNoBreak(v);
    hide VersionText;
    assert RequestLineOf(v, meth, target) == meth + [SP] + rest;
    CleanParts(meth, rest);
  }

  lemma VersionHasNoBreak(v: Version)
    ensures forall i :: 0 <= i < |VersionText(v)| ==> VersionText(v)[i] != CR && VersionText(v)[i] != LF
  {
  }

  lemma RequestWords(v: Version, meth: seq<Byte>, target: seq<Byte>)
    ensures var line := RequestLineOf(v, meth, target);
            && |line| >= |meth| + 1 + |target|
            && line[0..|meth|] == meth && line[|meth| + 1..|meth| + 1 + |target|] == target
  {
  }

  /** It is read as its method, target, version and fields. */
  lemma PrintedRequestRead(v: Version, meth: seq<Byte>, target: seq<Byte>, fs: seq<Field>)
    requires Printable(v, meth, target, fs)
    ensures var text := HeadText(RequestLineOf(v, meth, target), fs);
            HeadOf(text, Request) == Ok(Some((Head(meth, target, v, None, fs), |text|)))
  {
    hide HeadOf;
    hide HeadText;
    hide ParseRequestLine;
    hide RequestLineOf;
    hide CleanLine;
    hide CleanFields;
    hide IsTchar;
    var line := RequestLineOf(v, meth, target);
    LineHasForm(v, meth, target);
    RequestLineRead(line, meth, target, v);
    RequestWords(v, meth, target);
    RequestLineClean(v, meth, target);
    assert PrintedHead(line, fs, Request) == Head(meth, target, v, None, fs);
    hide PrintedHead;
    hide ParseFirstLine;
    PrintedIsParsed(line, fs, [], Request);
    assert HeadText(line, fs) + [] == HeadText(line, fs);
  }

  lemma LineHasForm(v: Version, meth: seq<Byte>, target: seq<Byte>)
    requires GoodRequest(meth, target)
    ensures IsRequestLine(RequestLineOf(v, meth, target), meth, target, v)
  {
    hide IsTchar;
  }

  // ---- the framing of requests ------------------------------------------------------------------

  /** Framing fields decide: none, a length, chunked, or refusal. */
  lemma EncodingDecides(fs: seq<Field>, te: seq<Byte>)
    requires Get(fs, TRANSFER_ENCODING) == Some(te)
    ensures Get(fs, CONTENT_LENGTH).Some? ==> RequestBodyKind(fs) == Err(ConflictingHeaders)
    ensures Get(fs, CONTENT_LENGTH) == None ==>
              RequestBodyKind(fs) ==
              if SameSpelling(te, CHUNKED) then Ok(Chunked) else Err(Malformed("unsupported Transfer-Encoding"))
  {
    hide Get;
    hide ContentLengthKind;
    CaseIgnoredIff(te, CHUNKED);
  }

  /** The fields of a message with one Transfer-Encoding, whatever the case of its name. */
  function WithEncoding(before: seq<Field>, name: seq<Byte>, te: seq<Byte>, after: seq<Field>): seq<Field> {
    before + [Field(name, te)] + after
  }

  lemma EncodingFound(before: seq<Field>, name: seq<Byte>, te: seq<Byte>, after: seq<Field>)
    requires Get(before, TRANSFER_ENCODING) == None && SameSpelling(name, TRANSFER_ENCODING)
    ensures Get(WithEncoding(before, name, te, after), TRANSFER_ENCODING) == Some(te)
  {
    hide Get;
    hide EqIgnoreCase;
    CaseIgnoredIff(name, TRANSFER_ENCODING);
    FirstIsGot(before, Field(name, te), after, TRANSFER_ENCODING);
  }

  /**
   * A request with Transfer-Encoding "chunked", in any case, and without Content-Length gets the
   * data of its chunks for its body, and exactly the bytes behind them are left.
   */
  lemma ChunkedRequestServed(
      v: Version, meth: seq<Byte>, target: seq<Byte>, before: seq<Field>, name: seq<Byte>, te: seq<Byte>,
      after: seq<Field>, b: ChunkedBody, rest: seq<Byte>, handler: Handler, log: seq<Exchange>)
    requires Get(before, TRANSFER_ENCODING) == None && SameSpelling(name, TRANSFER_ENCODING)
    requires SameSpelling(te, CHUNKED) && Get(WithEncoding(before, name, te, after), CONTENT_LENGTH) == None
    requires Printable(v, meth, target, WithEncoding(before, name, te, after)) && b.WellFormed()
    requires var head := Head(meth, target, v, None, WithEncoding(before, name, te, after));
             handler.limit(log, head).Some? && |b.Data()| <= handler.limit(log, head).value
    ensures var fs := WithEncoding(before, name, te, after);
            var head := Head(meth, target, v, None, fs);
            var x := [Exchange(head, Whole(b.Data()))];
            Serve(HeadText(RequestLineOf(v, meth, target), fs) + b.Wire() + rest, handler, log) ==
            if KeepAlive(head) then Then(x, Serve(rest, handler, log + x)) else Script(x, Done)
  {
    hide HeadText;
    hide RequestLineOf;
    hide HeadOf;
    hide RequestBodyKind;
    hide BodyOf;
    hide Serve;
    hide KeepAlive;
    hide SameSpelling;
    hide Get;
    hide ChunkedBody.WellFormed;
    hide ChunkedBody.Wire;
    hide ChunkedBody.Data;
    hide WithEncoding;
    var fs := WithEncoding(before, name, te, after);
    EncodingFound(before, name, te, after);
    EncodingDecides(fs, te);
    PrintedRequestRead(v, meth, target, fs);
    ChunkedRead(b, []);
    assert b.Wire() + [] == b.Wire();
    var w := Wire(HeadText(RequestLineOf(v, meth, target), fs), b.Wire(), Head(meth, target, v, None, fs), b.Data());
    assert Good(w);
    GoodRequestServed(w, rest, handler, log);
  }

  /** With a Content-Length besides, or with any other encoding, it is refused, and nothing is dispatched. */
  lemma OtherEncodingRefused(
      v: Version, meth: seq<Byte>, target: seq<Byte>, before: seq<Field>, name: seq<Byte>, te: seq<Byte>,
      after: seq<Field>, rest: seq<Byte>, handler: Handler, log: seq<Exchange>)
    requires Get(before, TRANSFER_ENCODING) == None && SameSpelling(name, TRANSFER_ENCODING)
    requires Printable(v, meth, target, WithEncoding(before, name, te, after))
    ensures var fs := WithEncoding(before, name, te, after);
            var s := Serve(HeadText(RequestLineOf(v, meth, target), fs) + rest, handler, log);
            && (Get(fs, CONTENT_LENGTH).Some? ==> s == Script([], Failed(ConflictingHeaders)))
            && (Get(fs, CONTENT_LENGTH) == None && !SameSpelling(te, CHUNKED) ==>
                  s == Script([], Failed(Malformed("unsupported Transfer-Encoding"))))
  {
    hide HeadText;
    hide RequestLineOf;
    hide HeadOf;
    hide HeadAt;
    hide Prompt;
    hide RequestBodyKind;
    hide Serve;
    hide SameSpelling;
    hide Get;
    hide WithEncoding;
    var fs := WithEncoding(before, name, te, after);
    var text := HeadText(RequestLineOf(v, meth, target), fs);
    EncodingFound(before, name, te, after);
    EncodingDecides(fs, te);
    PrintedRequestRead(v, meth, target, fs);
    GoodHead(text, Request, Head(meth, target, v, None, fs), rest);
    ServeUnfolds(text + rest, handler, log);
  }

  /** Without framing fields a request has no body. */
  lemma PlainRequestIsGood(v: Version, meth: seq<Byte>, target: seq<Byte>, fs: seq<Field>)
    requires Printable(v, meth, target, fs)
    requires Get(fs, TRANSFER_ENCODING) == None && Get(fs, CONTENT_LENGTH) == None
    ensures Good(Wire(HeadText(RequestLineOf(v, meth, target), fs), [], Head(meth, target, v, None, fs), []))
  {
    hide HeadText;
    hide RequestLineOf;
    hide HeadOf;
    hide Get;
    PrintedRequestRead(v, meth, target, fs);
  }

  // ---- who keeps the connection ------------------------------------------------------------------

  /** What section 9.3 of RFC 9112 asks of a request that is not to be the last. */
  predicate WantsMore(v: Version, connection: Option<seq<Byte>>) {
    match v
    case Http11 => connection == None || !SameSpelling(connection.value, CLOSE)
    case Http10 => connection.Some? && SameSpelling(connection.value, KEEP_ALIVE)
  }

  /**
   * A printed request without a body is dispatched, and serving goes on with the bytes behind it
   * iff it is one of HTTP/1.1 whose first Connection field, if any, is not "close", or one of
   * HTTP/1.0 whose first is "keep-alive".
   */
  lemma ConnectionDecides(
      v: Version, meth: seq<Byte>, target: seq<Byte>, fs: seq<Field>, rest: seq<Byte>, handler: Handler,
      log: seq<Exchange>)
    requires Printable(v, meth, target, fs)
    requires Get(fs, TRANSFER_ENCODING) == None && Get(fs, CONTENT_LENGTH) == None
    ensures var head := Head(meth, target, v, None, fs);
            var x := [Exchange(head, if handler.limit(log, head) == None then Unread else Whole([]))];
            Serve(HeadText(RequestLineOf(v, meth, target), fs) + rest, handler, log) ==
            if WantsMore(v, Get(fs, CONNECTION)) then Then(x, Serve(rest, handler, log + x)) else Script(x, Done)
  {
    hide HeadText;
    hide RequestLineOf;
    hide Get;
    hide Serve;
    hide Good;
    hide EqIgnoreCase;
    hide SameSpelling;
    var head := Head(meth, target, v, None, fs);
    var w := Wire(HeadText(RequestLineOf(v, meth, target), fs), [], head, []);
    PlainRequestIsGood(v, meth, target, fs);
    GoodRequestServed(w, rest, handler, log);
    assert w.head + w.body + rest == w.head + rest;
    var connection := Get(fs, CONNECTION);
    if connection.Some? {
      CaseIgnoredIff(connection.value, CLOSE);
      CaseIgnoredIff(connection.value, KEEP_ALIVE);
    }
  }

  /** "GET /" of either version with one Connection field. */
  lemma AskedToClose(v: Version, rest: seq<Byte>, handler: Handler)
    ensures Printable(v, GET, [47], [Field(CONNECTION, CLOSE)])
    ensures var s := Serve(HeadText(RequestLineOf(v, GET, [47]), [Field(CONNECTION, CLOSE)]) + rest, handler, []);
            |s.exchanges| == 1 && s.end == Done
  {
    var fs := [Field(CONNECTION, CLOSE)];
    ShortRequest(v, CLOSE);
    ConnectionOnly(CLOSE);
    CloseIsNotKeepAlive();
    hide Printable;
    hide HeadText;
    hide RequestLineOf;
    hide Serve;
    hide Get;
    hide SameSpelling;
    ConnectionDecides(v, GET, [47], fs, rest, handler, []);
  }

  lemma CloseIsNotKeepAlive()
    ensures SameSpelling(CLOSE, CLOSE) && !SameSpelling(CLOSE, KEEP_ALIVE) && !SameSpelling(KEEP_ALIVE, CLOSE)
    ensures SameSpelling(KEEP_ALIVE, KEEP_ALIVE)
  {
  }

  lemma ConnectionOnly(value: seq<Byte>)
    ensures var fs := [Field(CONNECTION, value)];
            && Get(fs, CONNECTION) == Some(value)
            && Get(fs, TRANSFER_ENCODING) == None && Get(fs, CONTENT_LENGTH) == None
  {
    var fs := [Field(CONNECTION, value)];
    assert fs[1..] == [];
    assert EqIgnoreCase(CONNECTION, CONNECTION);
    assert !EqIgnoreCase(CONNECTION, TRANSFER_ENCODING) && !EqIgnoreCase(CONNECTION, CONTENT_LENGTH);
  }

  lemma ShortRequest(v: Version, value: seq<Byte>)
    requires value == CLOSE || value == KEEP_ALIVE
    ensures Printable(v, GET, [47], [Field(CONNECTION, value)])
  {
    var fs := [Field(CONNECTION, value)];
    assert fs[1..] == [];
    assert forall i :: 0 <= i < 3 ==> IsTchar(GET[i]);
    hide IsTchar;
    assert CleanField(fs[0]) by {
      ConnectionIsClean(value);
    }
    hide CleanField;
    assert |FieldLines(fs)| <= 40;
  }

  lemma ConnectionIsClean(value: seq<Byte>)
    requires value == CLOSE || value == KEEP_ALIVE
    ensures CleanField(Field(CONNECTION, value))
  {
    assert forall i :: 0 <= i < |CONNECTION| ==> 97 <= CONNECTION[i] <= 122;
    assert value != [] && forall i :: 0 <= i < |value| ==> 45 <= value[i] <= 122;
    LettersAreClean(CONNECTION, value);
  }

  lemma LettersAreClean(name: seq<Byte>, value: seq<Byte>)
    requires name != [] && value != []
    requires forall i :: 0 <= i < |name| ==> 97 <= name[i] <= 122
    requires forall i :: 0 <= i < |value| ==> 45 <= value[i] <= 122
    ensures CleanField(Field(name, value))
  {
    var text := FieldText(Field(name, value));
    assert forall i :: 0 <= i < |text| ==>
      text[i] ==
      if i < |name| then name[i] else if i < |name| + 2 then [COLON, SP][i - |name|] else value[i - |name| - 2];
  }

  /** And the same with "keep-alive": the connection goes on. */
  lemma AskedToStay(v: Version, rest: seq<Byte>, handler: Handler)
    ensures var fs := [Field(CONNECTION, KEEP_ALIVE)];
            var x := [Exchange(Head(GET, [47], v, None, fs), Whole([]))];
            handler.limit([], x[0].head).Some? ==>
              Serve(HeadText(RequestLineOf(v, GET, [47]), fs) + rest, handler, []) == Then(x, Serve(rest, handler, x))
  {
    var fs := [Field(CONNECTION, KEEP_ALIVE)];
    ShortRequest(v, KEEP_ALIVE);
    ConnectionOnly(KEEP_ALIVE);
    CloseIsNotKeepAlive();
    hide Printable;
    hide HeadText;
    hide RequestLineOf;
    hide Serve;
    hide Get;
    hide SameSpelling;
    ConnectionDecides(v, GET, [47], fs, rest, handler, []);
    var x := [Exchange(Head(GET, [47], v, None, fs), Whole([]))];
    assert [] + x == x;
  }

  // ---- chunked responses --------------------------------------------------------------------------

  /**
   * A response with Transfer-Encoding "chunked", in any case and whatever its Content-Length, is
   * fetched as the data of its chunks with the bytes behind them left; any other encoding is
   * refused; and where the status or the method allows no body, neither matters.
   */
  lemma ChunkedReplyFetched(
      status: nat, reason: seq<Byte>, fs: seq<Field>, te: seq<Byte>, b: ChunkedBody, rest: seq<Byte>, meth: seq<Byte>)
    requires 100 <= status <= 599 && GoodReason(reason) && CleanFields(fs) && b.WellFormed()
    requires |HeadText(StatusLine(status, reason), fs)| <= LATE && Get(fs, TRANSFER_ENCODING) == Some(te)
    ensures var head := Head(reason, reason, Http11, Some(status), fs);
            FetchOne(HeadText(StatusLine(status, reason), fs) + (b.Wire() + rest), meth) ==
            if !HasBody(status, meth) then Ok(Fetched(head, [], b.Wire() + rest))
            else if SameSpelling(te, CHUNKED) then Ok(Fetched(head, b.Data(), rest))
            else Err(Malformed("unsupported Transfer-Encoding"))
  {
    hide HeadText;
    hide StatusLine;
    hide HeadOf;
    hide HeadAt;
    hide Prompt;
    hide Get;
    hide EqIgnoreCase;
    hide SameSpelling;
    hide GoodReason;
    hide CleanFields;
    hide ChunkedBody.WellFormed;
    hide ChunkedBody.Wire;
    hide ChunkedBody.Data;
    hide ResponseBodyKind;
    hide BodyOf;
    var text, tail := HeadText(StatusLine(status, reason), fs), b.Wire() + rest;
    var head := Head(reason, reason, Http11, Some(status), fs);
    ResponseRoundTrip(status, reason, fs, []);
    assert text + [] == text && (text + tail)[|text|..] == tail;
    GoodHead(text, Response, head, tail);
    ReplyEncoding(fs, te, status, meth);
    ChunkedRead(b, rest);
    NoBody(tail);
  }

  lemma ReplyEncoding(fs: seq<Field>, te: seq<Byte>, status: nat, meth: seq<Byte>)
    requires Get(fs, TRANSFER_ENCODING) == Some(te) && 100 <= status
    ensures ResponseBodyKind(fs, status, EqIgnoreCase(meth, HEAD_METHOD)) ==
            if !HasBody(status, meth) then Ok(Empty)
            else if SameSpelling(te, CHUNKED) then Ok(Chunked)
            else Err(Malformed("unsupported Transfer-Encoding"))
  {
    hide Get;
    hide EqIgnoreCase;
    hide SameSpelling;
    CaseIgnoredIff(te, CHUNKED);
  }

  lemma NoBody(bytes: seq<Byte>)
    ensures BodyOf(Empty, bytes) == Ok(Framed([], bytes))
  {
  }
}
