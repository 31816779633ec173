/** Connections that end too soon: nothing that was cut short is taken for the whole of it. */
module CutShort {
  import opened Body
  import opened BodyRules
  import opened Bytes
  import opened Client
  import opened Framing
  import opened HeadParser
  import opened HeadPrinters
  import opened HeadReads
  import opened HeadRules
  import opened Server
  import opened Wrappers

  /** A head that is cut short is an error, unless nothing of it came. */
  lemma CutHead(head: seq<Byte>, kind: HeadKind, k: nat)
    requires k < |head| <= LATE && HeadOf(head, kind).Ok? && HeadOf(head, kind).value.Some?
    requires HeadOf(head, kind).value.value.1 == |head|
    ensures Certain(head[..k], kind)
    ensures HeadResult(head[..k], kind) == if k == 0 then Ok(None) else Err(ConnectionClosed)
  {
    hide ParseHead;
    hide View;
    ProperPrefixNeedsMore(head, kind, k);
    assert head[..k][..k] == head[..k];
    hide HeadOf;
  }

  /** The server answers nothing to a request whose head is cut short. */
  lemma CutRequestRefused(
      v: Version, meth: seq<Byte>, target: seq<Byte>, fs: seq<Field>, k: nat, handler: Handler, log: seq<Exchange>)
    requires Printable(v, meth, target, fs) && k < |HeadText(RequestLineOf(v, meth, target), fs)|
    ensures Serve(HeadText(RequestLineOf(v, meth, target), fs)[..k], handler, log) ==
            Script([], if k == 0 then Done else Failed(ConnectionClosed))
  {
    hide HeadText;
    hide RequestLineOf;
    hide HeadOf;
    hide Certain;
    hide HeadResult;
    hide Serve;
    var text := HeadText(RequestLineOf(v, meth, target), fs);
    PrintedRequestRead(v, meth, target, fs);
    CutHead(text, Request, k);
    ServeUnfolds(text[..k], handler, log);
  }

  /** The handler of a request whose body is cut short never gets the body for a whole one, and is the last. */
  lemma CutBodyIsPartial(w: Wire, k: nat, handler: Handler, log: seq<Exchange>)
    requires Good(w) && k < |w.body|
    ensures Serve(w.head + w.body[..k], handler, log) ==
            var body := if handler.limit(log, w.parsed) == None then Unread else BodyRead.Partial;
            Script([Exchange(w.parsed, body)], Done)
  {
    hide HeadOf;
    hide HeadAt;
    hide Prompt;
    hide RequestBodyKind;
    hide KeepAlive;
    hide BodyOf;
    hide IsBody;
    hide Serve;
    var kind := RequestBodyKind(w.parsed.fields).value;
    var cut := w.body[..k];
    var all := w.head + cut;
    assert all[|w.head|..] == cut;
    GoodHead(w.head, Request, w.parsed, cut);
    RequestNotUntilEof(w.parsed.fields);
    NoBodyIff(kind, w.body, w.data);
    var wire := BodySound(kind, w.body);
    assert wire + [] == wire;
    CutBodyFails(kind, w.body, w.data, k);
    ServeUnfolds(all, handler, log);
  }

  /** The client never takes a reply that is cut short for one with a shorter body. */
  lemma CutReplyFails(r: ResponseData, meth: seq<Byte>, k: nat)
    requires GoodReply(r) && HasBody(r.status, meth) && r.body != [] && k < |ResponseText(r)|
    ensures FetchOne(ResponseText(r)[..k], meth) == Err(ConnectionClosed)
  {
    hide HeadText;
    hide HeadOf;
    hide FetchOne;
    hide GoodReply;
    hide HasBody;
    var text := HeadText(StatusLine(r.status, Reason(r.status)), ResponseFields(r));
    ReplyHeadRead(r);
    if k < |text| {
      assert (text + r.body)[..k] == text[..k];
      CutReplyHead(text, meth, k);
    } else {
      assert (text + r.body)[..k] == text + r.body[..k - |text|];
      CutReplyBody(r, meth, text, k - |text|);
    }
  }

  lemma ReplyHeadRead(r: ResponseData)
    requires GoodReply(r)
    ensures var text := HeadText(StatusLine(r.status, Reason(r.status)), ResponseFields(r));
            |text| <= LATE && HeadOf(text, Response) == Ok(Some((ReplyHead(r), |text|)))
  {
    hide HeadText;
    hide HeadOf;
    hide CleanFields;
    hide Reason;
    hide ResponseFields;
    hide GoodReason;
    hide Unframed;
    var fs := ResponseFields(r);
    var text := HeadText(StatusLine(r.status, Reason(r.status)), fs);
    ReasonIsGood(r.status);
    ReplyFieldsAreClean(r);
    ResponseRoundTrip(r.status, Reason(r.status), fs, []);
    assert text + [] == text;
  }

  lemma CutReplyHead(text: seq<Byte>, meth: seq<Byte>, k: nat)
    requires k < |text| <= LATE && HeadOf(text, Response).Ok? && HeadOf(text, Response).value.Some?
    requires HeadOf(text, Response).value.value.1 == |text|
    ensures FetchOne(text[..k], meth) == Err(ConnectionClosed)
  {
    hide HeadOf;
    hide HeadResult;
    CutHead(text, Response, k);
  }

  lemma CutReplyBody(r: ResponseData, meth: seq<Byte>, text: seq<Byte>, k: nat)
    requires GoodReply(r) && HasBody(r.status, meth) && r.body != [] && k < |r.body|
    requires |text| <= LATE && HeadOf(text, Response) == Ok(Some((ReplyHead(r), |text|)))
    ensures FetchOne(text + r.body[..k], meth) == Err(ConnectionClosed)
  {
    hide HeadOf;
    hide HeadAt;
    hide CleanFields;
    hide HeadText;
    hide EqIgnoreCase;
    hide Reason;
    hide ResponseFields;
    hide ContentLengthKind;
    hide Get;
    hide BodyOf;
    var cut := r.body[..k];
    assert (text + cut)[|text|..] == cut;
    GoodHead(text, Response, ReplyHead(r), cut);
    hide Prompt;
    ReplyLength(r);
    CutBodyFails(ContentLength(|r.body|), r.body, r.body, k);
  }

  lemma ReplyLength(r: ResponseData)
    requires Unframed(r.headers) && r.body != [] && |r.body| < U64
    ensures Get(ResponseFields(r), TRANSFER_ENCODING) == None
    ensures ContentLengthKind(ResponseFields(r)) == Ok(ContentLength(|r.body|))
  {
    hide Get;
    hide ContentLengthKind;
    LengthLast(r.headers, |r.body|);
  }
}
