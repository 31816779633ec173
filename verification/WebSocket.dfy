/**
 * The message layer of a WebSocket connection: what one call of `recv` makes of the bytes
 * that are still to come. UTF-8 validity is the parameter `utf8`, any predicate.
 */
module WebSocket {
  import opened Bytes
  import opened FrameCodec
  import opened Wrappers

  type Utf8 = seq<Byte> -> bool

  /** A status code as it is carried on the wire. */
  type Code = c: nat | c < 65536

  datatype Status = Status(code: Code, reason: seq<Byte>)

  /** A message after assembly; text is the bytes of its UTF-8 form. */
  datatype Message =
    | TextMessage(text: seq<Byte>)
    | BinaryMessage(data: seq<Byte>)
    | PingMessage(probe: seq<Byte>)
    | PongMessage(reply: seq<Byte>)
    | CloseMessage(status: Option<Status>)

  datatype WsError = Protocol(why: Violation) | ConnectionClosed

  /** Section 7.4.2 of RFC 6455: the codes a peer may send. */
  predicate IsValidCloseCode(code: nat) {
    1000 <= code <= 1003 || 1007 <= code <= 1011 || 3000 <= code <= 4999
  }

  function CloseInfo(status: Option<Status>): seq<Byte> {
    match status
    case None => []
    case Some(s) => BigEndian(s.code, 2) + s.reason
  }

  /** The single frame that `send` puts a message in. */
  function FrameFor(m: Message): Frame {
    match m
    case TextMessage(text) => Frame(true, false, Text, text)
    case BinaryMessage(data) => Frame(true, false, Binary, data)
    case PingMessage(probe) => Frame(true, false, Ping, probe)
    case PongMessage(reply) => Frame(true, false, Pong, reply)
    case CloseMessage(status) => Frame(true, false, Close, CloseInfo(status))
  }

  datatype Session = Session(closeSent: bool, closeReceived: bool)

  /** The message under assembly: the opcode of its first frame and the payload so far. */
  datatype Partial = Partial(opcode: Option<Opcode>, data: seq<Byte>)

  const NOTHING: Partial := Partial(None, [])

  /** What a decoded frame leads to: more frames, or the end of the call. */
  datatype Step =
    | Continue(partial: Partial, replies: seq<Frame>)
    | Stop(result: Result<Option<Message>, WsError>, replies: seq<Frame>, session: Session)

  function Fail(why: Violation, s: Session): Step {
    Stop(Err(Protocol(why)), [], s)
  }

  /** A Close frame from the peer is validated, answered unless we closed first, and ends the stream. */
  function OnClose(payload: seq<Byte>, s: Session, utf8: Utf8): Step {
    if |payload| == 1 then Fail(OneByteClose, s)
    else if |payload| >= 2 && !IsValidCloseCode(Number(payload[..2])) then Fail(InvalidCloseCode, s)
    else if |payload| >= 2 && !utf8(payload[2..]) then Fail(InvalidUtf8, s)
    else
      var status := if payload == [] then None else Some(Status(CodeIn(payload), payload[2..]));
      Stop(Ok(None), if s.closeSent then [] else [FrameFor(CloseMessage(status))], Session(true, true))
  }

  function CodeIn(payload: seq<Byte>): Code
    requires |payload| >= 2
  {
    NumberBelow(payload[..2]);
    assert Power256(2) == 65536;
    Number(payload[..2])
  }

  /** A data or continuation frame adds to the message, and its FIN bit completes it. */
  function OnData(f: Frame, p: Partial, s: Session, utf8: Utf8): Step {
    var opcode := if p.opcode.Some? then p.opcode else Some(f.opcode);
    var data := p.data + f.payload;
    if |data| > MAX_PAYLOAD then Fail(MessageTooLarge, s)
    else if !f.fin then Continue(Partial(opcode, data), [])
    else if opcode == Some(Text) then
      if utf8(data) then Stop(Ok(Some(TextMessage(data))), [], s) else Fail(InvalidUtf8, s)
    else Stop(Ok(Some(BinaryMessage(data))), [], s)
  }

  function OnFrame(f: Frame, p: Partial, s: Session, utf8: Utf8): Step {
    if f.rsv1 then Fail(UnexpectedRsv1, s)
    else if !f.fin && f.opcode.IsControl() then Fail(FragmentedControlFrame, s)
    else
      match f.opcode
      case Ping => Continue(p, [FrameFor(PongMessage(f.payload))])
      case Pong => Stop(Ok(Some(PongMessage(f.payload))), [], s)
      case Close => OnClose(f.payload, s, utf8)
      case Continuation => if p.opcode == None then Fail(UnexpectedContinuation, s) else OnData(f, p, s, utf8)
      case _ => if p.opcode.Some? then Fail(UnexpectedDataFrame, s) else OnData(f, p, s, utf8)
  }

  /** The result of a call, the bytes it leaves unconsumed, and the frames it writes. */
  datatype Outcome = Outcome(
    result: Result<Option<Message>, WsError>, rest: seq<Byte>, replies: seq<Frame>, session: Session)

  function After(replies: seq<Frame>, o: Outcome): Outcome {
    o.(replies := replies + o.replies)
  }

  /** What `recv_message` makes of `bytes`, all that the peer sends before it closes the transport. */
  function Receive(bytes: seq<Byte>, role: Role, p: Partial, s: Session, utf8: Utf8): (o: Outcome)
    ensures |o.rest| <= |bytes|
    ensures o.result.Ok? && o.result.value.Some? ==> |o.rest| < |bytes|
    decreases |bytes|
  {
    match Decode(bytes, role)
    case Malformed(why) => Outcome(Err(Protocol(why)), bytes, [], s)
    case NeedMore => Outcome(if s.closeReceived then Ok(None) else Err(ConnectionClosed), bytes, [], s)
    case Decoded(f, n) =>
      match OnFrame(f, p, s, utf8)
      case Stop(result, replies, session) => Outcome(result, bytes[n..], replies, session)
      case Continue(next, replies) => After(replies, Receive(bytes[n..], role, next, s, utf8))
  }

  /** The Close frame that answers a violation. */
  function Complaint(why: Violation): Frame {
    FrameFor(CloseMessage(Some(Status(if why == InvalidUtf8 then 1007 else 1002, []))))
  }

  /** `recv`: a violation is answered with a Close frame, unless one was sent before. */
  function Recv(bytes: seq<Byte>, role: Role, s: Session, utf8: Utf8): (o: Outcome)
    ensures |o.rest| <= |bytes|
    ensures o.result.Ok? && o.result.value.Some? ==> |o.rest| < |bytes|
  {
    var o := Receive(bytes, role, NOTHING, s, utf8);
    if o.result.Err? && o.result.error.Protocol? && !o.session.closeSent then
      o.(replies := o.replies + [Complaint(o.result.error.why)], session := o.session.(closeSent := true))
    else o
  }

  /** The draining loop of `close`: `recv` until it returns no message. */
  function Drain(bytes: seq<Byte>, role: Role, s: Session, utf8: Utf8): Outcome
    decreases |bytes|
  {
    var o := Recv(bytes, role, s, utf8);
    if o.result.Ok? && o.result.value.Some? then After(o.replies, Drain(o.rest, role, o.session, utf8)) else o
  }

  /** What several calls of `recv` amount to: the messages, the bytes left, the frames written. */
  datatype Calls = Calls(messages: seq<Message>, rest: seq<Byte>, replies: seq<Frame>, session: Session)

  /** The next n calls of `recv`, as long as they return messages. */
  function RecvMany(bytes: seq<Byte>, n: nat, role: Role, s: Session, utf8: Utf8): Calls
    decreases n
  {
    if n == 0 then Calls([], bytes, [], s)
    else
      var o := Recv(bytes, role, s, utf8);
      if o.result.Ok? && o.result.value.Some? then
        Then([o.result.value.value], o.replies, RecvMany(o.rest, n - 1, role, o.session, utf8))
      else Calls([], o.rest, o.replies, o.session)
  }

  function Then(messages: seq<Message>, replies: seq<Frame>, c: Calls): Calls {
    c.(messages := messages + c.messages, replies := replies + c.replies)
  }

  // ---- sequences of frames on the wire ----------------------------------------------

  function EncodedAll(frames: seq<Frame>, masks: seq<Option<Key>>): seq<Byte>
    requires |masks| == |frames|
  {
    if frames == [] then [] else Encoded(frames[0], masks[0]) + EncodedAll(frames[1..], masks[1..])
  }

  lemma {:induction false} EncodedAppend(frames: seq<Frame>, masks: seq<Option<Key>>, f: Frame, m: Option<Key>)
    requires |masks| == |frames|
    ensures EncodedAll(frames + [f], masks + [m]) == EncodedAll(frames, masks) + Encoded(f, m)
  {
    hide Encoded;
    if frames == [] {
      assert EncodedAll([], []) == [];
      assert frames + [f] == [f] && masks + [m] == [m];
    } else {
      EncodedAppend(frames[1..], masks[1..], f, m);
      assert (frames + [f])[1..] == frames[1..] + [f];
      assert (masks + [m])[1..] == masks[1..] + [m];
    }
  }

  // ---- fragmentation ----------------------------------------------------------------

  predicate AllFit(masks: seq<Option<Key>>, role: Role) {
    forall i :: 0 <= i < |masks| ==> MaskFits(masks[i], role)
  }

  predicate IsProbe(f: Frame) {
    f.opcode == Ping || f.opcode == Pong
  }

  predicate GoodControl(f: Frame) {
    f.fin && !f.rsv1 && |f.payload| <= 125
  }

  /**
   * `frames` carries `data` as one message whose first data frame has the given opcode: any
   * number of pieces, of any lengths, with any Pings and Pongs before each of them.
   */
  predicate Fragments(frames: seq<Frame>, opcode: Opcode, data: seq<Byte>)
    decreases |frames|
  {
    frames != [] &&
    var f := frames[0];
    if IsProbe(f) then GoodControl(f) && Fragments(frames[1..], opcode, data)
    else
      && f.opcode == opcode && !f.rsv1 && f.payload <= data
      && if |frames| == 1 then f.fin && f.payload == data
         else !f.fin && Fragments(frames[1..], Continuation, data[|f.payload|..])
  }

  /** One Pong for each Ping, with its payload, in order. */
  function PingReplies(frames: seq<Frame>): seq<Frame> {
    if frames == [] then []
    else
      (if frames[0].opcode == Ping then [FrameFor(PongMessage(frames[0].payload))] else []) + PingReplies(frames[1..])
  }

  predicate HasPong(frames: seq<Frame>) {
    exists i :: 0 <= i < |frames| && frames[i].opcode == Pong
  }

  function Assembled(opcode: Opcode, data: seq<Byte>): Message {
    if opcode == Text then TextMessage(data) else BinaryMessage(data)
  }

  predicate Acceptable(opcode: Opcode, data: seq<Byte>, utf8: Utf8) {
    (opcode == Text || opcode == Binary) && |data| <= MAX_PAYLOAD && (opcode == Text ==> utf8(data))
  }

  /** What follows a step that left `rest` unread. */
  function Resumed(step: Step, rest: seq<Byte>, role: Role, s: Session, utf8: Utf8): Outcome {
    match step
    case Stop(result, replies, session) => Outcome(result, rest, replies, session)
    case Continue(next, replies) => After(replies, Receive(rest, role, next, s, utf8))
  }

  /** One step of `Receive`, by what the next frame is. */
  lemma ReceiveUnfolds(bytes: seq<Byte>, role: Role, p: Partial, s: Session, utf8: Utf8)
    ensures var d := Decode(bytes, role);
            Receive(bytes, role, p, s, utf8) ==
            if d.Decoded? then Resumed(OnFrame(d.frame, p, s, utf8), bytes[d.consumed..], role, s, utf8)
            else if d.Malformed? then Outcome(Err(Protocol(d.why)), bytes, [], s)
            else Outcome(if s.closeReceived then Ok(None) else Err(ConnectionClosed), bytes, [], s)
  {
    hide OnFrame;
    hide Decode;
  }

  /** One frame off the front of the wire. */
  lemma ReceiveOne(f: Frame, m: Option<Key>, rest: seq<Byte>, role: Role, p: Partial, s: Session, utf8: Utf8)
    requires Legal(f) && MaskFits(m, role)
    ensures Receive(Encoded(f, m) + rest, role, p, s, utf8) == Resumed(OnFrame(f, p, s, utf8), rest, role, s, utf8)
  {
    hide OnFrame;
    hide Encoded;
    hide Decode;
    DecodeEncoded(f, m, role, rest);
    assert (Encoded(f, m) + rest)[|Encoded(f, m)|..] == rest;
  }

  /** The result of a call that has assembled a whole message. */
  function Completed(opcode: Opcode, data: seq<Byte>, utf8: Utf8): Result<Option<Message>, WsError> {
    if opcode == Text && !utf8(data) then Err(Protocol(InvalidUtf8)) else Ok(Some(Assembled(opcode, data)))
  }

  /** A fragment in its place is taken, and the last completes the message. */
  lemma FragmentTaken(f: Frame, p: Partial, first: Opcode, s: Session, utf8: Utf8)
    requires (first == Text || first == Binary) && !f.rsv1 && |p.data + f.payload| <= MAX_PAYLOAD
    requires if p == NOTHING then f.opcode == first else p.opcode == Some(first) && f.opcode == Continuation
    ensures OnFrame(f, p, s, utf8) ==
            if f.fin then Stop(Completed(first, p.data + f.payload, utf8), [], s)
            else Continue(Partial(Some(first), p.data + f.payload), [])
  {
  }

  lemma PingAnswered(f: Frame, p: Partial, s: Session, utf8: Utf8)
    requires f.opcode == Ping && GoodControl(f)
    ensures OnFrame(f, p, s, utf8) == Continue(p, [FrameFor(PongMessage(f.payload))])
  {
  }

  lemma {:induction false} ReceiveFragments(
      frames: seq<Frame>, masks: seq<Option<Key>>, rest: seq<Byte>, first: Opcode, data: seq<Byte>,
      p: Partial, role: Role, s: Session, utf8: Utf8)
    requires |masks| == |frames| && AllFit(masks, role) && !HasPong(frames)
    requires p == NOTHING || p.opcode == Some(first)
    requires (first == Text || first == Binary) && |p.data + data| <= MAX_PAYLOAD
    requires Fragments(frames, if p == NOTHING then first else Continuation, data)
    ensures Receive(EncodedAll(frames, masks) + rest, role, p, s, utf8) ==
            Outcome(Completed(first, p.data + data, utf8), rest, PingReplies(frames), s)
    decreases |frames|
  {
    hide Encoded;
    hide Receive;
    hide OnFrame;
    hide Completed;
    var f := frames[0];
    var tail := EncodedAll(frames[1..], masks[1..]) + rest;
    assert EncodedAll(frames, masks) + rest == Encoded(f, masks[0]) + tail;
    ReceiveOne(f, masks[0], tail, role, p, s, utf8);
    if f.opcode == Ping {
      PingAnswered(f, p, s, utf8);
      ReceiveFragments(frames[1..], masks[1..], rest, first, data, p, role, s, utf8);
    } else if |frames| == 1 {
      assert tail == rest;
      FragmentTaken(f, p, first, s, utf8);
    } else {
      var next := Partial(Some(first), p.data + f.payload);
      var left := data[|f.payload|..];
      assert next.data + left == p.data + data;
      FragmentTaken(f, p, first, s, utf8);
      ReceiveFragments(frames[1..], masks[1..], rest, first, left, next, role, s, utf8);
    }
  }

  /** A Pong ends the call and takes the message assembled so far with it; the rest of the frames are left. */
  lemma {:induction false} ReceivePong(
      frames: seq<Frame>, masks: seq<Option<Key>>, rest: seq<Byte>, first: Opcode, data: seq<Byte>,
      p: Partial, role: Role, s: Session, utf8: Utf8)
    returns (i: nat, left: seq<Byte>)
    requires |masks| == |frames| && AllFit(masks, role) && HasPong(frames)
    requires p.opcode == Some(first) && Acceptable(first, p.data + data, utf8)
    requires Fragments(frames, Continuation, data)
    ensures i <= |frames| && |left| <= |data| && Fragments(frames[i..], Continuation, left)
    ensures var o := Receive(EncodedAll(frames, masks) + rest, role, p, s, utf8);
            && o.result.Ok? && o.result.value.Some? && o.result.value.value.PongMessage?
            && o.rest == EncodedAll(frames[i..], masks[i..]) + rest && o.session == s
    decreases |frames|
  {
    hide Encoded;
    hide Receive;
    var f := frames[0];
    var tail := EncodedAll(frames[1..], masks[1..]) + rest;
    assert EncodedAll(frames, masks) + rest == Encoded(f, masks[0]) + tail;
    ReceiveOne(f, masks[0], tail, role, p, s, utf8);
    if f.opcode == Pong {
      return 1, data;
    }
    var next, after := p, data;
    if f.opcode != Ping {
      next := Partial(Some(first), p.data + f.payload);
      after := data[|f.payload|..];
      assert next.data + after == p.data + data;
    }
    i, left := ReceivePong(frames[1..], masks[1..], rest, first, after, next, role, s, utf8);
    assert frames[1..][i..] == frames[i + 1..] && masks[1..][i..] == masks[i + 1..];
    i := i + 1;
  }

  /** The Pongs before the first data frame, as messages. */
  function Leading(frames: seq<Frame>): seq<Message> {
    if frames == [] || !IsProbe(frames[0]) then []
    else (if frames[0].opcode == Pong then [PongMessage(frames[0].payload)] else []) + Leading(frames[1..])
  }

  /** A Pong comes between the first data frame and the last. */
  predicate PongInside(frames: seq<Frame>) {
    frames != [] && if IsProbe(frames[0]) then PongInside(frames[1..]) else HasPong(frames[1..])
  }

  /** A Ping is answered and the call goes on. */
  lemma RecvPing(f: Frame, m: Option<Key>, rest: seq<Byte>, role: Role, s: Session, utf8: Utf8)
    requires f.opcode == Ping && GoodControl(f) && MaskFits(m, role)
    ensures Recv(Encoded(f, m) + rest, role, s, utf8) ==
            After([FrameFor(PongMessage(f.payload))], Recv(rest, role, s, utf8))
  {
    hide Receive;
    hide Encoded;
    ReceiveOne(f, m, rest, role, NOTHING, s, utf8);
    var reply := [FrameFor(PongMessage(f.payload))];
    var o := Receive(rest, role, NOTHING, s, utf8);
    if o.result.Err? && o.result.error.Protocol? {
      assert reply + (o.replies + [Complaint(o.result.error.why)]) ==
        (reply + o.replies) + [Complaint(o.result.error.why)];
    }
  }

  /** A Pong is returned and nothing else happens. */
  lemma RecvPong(f: Frame, m: Option<Key>, rest: seq<Byte>, role: Role, s: Session, utf8: Utf8)
    requires f.opcode == Pong && GoodControl(f) && MaskFits(m, role)
    ensures Recv(Encoded(f, m) + rest, role, s, utf8) == Outcome(Ok(Some(PongMessage(f.payload))), rest, [], s)
  {
    hide Receive;
    hide Encoded;
    ReceiveOne(f, m, rest, role, NOTHING, s, utf8);
  }

  /** Over several calls, a Ping or Pong at the front adds its reply or its message. */
  lemma RecvManyProbe(f: Frame, m: Option<Key>, rest: seq<Byte>, n: nat, role: Role, s: Session, utf8: Utf8)
    requires IsProbe(f) && GoodControl(f) && MaskFits(m, role) && n > 0
    ensures RecvMany(Encoded(f, m) + rest, n, role, s, utf8) ==
            if f.opcode == Ping then Then([], [FrameFor(PongMessage(f.payload))], RecvMany(rest, n, role, s, utf8))
            else Then([PongMessage(f.payload)], [], RecvMany(rest, n - 1, role, s, utf8))
  {
    hide Recv;
    hide Encoded;
    if f.opcode == Ping {
      RecvPing(f, m, rest, role, s, utf8);
      var reply := [FrameFor(PongMessage(f.payload))];
      var o := Recv(rest, role, s, utf8);
      if o.result.Ok? && o.result.value.Some? {
        var c := RecvMany(o.rest, n - 1, role, o.session, utf8);
        assert (reply + o.replies) + c.replies == reply + (o.replies + c.replies);
      }
    } else {
      RecvPong(f, m, rest, role, s, utf8);
    }
  }

  /** When the first frame is a data frame and a Pong follows: one call returns that Pong. */
  lemma RecvCutShort(
      frames: seq<Frame>, masks: seq<Option<Key>>, rest: seq<Byte>, opcode: Opcode, data: seq<Byte>,
      role: Role, s: Session, utf8: Utf8)
    returns (i: nat, left: seq<Byte>)
    requires |masks| == |frames| && AllFit(masks, role)
    requires Acceptable(opcode, data, utf8) && Fragments(frames, opcode, data)
    requires !IsProbe(frames[0]) && PongInside(frames)
    ensures i <= |frames| && |left| <= MAX_PAYLOAD && Fragments(frames[i..], Continuation, left)
    ensures var o := Recv(EncodedAll(frames, masks) + rest, role, s, utf8);
            && o.result.Ok? && o.result.value.Some? && o.result.value.value.PongMessage?
            && o.rest == EncodedAll(frames[i..], masks[i..]) + rest && o.session == s
  {
    hide Receive;
    hide Encoded;
    hide Fragments;
    hide PongInside;
    hide HasPong;
    hide OnFrame;
    FirstFragment(frames, opcode, data);
    var f := frames[0];
    var tail := EncodedAll(frames[1..], masks[1..]) + rest;
    assert EncodedAll(frames, masks) + rest == Encoded(f, masks[0]) + tail;
    ReceiveOne(f, masks[0], tail, role, NOTHING, s, utf8);
    FirstFragmentTaken(f, opcode, s, utf8);
    var next := Partial(Some(opcode), f.payload);
    var after := data[|f.payload|..];
    assert f.payload + after == data;
    hide EncodedAll;
    i, left := ReceivePong(frames[1..], masks[1..], rest, opcode, after, next, role, s, utf8);
    assert frames[1..][i..] == frames[i + 1..] && masks[1..][i..] == masks[i + 1..];
    i := i + 1;
  }

  lemma FirstFragment(frames: seq<Frame>, opcode: Opcode, data: seq<Byte>)
    requires Fragments(frames, opcode, data) && !IsProbe(frames[0]) && PongInside(frames)
    ensures |frames| > 1 && HasPong(frames[1..])
    ensures var f := frames[0];
            && f.opcode == opcode && !f.rsv1 && !f.fin && f.payload <= data
            && Fragments(frames[1..], Continuation, data[|f.payload|..])
  {
  }

  lemma FirstFragmentTaken(f: Frame, opcode: Opcode, s: Session, utf8: Utf8)
    requires f.opcode == opcode && !f.rsv1 && !f.fin && (opcode == Text || opcode == Binary)
    requires |f.payload| <= MAX_PAYLOAD
    ensures OnFrame(f, NOTHING, s, utf8) == Continue(Partial(Some(opcode), f.payload), [])
  {
    assert [] + f.payload == f.payload;
  }

  /** When no Pong follows it: one call returns the message. */
  lemma RecvWhole(
      frames: seq<Frame>, masks: seq<Option<Key>>, rest: seq<Byte>, opcode: Opcode, data: seq<Byte>,
      role: Role, s: Session, utf8: Utf8)
    requires |masks| == |frames| && AllFit(masks, role)
    requires Acceptable(opcode, data, utf8) && Fragments(frames, opcode, data)
    requires !IsProbe(frames[0]) && !PongInside(frames)
    ensures Recv(EncodedAll(frames, masks) + rest, role, s, utf8) ==
            Outcome(Ok(Some(Assembled(opcode, data))), rest, PingReplies(frames), s)
  {
    hide Receive;
    hide EncodedAll;
    hide PingReplies;
    assert NOTHING.data + data == data;
    assert !HasPong(frames) by {
      assert forall i :: 1 <= i < |frames| ==> frames[i] == frames[1..][i - 1];
    }
    ReceiveFragments(frames, masks, rest, opcode, data, NOTHING, role, s, utf8);
  }

  lemma OneCall(bytes: seq<Byte>, role: Role, s: Session, utf8: Utf8)
    requires var o := Recv(bytes, role, s, utf8); o.result.Ok? && o.result.value.Some?
    ensures var o := Recv(bytes, role, s, utf8);
            RecvMany(bytes, 1, role, s, utf8) == Calls([o.result.value.value], o.rest, o.replies, o.session)
  {
    hide Recv;
    var o := Recv(bytes, role, s, utf8);
    assert RecvMany(o.rest, 0, role, o.session, utf8) == Calls([], o.rest, [], o.session);
    assert o.replies + [] == o.replies;
  }

  /** When a data frame comes first, one call decides. */
  lemma FragmentsFirst(
      frames: seq<Frame>, masks: seq<Option<Key>>, rest: seq<Byte>, opcode: Opcode, data: seq<Byte>,
      role: Role, s: Session, utf8: Utf8)
    requires |masks| == |frames| && AllFit(masks, role)
    requires Acceptable(opcode, data, utf8) && Fragments(frames, opcode, data) && !IsProbe(frames[0])
    ensures var c := RecvMany(EncodedAll(frames, masks) + rest, 1, role, s, utf8);
            && Leading(frames) == []
            && (c == Calls([Assembled(opcode, data)], rest, PingReplies(frames), s) <==> !PongInside(frames))
            && (c.messages == [Assembled(opcode, data)] <==> !PongInside(frames))
  {
    hide Recv;
    hide EncodedAll;
    hide Fragments;
    hide AllFit;
    hide PingReplies;
    if PongInside(frames) {
      var i, left := RecvCutShort(frames, masks, rest, opcode, data, role, s, utf8);
    } else {
      RecvWhole(frames, masks, rest, opcode, data, role, s, utf8);
    }
    hide PongInside;
    OneCall(EncodedAll(frames, masks) + rest, role, s, utf8);
  }

  /**
   * Section 5.4 of RFC 6455: however a message is cut into frames, whatever the masking keys
   * and whatever Pings come before or between, calls of `recv` return the Pongs ahead of the
   * message and then the message, write one Pong for each Ping, and leave the bytes behind
   * untouched - iff no Pong comes after the first data frame.
   */
  lemma {:induction false} FragmentationInvariance(
      frames: seq<Frame>, masks: seq<Option<Key>>, rest: seq<Byte>, opcode: Opcode, data: seq<Byte>,
      role: Role, s: Session, utf8: Utf8)
    requires |masks| == |frames| && AllFit(masks, role)
    requires Acceptable(opcode, data, utf8) && Fragments(frames, opcode, data)
    ensures var pongs := Leading(frames);
            var c := RecvMany(EncodedAll(frames, masks) + rest, |pongs| + 1, role, s, utf8);
            && (c == Calls(pongs + [Assembled(opcode, data)], rest, PingReplies(frames), s) <==> !PongInside(frames))
            && (c.messages == pongs + [Assembled(opcode, data)] <==> !PongInside(frames))
    decreases |frames|
  {
    hide Recv;
    hide Encoded;
    var f := frames[0];
    var tail := EncodedAll(frames[1..], masks[1..]) + rest;
    assert EncodedAll(frames, masks) + rest == Encoded(f, masks[0]) + tail;
    if IsProbe(f) {
      FragmentationInvariance(frames[1..], masks[1..], rest, opcode, data, role, s, utf8);
      RecvManyProbe(f, masks[0], tail, |Leading(frames)| + 1, role, s, utf8);
      var c := RecvMany(tail, |Leading(frames[1..])| + 1, role, s, utf8);
      ProbeFirst(f, frames[1..], c, Assembled(opcode, data), rest, s);
      assert [f] + frames[1..] == frames;
    } else {
      FragmentsFirst(frames, masks, rest, opcode, data, role, s, utf8);
    }
  }

  lemma SamePrefix<T>(a: T, x: seq<T>, y: seq<T>)
    ensures [a] + x == [a] + y <==> x == y
  {
    if [a] + x == [a] + y {
      assert ([a] + x)[1..] == x && ([a] + y)[1..] == y;
    }
  }

  /** Putting one Ping or Pong in front changes both sides of the equations alike. */
  lemma ProbeFirst(
      f: Frame, later: seq<Frame>, c: Calls, message: Message, rest: seq<Byte>, s: Session)
    requires IsProbe(f)
    ensures var frames := [f] + later;
            var d := if f.opcode == Ping then Then([], [FrameFor(PongMessage(f.payload))], c)
                     else Then([PongMessage(f.payload)], [], c);
            && PongInside(frames) == PongInside(later)
            && |Leading(frames)| == (if f.opcode == Ping then |Leading(later)| else |Leading(later)| + 1)
            && (d.messages == Leading(frames) + [message] <==> c.messages == Leading(later) + [message])
            && (d == Calls(Leading(frames) + [message], rest, PingReplies(frames), s) <==>
                c == Calls(Leading(later) + [message], rest, PingReplies(later), s))
  {
    var frames := [f] + later;
    assert frames[1..] == later;
    var pong := PongMessage(f.payload);
    if f.opcode == Ping {
      assert [] + c.messages == c.messages && [] + Leading(later) == Leading(later);
      SamePrefix(FrameFor(pong), c.replies, PingReplies(later));
    } else {
      assert [pong] + Leading(later) + [message] == [pong] + (Leading(later) + [message]);
      SamePrefix(pong, c.messages, Leading(later) + [message]);
      assert [] + c.replies == c.replies && [] + PingReplies(later) == PingReplies(later);
    }
  }

  /** Frames that continue a message nobody remembers yield their Pongs, and then the connection fails. */
  lemma {:induction false} OnlyPongsLeft(
      frames: seq<Frame>, masks: seq<Option<Key>>, rest: seq<Byte>, data: seq<Byte>, n: nat,
      role: Role, s: Session, utf8: Utf8)
    requires |masks| == |frames| && AllFit(masks, role)
    requires |data| <= MAX_PAYLOAD && Fragments(frames, Continuation, data)
    ensures forall m :: m in RecvMany(EncodedAll(frames, masks) + rest, n, role, s, utf8).messages ==> m.PongMessage?
    decreases |frames|
  {
    hide Recv;
    hide Encoded;
    if n > 0 {
      var f := frames[0];
      var tail := EncodedAll(frames[1..], masks[1..]) + rest;
      assert EncodedAll(frames, masks) + rest == Encoded(f, masks[0]) + tail;
      if IsProbe(f) {
        RecvManyProbe(f, masks[0], tail, n, role, s, utf8);
        OnlyPongsLeft(frames[1..], masks[1..], rest, data, if f.opcode == Ping then n else n - 1, role, s, utf8);
      } else {
        RecvStrayContinuation(f, masks[0], tail, role, s, utf8);
      }
    }
  }

  lemma RecvStrayContinuation(f: Frame, m: Option<Key>, rest: seq<Byte>, role: Role, s: Session, utf8: Utf8)
    requires f.opcode == Continuation && !f.rsv1 && |f.payload| <= MAX_PAYLOAD && MaskFits(m, role)
    ensures Recv(Encoded(f, m) + rest, role, s, utf8).result == Err(Protocol(UnexpectedContinuation))
  {
    hide Receive;
    hide Encoded;
    ReceiveOne(f, m, rest, role, NOTHING, s, utf8);
  }

  /** A message with a Pong inside is never returned: before the connection fails, only Pongs are. */
  lemma {:induction false} PongLosesMessage(
      frames: seq<Frame>, masks: seq<Option<Key>>, rest: seq<Byte>, opcode: Opcode, data: seq<Byte>, n: nat,
      role: Role, s: Session, utf8: Utf8)
    requires |masks| == |frames| && AllFit(masks, role)
    requires Acceptable(opcode, data, utf8) && Fragments(frames, opcode, data) && PongInside(frames)
    ensures forall m :: m in RecvMany(EncodedAll(frames, masks) + rest, n, role, s, utf8).messages ==> m.PongMessage?
    decreases |frames|
  {
    hide Recv;
    hide Encoded;
    if n > 0 {
      var f := frames[0];
      var tail := EncodedAll(frames[1..], masks[1..]) + rest;
      assert EncodedAll(frames, masks) + rest == Encoded(f, masks[0]) + tail;
      if IsProbe(f) {
        RecvManyProbe(f, masks[0], tail, n, role, s, utf8);
        PongLosesMessage(
          frames[1..], masks[1..], rest, opcode, data, if f.opcode == Ping then n else n - 1, role, s, utf8);
      } else {
        var i, left := RecvCutShort(frames, masks, rest, opcode, data, role, s, utf8);
        OnlyPongsLeft(frames[i..], masks[i..], rest, left, n - 1, role, s, utf8);
      }
    }
  }

  /** Two fragments of a binary message with an unsolicited Pong between them. */
  const SPLIT_BY_PONG: seq<Frame> := [
    Frame(false, false, Binary, [1]), Frame(true, false, Pong, []), Frame(true, false, Continuation, [2])]

  /** For instance these three frames: they carry the message 1, 2, and nothing but the Pong is ever returned. */
  lemma SplitByPongLost(masks: seq<Option<Key>>, rest: seq<Byte>, n: nat, role: Role, s: Session, utf8: Utf8)
    requires |masks| == 3 && AllFit(masks, role)
    ensures Fragments(SPLIT_BY_PONG, Binary, [1, 2])
    ensures forall m :: m in RecvMany(EncodedAll(SPLIT_BY_PONG, masks) + rest, n, role, s, utf8).messages ==>
              m.PongMessage?
  {
    var frames := SPLIT_BY_PONG;
    assert [1, 2][1..] == [2];
    assert frames[1..] == [frames[1], frames[2]] && frames[1..][1..] == [frames[2]];
    assert Fragments(frames[1..][1..], Continuation, [2]);
    assert Fragments(frames[1..], Continuation, [2]);
    assert frames[1..][0].opcode == Pong;
    PongLosesMessage(frames, masks, rest, Binary, [1, 2], n, role, s, utf8);
  }

  // ---- violations --------------------------------------------------------------------

  /** A Close frame with a code as it is carried on the wire, and no reason. */
  function CloseFrame(high: Byte, low: Byte): Frame {
    Frame(true, false, Close, [high, low])
  }

  /** 1007 is 3 * 256 + 239, and 1002 is 3 * 256 + 234. */
  lemma ComplaintBytes(why: Violation)
    ensures Complaint(why) == CloseFrame(3, if why == InvalidUtf8 then 239 else 234)
  {
    hide BigEndian;
    var low := if why == InvalidUtf8 then 239 else 234;
    CodeBytes(768 + low, low);
    assert BigEndian(768 + low, 2) + [] == BigEndian(768 + low, 2);
  }

  lemma CodeBytes(code: nat, low: nat)
    requires code == 3 * 256 + low && low < 256
    ensures BigEndian(code, 2) == [3, low as Byte]
  {
    assert code / 256 == 3 && code % 256 == low;
    assert BigEndian(3, 1) == BigEndian(0, 0) + [3];
    assert BigEndian(0, 0) == [];
  }

  lemma {:induction false} ErrorKeepsSession(bytes: seq<Byte>, role: Role, p: Partial, s: Session, utf8: Utf8)
    ensures Receive(bytes, role, p, s, utf8).result.Err? ==> Receive(bytes, role, p, s, utf8).session == s
    decreases |bytes|
  {
    hide Decode;
    var d := Decode(bytes, role);
    if d.Decoded? && OnFrame(d.frame, p, s, utf8).Continue? {
      ErrorKeepsSession(bytes[d.consumed..], role, OnFrame(d.frame, p, s, utf8).partial, s, utf8);
    }
  }

  /**
   * Whatever the bytes: a call that reports a violation has written, last of all and unless our
   * Close was out before, a Close frame with code 1007 for invalid UTF-8 and 1002 for every
   * other violation; and it has written no other Close.
   */
  lemma ViolationAnswered(bytes: seq<Byte>, role: Role, s: Session, utf8: Utf8)
    requires var o := Recv(bytes, role, s, utf8); o.result.Err? && o.result.error.Protocol?
    ensures var o := Recv(bytes, role, s, utf8);
            && Closes(o.replies) == (if s.closeSent then 0 else 1)
            && o.session == s.(closeSent := true)
            && (!s.closeSent ==>
                  o.replies != [] &&
                  o.replies[|o.replies| - 1] == CloseFrame(3, if o.result.error.why == InvalidUtf8 then 239 else 234))
  {
    hide Receive;
    var o := Receive(bytes, role, NOTHING, s, utf8);
    ErrorKeepsSession(bytes, role, NOTHING, s, utf8);
    RecvClosesOnce(bytes, role, s, utf8);
    ComplaintBytes(o.result.error.why);
  }

  /** The messages an application can exchange: `recv` answers Pings itself and ends on a Close. */
  predicate Deliverable(m: Message, utf8: Utf8) {
    match m
    case TextMessage(text) => |text| <= MAX_PAYLOAD && utf8(text)
    case BinaryMessage(data) => |data| <= MAX_PAYLOAD
    case PongMessage(reply) => |reply| <= 125
    case _ => false
  }

  lemma {:induction false} ReceivedIsValid(bytes: seq<Byte>, role: Role, p: Partial, s: Session, utf8: Utf8)
    ensures var o := Receive(bytes, role, p, s, utf8);
            o.result.Ok? && o.result.value.Some? ==> Deliverable(o.result.value.value, utf8)
    decreases |bytes|
  {
    hide Decode;
    var d := Decode(bytes, role);
    if d.Decoded? {
      DecodedIsLegal(bytes, role);
      if OnFrame(d.frame, p, s, utf8).Continue? {
        ReceivedIsValid(bytes[d.consumed..], role, OnFrame(d.frame, p, s, utf8).partial, s, utf8);
      }
    }
  }

  /** Whatever the bytes: text that is returned is valid UTF-8, and no message is longer than the limit. */
  lemma MessagesAreValid(bytes: seq<Byte>, role: Role, s: Session, utf8: Utf8)
    ensures var o := Recv(bytes, role, s, utf8);
            o.result.Ok? && o.result.value.Some? ==> Deliverable(o.result.value.value, utf8)
  {
    hide Receive;
    ReceivedIsValid(bytes, role, NOTHING, s, utf8);
  }

  /**
   * Text that is not valid UTF-8 is refused once it is complete, however it is cut into frames:
   * after the answers to the Pings comes exactly one more frame, a Close with code 1007, unless
   * ours was out before.
   */
  lemma InvalidTextRefused(
      frames: seq<Frame>, masks: seq<Option<Key>>, rest: seq<Byte>, data: seq<Byte>, role: Role, s: Session, utf8: Utf8)
    requires |masks| == |frames| && AllFit(masks, role) && !HasPong(frames)
    requires |data| <= MAX_PAYLOAD && !utf8(data) && Fragments(frames, Text, data)
    ensures Recv(EncodedAll(frames, masks) + rest, role, s, utf8) ==
            Outcome(Err(Protocol(InvalidUtf8)), rest,
                    PingReplies(frames) + if s.closeSent then [] else [CloseFrame(3, 239)], s.(closeSent := true))
  {
    hide Receive;
    hide EncodedAll;
    hide PingReplies;
    ComplaintBytes(InvalidUtf8);
    assert NOTHING.data + data == data;
    ReceiveFragments(frames, masks, rest, Text, data, NOTHING, role, s, utf8);
    assert PingReplies(frames) + [] == PingReplies(frames);
  }

  lemma {:induction false} ReceiveTooLong(
      frames: seq<Frame>, masks: seq<Option<Key>>, rest: seq<Byte>, first: Opcode, data: seq<Byte>,
      p: Partial, role: Role, s: Session, utf8: Utf8)
    requires |masks| == |frames| && AllFit(masks, role) && !HasPong(frames)
    requires p == NOTHING || p.opcode == Some(first)
    requires (first == Text || first == Binary) && |p.data| <= MAX_PAYLOAD < |p.data| + |data|
    requires forall i :: 0 <= i < |frames| ==> |frames[i].payload| <= MAX_PAYLOAD
    requires Fragments(frames, if p == NOTHING then first else Continuation, data)
    ensures Receive(EncodedAll(frames, masks) + rest, role, p, s, utf8).result == Err(Protocol(MessageTooLarge))
    decreases |frames|
  {
    hide Encoded;
    hide Receive;
    var f := frames[0];
    var tail := EncodedAll(frames[1..], masks[1..]) + rest;
    assert EncodedAll(frames, masks) + rest == Encoded(f, masks[0]) + tail;
    ReceiveOne(f, masks[0], tail, role, p, s, utf8);
    if f.opcode == Ping {
      ReceiveTooLong(frames[1..], masks[1..], rest, first, data, p, role, s, utf8);
    } else if |p.data + f.payload| <= MAX_PAYLOAD {
      var next := Partial(Some(first), p.data + f.payload);
      ReceiveTooLong(frames[1..], masks[1..], rest, first, data[|f.payload|..], next, role, s, utf8);
    }
  }

  /** A message that is longer than the limit is refused, although each of its frames is within it. */
  lemma TooLongRefused(
      frames: seq<Frame>, masks: seq<Option<Key>>, rest: seq<Byte>, opcode: Opcode, data: seq<Byte>,
      role: Role, s: Session, utf8: Utf8)
    requires |masks| == |frames| && AllFit(masks, role) && !HasPong(frames)
    requires (opcode == Text || opcode == Binary) && |data| > MAX_PAYLOAD && Fragments(frames, opcode, data)
    requires forall i :: 0 <= i < |frames| ==> |frames[i].payload| <= MAX_PAYLOAD
    ensures Recv(EncodedAll(frames, masks) + rest, role, s, utf8).result == Err(Protocol(MessageTooLarge))
  {
    hide Receive;
    ReceiveTooLong(frames, masks, rest, opcode, data, NOTHING, role, s, utf8);
  }

  /** Section 7.4 of RFC 6455: codes that no peer may send. */
  predicate ForbiddenCode(code: nat) {
    code < 1000 || code == 1004 || code == 1005 || code == 1006 || 1012 <= code <= 2999 || code >= 5000
  }

  /** A Close with a status ends the stream and is answered with the same payload, iff its code may be sent. */
  lemma CloseAnswered(
      code: Code, reason: seq<Byte>, m: Option<Key>, rest: seq<Byte>, role: Role, s: Session, utf8: Utf8)
    requires utf8(reason) && |reason| <= 123 && MaskFits(m, role)
    ensures var f := Frame(true, false, Close, BigEndian(code, 2) + reason);
            var o := Recv(Encoded(f, m) + rest, role, s, utf8);
            if ForbiddenCode(code) then o.result == Err(Protocol(InvalidCloseCode))
            else o == Outcome(Ok(None), rest, if s.closeSent then [] else [f], Session(true, true))
  {
    hide Receive;
    hide Encoded;
    var payload := BigEndian(code, 2) + reason;
    assert payload[..2] == BigEndian(code, 2) && payload[2..] == reason;
    assert Power256(2) == 65536;
    NumberOfBigEndian(code, 2);
    hide BigEndian;
    hide Number;
    ReceiveOne(Frame(true, false, Close, payload), m, rest, role, NOTHING, s, utf8);
  }

  /** A first frame that is a violation by itself. */
  predicate ViolatesAlone(f: Frame, utf8: Utf8) {
    || f.rsv1
    || (f.opcode.IsControl() && !f.fin)
    || f.opcode == Continuation
    || (f.opcode == Text && f.fin && !utf8(f.payload))
    || ViolatingClose(f, utf8)
  }

  /** A Close with half a code, a code that may not be sent, or a reason that is not valid UTF-8. */
  predicate ViolatingClose(f: Frame, utf8: Utf8) {
    f.opcode == Close && f.payload != [] &&
    (|f.payload| == 1 || ForbiddenCode(Number(f.payload[..2])) || !utf8(f.payload[2..]))
  }

  /** Alone on the wire exactly these frames are violations. */
  lemma ViolatesAloneIff(f: Frame, m: Option<Key>, role: Role, s: Session, utf8: Utf8)
    requires Legal(f) && MaskFits(m, role)
    ensures var r := Recv(Encoded(f, m), role, s, utf8).result;
            r.Err? && r.error.Protocol? <==> ViolatesAlone(f, utf8)
  {
    hide Encoded;
    hide OnFrame;
    hide ViolatesAlone;
    hide Receive;
    assert Encoded(f, m) + [] == Encoded(f, m);
    ReceiveOne(f, m, [], role, NOTHING, s, utf8);
    FirstStep(f, s, utf8);
    var step := OnFrame(f, NOTHING, s, utf8);
    if step.Continue? {
      NothingReceived(role, step.partial, s, utf8);
    }
  }

  lemma FirstStep(f: Frame, s: Session, utf8: Utf8)
    ensures var step := OnFrame(f, NOTHING, s, utf8);
            && (Legal(f) ==>
                  (step.Stop? && step.result.Err? && step.result.error.Protocol? <==> ViolatesAlone(f, utf8)))
            && (step.Stop? && step.result.Err? ==> step.result.error.Protocol?)
  {
    hide Number;
    assert [] + f.payload == f.payload;
  }

  /** A frame that is a violation behind the first fragment of a message. */
  predicate ViolatesInside(f: Frame, first: Frame, utf8: Utf8) {
    || f.rsv1
    || (f.opcode.IsControl() && !f.fin)
    || f.opcode == Text || f.opcode == Binary
    || (f.opcode == Continuation && |first.payload| + |f.payload| > MAX_PAYLOAD)
    || (f.opcode == Continuation && f.fin && first.opcode == Text && !utf8(first.payload + f.payload))
    || ViolatingClose(f, utf8)
  }

  /** Exactly these: no other data frame may come in between. */
  lemma ViolatesInsideIff(
      first: Frame, f: Frame, m: Option<Key>, n: Option<Key>, role: Role, s: Session, utf8: Utf8)
    requires Legal(first) && Legal(f) && MaskFits(m, role) && MaskFits(n, role)
    requires (first.opcode == Text || first.opcode == Binary) && !first.rsv1 && !first.fin
    ensures var r := Recv(Encoded(first, m) + Encoded(f, n), role, s, utf8).result;
            r.Err? && r.error.Protocol? <==> ViolatesInside(f, first, utf8)
  {
    hide Encoded;
    hide OnFrame;
    hide ViolatesInside;
    hide Receive;
    assert Encoded(f, n) + [] == Encoded(f, n);
    ReceiveOne(first, m, Encoded(f, n), role, NOTHING, s, utf8);
    FirstFragmentTaken(first, first.opcode, s, utf8);
    var p := Partial(Some(first.opcode), first.payload);
    ReceiveOne(f, n, [], role, p, s, utf8);
    InsideStep(first, f, s, utf8);
    var step := OnFrame(f, p, s, utf8);
    if step.Continue? {
      NothingReceived(role, step.partial, s, utf8);
    }
  }

  lemma InsideStep(first: Frame, f: Frame, s: Session, utf8: Utf8)
    requires first.opcode == Text || first.opcode == Binary
    ensures var step := OnFrame(f, Partial(Some(first.opcode), first.payload), s, utf8);
            && (step.Stop? && step.result.Err? && step.result.error.Protocol? <==> ViolatesInside(f, first, utf8))
            && (step.Stop? && step.result.Err? ==> step.result.error.Protocol?)
  {
    hide Number;
  }

  lemma NothingReceived(role: Role, p: Partial, s: Session, utf8: Utf8)
    ensures Receive([], role, p, s, utf8) ==
            Outcome(if s.closeReceived then Ok(None) else Err(ConnectionClosed), [], [], s)
  {
  }

  // ---- what is sent is what is received ----------------------------------------------

  lemma SentIsReceived(m: Message, mask: Option<Key>, rest: seq<Byte>, role: Role, s: Session, utf8: Utf8)
    requires Deliverable(m, utf8) && MaskFits(mask, role)
    ensures Recv(Encoded(FrameFor(m), mask) + rest, role, s, utf8) == Outcome(Ok(Some(m)), rest, [], s)
  {
    hide Receive;
    hide Encoded;
    ReceiveOne(FrameFor(m), mask, rest, role, NOTHING, s, utf8);
    assert [] + FrameFor(m).payload == FrameFor(m).payload;
  }

  /** A Ping comes back: the receiver's answer is, at the sender, a Pong with the same payload. */
  lemma PingComesBack(
      probe: seq<Byte>, m: Option<Key>, n: Option<Key>, rest: seq<Byte>, back: seq<Byte>, role: Role,
      s: Session, t: Session, utf8: Utf8)
    requires |probe| <= 125 && MaskFits(m, role) && MaskFits(n, Other(role))
    ensures var there := Recv(Encoded(FrameFor(PingMessage(probe)), m) + rest, role, s, utf8);
            there.replies != [] &&
            Recv(Encoded(there.replies[0], n) + back, Other(role), t, utf8) ==
            Outcome(Ok(Some(PongMessage(probe))), back, [], t)
  {
    hide Encoded;
    hide Recv;
    RecvPing(FrameFor(PingMessage(probe)), m, rest, role, s, utf8);
    SentIsReceived(PongMessage(probe), n, back, Other(role), t, utf8);
  }

  function FramesFor(ms: seq<Message>): (fs: seq<Frame>)
    ensures |fs| == |ms|
  {
    if ms == [] then [] else [FrameFor(ms[0])] + FramesFor(ms[1..])
  }

  /** Everything one endpoint sends, the other receives, in order and complete. */
  lemma {:induction false} MessagesInOrder(
      ms: seq<Message>, masks: seq<Option<Key>>, rest: seq<Byte>, role: Role, s: Session, utf8: Utf8)
    requires |masks| == |ms| && AllFit(masks, role)
    requires forall i :: 0 <= i < |ms| ==> Deliverable(ms[i], utf8)
    ensures RecvMany(EncodedAll(FramesFor(ms), masks) + rest, |ms|, role, s, utf8) == Calls(ms, rest, [], s)
    decreases |ms|
  {
    hide Recv;
    hide Encoded;
    if ms != [] {
      var tail := EncodedAll(FramesFor(ms[1..]), masks[1..]) + rest;
      assert FramesFor(ms)[1..] == FramesFor(ms[1..]);
      assert EncodedAll(FramesFor(ms), masks) + rest == Encoded(FrameFor(ms[0]), masks[0]) + tail;
      SentIsReceived(ms[0], masks[0], tail, role, s, utf8);
      MessagesInOrder(ms[1..], masks[1..], rest, role, s, utf8);
    }
  }

  // ---- the closing handshake, for any bytes at all -----------------------------------

  function Closes(frames: seq<Frame>): nat {
    if frames == [] then 0 else (if frames[0].opcode == Close then 1 else 0) + Closes(frames[1..])
  }

  lemma {:induction false} ClosesOfBoth(a: seq<Frame>, b: seq<Frame>)
    ensures Closes(a + b) == Closes(a) + Closes(b)
  {
    if a == [] {
      assert a + b == b;
    } else {
      assert (a + b)[1..] == a[1..] + b;
      ClosesOfBoth(a[1..], b);
    }
  }

  /** The session only moves towards closed, and the replies hold a Close exactly if they sent ours. */
  predicate ClosesOnce(replies: seq<Frame>, s: Session, t: Session) {
    && (s.closeSent ==> t.closeSent)
    && (s.closeReceived ==> t.closeReceived)
    && Closes(replies) == if !s.closeSent && t.closeSent then 1 else 0
  }

  lemma {:induction false} ReceiveClosesOnce(bytes: seq<Byte>, role: Role, p: Partial, s: Session, utf8: Utf8)
    ensures var o := Receive(bytes, role, p, s, utf8);
            && ClosesOnce(o.replies, s, o.session)
            && (o.result == Ok(None) ==> o.session.closeReceived)
            && (o.result == Err(ConnectionClosed) ==> !o.session.closeReceived)
            && (o.session.closeReceived ==> s.closeReceived || o.session.closeSent)
    decreases |bytes|
  {
    hide Decode;
    var d := Decode(bytes, role);
    if d.Decoded? {
      var step := OnFrame(d.frame, p, s, utf8);
      StepClosesOnce(d.frame, p, s, utf8);
      hide OnFrame;
      if step.Continue? {
        ReceiveClosesOnce(bytes[d.consumed..], role, step.partial, s, utf8);
        ClosesOfBoth(step.replies, Receive(bytes[d.consumed..], role, step.partial, s, utf8).replies);
      }
    }
  }

  lemma StepClosesOnce(f: Frame, p: Partial, s: Session, utf8: Utf8)
    ensures var step := OnFrame(f, p, s, utf8);
            match step
            case Continue(_, replies) => Closes(replies) == 0
            case Stop(result, replies, t) =>
              ClosesOnce(replies, s, t) && (result == Ok(None) ==> t.closeReceived) &&
              result != Err(ConnectionClosed) &&
              (t.closeReceived ==> s.closeReceived || t.closeSent)
  {
  }

  /**
   * Over any bytes from the peer one call writes at most one Close frame, and none if one was
   * written before; the end of the stream is reported as "no more messages" after the peer's
   * Close and as an error before it; and once a violation is reported our Close is out.
   */
  lemma RecvClosesOnce(bytes: seq<Byte>, role: Role, s: Session, utf8: Utf8)
    ensures var o := Recv(bytes, role, s, utf8);
            && ClosesOnce(o.replies, s, o.session)
            && (o.result == Ok(None) ==> o.session.closeReceived)
            && (o.result == Err(ConnectionClosed) ==> !o.session.closeReceived)
            && (o.session.closeReceived ==> s.closeReceived || o.session.closeSent)
            && (o.result.Err? && o.result.error.Protocol? ==> o.session.closeSent)
  {
    hide Receive;
    ReceiveClosesOnce(bytes, role, NOTHING, s, utf8);
    var o := Receive(bytes, role, NOTHING, s, utf8);
    if o.result.Err? && o.result.error.Protocol? {
      ClosesOfBoth(o.replies, [Complaint(o.result.error.why)]);
    }
  }

  lemma {:induction false} DrainClosesOnce(bytes: seq<Byte>, role: Role, s: Session, utf8: Utf8)
    ensures var o := Drain(bytes, role, s, utf8);
            ClosesOnce(o.replies, s, o.session) && (o.result.Ok? ==> o.result == Ok(None) && o.session.closeReceived)
    decreases |bytes|
  {
    hide Recv;
    RecvClosesOnce(bytes, role, s, utf8);
    var o := Recv(bytes, role, s, utf8);
    if o.result.Ok? && o.result.value.Some? {
      DrainClosesOnce(o.rest, role, o.session, utf8);
      ClosesOfBoth(o.replies, Drain(o.rest, role, o.session, utf8).replies);
    }
  }

  /**
   * Closing skips whatever messages the peer had sent, and is over with the peer's Close, which
   * is answered unless ours was out before.
   */
  lemma {:induction false} DrainSkipsMessages(
      ms: seq<Message>, masks: seq<Option<Key>>, m: Option<Key>, rest: seq<Byte>, role: Role, s: Session, utf8: Utf8)
    requires |masks| == |ms| && AllFit(masks, role) && MaskFits(m, role)
    requires forall i :: 0 <= i < |ms| ==> Deliverable(ms[i], utf8)
    ensures var close := FrameFor(CloseMessage(None));
            Drain(EncodedAll(FramesFor(ms), masks) + (Encoded(close, m) + rest), role, s, utf8) ==
            Outcome(Ok(None), rest, if s.closeSent then [] else [close], Session(true, true))
    decreases |ms|
  {
    hide Recv;
    hide Encoded;
    var close := FrameFor(CloseMessage(None));
    var last := Encoded(close, m) + rest;
    if ms == [] {
      assert EncodedAll(FramesFor(ms), masks) + last == last;
      EmptyCloseReceived(m, rest, role, s, utf8);
    } else {
      var tail := EncodedAll(FramesFor(ms[1..]), masks[1..]) + last;
      assert FramesFor(ms)[1..] == FramesFor(ms[1..]);
      assert EncodedAll(FramesFor(ms), masks) + last == Encoded(FrameFor(ms[0]), masks[0]) + tail;
      SentIsReceived(ms[0], masks[0], tail, role, s, utf8);
      DrainSkipsMessages(ms[1..], masks[1..], m, rest, role, s, utf8);
      var o := Drain(tail, role, s, utf8);
      assert [] + o.replies == o.replies;
    }
  }

  lemma EmptyCloseReceived(m: Option<Key>, rest: seq<Byte>, role: Role, s: Session, utf8: Utf8)
    requires MaskFits(m, role)
    ensures var close := FrameFor(CloseMessage(None));
            Recv(Encoded(close, m) + rest, role, s, utf8) ==
            Outcome(Ok(None), rest, if s.closeSent then [] else [close], Session(true, true))
  {
    hide Receive;
    hide Encoded;
    ReceiveOne(FrameFor(CloseMessage(None)), m, rest, role, NOTHING, s, utf8);
  }
}
