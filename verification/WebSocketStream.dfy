/** The stream object over a connection: each method does what the message layer specifies. */
module WebSocketStream {
  import opened Bytes
  import opened Connection
  import opened FrameCodec
  import opened WebSocket
  import opened Wrappers

  class WebSocketStream {
    const conn: HttpConnection
    const role: Role
    const utf8: Utf8
    /** Read from the connection and not decoded yet. */
    var frameBuf: seq<Byte>
    var closeSent: bool
    var closeReceived: bool
    /** What the handshake wrote, and then every frame written with the key that masked it. */
    ghost const preamble: seq<Byte>
    ghost var sent: seq<Frame>
    ghost var masks: seq<Option<Key>>

    constructor (conn: HttpConnection, role: Role, utf8: Utf8)
      requires conn.Valid()
      ensures Valid() && this.conn == conn && this.role == role && this.utf8 == utf8
      ensures Pending() == conn.Remaining() && State() == Session(false, false) && sent == []
    {
      this.conn := conn;
      this.role := role;
      this.utf8 := utf8;
      frameBuf := [];
      closeSent := false;
      closeReceived := false;
      preamble := conn.io.written;
      sent := [];
      masks := [];
    }

    /** The transport has been given exactly the wire form of the frames sent, masked iff we are the client. */
    ghost predicate Valid()
      reads this, conn, conn.io
    {
      && conn.Valid()
      && |masks| == |sent|
      && AllFit(masks, Peer())
      && conn.io.written == preamble + EncodedAll(sent, masks)
    }

    /** The role that reads what we write. */
    function Peer(): Role {
      if role == Client then Server else Client
    }

    /** Every byte still to come from the peer, decoded or read or not. */
    function Pending(): seq<Byte>
      reads this`frameBuf, conn`buf, conn.io`unread
    {
      frameBuf + conn.Remaining()
    }

    function State(): Session
      reads this`closeSent, this`closeReceived
    {
      Session(closeSent, closeReceived)
    }

    method RandomMask() returns (key: Key)
    {
      var a: Byte, b: Byte, c: Byte, d: Byte := *, *, *, *;
      key := [a, b, c, d];
    }

    method Send(m: Message) returns (r: Result<(), WsError>)
      requires Valid()
      modifies this`closeSent, this`sent, this`masks, conn.io`written
      ensures Valid() && Pending() == old(Pending()) && conn.io.unread == old(conn.io.unread)
      ensures var f := FrameFor(m);
              if f.opcode.IsControl() && |f.payload| > 125 then
                r == Err(Protocol(LongControlFrame)) && sent == old(sent) && State() == old(State())
              else
                r == Ok(()) && sent == old(sent) + [f] &&
                State() == Session(old(closeSent) || m.CloseMessage?, old(closeReceived))
      ensures old(Polite()) && r.Ok? ==> (Polite() <==> !(m.CloseMessage? && old(closeSent)))
    {
      var f := FrameFor(m);
      if f.opcode.IsControl() && |f.payload| > 125 {
        return Err(Protocol(LongControlFrame));
      }
      if m.CloseMessage? {
        closeSent := true;
      }
      Write(f);
      ClosesOfBoth(old(sent), [f]);
      r := Ok(());
    }

    method Write(f: Frame)
      requires Valid()
      modifies this`sent, this`masks, conn.io`written
      ensures Valid() && sent == old(sent) + [f]
    {
      hide EncodedAll;
      var mask := None;
      if role == Client {
        var key := RandomMask();
        mask := Some(key);
      }
      var wire := Encode(f, mask, []);
      conn.io.WriteAll(wire);
      EncodedAppend(sent, masks, f, mask);
      assert conn.io.written == preamble + EncodedAll(sent + [f], masks + [mask]);
      sent := sent + [f];
      masks := masks + [mask];
    }

    /** The next frame, decoded from what is buffered and topped up from the connection. */
    method NextFrame() returns (d: Decoded)
      requires Valid()
      modifies this`frameBuf, conn`buf, conn.io`unread, conn.io`waited
      ensures Valid() && d == Decode(old(Pending()), role)
      ensures Pending() == if d.Decoded? then old(Pending())[d.consumed..] else old(Pending())
      ensures d != NeedMore ==> conn.io.waited == old(conn.io.waited)
    {
      hide Decode;
      ghost var all := Pending();
      while true
        invariant Valid() && Pending() == all
        invariant conn.io.waited == old(conn.io.waited)
        decreases |conn.Remaining()|
      {
        d := Decode(frameBuf, role);
        if d != NeedMore {
          DecodeStable(frameBuf, conn.Remaining(), role);
          if d.Decoded? {
            frameBuf := frameBuf[d.consumed..];
          }
          return;
        }
        var chunk := conn.ReadRaw(8192);
        if chunk == [] {
          assert all == frameBuf;
          return;
        }
        frameBuf := frameBuf + chunk;
      }
    }

    /** What a frame of the peer led to: `outcome` is the result of the call, if it is over. */
    ghost predicate Did(
        step: Step, before: seq<Frame>, was: Session, outcome: Option<Result<Option<Message>, WsError>>, next: Partial)
      reads this`sent, this`closeSent, this`closeReceived
    {
      match step
      case Continue(partial, replies) =>
        outcome == None && next == partial && sent == before + replies && State() == was
      case Stop(result, replies, session) =>
        outcome == Some(result) && sent == before + replies && State() == session
    }

    /** Validates the peer's Close, answers it unless we closed first, and ends the stream. */
    method HandleClose(payload: seq<Byte>) returns (r: Result<Option<Message>, WsError>)
      requires Valid() && |payload| <= 125
      modifies this`closeSent, this`closeReceived, this`sent, this`masks, conn.io`written
      ensures Valid() && Pending() == old(Pending())
      ensures Did(OnClose(payload, old(State()), utf8), old(sent), old(State()), Some(r), NOTHING)
    {
      hide EncodedAll;
      hide AllFit;
      hide CloseInfo;
      hide IsValidCloseCode;
      assert CloseInfo(None) == [] by { NoInfo(); }
      var info := None;
      if |payload| == 1 {
        return Err(Protocol(OneByteClose));
      } else if |payload| >= 2 {
        var code := CodeIn(payload);
        if !IsValidCloseCode(code) {
          return Err(Protocol(InvalidCloseCode));
        }
        if !utf8(payload[2..]) {
          return Err(Protocol(InvalidUtf8));
        }
        info := Some(Status(code, payload[2..]));
        InfoOfPayload(payload);
      }
      if !closeSent {
        var echoed := Send(CloseMessage(info));
      }
      closeReceived := true;
      r := Ok(None);
    }

    static lemma NoInfo()
      ensures CloseInfo(None) == []
    {
    }

    /** The status of a Close frame, written again, is its payload. */
    static lemma InfoOfPayload(payload: seq<Byte>)
      requires |payload| >= 2
      ensures CloseInfo(Some(Status(CodeIn(payload), payload[2..]))) == payload
    {
      BigEndianOfNumber(payload[..2]);
    }

    /** Adds a data or continuation frame to the message, and ends the call when that is complete. */
    method HandleData(f: Frame, partial: Partial)
      returns (outcome: Option<Result<Option<Message>, WsError>>, next: Partial)
      ensures Did(OnData(f, partial, State(), utf8), sent, State(), outcome, next)
    {
      var messageOpcode := if partial.opcode.Some? then partial.opcode else Some(f.opcode);
      var assembled := partial.data + f.payload;
      next := Partial(messageOpcode, assembled);
      if |assembled| > MAX_PAYLOAD {
        outcome := Some(Err(Protocol(MessageTooLarge)));
      } else if f.fin {
        if messageOpcode == Some(Text) {
          outcome := Some(if utf8(assembled) then Ok(Some(TextMessage(assembled))) else Err(Protocol(InvalidUtf8)));
        } else {
          outcome := Some(Ok(Some(BinaryMessage(assembled))));
        }
      } else {
        outcome := None;
      }
    }

    method Handle(f: Frame, partial: Partial)
      returns (outcome: Option<Result<Option<Message>, WsError>>, next: Partial)
      requires Valid() && Legal(f)
      modifies this`closeSent, this`closeReceived, this`sent, this`masks, conn.io`written
      ensures Valid() && Pending() == old(Pending())
      ensures Did(OnFrame(f, partial, old(State()), utf8), old(sent), old(State()), outcome, next)
    {
      hide EncodedAll;
      hide OnClose;
      hide OnData;
      next := partial;
      if f.rsv1 {
        return Some(Err(Protocol(UnexpectedRsv1))), next;
      }
      if !f.fin && f.opcode.IsControl() {
        return Some(Err(Protocol(FragmentedControlFrame))), next;
      }
      match f.opcode
      case Ping =>
        var answered := Send(PongMessage(f.payload));
        outcome := None;
      case Pong => outcome := Some(Ok(Some(PongMessage(f.payload))));
      case Close =>
        var r := HandleClose(f.payload);
        outcome := Some(r);
      case Continuation =>
        if partial.opcode == None {
          return Some(Err(Protocol(UnexpectedContinuation))), next;
        }
        outcome, next := HandleData(f, partial);
      case _ =>
        if partial.opcode.Some? {
          return Some(Err(Protocol(UnexpectedDataFrame))), next;
        }
        outcome, next := HandleData(f, partial);
    }

    /** The call has produced, or will from here produce, the outcome `o`. */
    ghost predicate HeadsFor(o: Outcome, before: seq<Frame>, replies: seq<Frame>, partial: Partial)
      reads this`frameBuf, this`sent, this`closeSent, this`closeReceived, conn`buf, conn.io`unread
    {
      && sent == before + replies
      && o == After(replies, Receive(Pending(), role, partial, State(), utf8))
    }

    ghost predicate Reached(o: Outcome, before: seq<Frame>, r: Result<Option<Message>, WsError>)
      reads this`frameBuf, this`sent, this`closeSent, this`closeReceived, conn`buf, conn.io`unread
    {
      r == o.result && Pending() == o.rest && sent == before + o.replies && State() == o.session
    }

    static lemma Associative(a: seq<Frame>, b: seq<Frame>, c: seq<Frame>)
      ensures a + (b + c) == (a + b) + c
    {
    }

    /** One frame's worth of a call: either it is over, or it heads for the same outcome with fewer bytes. */
    method HandleNext(partial: Partial, ghost o: Outcome, ghost before: seq<Frame>, ghost replies: seq<Frame>)
      returns (outcome: Option<Result<Option<Message>, WsError>>, next: Partial, ghost more: seq<Frame>)
      requires Valid() && HeadsFor(o, before, replies, partial)
      modifies this`frameBuf, this`closeSent, this`closeReceived, this`sent, this`masks,
        conn`buf, conn.io`unread, conn.io`waited, conn.io`written
      ensures Valid()
      ensures outcome.Some? ==> Reached(o, before, outcome.value)
      ensures outcome.None? ==> HeadsFor(o, before, more, next) && |Pending()| < |old(Pending())|
    {
      hide EncodedAll;
      hide OnFrame;
      hide Decode;
      hide Legal;
      hide AllFit;
      hide Receive;
      ghost var was := State();
      ReceiveUnfolds(Pending(), role, partial, was, utf8);
      ghost var bytes := Pending();
      var d := NextFrame();
      next, more := partial, replies;
      match d
      case Malformed(why) => outcome := Some(Err(Protocol(why)));
      case NeedMore => outcome := Some(if closeReceived then Ok(None) else Err(WsError.ConnectionClosed));
      case Decoded(f, _) =>
        DecodedIsLegal(bytes, role);
        outcome, next := Handle(f, partial);
        ghost var step := OnFrame(f, partial, was, utf8);
        more := replies + step.replies;
        Associative(before, replies, step.replies);
        if step.Continue? {
          Associative(replies, step.replies, Receive(Pending(), role, next, was, utf8).replies);
          assert HeadsFor(o, before, more, next);
        } else {
          assert Reached(o, before, outcome.value);
        }
    }

    /** One message, as `Receive` says for the bytes to come, however the transport hands them out. */
    method RecvMessage() returns (r: Result<Option<Message>, WsError>)
      requires Valid()
      modifies this`frameBuf, this`closeSent, this`closeReceived, this`sent, this`masks,
        conn`buf, conn.io`unread, conn.io`waited, conn.io`written
      ensures Valid()
      ensures Reached(Receive(old(Pending()), role, NOTHING, old(State()), utf8), old(sent), r)
    {
      hide EncodedAll;
      hide Receive;
      ghost var o := Receive(Pending(), role, NOTHING, State(), utf8);
      var partial := NOTHING;
      ghost var replies := [];
      while true
        invariant Valid() && HeadsFor(o, old(sent), replies, partial)
        decreases |Pending()|
      {
        var outcome: Option<Result<Option<Message>, WsError>>;
        outcome, partial, replies := HandleNext(partial, o, old(sent), replies);
        if outcome.Some? {
          return outcome.value;
        }
      }
    }

    /** `RecvMessage`, with a Close frame written in answer to a violation. */
    method Recv() returns (r: Result<Option<Message>, WsError>)
      requires Valid()
      modifies this`frameBuf, this`closeSent, this`closeReceived, this`sent, this`masks,
        conn`buf, conn.io`unread, conn.io`waited, conn.io`written
      ensures Valid()
      ensures Reached(WebSocket.Recv(old(Pending()), role, old(State()), utf8), old(sent), r)
      ensures old(Polite()) ==> Polite()
    {
      hide EncodedAll;
      hide Receive;
      hide Closes;
      ghost var bytes, was := Pending(), State();
      r := RecvMessage();
      if r.Err? && r.error.Protocol? {
        if !closeSent {
          var code := if r.error.why == InvalidUtf8 then 1007 else 1002;
          var sentClose := Send(CloseMessage(Some(Status(code, []))));
        }
      }
      RecvClosesOnce(bytes, role, was, utf8);
      StaysPolite(WebSocket.Recv(bytes, role, was, utf8), old(sent), was);
    }

    /** Receives until there is no more message. */
    method DrainMessages() returns (r: Result<(), WsError>)
      requires Valid()
      modifies this`frameBuf, this`closeSent, this`closeReceived, this`sent, this`masks,
        conn`buf, conn.io`unread, conn.io`waited, conn.io`written
      ensures Valid()
      ensures var o := Drain(old(Pending()), role, old(State()), utf8);
              && sent == old(sent) + o.replies && Pending() == o.rest && State() == o.session
              && (r.Ok? <==> o.result.Ok?)
      ensures old(Polite()) ==> Polite()
    {
      hide Valid;
      hide WebSocket.Recv;
      hide Polite;
      ghost var o := Drain(Pending(), role, State(), utf8);
      ghost var replies := [];
      while true
        invariant Valid() && sent == old(sent) + replies
        invariant o == After(replies, Drain(Pending(), role, State(), utf8))
        invariant old(Polite()) ==> Polite()
        decreases |Pending()|
      {
        ghost var step := WebSocket.Recv(Pending(), role, State(), utf8);
        var m := Recv();
        Associative(replies, step.replies, Drain(Pending(), role, State(), utf8).replies);
        Associative(old(sent), replies, step.replies);
        replies := replies + step.replies;
        if m.Err? {
          return Err(m.error);
        }
        if m.value == None {
          return Ok(());
        }
      }
    }

    /** Sends a Close frame unless one was sent, and drains until the peer's Close or an error. */
    method CloseWith(code: Code) returns (r: Result<(), WsError>)
      requires Valid()
      modifies this`frameBuf, this`closeSent, this`closeReceived, this`sent, this`masks,
        conn`buf, conn.io`unread, conn.io`waited, conn.io`written
      ensures Valid()
      ensures var ours := if old(closeSent) then [] else [FrameFor(CloseMessage(Some(Status(code, []))))];
              var o := Drain(old(Pending()), role, Session(true, old(closeReceived)), utf8);
              && sent == old(sent) + (ours + o.replies) && Pending() == o.rest && State() == o.session
              && (r.Ok? <==> o.result.Ok?) && (r.Ok? ==> IsClosed())
      ensures old(Polite()) ==> Polite()
    {
      hide EncodedAll;
      hide Drain;
      hide Closes;
      DrainClosesOnce(Pending(), role, Session(true, closeReceived), utf8);
      if !closeSent {
        var begun := Send(CloseMessage(Some(Status(code, []))));
      }
      r := DrainMessages();
    }

    predicate IsClosed()
      reads this`closeSent, this`closeReceived
    {
      closeSent && closeReceived
    }

    /**
     * A Close frame has been written once if `closeSent` says so and else not at all, and
     * ours is out when the peer's has come.
     */
    ghost predicate Polite()
      reads this`closeSent, this`closeReceived, this`sent
    {
      Closes(sent) == (if closeSent then 1 else 0) && (closeReceived ==> closeSent)
    }

    lemma StaysPolite(o: Outcome, before: seq<Frame>, was: Session)
      requires ClosesOnce(o.replies, was, o.session)
      requires o.session.closeReceived ==> was.closeReceived || o.session.closeSent
      requires sent == before + o.replies && State() == o.session
      ensures Closes(before) == (if was.closeSent then 1 else 0) && (was.closeReceived ==> was.closeSent) ==> Polite()
    {
      ClosesOfBoth(before, o.replies);
    }
  }
}
