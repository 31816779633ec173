/**
 * Two endpoints that talk over two first-in first-out channels: each says what it likes,
 * starts to close when it likes, and takes frames from its inbox one at a time until its
 * `recv` has reported that there are no more messages.
 */
module ClosingHandshake {
  import opened Bytes
  import opened FrameCodec
  import opened WebSocket
  import opened Wrappers

  /** An endpoint's session, the frames on their way to it, and whether a `recv` of it failed. */
  datatype Endpoint = Endpoint(session: Session, inbox: seq<Frame>, failed: bool)

  datatype Pair = Pair(client: Endpoint, server: Endpoint) {
    function Of(e: Role): Endpoint {
      if e == Client then client else server
    }

    function With(e: Role, x: Endpoint): Pair {
      if e == Client then this.(client := x) else this.(server := x)
    }
  }

  datatype Action = Say(e: Role, m: Message) | StartClose(e: Role, status: Option<Status>) | Take(e: Role)

  const FRESH: Endpoint := Endpoint(Session(false, false), [], false)

  function Initial(): Pair {
    Pair(FRESH, FRESH)
  }

  /** The messages other than Close that a peer is glad to receive. */
  predicate Sayable(m: Message, utf8: Utf8) {
    Deliverable(m, utf8) || (m.PingMessage? && |m.probe| <= 125)
  }

  predicate GoodStatus(status: Option<Status>, utf8: Utf8) {
    status.Some? ==>
      IsValidCloseCode(status.value.code) && utf8(status.value.reason) && |status.value.reason| <= 123
  }

  function Deliver(x: Endpoint, frames: seq<Frame>): Endpoint {
    x.(inbox := x.inbox + frames)
  }

  function Next(p: Pair, a: Action, utf8: Utf8): Option<Pair> {
    match a
    case Say(e, m) =>
      if Sayable(m, utf8) then Some(p.With(Other(e), Deliver(p.Of(Other(e)), [FrameFor(m)]))) else None
    case StartClose(e, status) =>
      if p.Of(e).session.closeSent || !GoodStatus(status, utf8) then None
      else
        var me := p.Of(e).(session := p.Of(e).session.(closeSent := true));
        Some(p.With(e, me).With(Other(e), Deliver(p.Of(Other(e)), [FrameFor(CloseMessage(status))])))
    case Take(e) => TakeOne(p, e, utf8)
  }

  /** `recv` goes on to the next frame, or answers a violation and fails. */
  function TakeOne(p: Pair, e: Role, utf8: Utf8): Option<Pair> {
    var me := p.Of(e);
    var you := p.Of(Other(e));
    if me.session.closeReceived || me.inbox == [] then None
    else
      var left := me.(inbox := me.inbox[1..]);
      match OnFrame(me.inbox[0], NOTHING, me.session, utf8)
      case Continue(_, replies) => Some(p.With(e, left).With(Other(e), Deliver(you, replies)))
      case Stop(Ok(_), replies, session) =>
        Some(p.With(e, left.(session := session)).With(Other(e), Deliver(you, replies)))
      case Stop(Err(error), _, session) =>
        var complaint := if error.Protocol? && !session.closeSent then [Complaint(error.why)] else [];
        var failed := left.(session := session.(closeSent := true), failed := true);
        Some(p.With(e, failed).With(Other(e), Deliver(you, complaint)))
  }

  function Run(p: Pair, acts: seq<Action>, utf8: Utf8): Option<Pair>
    decreases |acts|
  {
    if acts == [] then Some(p)
    else
      match Next(p, acts[0], utf8)
      case None => None
      case Some(n) => Run(n, acts[1..], utf8)
  }

  // ---- the invariant ----------------------------------------------------------------

  predicate GoodClose(payload: seq<Byte>, utf8: Utf8) {
    payload == [] || (|payload| >= 2 && IsValidCloseCode(Number(payload[..2])) && utf8(payload[2..]))
  }

  /** A frame that carries a whole message and that no endpoint objects to. */
  predicate Proper(f: Frame, utf8: Utf8) {
    && f.fin && !f.rsv1
    && match f.opcode
       case Text => |f.payload| <= MAX_PAYLOAD && utf8(f.payload)
       case Binary => |f.payload| <= MAX_PAYLOAD
       case Close => GoodClose(f.payload, utf8)
       case Continuation => false
       case _ => true
  }

  predicate AllProper(fs: seq<Frame>, utf8: Utf8) {
    forall i :: 0 <= i < |fs| ==> Proper(fs[i], utf8)
  }

  function Ones(b: bool): nat {
    if b then 1 else 0
  }

  /** The Close that the peer sent, if it has, is either on its way or has been received. */
  predicate Sound(me: Endpoint, you: Endpoint, utf8: Utf8) {
    && !me.failed
    && AllProper(me.inbox, utf8)
    && Closes(me.inbox) + Ones(me.session.closeReceived) == Ones(you.session.closeSent)
    && (me.session.closeReceived ==> me.session.closeSent)
  }

  predicate Inv(p: Pair, utf8: Utf8) {
    Sound(p.client, p.server, utf8) && Sound(p.server, p.client, utf8)
  }

  lemma CloseInfoIsGood(status: Option<Status>, utf8: Utf8)
    requires GoodStatus(status, utf8)
    ensures GoodClose(CloseInfo(status), utf8)
  {
    if status.Some? {
      var info := CloseInfo(status);
      assert info[..2] == BigEndian(status.value.code, 2);
      assert info[2..] == status.value.reason;
      assert Power256(2) == 65536;
      NumberOfBigEndian(status.value.code, 2);
    }
  }

  /** The answer to a proper frame is a proper frame; only a Close is answered with a Close. */
  lemma ProperStep(f: Frame, s: Session, utf8: Utf8)
    requires Proper(f, utf8)
    ensures match OnFrame(f, NOTHING, s, utf8)
            case Continue(p, replies) =>
              f.opcode == Ping && AllProper(replies, utf8) && Closes(replies) == 0 && |replies| == 1
            case Stop(result, replies, t) =>
              result.Ok? && AllProper(replies, utf8) &&
              if f.opcode == Close then
                t == Session(true, true) && Closes(replies) == Ones(!s.closeSent) && |replies| == Ones(!s.closeSent)
              else t == s && replies == []
  {
    assert [] + f.payload == f.payload;
    if f.opcode == Close && f.payload != [] {
      BigEndianOfNumber(f.payload[..2]);
      var status := Some(Status(CodeIn(f.payload), f.payload[2..]));
      assert CloseInfo(status) == f.payload[..2] + f.payload[2..] == f.payload;
    }
  }

  lemma DeliverKeeps(me: Endpoint, you: Endpoint, you': Endpoint, frames: seq<Frame>, utf8: Utf8)
    requires Sound(me, you, utf8) && AllProper(frames, utf8)
    requires Ones(you'.session.closeSent) == Ones(you.session.closeSent) + Closes(frames)
    ensures Sound(Deliver(me, frames), you', utf8)
  {
    hide Proper;
    ClosesOfBoth(me.inbox, frames);
  }

  lemma TakeKeeps(p: Pair, e: Role, utf8: Utf8)
    requires Inv(p, utf8) && TakeOne(p, e, utf8).Some?
    ensures Inv(TakeOne(p, e, utf8).value, utf8)
  {
    var me := p.Of(e);
    var you := p.Of(Other(e));
    var f := me.inbox[0];
    ProperStep(f, me.session, utf8);
    var step := OnFrame(f, NOTHING, me.session, utf8);
    hide OnFrame;
    hide Proper;
    assert me.inbox == [f] + me.inbox[1..];
    ClosesOfBoth([f], me.inbox[1..]);
    var me' := TakeOne(p, e, utf8).value.Of(e);
    DeliverKeeps(you, me, me', step.replies, utf8);
  }

  lemma NextKeeps(p: Pair, a: Action, utf8: Utf8)
    requires Inv(p, utf8) && Next(p, a, utf8).Some?
    ensures Inv(Next(p, a, utf8).value, utf8)
  {
    match a
    case Say(e, m) =>
      DeliverKeeps(p.Of(Other(e)), p.Of(e), p.Of(e), [FrameFor(m)], utf8);
    case StartClose(e, status) =>
      CloseInfoIsGood(status, utf8);
      var me' := Next(p, a, utf8).value.Of(e);
      DeliverKeeps(p.Of(Other(e)), p.Of(e), me', [FrameFor(CloseMessage(status))], utf8);
    case Take(e) => TakeKeeps(p, e, utf8);
  }

  lemma {:induction false} RunKeeps(p: Pair, acts: seq<Action>, utf8: Utf8)
    requires Inv(p, utf8) && Run(p, acts, utf8).Some?
    ensures Inv(Run(p, acts, utf8).value, utf8)
    decreases |acts|
  {
    hide Inv;
    hide Next;
    if acts != [] {
      NextKeeps(p, acts[0], utf8);
      RunKeeps(Next(p, acts[0], utf8).value, acts[1..], utf8);
    }
  }

  // ---- the handshake completes --------------------------------------------------------

  /** Nothing is left to take: each endpoint has been told that there are no more messages, or waits. */
  predicate Drained(p: Pair, utf8: Utf8) {
    TakeOne(p, Client, utf8) == None && TakeOne(p, Server, utf8) == None
  }

  /**
   * In any run in which at least one side closed, once both have drained both are closed, and
   * neither ever met an error: one-sided, simultaneous, and with any traffic in between.
   */
  lemma HandshakeCompletes(acts: seq<Action>, p: Pair, utf8: Utf8)
    requires Run(Initial(), acts, utf8) == Some(p) && Drained(p, utf8)
    requires p.client.session.closeSent || p.server.session.closeSent
    ensures p.client.session == Session(true, true) && p.server.session == Session(true, true)
    ensures !p.client.failed && !p.server.failed
  {
    RunKeeps(Initial(), acts, utf8);
    hide OnFrame;
  }

  /** Each endpoint sends at most one Close, and the other sees it at most once. */
  lemma OneCloseEach(acts: seq<Action>, p: Pair, utf8: Utf8, e: Role)
    requires Run(Initial(), acts, utf8) == Some(p)
    ensures Closes(p.Of(e).inbox) + Ones(p.Of(e).session.closeReceived) == Ones(p.Of(Other(e)).session.closeSent)
  {
    RunKeeps(Initial(), acts, utf8);
  }

  // ---- and draining ends --------------------------------------------------------------

  function Weight(fs: seq<Frame>): nat {
    if fs == [] then 0 else (if fs[0].opcode == Ping then 2 else 1) + Weight(fs[1..])
  }

  lemma {:induction false} WeightOfBoth(a: seq<Frame>, b: seq<Frame>)
    ensures Weight(a + b) == Weight(a) + Weight(b)
  {
    if a == [] {
      assert a + b == b;
    } else {
      assert (a + b)[1..] == a[1..] + b;
      WeightOfBoth(a[1..], b);
    }
  }

  function Work(p: Pair): nat {
    Weight(p.client.inbox) + Weight(p.server.inbox) +
    2 * Ones(!p.client.session.closeSent) + 2 * Ones(!p.server.session.closeSent)
  }

  lemma TakingLessens(p: Pair, e: Role, utf8: Utf8)
    requires Inv(p, utf8) && TakeOne(p, e, utf8).Some?
    ensures Work(TakeOne(p, e, utf8).value) < Work(p)
  {
    var me := p.Of(e);
    var f := me.inbox[0];
    ProperStep(f, me.session, utf8);
    var step := OnFrame(f, NOTHING, me.session, utf8);
    RepliesAreLight(f, me.session, utf8);
    hide OnFrame;
    hide Proper;
    WeightOfBoth(p.Of(Other(e)).inbox, step.replies);
  }

  lemma RepliesAreLight(f: Frame, s: Session, utf8: Utf8)
    ensures Weight(OnFrame(f, NOTHING, s, utf8).replies) == |OnFrame(f, NOTHING, s, utf8).replies| <= 1
  {
  }

  predicate OnlyTakes(acts: seq<Action>) {
    forall i :: 0 <= i < |acts| ==> acts[i].Take?
  }

  /** However the two take turns, draining is over after a bounded number of frames. */
  lemma {:induction false} DrainingEnds(p: Pair, acts: seq<Action>, utf8: Utf8)
    requires Inv(p, utf8) && OnlyTakes(acts) && Run(p, acts, utf8).Some?
    ensures |acts| + Work(Run(p, acts, utf8).value) <= Work(p)
    decreases |acts|
  {
    hide Inv;
    hide TakeOne;
    hide Work;
    if acts != [] {
      assert acts[0].Take?;
      var n := Next(p, acts[0], utf8).value;
      TakeKeeps(p, acts[0].e, utf8);
      TakingLessens(p, acts[0].e, utf8);
      DrainingEnds(n, acts[1..], utf8);
    }
  }

  /** A code the peer's validator refuses is the one way in which a close fails on arrival. */
  lemma CloseArrivesIff(code: Code, s: Session, utf8: Utf8)
    requires utf8([])
    ensures var step := OnFrame(FrameFor(CloseMessage(Some(Status(code, [])))), NOTHING, s, utf8);
            step.Stop? && (step.result == Ok(None) <==> IsValidCloseCode(code)) &&
            (step.result == Err(Protocol(InvalidCloseCode)) <==> !IsValidCloseCode(code))
  {
    var info := CloseInfo(Some(Status(code, [])));
    assert info[..2] == BigEndian(code, 2) && info[2..] == [];
    assert Power256(2) == 65536;
    NumberOfBigEndian(code, 2);
  }
}
