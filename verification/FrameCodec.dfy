/** The frame codec of RFC 6455, section 5.2, with the bounds the crate adds. */
module FrameCodec {
  import opened Bytes
  import opened Wrappers

  const MAX_PAYLOAD: nat := 16 * 1024 * 1024

  datatype Opcode = Continuation | Text | Binary | Close | Ping | Pong {
    predicate IsControl() {
      Close? || Ping? || Pong?
    }

    function ToByte(): Byte {
      match this
      case Continuation => 0x0
      case Text => 0x1
      case Binary => 0x2
      case Close => 0x8
      case Ping => 0x9
      case Pong => 0xA
    }
  }

  function OpcodeOf(b: Byte): Option<Opcode> {
    match b
    case 0x0 => Some(Continuation)
    case 0x1 => Some(Text)
    case 0x2 => Some(Binary)
    case 0x8 => Some(Close)
    case 0x9 => Some(Ping)
    case 0xA => Some(Pong)
    case _ => None
  }

  datatype Frame = Frame(fin: bool, rsv1: bool, opcode: Opcode, payload: seq<Byte>)

  datatype Role = Client | Server

  function Other(e: Role): Role {
    if e == Client then Server else Client
  }

  /** A masking key, section 5.3 of RFC 6455. */
  type Key = k: seq<Byte> | |k| == 4 witness [0, 0, 0, 0]

  datatype Violation =
    | ReservedBits
    | ReservedOpcode
    | TooLarge
    | LongControlFrame
    | UnmaskedClientFrame
    | MaskedServerFrame
    | UnexpectedRsv1
    | FragmentedControlFrame
    | OneByteClose
    | InvalidCloseCode
    | InvalidUtf8
    | UnexpectedDataFrame
    | UnexpectedContinuation
    | MessageTooLarge

  // ---- masking ----------------------------------------------------------------------

  /** `data` with byte i combined with byte i mod 4 of the key. */
  function Masked(data: seq<Byte>, key: Key): (r: seq<Byte>)
    ensures |r| == |data|
  {
    seq(|data|, i requires 0 <= i < |data| => data[i] ^ key[i % 4])
  }

  /** Masking twice with one key gives the bytes back. */
  lemma MaskedTwice(data: seq<Byte>, key: Key)
    ensures Masked(Masked(data, key), key) == data
  {
    forall i | 0 <= i < |data|
      ensures Masked(Masked(data, key), key)[i] == data[i]
    {
      XorTwice(data[i], key[i % 4]);
    }
  }

  lemma XorTwice(x: Byte, k: Byte)
    ensures (x ^ k) ^ k == x
  {
  }

  method ApplyMask(data: array<Byte>, key: Key)
    modifies data
    ensures data[..] == Masked(old(data[..]), key)
    ensures forall i :: 0 <= i < data.Length ==> data[i] == old(data[i]) ^ key[i % 4]
  {
    for i := 0 to data.Length
      invariant forall j :: 0 <= j < i ==> data[j] == old(data[j]) ^ key[j % 4]
      invariant forall j :: i <= j < data.Length ==> data[j] == old(data[j])
    {
      data[i] := data[i] ^ key[i % 4];
    }
  }

  // ---- the two header bytes ---------------------------------------------------------

  function Flags(fin: bool, rsv1: bool, opcode: Opcode): Byte {
    (if fin then 0x80 else 0) | (if rsv1 then 0x40 else 0) | opcode.ToByte()
  }

  predicate Fin(b: Byte) {
    b & 0x80 != 0
  }

  predicate Rsv1(b: Byte) {
    b & 0x40 != 0
  }

  /** RSV2 or RSV3. */
  predicate ReservedSet(b: Byte) {
    b & 0x30 != 0
  }

  function OpcodeIn(b: Byte): Option<Opcode> {
    OpcodeOf(b & 0x0F)
  }

  function LengthByte(masked: bool, len7: nat): Byte
    requires len7 < 128
  {
    (if masked then 0x80 else 0) | (len7 as Byte)
  }

  predicate IsMasked(b: Byte) {
    b & 0x80 != 0
  }

  function Len7(b: Byte): (n: nat)
    ensures n < 128
  {
    var x := b & 0x7F;
    assert x < 128;
    x as nat
  }

  lemma FlagsRoundTrip(fin: bool, rsv1: bool, opcode: Opcode)
    ensures var b := Flags(fin, rsv1, opcode);
            !ReservedSet(b) && Fin(b) == fin && Rsv1(b) == rsv1 && OpcodeIn(b) == Some(opcode)
  {
    var op := opcode.ToByte();
    FlagBits(fin, rsv1, op);
    assert OpcodeOf(op) == Some(opcode);
  }

  lemma FlagBits(fin: bool, rsv1: bool, op: Byte)
    requires op <= 0xA
    ensures var b := (if fin then 0x80 else 0) | (if rsv1 then 0x40 else 0) | op;
            (b & 0x80 != 0) == fin && (b & 0x40 != 0) == rsv1 && b & 0x30 == 0 && b & 0x0F == op
  {
  }

  lemma LengthByteRoundTrip(masked: bool, len7: nat)
    requires len7 < 128
    ensures IsMasked(LengthByte(masked, len7)) == masked && Len7(LengthByte(masked, len7)) == len7
  {
    var x := len7 as Byte;
    ByteRoundTrip(len7);
    assert x < 128;
    LengthBits(x, masked);
  }

  lemma LengthBits(x: Byte, masked: bool)
    requires x < 128
    ensures var b := (if masked then 0x80 else 0) | x; b & 0x7F == x && (b & 0x80 != 0) == masked
  {
  }

  // ---- encoding ---------------------------------------------------------------------

  /** The length field and its extension, in the shortest of the three forms. */
  function LengthField(len: nat, masked: bool): (s: seq<Byte>)
    ensures |s| == if len < 126 then 1 else if len <= 65535 then 3 else 9
  {
    if len < 126 then [LengthByte(masked, len)]
    else if len <= 65535 then [LengthByte(masked, 126)] + BigEndian(len, 2)
    else [LengthByte(masked, 127)] + BigEndian(len, 8)
  }

  function Body(payload: seq<Byte>, mask: Option<Key>): seq<Byte> {
    match mask
    case None => payload
    case Some(key) => key + Masked(payload, key)
  }

  /** The wire form of a frame. */
  function Encoded(frame: Frame, mask: Option<Key>): (s: seq<Byte>)
    ensures |s| >= 2
  {
    [Flags(frame.fin, frame.rsv1, frame.opcode)] + LengthField(|frame.payload|, mask.Some?) + Body(frame.payload, mask)
  }

  method EncodeLength(len: nat, masked: bool, out: seq<Byte>) returns (r: seq<Byte>)
    ensures r == out + LengthField(len, masked)
  {
    hide LengthByte;
    hide BigEndian;
    if len < 126 {
      r := out + [LengthByte(masked, len)];
    } else if len <= 65535 {
      r := out + [LengthByte(masked, 126)];
      r := r + BigEndian(len, 2);
    } else {
      r := out + [LengthByte(masked, 127)];
      r := r + BigEndian(len, 8);
    }
  }

  method Encode(frame: Frame, mask: Option<Key>, out: seq<Byte>) returns (r: seq<Byte>)
    ensures r == out + Encoded(frame, mask)
  {
    hide Flags;
    hide LengthField;
    hide Masked;
    var len := |frame.payload|;
    r := out + [Flags(frame.fin, frame.rsv1, frame.opcode)];
    r := EncodeLength(len, mask.Some?, r);
    match mask
    case Some(key) =>
      var body := new Byte[len](i requires 0 <= i < len => frame.payload[i]);
      assert body[..] == frame.payload;
      ApplyMask(body, key);
      r := r + key;
      r := r + body[..];
    case None =>
      r := r + frame.payload;
  }

  // ---- decoding ---------------------------------------------------------------------

  datatype Decoded = NeedMore | Decoded(frame: Frame, consumed: nat) | Malformed(why: Violation)

  /** The declared payload length and where it ends; None while bytes are missing. */
  function DecodeLength(buf: seq<Byte>): (r: Option<(nat, nat)>)
    requires |buf| >= 2
    ensures r.Some? ==> 2 <= r.value.1 <= |buf| && r.value.1 <= 10
  {
    var len7 := Len7(buf[1]);
    if len7 == 126 then
      if |buf| < 4 then None else Some((Number(buf[2..4]), 4))
    else if len7 == 127 then
      if |buf| < 10 then None else Some((Number(buf[2..10]), 10))
    else Some((len7, 2))
  }

  /** The rest of the frame, whose key or payload of length `len` starts at `pos`. */
  function DecodeBody(buf: seq<Byte>, role: Role, opcode: Opcode, len: nat, pos: nat): (r: Decoded)
    requires 2 <= pos <= |buf|
    ensures r.Decoded? ==> 2 <= r.consumed <= |buf|
  {
    var masked := IsMasked(buf[1]);
    if masked && |buf| < pos + 4 then NeedMore
    else if role == Server && !masked then Malformed(UnmaskedClientFrame)
    else if role == Client && masked then Malformed(MaskedServerFrame)
    else
      var start := if masked then pos + 4 else pos;
      if |buf| < start + len then NeedMore
      else
        var wire := buf[start..start + len];
        var payload := if masked then Masked(wire, buf[pos..pos + 4]) else wire;
        Decoded(Frame(Fin(buf[0]), Rsv1(buf[0]), opcode, payload), start + len)
  }

  /** One frame from the front of `buf`, for the side of the connection that we are. */
  function Decode(buf: seq<Byte>, role: Role): (r: Decoded)
    ensures r.Decoded? ==> 2 <= r.consumed <= |buf|
  {
    if |buf| < 2 then NeedMore
    else if ReservedSet(buf[0]) then Malformed(ReservedBits)
    else
      match OpcodeIn(buf[0])
      case None => Malformed(ReservedOpcode)
      case Some(opcode) =>
        match DecodeLength(buf)
        case None => NeedMore
        case Some((len, pos)) =>
          if len > MAX_PAYLOAD then Malformed(TooLarge)
          else if opcode.IsControl() && len > 125 then Malformed(LongControlFrame)
          else DecodeBody(buf, role, opcode, len, pos)
  }

  // ---- what the codec promises ------------------------------------------------------

  /** The frames a peer may send within this crate's bounds. */
  predicate Legal(frame: Frame) {
    |frame.payload| <= MAX_PAYLOAD && (frame.opcode.IsControl() ==> |frame.payload| <= 125)
  }

  /** Clients mask, servers do not: what reaches this side of the connection. */
  predicate MaskFits(mask: Option<Key>, role: Role) {
    mask.Some? <==> role == Server
  }

  /** The length field read back, with anything behind it. */
  lemma LengthRoundTrip(flags: Byte, len: nat, masked: bool, rest: seq<Byte>)
    requires len <= MAX_PAYLOAD
    ensures var buf := [flags] + LengthField(len, masked) + rest;
            DecodeLength(buf) == Some((len, 1 + |LengthField(len, masked)|)) && IsMasked(buf[1]) == masked
  {
    hide LengthByte;
    hide Len7;
    hide IsMasked;
    hide BigEndian;
    hide Number;
    hide Power256;
    var field := LengthField(len, masked);
    var buf := [flags] + field + rest;
    assert buf[1] == field[0];
    Below256(len);
    if len < 126 {
      LengthByteRoundTrip(masked, len);
    } else if len <= 65535 {
      LengthByteRoundTrip(masked, 126);
      NumberOfBigEndian(len, 2);
      assert buf[2..4] == BigEndian(len, 2);
    } else {
      LengthByteRoundTrip(masked, 127);
      NumberOfBigEndian(len, 8);
      assert buf[2..10] == BigEndian(len, 8);
    }
  }

  lemma Below256(len: nat)
    ensures len <= 65535 ==> len < Power256(2)
    ensures len <= MAX_PAYLOAD ==> len < Power256(8)
  {
    assert Power256(2) == 65536;
    assert Power256(4) == 65536 * Power256(2);
    assert Power256(6) == 65536 * Power256(4);
    assert Power256(8) == 65536 * Power256(6);
  }

  /** The payload, masked or not, behind the length bytes. */
  lemma BodyReadBack(
      head: seq<Byte>, payload: seq<Byte>, mask: Option<Key>, role: Role, opcode: Opcode, rest: seq<Byte>)
    requires |head| >= 2 && IsMasked(head[1]) == mask.Some? && MaskFits(mask, role)
    ensures var body := Body(payload, mask);
            DecodeBody(head + body + rest, role, opcode, |payload|, |head|) ==
            Decoded(Frame(Fin(head[0]), Rsv1(head[0]), opcode, payload), |head| + |body|)
  {
    hide Fin;
    hide Rsv1;
    hide IsMasked;
    hide Masked;
    var pos, len := |head|, |payload|;
    var buf := head + Body(payload, mask) + rest;
    match mask
    case None =>
      assert buf[pos..pos + len] == payload;
    case Some(key) =>
      assert buf[pos..pos + 4] == key;
      assert buf[pos + 4..pos + 4 + len] == Masked(payload, key);
      MaskedTwice(payload, key);
  }

  /**
   * Decoding the wire form of a legal frame, whatever bytes follow, gives the frame back and
   * consumes exactly its wire form.
   */
  lemma DecodeEncoded(frame: Frame, mask: Option<Key>, role: Role, rest: seq<Byte>)
    requires Legal(frame) && MaskFits(mask, role)
    ensures Decode(Encoded(frame, mask) + rest, role) == Decoded(frame, |Encoded(frame, mask)|)
  {
    hide Flags;
    hide Fin;
    hide Rsv1;
    hide ReservedSet;
    hide OpcodeIn;
    hide LengthField;
    hide DecodeLength;
    hide DecodeBody;
    hide IsMasked;
    hide Body;
    var len := |frame.payload|;
    var flags := Flags(frame.fin, frame.rsv1, frame.opcode);
    var field := LengthField(len, mask.Some?);
    var body := Body(frame.payload, mask);
    var head := [flags] + field;
    assert Encoded(frame, mask) + rest == head + body + rest == head + (body + rest);
    FlagsRoundTrip(frame.fin, frame.rsv1, frame.opcode);
    LengthRoundTrip(flags, len, mask.Some?, body + rest);
    BodyReadBack(head, frame.payload, mask, role, frame.opcode, rest);
  }

  lemma SliceOfPrefix(buf: seq<Byte>, more: seq<Byte>, i: nat, j: nat)
    requires i <= j <= |buf|
    ensures (buf + more)[i..j] == buf[i..j]
  {
  }

  lemma LengthStable(buf: seq<Byte>, more: seq<Byte>)
    requires |buf| >= 2 && DecodeLength(buf).Some?
    ensures DecodeLength(buf + more) == DecodeLength(buf)
  {
    hide Len7;
    hide Number;
    if |buf| >= 4 {
      SliceOfPrefix(buf, more, 2, 4);
    }
    if |buf| >= 10 {
      SliceOfPrefix(buf, more, 2, 10);
    }
  }

  lemma BodyStable(buf: seq<Byte>, more: seq<Byte>, role: Role, opcode: Opcode, len: nat, pos: nat)
    requires 2 <= pos <= |buf| && DecodeBody(buf, role, opcode, len, pos) != NeedMore
    ensures DecodeBody(buf + more, role, opcode, len, pos) == DecodeBody(buf, role, opcode, len, pos)
  {
    hide IsMasked;
    hide Fin;
    hide Rsv1;
    hide Masked;
    var start := if IsMasked(buf[1]) then pos + 4 else pos;
    assert (buf + more)[0] == buf[0] && (buf + more)[1] == buf[1];
    if |buf| >= pos + 4 {
      SliceOfPrefix(buf, more, pos, pos + 4);
    }
    if |buf| >= start + len {
      SliceOfPrefix(buf, more, start, start + len);
    }
  }

  /** More bytes never change a frame that was decoded, or a violation that was found. */
  lemma DecodeStable(buf: seq<Byte>, more: seq<Byte>, role: Role)
    requires Decode(buf, role) != NeedMore
    ensures Decode(buf + more, role) == Decode(buf, role)
  {
    hide ReservedSet;
    hide OpcodeIn;
    hide DecodeLength;
    hide DecodeBody;
    assert (buf + more)[0] == buf[0];
    if !ReservedSet(buf[0]) && OpcodeIn(buf[0]).Some? {
      LengthStable(buf, more);
      var (len, pos) := DecodeLength(buf).value;
      var opcode := OpcodeIn(buf[0]).value;
      if DecodeBody(buf, role, opcode, len, pos) != NeedMore {
        BodyStable(buf, more, role, opcode, len, pos);
      }
    }
  }

  /** Every proper prefix of a legal frame's wire form asks for more bytes. */
  lemma ProperPrefixNeedsMore(frame: Frame, mask: Option<Key>, role: Role, k: nat)
    requires Legal(frame) && MaskFits(mask, role) && k < |Encoded(frame, mask)|
    ensures Decode(Encoded(frame, mask)[..k], role) == NeedMore
  {
    hide Decode;
    hide Encoded;
    var wire := Encoded(frame, mask);
    DecodeEncoded(frame, mask, role, []);
    assert wire + [] == wire[..k] + wire[k..];
    if Decode(wire[..k], role) != NeedMore {
      DecodeStable(wire[..k], wire[k..], role);
      assert false;
    }
  }

  /** So no wire form is a prefix of another, and a byte stream splits into frames one way only. */
  lemma EncodingsPrefixFree(f: Frame, g: Frame, m: Option<Key>, n: Option<Key>, role: Role, x: seq<Byte>, y: seq<Byte>)
    requires Legal(f) && Legal(g) && MaskFits(m, role) && MaskFits(n, role)
    requires Encoded(f, m) + x == Encoded(g, n) + y
    ensures f == g && Encoded(f, m) == Encoded(g, n) && x == y
  {
    hide Decode;
    hide Encoded;
    DecodeEncoded(f, m, role, x);
    DecodeEncoded(g, n, role, y);
    var k := |Encoded(f, m)|;
    assert (Encoded(f, m) + x)[..k] == Encoded(f, m);
    assert (Encoded(g, n) + y)[..k] == Encoded(g, n);
    assert (Encoded(f, m) + x)[k..] == x;
    assert (Encoded(g, n) + y)[k..] == y;
  }

  /** Whatever the decoder accepts is within the bounds, and came masked exactly from a client. */
  lemma DecodedIsLegal(buf: seq<Byte>, role: Role)
    requires Decode(buf, role).Decoded?
    ensures Legal(Decode(buf, role).frame)
    ensures IsMasked(buf[1]) <==> role == Server
  {
    hide IsMasked;
    hide Masked;
    hide OpcodeIn;
    hide ReservedSet;
    hide DecodeLength;
  }
  // ---- the bytes of a frame, section 5.2 of RFC 6455 ----------------------------------

  /** Payload byte i is combined with byte i mod 4 of the key, which stands right before the payload. */
  predicate IsUnmasked(wire: seq<Byte>, start: nat, payload: seq<Byte>)
    requires 4 <= start && start + |payload| <= |wire|
  {
    forall i :: 0 <= i < |payload| ==> payload[i] == wire[start + i] ^ wire[start - 4 + i % 4]
  }

  /** The wire form ends with the payload, behind the key that it is combined with, or as it is. */
  lemma EncodedBytes(frame: Frame, mask: Option<Key>)
    ensures var wire := Encoded(frame, mask);
            var start := |wire| - |frame.payload|;
            match mask
            case None => start >= 2 && wire[start..] == frame.payload
            case Some(key) => start >= 6 && wire[start - 4..start] == key && IsUnmasked(wire, start, frame.payload)
  {
    hide Flags;
    hide LengthField;
    hide Masked;
    hide IsUnmasked;
    var field := LengthField(|frame.payload|, mask.Some?);
    var wire := Encoded(frame, mask);
    var front := [Flags(frame.fin, frame.rsv1, frame.opcode)] + field;
    match mask
    case None => assert wire == front + frame.payload;
    case Some(key) =>
      assert wire == front + key + Masked(frame.payload, key);
      KeyAndPayload(front, key, frame.payload);
  }

  lemma KeyAndPayload(front: seq<Byte>, key: Key, payload: seq<Byte>)
    ensures var wire := front + key + Masked(payload, key);
            wire[|front|..|front| + 4] == key && IsUnmasked(wire, |front| + 4, payload)
  {
    var masked := Masked(payload, key);
    var wire := front + key + masked;
    forall i | 0 <= i < |payload|
      ensures payload[i] == wire[|front| + 4 + i] ^ wire[|front| + i % 4]
    {
      XorTwice(payload[i], key[i % 4]);
    }
  }

  /** What the length bytes say, and where they end. */
  predicate LengthIs(wire: seq<Byte>, len: nat, end: nat)
    requires |wire| >= 2
  {
    var short := wire[1] & 0x7F;
    if short < 126 then len == short as nat && end == 2
    else if short == 126 then
      |wire| >= 4 && len == 256 * (wire[2] as nat) + wire[3] as nat && end == 4
    else
      && |wire| >= 10 && end == 10 && wire[2] == wire[3] == wire[4] == wire[5] == 0
      && len == 256 * (256 * (256 * (wire[6] as nat) + wire[7] as nat) + wire[8] as nat) + wire[9] as nat
  }

  lemma TwoBytes(s: seq<Byte>)
    requires |s| == 2
    ensures Number(s) == 256 * (s[0] as nat) + s[1] as nat
  {
    assert s[..1][..0] == [];
    assert Number(s[..1]) == 256 * Number(s[..1][..0]) + s[..1][0] as nat;
  }

  lemma LastTwo(s: seq<Byte>)
    requires |s| >= 2
    ensures Number(s) == 65536 * Number(s[..|s| - 2]) + Number(s[|s| - 2..])
  {
    var n := |s|;
    TwoBytes(s[n - 2..]);
    assert s[..n - 1][..n - 2] == s[..n - 2];
  }

  lemma FourBytes(s: seq<Byte>)
    requires |s| == 4
    ensures Number(s) == 65536 * Number(s[..2]) + Number(s[2..])
  {
    LastTwo(s);
  }

  lemma EightBytes(s: seq<Byte>)
    requires |s| == 8
    ensures Number(s) == 0x1_0000_0000 * Number(s[..4]) + Number(s[4..])
  {
    hide Number;
    LastTwo(s);
    LastTwo(s[..6]);
    FourBytes(s[4..]);
    assert s[..6][..4] == s[..4] && s[..6][4..] == s[4..][..2] && s[4..][2..] == s[6..];
  }

  lemma SmallIsLow(s: seq<Byte>)
    requires |s| == 8 && Number(s) <= MAX_PAYLOAD
    ensures s[0] == s[1] == s[2] == s[3] == 0
    ensures Number(s) == 256 * (256 * (256 * (s[4] as nat) + s[5] as nat) + s[6] as nat) + s[7] as nat
  {
    EightBytes(s);
    FourBytes(s[..4]);
    FourBytes(s[4..]);
    TwoBytes(s[..4][..2]);
    TwoBytes(s[..4][2..]);
    TwoBytes(s[4..][..2]);
    TwoBytes(s[4..][2..]);
  }

  lemma LengthRead(wire: seq<Byte>)
    requires |wire| >= 2 && DecodeLength(wire).Some? && DecodeLength(wire).value.0 <= MAX_PAYLOAD
    ensures LengthIs(wire, DecodeLength(wire).value.0, DecodeLength(wire).value.1)
  {
    hide Number;
    if Len7(wire[1]) == 126 {
      TwoBytes(wire[2..4]);
    } else if Len7(wire[1]) == 127 {
      SmallIsLow(wire[2..10]);
    }
  }

  lemma BodyBytes(wire: seq<Byte>, role: Role, opcode: Opcode, len: nat, pos: nat)
    requires 2 <= pos <= |wire| && DecodeBody(wire, role, opcode, len, pos).Decoded?
    ensures var d := DecodeBody(wire, role, opcode, len, pos);
            var f, n := d.frame, d.consumed;
            && f.fin == Fin(wire[0]) && f.rsv1 == Rsv1(wire[0]) && f.opcode == opcode && |f.payload| == len
            && (IsMasked(wire[1]) <==> role == Server)
            && (role == Server ==> n == pos + 4 + len && IsUnmasked(wire, pos + 4, f.payload))
            && (role == Client ==> n == pos + len && f.payload == wire[pos..n])
  {
    hide IsMasked;
    hide Fin;
    hide Rsv1;
    hide Masked;
    hide IsUnmasked;
    if role == Server {
      UnmaskedAt(wire, pos, len);
    }
  }

  lemma UnmaskedAt(wire: seq<Byte>, pos: nat, len: nat)
    requires pos + 4 + len <= |wire|
    ensures IsUnmasked(wire, pos + 4, Masked(wire[pos + 4..pos + 4 + len], wire[pos..pos + 4]))
  {
  }

  /** A decoded frame, byte by byte: the flags, the length in one of its three forms, and the payload. */
  lemma DecodedBytes(wire: seq<Byte>, role: Role)
    requires Decode(wire, role).Decoded?
    ensures var f, n := Decode(wire, role).frame, Decode(wire, role).consumed;
            var start := n - |f.payload|;
            && f.fin == (wire[0] >= 0x80) && f.rsv1 == (wire[0] & 0x40 != 0)
            && f.opcode.ToByte() == wire[0] & 0x0F && wire[0] & 0x30 == 0
            && start >= 2 && (wire[1] >= 0x80 <==> role == Server)
            && (role == Server ==>
                  start >= 6 && LengthIs(wire, |f.payload|, start - 4) && IsUnmasked(wire, start, f.payload))
            && (role == Client ==> LengthIs(wire, |f.payload|, start) && f.payload == wire[start..n])
  {
    hide LengthIs;
    hide DecodeLength;
    hide DecodeBody;
    hide IsUnmasked;
    LengthRead(wire);
    TopBit(wire[0]);
    TopBit(wire[1]);
    OpcodeRead(wire[0]);
    hide OpcodeIn;
    var (len, pos) := DecodeLength(wire).value;
    BodyBytes(wire, role, OpcodeIn(wire[0]).value, len, pos);
  }

  lemma OpcodeRead(b: Byte)
    ensures OpcodeIn(b).Some? ==> OpcodeIn(b).value.ToByte() == b & 0x0F
  {
  }

  lemma TopBit(b: Byte)
    ensures b & 0x80 != 0 <==> b >= 0x80
  {
  }

  /** Which first bytes are violations: a reserved bit, or one of ten reserved opcodes. */
  lemma FirstByteIff(wire: seq<Byte>, role: Role)
    requires |wire| >= 2
    ensures Decode(wire, role) == Malformed(ReservedBits) <==> wire[0] & 0x20 != 0 || wire[0] & 0x10 != 0
    ensures Decode(wire, role) == Malformed(ReservedOpcode) <==>
              wire[0] & 0x30 == 0 && wire[0] & 0x0F in {3, 4, 5, 6, 7, 11, 12, 13, 14, 15}
  {
    hide DecodeLength;
    hide DecodeBody;
    ReservedIff(wire[0]);
    DecodeBodyWhy(wire, role);
  }

  lemma ReservedIff(b: Byte)
    ensures b & 0x30 != 0 <==> b & 0x20 != 0 || b & 0x10 != 0
    ensures OpcodeIn(b) == None <==> b & 0x0F in {3, 4, 5, 6, 7, 11, 12, 13, 14, 15}
  {
    var low := b & 0x0F;
    assert low <= 15;
  }

  lemma DecodeBodyWhy(wire: seq<Byte>, role: Role)
    requires |wire| >= 2
    ensures forall opcode, len: nat, pos: nat :: 2 <= pos <= |wire| ==>
              DecodeBody(wire, role, opcode, len, pos) != Malformed(ReservedBits) &&
              DecodeBody(wire, role, opcode, len, pos) != Malformed(ReservedOpcode)
  {
  }

  /** "Hello". */
  const HELLO: seq<Byte> := [0x48, 0x65, 0x6C, 0x6C, 0x6F]

  const HELLO_KEY: Key := [0x37, 0xFA, 0x21, 0x3D]

  /** Section 5.2 of RFC 6455: the numbers of the opcodes, on the wire. */
  lemma OpcodeNumbers()
    ensures Encoded(Frame(true, false, Continuation, []), None) == [0x80, 0x00]
    ensures Encoded(Frame(true, false, Text, []), None) == [0x81, 0x00]
    ensures Encoded(Frame(true, false, Binary, []), None) == [0x82, 0x00]
    ensures Encoded(Frame(true, false, Close, []), None) == [0x88, 0x00]
    ensures Encoded(Frame(true, false, Ping, []), None) == [0x89, 0x00]
    ensures Encoded(Frame(true, false, Pong, []), None) == [0x8A, 0x00]
  {
    assert LengthByte(false, 0) == 0;
  }

  /** The first examples of section 5.7 of RFC 6455: an unmasked and a masked text frame. */
  lemma HelloFrames(rest: seq<Byte>)
    ensures var hello := Frame(true, false, Text, HELLO);
            var masked := [0x81, 0x85, 0x37, 0xFA, 0x21, 0x3D, 0x7F, 0x9F, 0x4D, 0x51, 0x58];
            && Encoded(hello, None) == [0x81, 0x05, 0x48, 0x65, 0x6C, 0x6C, 0x6F]
            && Encoded(hello, Some(HELLO_KEY)) == masked && Decode(masked + rest, Server) == Decoded(hello, 11)
  {
    hide Decode;
    hide Masked;
    HelloMasked();
    ShortLength();
    assert Flags(true, false, Text) == 0x81;
    hide Flags;
    hide LengthField;
    DecodeEncoded(Frame(true, false, Text, HELLO), Some(HELLO_KEY), Server, rest);
  }

  lemma HelloMasked()
    ensures Masked(HELLO, HELLO_KEY) == [0x7F, 0x9F, 0x4D, 0x51, 0x58]
  {
  }

  lemma ShortLength()
    ensures LengthField(5, true) == [0x85] && LengthField(5, false) == [0x05]
  {
    ByteRoundTrip(5);
  }
}
