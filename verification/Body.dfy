/** Message bodies: how they are framed, and the reader that delivers exactly their bytes. */
module Body {
  import opened Bytes
  import opened Connection
  import opened HeadParser
  import opened HeadReads
  import opened Numerals
  import opened Search
  import opened Spelling
  import opened Wrappers

  datatype BodyKind = Empty | ContentLength(n: nat) | Chunked | UntilEof

  const U64: nat := 0x1_0000_0000_0000_0000
  const SEMICOLON: Byte := 59
  const PLUS: Byte := 43
  /** "chunked". */
  const CHUNKED: seq<Byte> := [99, 104, 117, 110, 107, 101, 100]

  // ---- white space around numbers ----------------------------------------------------------

  /** The UTF-8 forms of the white space characters, by their length. */
  predicate IsWhite1(a: Byte) {
    9 <= a <= 13 || a == 32
  }

  predicate IsWhite2(a: Byte, b: Byte) {
    a == 0xC2 && (b == 0x85 || b == 0xA0)
  }

  predicate IsWhite3(a: Byte, b: Byte, c: Byte) {
    || (a == 0xE1 && b == 0x9A && c == 0x80)
    || (a == 0xE2 && b == 0x80 && (0x80 <= c <= 0x8A || c == 0xA8 || c == 0xA9 || c == 0xAF))
    || (a == 0xE2 && b == 0x81 && c == 0x9F)
    || (a == 0xE3 && b == 0x80 && c == 0x80)
  }

  /** How many bytes of white space one character takes at the front, or at the end, of `s`. */
  function WhiteFront(s: seq<Byte>): (n: nat)
    ensures n <= |s|
  {
    if |s| >= 1 && IsWhite1(s[0]) then 1
    else if |s| >= 2 && IsWhite2(s[0], s[1]) then 2
    else if |s| >= 3 && IsWhite3(s[0], s[1], s[2]) then 3
    else 0
  }

  function WhiteEnd(s: seq<Byte>): (n: nat)
    ensures n <= |s|
  {
    var n := |s|;
    if n >= 1 && IsWhite1(s[n - 1]) then 1
    else if n >= 2 && IsWhite2(s[n - 2], s[n - 1]) then 2
    else if n >= 3 && IsWhite3(s[n - 3], s[n - 2], s[n - 1]) then 3
    else 0
  }

  function TrimFront(s: seq<Byte>): seq<Byte>
    decreases |s|
  {
    var n := WhiteFront(s);
    if n == 0 then s else TrimFront(s[n..])
  }

  function TrimEnd(s: seq<Byte>): seq<Byte>
    decreases |s|
  {
    var n := WhiteEnd(s);
    if n == 0 then s else TrimEnd(s[..|s| - n])
  }

  function TrimText(s: seq<Byte>): seq<Byte> {
    TrimEnd(TrimFront(s))
  }

  // ---- the framing decision ---------------------------------------------------------------

  /** A length: decimal digits with white space around them, below 2^64. */
  predicate IsLength(value: seq<Byte>) {
    var text := TrimText(value);
    text != [] && AllDigits(text) && DecimalValue(text) < U64
  }

  function ContentLengthKind(fs: seq<Field>): Result<BodyKind, HttpError> {
    match Get(fs, CONTENT_LENGTH)
    case None => Ok(Empty)
    case Some(value) =>
      if IsLength(value) then Ok(ContentLength(DecimalValue(TrimText(value))))
      else Err(Malformed("invalid Content-Length"))
  }

  /** Section 6.3 of RFC 9112, for a request. */
  function RequestBodyKind(fs: seq<Field>): Result<BodyKind, HttpError> {
    match Get(fs, TRANSFER_ENCODING)
    case None => ContentLengthKind(fs)
    case Some(te) =>
      if Get(fs, CONTENT_LENGTH).Some? then Err(ConflictingHeaders)
      else if EqIgnoreCase(te, CHUNKED) then Ok(Chunked)
      else Err(Malformed("unsupported Transfer-Encoding"))
  }

  /** For a response; without a length it is framed by the end of the connection. */
  function ResponseBodyKind(fs: seq<Field>, status: nat, toHead: bool): Result<BodyKind, HttpError> {
    if status == 204 || status == 304 || 100 <= status < 200 || toHead then Ok(Empty)
    else
      match Get(fs, TRANSFER_ENCODING)
      case Some(te) =>
        if EqIgnoreCase(te, CHUNKED) then Ok(Chunked) else Err(Malformed("unsupported Transfer-Encoding"))
      case None =>
        match ContentLengthKind(fs)
        case Ok(Empty) => Ok(UntilEof)
        case other => other
  }

  /**
   * Conflicting lengths are documented to be rejected. They are iff the first of them is not a
   * length: nothing behind that is looked at.
   */
  lemma LengthsRejectedIff(before: seq<Field>, f: Field, after: seq<Field>)
    requires Get(before, CONTENT_LENGTH) == None && EqIgnoreCase(f.name, CONTENT_LENGTH)
    requires Get(before + [f] + after, TRANSFER_ENCODING) == None
    ensures var kind := RequestBodyKind(before + [f] + after);
            && (kind.Err? <==> !IsLength(f.value))
            && (kind.Ok? ==> kind.value == ContentLength(DecimalValue(TrimText(f.value))))
  {
    hide TrimText;
    hide AllDigits;
    hide DecimalValue;
    hide EqIgnoreCase;
    FirstIsGot(before, f, after, CONTENT_LENGTH);
  }

  lemma {:induction false} FirstIsGot(before: seq<Field>, f: Field, after: seq<Field>, name: seq<Byte>)
    requires Get(before, name) == None && EqIgnoreCase(f.name, name)
    ensures Get(before + [f] + after, name) == Some(f.value)
    decreases |before|
  {
    hide EqIgnoreCase;
    if before != [] {
      FirstIsGot(before[1..], f, after, name);
      assert (before + [f] + after)[1..] == before[1..] + [f] + after;
    }
  }

  // ---- what a body is -----------------------------------------------------------------------

  /** The bytes of a body and the bytes behind it. */
  datatype Framed = Framed(data: seq<Byte>, rest: seq<Byte>)

  /** The size on a chunk's first line: hexadecimal, up to an extension. */
  function SizeIn(line: seq<Byte>): Option<nat> {
    var part := match Find(line, [SEMICOLON]) case None => line case Some(i) => line[..i];
    var text := TrimText(part);
    var digits := if |text| > 1 && text[0] == PLUS then text[1..] else text;
    if digits == [] then None
    else
      match HexValue(digits)
      case None => None
      case Some(n) => if n < U64 then Some(n) else None
  }

  /** Lines up to and including an empty one. */
  function Trailers(bytes: seq<Byte>): (r: Result<Framed, HttpError>)
    ensures r.Ok? ==> |r.value.rest| <= |bytes|
    decreases |bytes|
  {
    match Find(bytes, CRLF)
    case None => Err(ConnectionClosed)
    case Some(i) => if i == 0 then Ok(Framed([], bytes[2..])) else Trailers(bytes[i + 2..])
  }

  function Behind(data: seq<Byte>, r: Result<Framed, HttpError>): (b: Result<Framed, HttpError>)
    ensures r.Ok? <==> b.Ok?
    ensures r.Ok? ==> b.value.rest == r.value.rest
  {
    match r
    case Err(e) => Err(e)
    case Ok(f) => Ok(Framed(data + f.data, f.rest))
  }

  /** A chunked body of which `left` bytes of the current chunk are still to come. */
  function Unchunk(bytes: seq<Byte>, left: nat): (r: Result<Framed, HttpError>)
    ensures r.Ok? ==> |r.value.rest| <= |bytes|
    decreases |bytes|
  {
    if left > 0 then
      if |bytes| < left + 2 then Err(ConnectionClosed)
      else if bytes[left..left + 2] != CRLF then Err(Malformed("invalid framing bytes"))
      else Behind(bytes[..left], Unchunk(bytes[left + 2..], 0))
    else
      match Find(bytes, CRLF)
      case None => Err(ConnectionClosed)
      case Some(i) =>
        match SizeIn(bytes[..i])
        case None => Err(Malformed("invalid chunk size"))
        case Some(n) => if n == 0 then Trailers(bytes[i + 2..]) else Unchunk(bytes[i + 2..], n)
  }

  /** What a reader in this state will deliver of `bytes`, and what it will leave. */
  function BodyLeft(kind: BodyKind, finished: bool, remaining: nat, chunkRemaining: nat, bytes: seq<Byte>)
    : (r: Result<Framed, HttpError>)
    ensures r.Ok? ==> |r.value.rest| <= |bytes|
  {
    if finished || kind == Empty then Ok(Framed([], bytes))
    else
      match kind
      case Empty => Ok(Framed([], bytes))
      case ContentLength(_) =>
        if |bytes| < remaining then Err(ConnectionClosed) else Ok(Framed(bytes[..remaining], bytes[remaining..]))
      case Chunked => Unchunk(bytes, chunkRemaining)
      case UntilEof => Ok(Framed(bytes, []))
  }

  /** A whole body at the front of `bytes`. */
  function BodyOf(kind: BodyKind, bytes: seq<Byte>): (r: Result<Framed, HttpError>)
    ensures r.Ok? ==> |r.value.rest| <= |bytes|
  {
    BodyLeft(kind, kind == ContentLength(0), if kind.ContentLength? then kind.n else 0, 0, bytes)
  }

  // ---- the reader -----------------------------------------------------------------------------

  class BodyReader {
    const conn: HttpConnection
    const kind: BodyKind
    var remaining: nat
    var chunkRemaining: nat
    var finished: bool

    constructor (conn: HttpConnection, kind: BodyKind)
      ensures this.conn == conn && this.kind == kind
      ensures Left() == BodyOf(kind, conn.Remaining())
      ensures finished <==> kind == Empty || kind == ContentLength(0)
    {
      this.conn := conn;
      this.kind := kind;
      remaining := if kind.ContentLength? then kind.n else 0;
      chunkRemaining := 0;
      finished := kind == Empty || kind == ContentLength(0);
    }

    /** What will still be delivered, and what will be left. */
    function Left(): Result<Framed, HttpError>
      reads this, conn`buf, conn.io`unread
    {
      BodyLeft(kind, finished, remaining, chunkRemaining, conn.Remaining())
    }

    method ReadContentLength(max: nat) returns (r: Result<seq<Byte>, HttpError>)
      requires conn.Valid() && kind.ContentLength? && !finished && max > 0
      modifies this`remaining, conn`buf, conn.io`unread, conn.io`waited
      ensures conn.Valid() && Delivers(old(Left()), Left(), r)
      ensures |conn.buf| <= |old(conn.buf)|
      ensures r.Ok? ==> |r.value| <= max && |conn.Remaining()| + |r.value| == |old(conn.Remaining())|
      ensures r.Ok? && r.value == [] ==> old(Left()) == Ok(Framed([], conn.Remaining()))
      ensures r.Ok? ==> conn.io.waited == old(conn.io.waited)
    {
      if remaining == 0 {
        return Ok([]);
      }
      var want := Least(max, remaining);
      ghost var left := remaining;
      var bytes := conn.ReadRaw(want);
      if bytes == [] {
        return Err(ConnectionClosed);
      }
      PartOfLength(kind, bytes, conn.Remaining(), left);
      BehindDelivers(bytes, BodyLeft(kind, false, left - |bytes|, chunkRemaining, conn.Remaining()));
      remaining := remaining - |bytes|;
      r := Ok(bytes);
    }

    /** The data of the current chunk, and the line break behind it when that is reached. */
    method ReadChunkData(max: nat) returns (r: Result<seq<Byte>, HttpError>)
      requires conn.Valid() && max > 0 && chunkRemaining > 0
      modifies this`chunkRemaining, conn`buf, conn.io`unread, conn.io`waited
      ensures conn.Valid() && |conn.buf| <= |old(conn.buf)|
      ensures var was := Unchunk(old(conn.Remaining()), old(chunkRemaining));
              Delivers(was, Unchunk(conn.Remaining(), chunkRemaining), r)
      ensures r.Ok? ==> 0 < |r.value| <= max && |conn.Remaining()| < |old(conn.Remaining())|
      ensures r.Ok? ==> conn.io.waited == old(conn.io.waited)
    {
      hide Unchunk;
      ghost var all, left := conn.Remaining(), chunkRemaining;
      var want := Least(max, chunkRemaining);
      var bytes := conn.ReadRaw(want);
      if bytes == [] {
        NoChunkData(left);
        return Err(ConnectionClosed);
      }
      ghost var more := conn.Remaining();
      chunkRemaining := chunkRemaining - |bytes|;
      if chunkRemaining == 0 {
        ChunkEnd(bytes, more);
        var ended := conn.ExpectExact(CRLF);
        if ended.Err? {
          return Err(ended.error);
        }
      } else {
        PartOfChunk(bytes, more, left);
      }
      BehindDelivers(bytes, Unchunk(conn.Remaining(), chunkRemaining));
      r := Ok(bytes);
    }

    /** Skips the lines behind the last chunk. */
    method SkipTrailers() returns (r: Result<(), HttpError>)
      requires conn.Valid()
      modifies conn`buf, conn`eof, conn.io`unread, conn.io`waited
      ensures conn.Valid()
      ensures r.Ok? ==> |conn.buf| < READ_CHUNK || |conn.buf| <= |old(conn.buf)|
      ensures |conn.Remaining()| <= |old(conn.Remaining())|
      ensures match Trailers(old(conn.Remaining()))
              case Ok(f) => r == Ok(()) && f.data == [] && conn.Remaining() == f.rest
              case Err(e) => r == Err(e)
      ensures r.Ok? ==> conn.io.waited == old(conn.io.waited)
    {
      hide Find;
      hide Trailers;
      while true
        invariant conn.Valid() && Trailers(conn.Remaining()) == Trailers(old(conn.Remaining()))
        invariant |conn.buf| < READ_CHUNK || |conn.buf| <= |old(conn.buf)|
        invariant |conn.Remaining()| <= |old(conn.Remaining())|
        invariant conn.io.waited == old(conn.io.waited)
        decreases |conn.Remaining()|
      {
        TrailerLine(conn.Remaining());
        var trailer := conn.ReadLine();
        if trailer.Err? {
          return Err(trailer.error);
        }
        if trailer.value == [] {
          return Ok(());
        }
      }
    }

    method ReadChunked(max: nat) returns (r: Result<seq<Byte>, HttpError>)
      requires conn.Valid() && kind == Chunked && !finished && max > 0
      modifies this`chunkRemaining, this`finished, conn`buf, conn`eof, conn.io`unread, conn.io`waited
      ensures conn.Valid() && Delivers(old(Left()), Left(), r)
      ensures r.Ok? ==> |conn.buf| < READ_CHUNK || |conn.buf| <= |old(conn.buf)|
      ensures r.Ok? ==> |r.value| <= max && |conn.Remaining()| < |old(conn.Remaining())|
      ensures r.Ok? ==> conn.io.waited == old(conn.io.waited)
      ensures finished <==> r.Ok? && r.value == []
    {
      hide Unchunk;
      hide SizeIn;
      hide Find;
      hide Trailers;
      ghost var was := Unchunk(conn.Remaining(), chunkRemaining);
      while true
        invariant conn.Valid() && !finished && Unchunk(conn.Remaining(), chunkRemaining) == was
        invariant |conn.buf| < READ_CHUNK || |conn.buf| <= |old(conn.buf)|
        invariant |conn.Remaining()| <= |old(conn.Remaining())|
        invariant conn.io.waited == old(conn.io.waited)
        decreases |conn.Remaining()|
      {
        if chunkRemaining > 0 {
          r := ReadChunkData(max);
          return;
        }
        SizeLine(conn.Remaining());
        var line := conn.ReadLine();
        if line.Err? {
          return Err(line.error);
        }
        var size := SizeIn(line.value);
        if size == None {
          return Err(Malformed("invalid chunk size"));
        }
        if size.value == 0 {
          var skipped := SkipTrailers();
          if skipped.Err? {
            return Err(skipped.error);
          }
          finished := true;
          return Ok([]);
        }
        chunkRemaining := size.value;
      }
    }

    /** The next part of the body; nothing, for a non-empty request, means that it is complete. */
    method Read(max: nat) returns (r: Result<seq<Byte>, HttpError>)
      requires conn.Valid()
      modifies this`remaining, this`chunkRemaining, this`finished, conn`buf, conn`eof, conn.io`unread, conn.io`waited
      ensures conn.Valid() && Delivers(old(Left()), Left(), r)
      ensures r.Ok? ==> |conn.buf| < READ_CHUNK || |conn.buf| <= |old(conn.buf)|
      ensures r.Ok? ==> |r.value| <= max && |conn.Remaining()| <= |old(conn.Remaining())|
      ensures r.Ok? && r.value != [] ==> |conn.Remaining()| < |old(conn.Remaining())|
      ensures r.Ok? && r.value == [] && max > 0 ==> old(Left()) == Ok(Framed([], conn.Remaining()))
      ensures max > 0 ==> (finished <==> r.Ok? && r.value == [])
      ensures r.Ok? ==> conn.io.waited == (old(conn.io.waited) || Ends(kind, old(finished), max, r.value))
    {
      hide Unchunk;
      if finished || max == 0 {
        DeliversNothing(Left());
        return Ok([]);
      }
      match kind {
        case Empty => r := Ok([]);
        case ContentLength(_) => r := ReadContentLength(max);
        case Chunked => r := ReadChunked(max);
        case UntilEof =>
          var bytes := conn.ReadRaw(max);
          r := Ok(bytes);
      }
      if r.Ok? && r.value == [] {
        finished := true;
      }
    }

    /** The whole body, exactly, unless it is longer than `max` or ends too early. */
    method ReadToVec(max: nat) returns (r: Result<seq<Byte>, HttpError>)
      requires conn.Valid()
      modifies this`remaining, this`chunkRemaining, this`finished, conn`buf, conn`eof, conn.io`unread, conn.io`waited
      ensures conn.Valid() && ReadWhole(old(Left()), max, r)
      ensures finished <==> r.Ok?
      ensures r.Ok? ==> old(Left()).Ok? && conn.Remaining() == old(Left()).value.rest
      ensures r.Ok? ==> |conn.buf| < READ_CHUNK || |conn.buf| <= |old(conn.buf)|
      ensures old(Left()).Ok? && kind != UntilEof ==> conn.io.waited == old(conn.io.waited)
      ensures r.Ok? && kind == UntilEof && !old(finished) ==> conn.io.waited
    {
      hide Unchunk;
      ghost var was := Left();
      var out := [];
      BehindNothing(was);
      while true
        invariant conn.Valid() && was == Behind(out, Left()) && |out| <= max
        invariant kind != UntilEof ==> conn.io.waited == old(conn.io.waited)
        invariant finished == old(finished)
        invariant |conn.buf| < READ_CHUNK || |conn.buf| <= |old(conn.buf)|
        decreases |conn.Remaining()|
      {
        ghost var before := Left();
        var bytes := Read(8192);
        if bytes.Err? {
          return Err(bytes.error);
        }
        NextPart(out, before, Left(), bytes.value);
        if bytes.value == [] {
          assert out + [] == out;
          return Ok(out);
        }
        if |out| + |bytes.value| > max {
          return Err(Malformed("body exceeds limit"));
        }
        out := out + bytes.value;
      }
    }
  }

  /** Reading has met the end of the input, which is what ends a body that nothing else frames. */
  predicate Ends(kind: BodyKind, finished: bool, max: nat, bytes: seq<Byte>) {
    kind == UntilEof && !finished && max > 0 && bytes == []
  }

  /** `data` is the whole body `was`, if it is complete and not longer than `max`. */
  predicate ReadWhole(was: Result<Framed, HttpError>, max: nat, r: Result<seq<Byte>, HttpError>) {
    match was
    case Ok(f) => r == if |f.data| <= max then Ok(f.data) else Err(Malformed("body exceeds limit"))
    case Err(e) => r == Err(e) || r == Err(Malformed("body exceeds limit"))
  }

  /** `r` is the next part of a body that was `was`, or the error that was coming has come. */
  predicate Delivers(was: Result<Framed, HttpError>, now: Result<Framed, HttpError>, r: Result<seq<Byte>, HttpError>) {
    match was
    case Ok(f) => r.Ok? && r.value <= f.data && now == Ok(Framed(f.data[|r.value|..], f.rest))
    case Err(e) => r == Err(e) || (r.Ok? && now == Err(e))
  }

  lemma BehindDelivers(bytes: seq<Byte>, now: Result<Framed, HttpError>)
    ensures Delivers(Behind(bytes, now), now, Ok(bytes))
  {
    if now.Ok? {
      assert (bytes + now.value.data)[|bytes|..] == now.value.data;
    }
  }

  lemma BehindNothing(was: Result<Framed, HttpError>)
    ensures Behind([], was) == was
  {
    if was.Ok? {
      assert [] + was.value.data == was.value.data;
    }
  }

  lemma NextPart(out: seq<Byte>, before: Result<Framed, HttpError>, now: Result<Framed, HttpError>, bytes: seq<Byte>)
    requires Delivers(before, now, Ok(bytes))
    ensures Behind(out, before) == Behind(out + bytes, now)
    ensures before.Ok? ==> |Behind(out, before).value.data| >= |out| + |bytes|
  {
    if before.Ok? {
      assert out + before.value.data == (out + bytes) + before.value.data[|bytes|..];
    }
  }

  lemma DeliversNothing(was: Result<Framed, HttpError>)
    ensures Delivers(was, was, Ok([]))
  {
  }

  lemma PartOfLength(kind: BodyKind, bytes: seq<Byte>, more: seq<Byte>, left: nat)
    requires kind.ContentLength? && |bytes| <= left
    ensures forall k: nat :: BodyLeft(kind, false, left, k, bytes + more) ==
              Behind(bytes, BodyLeft(kind, false, left - |bytes|, k, more))
  {
    var all := bytes + more;
    if |all| >= left {
      assert all[..left] == bytes + more[..left - |bytes|];
      assert all[left..] == more[left - |bytes|..];
    }
  }

  lemma NoChunkData(left: nat)
    requires left > 0
    ensures Unchunk([], left) == Err(ConnectionClosed)
  {
  }

  /** Reading part of a chunk leaves the rest of it. */
  lemma PartOfChunk(bytes: seq<Byte>, more: seq<Byte>, left: nat)
    requires |bytes| < left
    ensures Unchunk(bytes + more, left) == Behind(bytes, Unchunk(more, left - |bytes|))
  {
    hide Find;
    hide SizeIn;
    hide Trailers;
    var all := bytes + more;
    var n := left - |bytes|;
    if |all| >= left + 2 {
      assert all[left..left + 2] == more[n..n + 2];
      assert all[..left] == bytes + more[..n];
      assert all[left + 2..] == more[n + 2..];
      BehindBoth(bytes, more[..n], Unchunk(more[n + 2..], 0));
    }
  }

  lemma BehindBoth(a: seq<Byte>, b: seq<Byte>, r: Result<Framed, HttpError>)
    ensures Behind(a + b, r) == Behind(a, Behind(b, r))
  {
    if r.Ok? {
      assert (a + b) + r.value.data == a + (b + r.value.data);
    }
  }

  /** Reading the last of a chunk leaves its line break and the next chunk. */
  lemma ChunkEnd(bytes: seq<Byte>, more: seq<Byte>)
    requires bytes != []
    ensures Unchunk(bytes + more, |bytes|) ==
            if |more| < 2 then Err(ConnectionClosed)
            else if more[..2] != CRLF then Err(Malformed("invalid framing bytes"))
            else Behind(bytes, Unchunk(more[2..], 0))
  {
    hide Find;
    hide SizeIn;
    hide Trailers;
    var all := bytes + more;
    if |more| >= 2 {
      assert all[|bytes|..|bytes| + 2] == more[..2];
      assert all[..|bytes|] == bytes;
      assert all[|bytes| + 2..] == more[2..];
    }
  }

  lemma TrailerLine(bytes: seq<Byte>)
    ensures match Find(bytes, CRLF)
            case None => Trailers(bytes) == Err(ConnectionClosed)
            case Some(i) => Trailers(bytes) == if i == 0 then Ok(Framed([], bytes[2..])) else Trailers(bytes[i + 2..])
  {
    hide Find;
  }

  lemma SizeLine(bytes: seq<Byte>)
    ensures match Find(bytes, CRLF)
            case None => Unchunk(bytes, 0) == Err(ConnectionClosed)
            case Some(i) =>
              match SizeIn(bytes[..i])
              case None => Unchunk(bytes, 0) == Err(Malformed("invalid chunk size"))
              case Some(n) =>
                Unchunk(bytes, 0) == if n == 0 then Trailers(bytes[i + 2..]) else Unchunk(bytes[i + 2..], n)
  {
    hide SizeIn;
    hide Find;
  }

  // ---- bodies do not depend on what follows ---------------------------------------------------

  function More(r: Result<Framed, HttpError>, more: seq<Byte>): Result<Framed, HttpError> {
    match r
    case Err(e) => Err(e)
    case Ok(f) => Ok(Framed(f.data, f.rest + more))
  }

  lemma FirstLineStable(bytes: seq<Byte>, more: seq<Byte>)
    requires Find(bytes, CRLF).Some?
    ensures Find(bytes + more, CRLF) == Find(bytes, CRLF)
    ensures var i := Find(bytes, CRLF).value;
            (bytes + more)[..i] == bytes[..i] && (bytes + more)[i + 2..] == bytes[i + 2..] + more
  {
    hide Find;
    FindStable(bytes, more, CRLF);
  }

  lemma {:induction false} TrailersStable(bytes: seq<Byte>, more: seq<Byte>)
    requires Trailers(bytes) != Err(ConnectionClosed)
    ensures Trailers(bytes + more) == More(Trailers(bytes), more)
    decreases |bytes|
  {
    hide Find;
    FirstLineStable(bytes, more);
    var i := Find(bytes, CRLF).value;
    if i != 0 {
      TrailersStable(bytes[i + 2..], more);
    }
  }

  lemma CompleteChunk(bytes: seq<Byte>, left: nat)
    requires left > 0 && Unchunk(bytes, left) != Err(ConnectionClosed)
    ensures |bytes| >= left + 2
  {
    hide Find;
    hide SizeIn;
    hide Trailers;
  }

  lemma {:induction false} UnchunkStable(bytes: seq<Byte>, left: nat, more: seq<Byte>)
    requires Unchunk(bytes, left) != Err(ConnectionClosed)
    ensures Unchunk(bytes + more, left) == More(Unchunk(bytes, left), more)
    decreases |bytes|
  {
    hide Find;
    hide SizeIn;
    hide Trailers;
    hide Unchunk;
    if left > 0 {
      CompleteChunk(bytes, left);
      var data, tail := bytes[..left], bytes[left..];
      assert bytes == data + tail && bytes + more == data + (tail + more);
      ChunkEnd(data, tail);
      ChunkEnd(data, tail + more);
      assert (tail + more)[..2] == tail[..2] && (tail + more)[2..] == tail[2..] + more;
      if tail[..2] == CRLF {
        UnchunkStable(tail[2..], 0, more);
      }
    } else {
      SizeLine(bytes);
      SizeLine(bytes + more);
      FirstLineStable(bytes, more);
      var i := Find(bytes, CRLF).value;
      var n := SizeIn(bytes[..i]);
      if n == Some(0) {
        TrailersStable(bytes[i + 2..], more);
      } else if n.Some? {
        UnchunkStable(bytes[i + 2..], n.value, more);
      }
    }
  }

  /**
   * A body that is complete stays the same body when bytes are appended, unless the end of the
   * input frames it; and one that is broken stays broken.
   */
  lemma BodyStable(kind: BodyKind, bytes: seq<Byte>, more: seq<Byte>)
    requires BodyOf(kind, bytes) != Err(ConnectionClosed) && kind != UntilEof
    ensures BodyOf(kind, bytes + more) == More(BodyOf(kind, bytes), more)
  {
    hide Unchunk;
    match kind
    case Chunked => UnchunkStable(bytes, 0, more);
    case ContentLength(n) =>
      assert (bytes + more)[..n] == bytes[..n];
      assert (bytes + more)[n..] == bytes[n..] + more;
      assert n == 0 ==> bytes[..0] == [] && bytes[0..] == bytes;
    case _ =>
  }

  // ---- what a chunked sender writes is what the reader delivers ---------------------------------

  /** A chunk with the text of its size line, extension included. */
  datatype Chunk = Chunk(sizeLine: seq<Byte>, data: seq<Byte>)

  predicate NoBreak(line: seq<Byte>) {
    forall i :: 0 <= i < |line| - 1 ==> line[i] != CR || line[i + 1] != LF
  }

  predicate GoodChunk(c: Chunk) {
    c.data != [] && NoBreak(c.sizeLine) && SizeIn(c.sizeLine) == Some(|c.data|)
  }

  predicate GoodTrailer(line: seq<Byte>) {
    line != [] && NoBreak(line)
  }

  function TrailerText(lines: seq<seq<Byte>>): seq<Byte> {
    if lines == [] then CRLF else lines[0] + CRLF + TrailerText(lines[1..])
  }

  function ChunkedText(chunks: seq<Chunk>, lastLine: seq<Byte>, trailers: seq<seq<Byte>>): seq<Byte> {
    if chunks == [] then lastLine + CRLF + TrailerText(trailers)
    else chunks[0].sizeLine + CRLF + (chunks[0].data + CRLF + ChunkedText(chunks[1..], lastLine, trailers))
  }

  function DataOf(chunks: seq<Chunk>): seq<Byte> {
    if chunks == [] then [] else chunks[0].data + DataOf(chunks[1..])
  }

  lemma LineEndsAt(line: seq<Byte>, rest: seq<Byte>)
    requires NoBreak(line)
    ensures Find(line + CRLF + rest, CRLF) == Some(|line|)
    ensures (line + CRLF + rest)[..|line|] == line && (line + CRLF + rest)[|line| + 2..] == rest
  {
    hide Find;
    var s := line + CRLF + rest;
    assert s[|line|..|line| + 2] == CRLF;
    forall j: nat | j < |line|
      ensures !Matches(s, CRLF, j)
    {
      MatchesPair(s, CR, LF, j);
      assert s[j] == line[j] && s[j + 1] == if j + 1 < |line| then line[j + 1] else CR;
    }
    FindIs(s, CRLF, |line|);
  }

  lemma {:induction false} TrailersReadBack(lines: seq<seq<Byte>>, rest: seq<Byte>)
    requires forall i :: 0 <= i < |lines| ==> GoodTrailer(lines[i])
    ensures Trailers(TrailerText(lines) + rest) == Ok(Framed([], rest))
    decreases |lines|
  {
    hide Find;
    if lines == [] {
      LineEndsAt([], rest);
      assert [] + CRLF + rest == CRLF + rest;
    } else {
      assert GoodTrailer(lines[0]);
      var tail := TrailerText(lines[1..]) + rest;
      LineEndsAt(lines[0], tail);
      assert TrailerText(lines) + rest == lines[0] + CRLF + tail;
      TrailersReadBack(lines[1..], rest);
    }
  }

  lemma LastChunk(lastLine: seq<Byte>, trailers: seq<seq<Byte>>, rest: seq<Byte>)
    requires NoBreak(lastLine) && SizeIn(lastLine) == Some(0)
    requires forall i :: 0 <= i < |trailers| ==> GoodTrailer(trailers[i])
    ensures Unchunk(lastLine + CRLF + TrailerText(trailers) + rest, 0) == Ok(Framed([], rest))
  {
    hide Find;
    hide Trailers;
    hide SizeIn;
    hide Unchunk;
    var tail := TrailerText(trailers) + rest;
    var text := lastLine + CRLF + tail;
    assert lastLine + CRLF + TrailerText(trailers) + rest == text;
    LineEndsAt(lastLine, tail);
    SizeLine(text);
    TrailersReadBack(trailers, rest);
  }

  /**
   * Section 7.1 of RFC 9112: whatever the sizes, extensions and trailers, a chunked body is
   * the data of its chunks, and the bytes behind it are left.
   */
  lemma {:induction false} ChunkedRoundTrip(
      chunks: seq<Chunk>, lastLine: seq<Byte>, trailers: seq<seq<Byte>>, rest: seq<Byte>)
    requires forall i :: 0 <= i < |chunks| ==> GoodChunk(chunks[i])
    requires NoBreak(lastLine) && SizeIn(lastLine) == Some(0)
    requires forall i :: 0 <= i < |trailers| ==> GoodTrailer(trailers[i])
    ensures BodyOf(Chunked, ChunkedText(chunks, lastLine, trailers) + rest) == Ok(Framed(DataOf(chunks), rest))
    decreases |chunks|
  {
    hide Find;
    hide Trailers;
    hide SizeIn;
    hide Unchunk;
    hide NoBreak;
    hide TrailerText;
    if chunks == [] {
      LastChunk(lastLine, trailers, rest);
    } else {
      var c := chunks[0];
      assert GoodChunk(c);
      var after := ChunkedText(chunks[1..], lastLine, trailers) + rest;
      var more := CRLF + after;
      var text := c.sizeLine + CRLF + (c.data + more);
      assert ChunkedText(chunks, lastLine, trailers) + rest == text;
      LineEndsAt(c.sizeLine, c.data + more);
      SizeLine(text);
      ChunkEnd(c.data, more);
      assert more[..2] == CRLF && more[2..] == after;
      ChunkedRoundTrip(chunks[1..], lastLine, trailers, rest);
    }
  }

  // ---- numbers as they are usually written ------------------------------------------------------

  predicate IsPlain(b: Byte) {
    33 <= b <= 126
  }

  lemma PlainIsNotWhite(s: seq<Byte>)
    requires s != [] && IsPlain(s[0]) && IsPlain(s[|s| - 1])
    ensures WhiteFront(s) == 0 && WhiteEnd(s) == 0
  {
  }

  lemma TrimPlain(s: seq<Byte>)
    requires s != [] && IsPlain(s[0]) && IsPlain(s[|s| - 1])
    ensures TrimText(s) == s
  {
    hide WhiteFront;
    hide WhiteEnd;
    hide IsPlain;
    PlainIsNotWhite(s);
  }

  /** A size in hexadecimal, in letters of either case, with or without an extension, is read as that size. */
  lemma HexSizeLine(n: nat, digits: seq<Byte>, extension: seq<Byte>)
    requires n < U64 && SameNumeral(digits, Hexadecimal(n)) && (extension == [] || extension[0] == SEMICOLON)
    ensures SizeIn(digits + extension) == Some(n)
  {
    hide Find;
    hide TrimText;
    hide HexValue;
    HexRoundTrip(n);
    CapitalsRead(digits, Hexadecimal(n));
    HexBytes(digits, n);
    hide Hexadecimal;
    hide SameNumeral;
    hide IsHexByte;
    var line := digits + extension;
    forall j: nat | j < |digits|
      ensures !Matches(line, [SEMICOLON], j)
    {
      HexByteIsPlain(digits[j]);
      assert j + 1 <= |line| && line[j..j + 1] == [digits[j]];
    }
    if extension == [] {
      assert line == digits;
      FindNothing(line, [SEMICOLON]);
    } else {
      assert line[|digits|..|digits| + 1] == [SEMICOLON];
      FindIs(line, [SEMICOLON], |digits|);
      assert line[..|digits|] == digits;
    }
    HexByteIsPlain(digits[0]);
    HexByteIsPlain(digits[|digits| - 1]);
    TrimPlain(digits);
  }

  predicate IsHexByte(b: Byte) {
    48 <= b <= 57 || 97 <= b <= 102 || 65 <= b <= 70
  }

  lemma HexByteIsPlain(b: Byte)
    requires IsHexByte(b)
    ensures IsPlain(b) && b != SEMICOLON && b != PLUS
  {
  }

  lemma HexBytes(digits: seq<Byte>, n: nat)
    requires SameNumeral(digits, Hexadecimal(n))
    ensures digits != [] && forall i :: 0 <= i < |digits| ==> IsHexByte(digits[i])
  {
    HexRoundTrip(n);
    forall i | 0 <= i < |digits|
      ensures IsHexByte(digits[i])
    {
      assert IsLowerHex(Hexadecimal(n)[i]);
    }
  }

  lemma {:induction false} OnlyHexBytes(s: seq<Byte>)
    requires HexValue(s).Some?
    ensures forall i :: 0 <= i < |s| ==> IsHexByte(s[i])
    decreases |s|
  {
    if s != [] {
      OnlyHexBytes(s[..|s| - 1]);
      assert forall i :: 0 <= i < |s| - 1 ==> s[i] == s[..|s| - 1][i];
    }
  }

  /** What a size line says: hexadecimal digits up to an extension, behind a plus sign or not, and below 2^64. */
  lemma SizeSays(line: seq<Byte>, end: nat)
    requires SizeIn(line).Some? && end <= |line| && SEMICOLON !in line[..end]
    requires end < |line| ==> line[end] == SEMICOLON
    ensures var text := TrimText(line[..end]);
            text != [] &&
            var digits := if text[0] == PLUS then text[1..] else text;
            && digits != [] && (forall i :: 0 <= i < |digits| ==> IsHexByte(digits[i]))
            && HexValue(digits) == SizeIn(line) && SizeIn(line).value < U64
  {
    hide Find;
    hide TrimText;
    ByteFound(line, SEMICOLON);
    if end == |line| {
      assert line[..end] == line;
    } else {
      FirstByteIs(line, SEMICOLON, end);
    }
    var text := TrimText(line[..end]);
    if text != [] && text[0] == PLUS {
      PlusIsNoDigit(text);
    }
    OnlyHexBytes(if text != [] && text[0] == PLUS then text[1..] else text);
  }

  lemma PlusIsNoDigit(text: seq<Byte>)
    requires text != [] && text[0] == PLUS
    ensures |text| == 1 ==> HexValue(text) == None
  {
  }

  /** White space of one byte: space, tab and the line breaks. */
  predicate AllWhite(s: seq<Byte>) {
    forall i :: 0 <= i < |s| ==> 9 <= s[i] <= 13 || s[i] == 32
  }

  lemma {:induction false} WhiteBefore(white: seq<Byte>, s: seq<Byte>)
    requires AllWhite(white)
    ensures TrimFront(white + s) == TrimFront(s)
    decreases |white|
  {
    if white == [] {
      assert white + s == s;
    } else {
      assert (white + s)[0] == white[0] && (white + s)[1..] == white[1..] + s;
      WhiteBefore(white[1..], s);
    }
  }

  lemma {:induction false} WhiteBehind(s: seq<Byte>, white: seq<Byte>)
    requires AllWhite(white)
    ensures TrimEnd(s + white) == TrimEnd(s)
    decreases |white|
  {
    var n := |white|;
    if n == 0 {
      assert s + white == s;
    } else {
      var all := s + white;
      assert all[|all| - 1] == white[n - 1] && all[..|all| - 1] == s + white[..n - 1];
      WhiteBehind(s, white[..n - 1]);
    }
  }

  /** White space around a text is dropped, and nothing else. */
  lemma TrimSurrounded(before: seq<Byte>, s: seq<Byte>, behind: seq<Byte>)
    requires AllWhite(before) && AllWhite(behind) && s != [] && IsPlain(s[0]) && IsPlain(s[|s| - 1])
    ensures TrimText(before + s + behind) == s
  {
    hide AllWhite;
    assert before + s + behind == before + (s + behind);
    WhiteBefore(before, s + behind);
    assert (s + behind)[0] == s[0];
    StartsPlain(s + behind);
    hide TrimFront;
    WhiteBehind(s, behind);
    PlainIsNotWhite(s);
  }

  lemma StartsPlain(s: seq<Byte>)
    requires s != [] && IsPlain(s[0])
    ensures TrimFront(s) == s
  {
  }

  /** A text, with white space around it or not, is a length iff it is all decimal digits and below 2^64. */
  lemma LengthIff(before: seq<Byte>, s: seq<Byte>, behind: seq<Byte>)
    requires AllWhite(before) && AllWhite(behind) && s != [] && IsPlain(s[0]) && IsPlain(s[|s| - 1])
    ensures IsLength(before + s + behind) <==>
              (forall i :: 0 <= i < |s| ==> 48 <= s[i] <= 57) && DecimalValue(s) < U64
  {
    hide AllWhite;
    hide TrimText;
    TrimSurrounded(before, s, behind);
    assert AllDigits(s) <==> forall i :: 0 <= i < |s| ==> 48 <= s[i] <= 57;
  }

  /** A length in decimal digits is read as that length. */
  lemma DecimalLength(fs: seq<Field>, n: nat)
    requires n < U64 && Get(fs, CONTENT_LENGTH) == Some(Decimal(n))
    ensures ContentLengthKind(fs) == Ok(ContentLength(n))
  {
    hide Get;
    hide IsLength;
    hide TrimText;
    DecimalIsLength(n);
  }

  lemma DecimalIsLength(n: nat)
    requires n < U64
    ensures IsLength(Decimal(n)) && TrimText(Decimal(n)) == Decimal(n) && DecimalValue(Decimal(n)) == n
  {
    hide TrimText;
    DecimalRoundTrip(n);
    var digits := Decimal(n);
    hide Decimal;
    assert IsDigit(digits[0]) && IsDigit(digits[|digits| - 1]);
    TrimPlain(digits);
  }
}
