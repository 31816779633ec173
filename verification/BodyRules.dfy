/**
 * What a framed body is on the wire, whoever wrote it: which bytes the reader accepts, and what
 * it makes of a body that is cut short.
 */
module BodyRules {
  import opened Body
  import opened Bytes
  import opened HeadParser
  import opened Search
  import opened Wrappers

  /** A chunked body with its sizes, extensions and trailers as the sender chose to write them. */
  datatype ChunkedBody = ChunkedBody(chunks: seq<Chunk>, lastLine: seq<Byte>, trailers: seq<seq<Byte>>) {
    predicate WellFormed() {
      && (forall i :: 0 <= i < |chunks| ==> GoodChunk(chunks[i]))
      && NoBreak(lastLine) && SizeIn(lastLine) == Some(0)
      && (forall i :: 0 <= i < |trailers| ==> GoodTrailer(trailers[i]))
    }

    function Wire(): seq<Byte> {
      ChunkedText(chunks, lastLine, trailers)
    }

    function Data(): seq<Byte> {
      DataOf(chunks)
    }
  }

  lemma ChunkedRead(b: ChunkedBody, rest: seq<Byte>)
    requires b.WellFormed()
    ensures BodyOf(Chunked, b.Wire() + rest) == Ok(Framed(b.Data(), rest))
  {
    hide ChunkedText;
    hide GoodChunk;
    hide GoodTrailer;
    hide SizeIn;
    hide BodyOf;
    hide NoBreak;
    ChunkedRoundTrip(b.chunks, b.lastLine, b.trailers, rest);
  }

  /** What is in front of the first line break. */
  lemma LineBefore(bytes: seq<Byte>)
    requires Find(bytes, CRLF).Some?
    ensures var i := Find(bytes, CRLF).value;
            i + 2 <= |bytes| && bytes == bytes[..i] + CRLF + bytes[i + 2..] && NoBreak(bytes[..i])
  {
    hide Find;
    var i := Find(bytes, CRLF).value;
    assert bytes[i..i + 2] == CRLF;
    forall j: nat | j + 1 < i
      ensures bytes[j] != CR || bytes[j + 1] != LF
    {
      MatchesPair(bytes, CR, LF, j);
      if Matches(bytes, CRLF, j) {
        FindIsFirst(bytes, CRLF, j);
      }
    }
  }

  lemma {:induction false} TrailersSound(bytes: seq<Byte>) returns (lines: seq<seq<Byte>>)
    requires Trailers(bytes).Ok?
    ensures forall i :: 0 <= i < |lines| ==> GoodTrailer(lines[i])
    ensures Trailers(bytes).value.data == []
    ensures bytes == TrailerText(lines) + Trailers(bytes).value.rest
    decreases |bytes|
  {
    hide Trailers;
    hide Find;
    hide NoBreak;
    TrailerLine(bytes);
    LineBefore(bytes);
    var i := Find(bytes, CRLF).value;
    if i == 0 {
      lines := [];
    } else {
      var more := TrailersSound(bytes[i + 2..]);
      lines := [bytes[..i]] + more;
      assert lines[1..] == more;
    }
  }

  /** Whatever chunked body is accepted is one that a sender could have written. */
  lemma {:induction false} ChunksSound(bytes: seq<Byte>) returns (b: ChunkedBody)
    requires Unchunk(bytes, 0).Ok?
    ensures b.WellFormed() && Unchunk(bytes, 0).value.data == b.Data()
    ensures bytes == b.Wire() + Unchunk(bytes, 0).value.rest
    decreases |bytes|
  {
    hide Unchunk;
    hide Find;
    hide SizeIn;
    hide Trailers;
    hide NoBreak;
    SizeLine(bytes);
    LineBefore(bytes);
    var i := Find(bytes, CRLF).value;
    var line, rest := bytes[..i], bytes[i + 2..];
    var n := SizeIn(line).value;
    if n == 0 {
      var lines := TrailersSound(rest);
      b := ChunkedBody([], line, lines);
    } else {
      CompleteChunk(rest, n);
      var data, tail := rest[..n], rest[n..];
      assert rest == data + tail;
      ChunkEnd(data, tail);
      var more := ChunksSound(tail[2..]);
      b := MoreChunks(Chunk(line, data), more);
      InFront(line, data, tail, more.Wire(), Unchunk(bytes, 0).value.rest);
    }
  }

  lemma InFront(line: seq<Byte>, data: seq<Byte>, tail: seq<Byte>, wire: seq<Byte>, rest: seq<Byte>)
    requires |tail| >= 2 && tail[..2] == CRLF && tail[2..] == wire + rest
    ensures line + CRLF + (data + tail) == line + CRLF + (data + CRLF + wire) + rest
  {
    assert tail == CRLF + (wire + rest);
  }

  /** A body with one more chunk in front. */
  lemma MoreChunks(c: Chunk, more: ChunkedBody) returns (b: ChunkedBody)
    requires GoodChunk(c) && more.WellFormed()
    ensures b.WellFormed() && b.Data() == c.data + more.Data()
    ensures b.Wire() == c.sizeLine + CRLF + (c.data + CRLF + more.Wire())
  {
    hide GoodChunk;
    hide GoodTrailer;
    hide NoBreak;
    hide SizeIn;
    b := ChunkedBody([c] + more.chunks, more.lastLine, more.trailers);
    assert b.chunks[1..] == more.chunks;
  }

  /** These bytes are a body of that kind, and that is its data. */
  ghost predicate IsBody(kind: BodyKind, wire: seq<Byte>, data: seq<Byte>) {
    match kind
    case Empty => wire == data == []
    case ContentLength(n) => wire == data && |data| == n
    case UntilEof => wire == data
    case Chunked => exists b: ChunkedBody :: b.WellFormed() && b.Wire() == wire && b.Data() == data
  }

  /**
   * A body is read, with those bytes left behind it, iff it was on the wire in front of them; one
   * that the end of the connection frames leaves none.
   */
  lemma BodyReadIff(kind: BodyKind, bytes: seq<Byte>, data: seq<Byte>, rest: seq<Byte>)
    ensures BodyOf(kind, bytes) == Ok(Framed(data, rest)) <==>
            exists wire :: bytes == wire + rest && IsBody(kind, wire, data) && (kind == UntilEof ==> rest == [])
  {
    hide Unchunk;
    hide ChunkedBody.WellFormed;
    hide ChunkedBody.Wire;
    hide ChunkedBody.Data;
    if BodyOf(kind, bytes) == Ok(Framed(data, rest)) {
      var wire := BodySound(kind, bytes);
      assert bytes == wire + rest && IsBody(kind, wire, data);
    }
    forall wire | bytes == wire + rest && IsBody(kind, wire, data) && (kind == UntilEof ==> rest == [])
      ensures BodyOf(kind, bytes) == Ok(Framed(data, rest))
    {
      BodyComplete(kind, wire, data, rest);
    }
  }

  lemma BodySound(kind: BodyKind, bytes: seq<Byte>) returns (wire: seq<Byte>)
    requires BodyOf(kind, bytes).Ok?
    ensures var f := BodyOf(kind, bytes).value;
            bytes == wire + f.rest && IsBody(kind, wire, f.data) && (kind == UntilEof ==> f.rest == [])
  {
    hide Unchunk;
    hide ChunkedBody.WellFormed;
    hide ChunkedBody.Wire;
    hide ChunkedBody.Data;
    var f := BodyOf(kind, bytes).value;
    wire := f.data;
    if kind == Chunked {
      var b := ChunksSound(bytes);
      wire := b.Wire();
    }
  }

  lemma BodyComplete(kind: BodyKind, wire: seq<Byte>, data: seq<Byte>, rest: seq<Byte>)
    requires IsBody(kind, wire, data) && (kind == UntilEof ==> rest == [])
    ensures BodyOf(kind, wire + rest) == Ok(Framed(data, rest))
  {
    hide Unchunk;
    hide ChunkedBody.WellFormed;
    hide ChunkedBody.Wire;
    hide ChunkedBody.Data;
    if kind == Chunked {
      var b: ChunkedBody :| b.WellFormed() && b.Wire() == wire && b.Data() == data;
      ChunkedRead(b, rest);
    } else if kind == UntilEof {
      assert wire + rest == wire;
    } else {
      assert (wire + rest)[..|wire|] == wire && (wire + rest)[|wire|..] == rest;
    }
  }

  /** A body that is cut short is never taken for a whole one: the connection has ended too soon. */
  lemma CutBodyFails(kind: BodyKind, wire: seq<Byte>, data: seq<Byte>, k: nat)
    requires IsBody(kind, wire, data) && kind != UntilEof && k < |wire|
    ensures BodyOf(kind, wire[..k]) == Err(ConnectionClosed)
  {
    hide BodyOf;
    hide IsBody;
    assert wire[..k] + wire[k..] == wire && wire + [] == wire;
    BodyComplete(kind, wire, data, []);
    if BodyOf(kind, wire[..k]) != Err(ConnectionClosed) {
      BodyStable(kind, wire[..k], wire[k..]);
    }
  }
}
