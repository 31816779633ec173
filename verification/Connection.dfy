/** The transport and the read buffer that an HTTP/1.1 connection keeps in front of it. */
module Connection {
  import opened Bytes
  import opened HeadParser
  import opened HeadReads
  import opened Search
  import opened Wrappers

  /**
   * A byte stream: what the peer sends before it closes, and what has been written to it.
   * A read returns any non-empty number of the bytes that fit, as the transport pleases. One
   * that finds nothing waits until the peer closes; `waited` records that there was one.
   */
  class Transport {
    var unread: seq<Byte>
    var written: seq<Byte>
    var waited: bool

    constructor (incoming: seq<Byte>)
      ensures unread == incoming && written == [] && !waited
    {
      unread := incoming;
      written := [];
      waited := false;
    }

    method Read(max: nat) returns (bytes: seq<Byte>)
      modifies this`unread, this`waited
      ensures |bytes| <= max && |bytes| <= |old(unread)|
      ensures bytes == old(unread)[..|bytes|] && unread == old(unread)[|bytes|..]
      ensures bytes == [] <==> max == 0 || old(unread) == []
      ensures waited == (old(waited) || (max > 0 && old(unread) == []))
    {
      var limit := if max < |unread| then max else |unread|;
      var n: nat :| n <= limit && (limit > 0 ==> n > 0);
      bytes := unread[..n];
      if max > 0 && unread == [] {
        waited := true;
      }
      unread := unread[n..];
    }

    method WriteAll(bytes: seq<Byte>)
      modifies this`written
      ensures written == old(written) + bytes
    {
      written := written + bytes;
    }
  }

  class HttpConnection {
    const io: Transport
    /** Read from the transport and not consumed. */
    var buf: seq<Byte>
    /** The peer has closed. */
    var eof: bool

    constructor (io: Transport)
      ensures this.io == io && buf == [] && !eof && Valid()
    {
      this.io := io;
      buf := [];
      eof := false;
    }

    predicate Valid()
      reads this`eof, io`unread
    {
      eof ==> io.unread == []
    }

    /** Every byte still to be consumed, wherever it is. */
    function Remaining(): seq<Byte>
      reads this`buf, io`unread
    {
      buf + io.unread
    }

    /** Moves bytes from the transport to the end of the buffer. */
    method Fill() returns (n: nat)
      requires Valid()
      modifies this`buf, this`eof, io`unread, io`waited
      ensures Valid() && Remaining() == old(Remaining())
      ensures n <= READ_CHUNK && |buf| == |old(buf)| + n && buf == old(Remaining())[..|buf|]
      ensures |io.unread| == |old(io.unread)| - n
      ensures n == 0 <==> old(io.unread) == []
      ensures eof == (old(eof) || n == 0) && io.waited == (old(io.waited) || n == 0)
    {
      var bytes := io.Read(READ_CHUNK);
      n := |bytes|;
      buf := buf + bytes;
      if n == 0 {
        eof := true;
      }
    }

    /** At most `max` bytes, from the buffer if it has any. */
    method ReadRaw(max: nat) returns (bytes: seq<Byte>)
      requires Valid()
      modifies this`buf, io`unread, io`waited
      ensures Valid()
      ensures |bytes| <= max && bytes + Remaining() == old(Remaining())
      ensures bytes == [] <==> max == 0 || old(Remaining()) == []
      ensures |buf| <= |old(buf)|
      ensures old(buf) == [] ==> buf == []
      ensures io.waited == (old(io.waited) || (max > 0 && old(Remaining()) == []))
    {
      if buf != [] {
        var n := if max < |buf| then max else |buf|;
        bytes := buf[..n];
        buf := buf[n..];
        return;
      }
      bytes := io.Read(max);
    }

    /** The bytes up to the next CRLF, which is dropped. */
    method ReadLine() returns (r: Result<seq<Byte>, HttpError>)
      requires Valid()
      modifies this`buf, this`eof, io`unread, io`waited
      ensures Valid()
      ensures match Find(old(Remaining()), CRLF)
              case None => r == Err(ConnectionClosed)
              case Some(pos) =>
                r == Ok(old(Remaining())[..pos]) && Remaining() == old(Remaining())[pos + 2..]
      ensures r.Ok? ==> |buf| < READ_CHUNK || |buf| <= |old(buf)|
      ensures r.Err? ==> Remaining() == old(Remaining())
      ensures r.Ok? ==> io.waited == old(io.waited)
    {
      hide Find;
      ghost var all := Remaining();
      ghost var searched: nat := 0; // no CRLF among the first `searched` bytes
      while true
        invariant Valid() && Remaining() == all && buf == all[..|buf|]
        invariant searched <= |buf| && (searched == 0 || Find(buf[..searched], CRLF) == None)
        invariant |buf| <= searched + READ_CHUNK || (searched == 0 && |buf| <= |old(buf)|)
        invariant io.waited == old(io.waited)
        decreases |io.unread|
      {
        var pos := Find(buf, CRLF);
        if pos.Some? {
          FirstInAll(buf, io.unread, searched, pos.value);
          r := Ok(buf[..pos.value]);
          buf := buf[pos.value + 2..];
          return;
        }
        if buf == [] && eof {
          assert all == [];
          return Err(ConnectionClosed);
        }
        searched := |buf|;
        assert buf[..searched] == buf;
        var n := Fill();
        if n == 0 {
          assert buf == all;
          return Err(ConnectionClosed);
        }
        assert buf[..searched] == all[..searched];
      }
    }

    /** A CRLF found in the buffer is the first of all, and ends past what was searched before. */
    static lemma FirstInAll(buf: seq<Byte>, unread: seq<Byte>, searched: nat, pos: nat)
      requires searched <= |buf| && (searched == 0 || Find(buf[..searched], CRLF) == None)
      requires Find(buf, CRLF) == Some(pos)
      ensures pos + 2 <= |buf| && pos + 2 > searched
      ensures Find(buf + unread, CRLF) == Some(pos)
      ensures (buf + unread)[..pos] == buf[..pos]
      ensures buf[pos + 2..] + unread == (buf + unread)[pos + 2..]
    {
      hide Find;
      FindStable(buf, unread, CRLF);
      if searched > 0 {
        assert buf[..searched] + buf[searched..] == buf;
        FindAcross(buf[..searched], buf[searched..], CRLF);
      }
    }

    /** Consumes exactly `expected`, or reports why the next bytes are not that. */
    method ExpectExact(expected: seq<Byte>) returns (r: Result<(), HttpError>)
      requires Valid()
      modifies this`buf, io`unread, io`waited
      ensures Valid() && |buf| <= |old(buf)|
      ensures var all := old(Remaining());
              if |all| < |expected| then r == Err(ConnectionClosed)
              else if all[..|expected|] != expected then r == Err(Malformed("invalid framing bytes"))
              else r == Ok(()) && Remaining() == all[|expected|..]
      ensures r.Ok? ==> io.waited == old(io.waited)
    {
      ghost var all := Remaining();
      var got := [];
      while |got| < |expected|
        invariant Valid() && |got| <= |expected| && got + Remaining() == all && |buf| <= |old(buf)|
        invariant io.waited == old(io.waited)
        decreases |expected| - |got|
      {
        var bytes := ReadRaw(|expected| - |got|);
        if bytes == [] {
          assert all == got;
          return Err(ConnectionClosed);
        }
        got := got + bytes;
      }
      assert all[..|expected|] == got && all[|expected|..] == Remaining();
      if got != expected {
        return Err(Malformed("invalid framing bytes"));
      }
      r := Ok(());
    }

    /**
     * Reads and removes a message head. Ok(None) is a clean end: the peer closed before the
     * first byte. `sizes` is how the transport handed the bytes out: it decides the result
     * together with the bytes, and where `Certain` holds the bytes alone do.
     */
    method ReadHead(kind: HeadKind) returns (r: Result<Option<Head>, HttpError>, ghost sizes: seq<nat>)
      requires Valid()
      modifies this`buf, this`eof, io`unread, io`waited
      ensures Valid()
      ensures ByReads(old(Remaining()), kind, |old(buf)|, sizes) == Some(r)
      ensures r.Ok? && r.value.Some? ==>
                var h := HeadAt(old(Remaining()), kind);
                && h.Ok? && h.value.Some? && r.value.value == h.value.value.0
                && Remaining() == old(Remaining())[h.value.value.1..]
                && (|buf| < READ_CHUNK || |buf| <= |old(buf)|)
      ensures old(|buf| < READ_CHUNK && Certain(Remaining(), kind)) ==> r == HeadResult(old(Remaining()), kind)
      ensures r.Ok? && r.value.Some? ==> io.waited == old(io.waited)
    {
      hide Seen;
      hide HeadAt;
      hide Certain;
      hide ByReads;
      hide Reaches;
      hide HeadResult;
      ghost var all := Remaining();
      ghost var searched: nat := 0; // the first `searched` bytes do not settle the head
      sizes := [];
      ReachesAtOnce(all, kind, |buf|);
      while true
        invariant Valid() && Remaining() == all && buf == all[..|buf|]
        invariant Reaches(all, kind, |old(buf)|, sizes, |buf|)
        invariant searched <= |buf| && (searched > 0 ==> Seen(all, kind, searched) == Ok(None))
        invariant |buf| <= searched + READ_CHUNK || (searched == 0 && |buf| <= |old(buf)|)
        invariant io.waited == old(io.waited)
        decreases |io.unread|
      {
        ghost var b := |buf|;
        var parsed := ParseBuffered(kind, all, searched);
        EndsHere(all, kind, |old(buf)|, sizes, b);
        if |old(buf)| < READ_CHUNK && Certain(all, kind) {
          CertainResult(all, kind, |old(buf)|, sizes);
        }
        match parsed {
          case Err(e) => return Err(e), sizes;
          case Ok(Some(head)) => return Ok(Some(head)), sizes;
          case Ok(None) =>
        }
        searched := |buf|;
        var n := Fill();
        if n == 0 {
          assert buf == all;
          return (if buf == [] then Ok(None) else Err(ConnectionClosed)), sizes;
        }
        ReachesFurther(all, kind, |old(buf)|, sizes, searched, n);
        sizes := sizes + [n];
      }
    }

    /** What one look at the buffer `was`, of which `now` is kept, tells about the head of `all`. */
    static ghost predicate Told(
        all: seq<Byte>, kind: HeadKind, searched: nat, was: seq<Byte>, now: seq<Byte>, left: seq<Byte>,
        r: Result<Option<Head>, HttpError>)
    {
      && |was| <= |all|
      && var h := Seen(all, kind, |was|);
      match r
      case Err(e) => h == Err(e)
      case Ok(None) => now == was && h == Ok(None)
      case Ok(Some(head)) =>
        && h.Ok? && h.value.Some? && head == h.value.value.0 && HeadAt(all, kind) == h
        && left == all[h.value.value.1..] && |now| + searched < |was|
    }

    /** Parses what is buffered, and takes the head out of the buffer if it is all there. */
    method ParseBuffered(kind: HeadKind, ghost all: seq<Byte>, ghost searched: nat)
      returns (r: Result<Option<Head>, HttpError>)
      requires Valid() && Remaining() == all && searched <= |buf|
      requires searched > 0 ==> Seen(all, kind, searched) == Ok(None)
      modifies this`buf
      ensures Valid() && Told(all, kind, searched, old(buf), buf, Remaining(), r)
    {
      hide HeadOf;
      hide Told;
      var parsed := HeadOf(buf, kind);
      BufferTells(buf, io.unread, kind, searched);
      match parsed
      case Err(e) =>
        buf := [];
        return Err(e);
      case Ok(Some((head, consumed))) =>
        buf := buf[consumed..];
        return Ok(Some(head));
      case Ok(None) =>
        return Ok(None);
    }

    static lemma BufferTells(buf: seq<Byte>, unread: seq<Byte>, kind: HeadKind, searched: nat)
      requires searched <= |buf| && (searched > 0 ==> Seen(buf + unread, kind, searched) == Ok(None))
      ensures var all := buf + unread;
              match HeadOf(buf, kind)
              case Err(e) => Told(all, kind, searched, buf, [], [] + unread, Err(e))
              case Ok(None) => Told(all, kind, searched, buf, buf, all, Ok(None))
              case Ok(Some((head, n))) =>
                Told(all, kind, searched, buf, buf[n..], buf[n..] + unread, Ok(Some(head)))
    {
      hide HeadOf;
      hide HeadAt;
      var all := buf + unread;
      assert all[..|buf|] == buf;
      var h := HeadOf(buf, kind);
      if h.Ok? && h.value.Some? {
        var n := h.value.value.1;
        SettledForGood(all, kind, |buf|);
        SettledByHead(all, kind, searched, |buf|);
        assert buf[n..] + unread == all[n..];
      }
    }
  }
}
