/** Reading a head in pieces: for which byte streams the pieces matter, and for which they do not. */
module HeadReads {
  import opened Bytes
  import opened HeadParser
  import opened Search
  import opened Wrappers

  const READ_CHUNK: nat := 8192
  /** One byte more than leaves room for a whole read within the limit. */
  const LATE: nat := MAX_HEAD - READ_CHUNK + 1

  function Least(a: nat, b: nat): nat {
    if a < b then a else b
  }

  /** What the parser makes of the first b bytes. */
  function Seen(all: seq<Byte>, kind: HeadKind, b: nat): Result<Option<(Head, nat)>, HttpError>
    requires b <= |all|
  {
    HeadOf(all[..b], kind)
  }

  /** The head that `all` begins with, as far as the size limit lets anyone see. */
  function HeadAt(all: seq<Byte>, kind: HeadKind): (r: Result<Option<(Head, nat)>, HttpError>)
    ensures r.Ok? && r.value.Some? ==> 4 < r.value.value.1 <= |all|
  {
    Seen(all, kind, Least(|all|, MAX_HEAD))
  }

  /**
   * The head, or the violation in it, shows early enough that no read, which may bring up to
   * READ_CHUNK bytes of what follows along with its end, can carry the buffer past the limit.
   */
  predicate Prompt(all: seq<Byte>, kind: HeadKind) {
    Seen(all, kind, Least(|all|, LATE)) != Ok(None)
  }

  /** What comes of the bytes: the head, a violation, or the end of the input before either. */
  function HeadResult(all: seq<Byte>, kind: HeadKind): Result<Option<Head>, HttpError> {
    match HeadAt(all, kind)
    case Err(e) => Err(e)
    case Ok(Some((head, _))) => Ok(Some(head))
    case Ok(None) =>
      if |all| > MAX_HEAD then Err(HeadTooLong) else if all == [] then Ok(None) else Err(ConnectionClosed)
  }

  /** The bytes decide: the head shows early, or all of them fit, or nothing shows within the limit. */
  predicate Certain(all: seq<Byte>, kind: HeadKind) {
    Prompt(all, kind) || |all| <= MAX_HEAD || HeadAt(all, kind) == Ok(None)
  }

  // ---- reads ----------------------------------------------------------------------------------

  /** A read of n bytes can follow when b of all bytes are buffered. */
  predicate CanRead(all: seq<Byte>, b: nat, n: nat) {
    0 < n <= READ_CHUNK && b + n <= |all|
  }

  /** The outcome with b bytes buffered and reads of these sizes to come; None if they do not lead to one. */
  function ByReads(all: seq<Byte>, kind: HeadKind, b: nat, sizes: seq<nat>): Option<Result<Option<Head>, HttpError>>
    requires b <= |all|
    decreases |sizes|
  {
    match Seen(all, kind, b)
    case Err(e) => Some(Err(e))
    case Ok(Some((head, _))) => Some(Ok(Some(head)))
    case Ok(None) =>
      if b == |all| then Some(if all == [] then Ok(None) else Err(ConnectionClosed))
      else if sizes == [] || !CanRead(all, b, sizes[0]) then None
      else ByReads(all, kind, b + sizes[0], sizes[1..])
  }

  /** Reads of these sizes bring the buffer from b to c bytes, and no head shows on the way. */
  predicate Reaches(all: seq<Byte>, kind: HeadKind, b: nat, sizes: seq<nat>, c: nat)
    requires b <= |all|
    decreases |sizes|
  {
    if sizes == [] then b == c
    else
      Seen(all, kind, b) == Ok(None) && CanRead(all, b, sizes[0]) &&
      Reaches(all, kind, b + sizes[0], sizes[1..], c)
  }

  lemma ReachesAtOnce(all: seq<Byte>, kind: HeadKind, b: nat)
    requires b <= |all|
    ensures Reaches(all, kind, b, [], b)
  {
  }

  lemma {:induction false} ReachesFurther(all: seq<Byte>, kind: HeadKind, b: nat, sizes: seq<nat>, c: nat, n: nat)
    requires b <= |all| && c <= |all| && Reaches(all, kind, b, sizes, c)
    requires Seen(all, kind, c) == Ok(None) && CanRead(all, c, n)
    ensures Reaches(all, kind, b, sizes + [n], c + n)
    decreases |sizes|
  {
    hide Seen;
    if sizes == [] {
      assert ([] + [n])[1..] == [];
      assert Reaches(all, kind, c + n, [], c + n);
    } else {
      ReachesFurther(all, kind, b + sizes[0], sizes[1..], c, n);
      assert (sizes + [n])[1..] == sizes[1..] + [n];
    }
  }

  lemma {:induction false} ReachesThen(all: seq<Byte>, kind: HeadKind, b: nat, sizes: seq<nat>, c: nat, more: seq<nat>)
    requires b <= |all| && c <= |all| && Reaches(all, kind, b, sizes, c)
    ensures ByReads(all, kind, b, sizes + more) == ByReads(all, kind, c, more)
    decreases |sizes|
  {
    hide Seen;
    if sizes == [] {
      assert [] + more == more;
    } else {
      ReachesThen(all, kind, b + sizes[0], sizes[1..], c, more);
      assert (sizes + more)[1..] == sizes[1..] + more;
    }
  }

  /** When the reads so far settle the head, or are all there are, they make up the outcome. */
  lemma EndsHere(all: seq<Byte>, kind: HeadKind, b: nat, sizes: seq<nat>, c: nat)
    requires b <= |all| && c <= |all| && Reaches(all, kind, b, sizes, c)
    ensures var h := Seen(all, kind, c);
            && (h.Err? ==> ByReads(all, kind, b, sizes) == Some(Err(h.error)))
            && (h.Ok? && h.value.Some? ==> ByReads(all, kind, b, sizes) == Some(Ok(Some(h.value.value.0))))
            && (h == Ok(None) && c == |all| ==>
                  ByReads(all, kind, b, sizes) == Some(if all == [] then Ok(None) else Err(ConnectionClosed)))
  {
    hide Seen;
    ReachesThen(all, kind, b, sizes, c, []);
    assert sizes + [] == sizes;
  }

  // ---- what settles a head ------------------------------------------------------------------------

  /** A prefix that settles the head settles it for every longer one. */
  lemma Settled(all: seq<Byte>, kind: HeadKind, m: nat, n: nat)
    requires m <= n <= |all| && n <= MAX_HEAD && Seen(all, kind, m) != Ok(None)
    ensures Seen(all, kind, n) == Seen(all, kind, m)
  {
    hide HeadOf;
    hide ParseHead;
    var buf, more := all[..m], all[m..n];
    assert all[..n] == buf + more;
    HeadOfStable(buf, more, kind);
  }

  /** What the first `b` bytes say is what the limit lets anyone see. */
  lemma SettledForGood(all: seq<Byte>, kind: HeadKind, b: nat)
    requires b <= |all| && b <= MAX_HEAD && Seen(all, kind, b) != Ok(None)
    ensures HeadAt(all, kind) == Seen(all, kind, b)
  {
    hide Seen;
    Settled(all, kind, b, Least(|all|, MAX_HEAD));
  }

  /** The head ends after every prefix that does not settle it. */
  lemma SettledByHead(all: seq<Byte>, kind: HeadKind, searched: nat, b: nat)
    requires searched <= b <= |all| && (searched > 0 ==> Seen(all, kind, searched) == Ok(None))
    requires Seen(all, kind, b).Ok? && Seen(all, kind, b).value.Some?
    ensures searched < Seen(all, kind, b).value.value.1
  {
    hide HeadOf;
    var n := Seen(all, kind, b).value.value.1;
    HeadOfAlone(all[..b], kind);
    assert all[..b][..n] == all[..n];
    if n <= searched {
      Settled(all, kind, n, searched);
    }
  }

  lemma HeadOfAlone(buf: seq<Byte>, kind: HeadKind)
    requires HeadOf(buf, kind).Ok? && HeadOf(buf, kind).value.Some?
    ensures HeadOf(buf[..HeadOf(buf, kind).value.value.1], kind) != Ok(None)
  {
    hide ParseHead;
    hide View;
    hide InOrder;
    HeadAlone(buf, kind);
  }

  /** Too long is what the parser says of more bytes than the limit, and of nothing else. */
  lemma TooLongIff(buf: seq<Byte>, kind: HeadKind)
    ensures HeadOf(buf, kind) == Err(HeadTooLong) <==> |buf| > MAX_HEAD
  {
    hide Find;
    hide ParseBlock;
    hide Scanned;
    hide HasFold;
    hide View;
    hide InOrder;
  }

  lemma SeenTooLongIff(all: seq<Byte>, kind: HeadKind, b: nat)
    requires b <= |all|
    ensures Seen(all, kind, b) == Err(HeadTooLong) <==> b > MAX_HEAD
  {
    hide HeadOf;
    TooLongIff(all[..b], kind);
  }

  /** A buffer that does not settle a prompt head has room for another read, and there is more to read. */
  lemma Unsettled(all: seq<Byte>, kind: HeadKind, b: nat)
    requires b <= |all| && Seen(all, kind, b) == Ok(None)
    ensures b <= MAX_HEAD && (Prompt(all, kind) ==> b < LATE && b < |all|)
  {
    SeenTooLongIff(all, kind, b);
    hide Seen;
    var limit := Least(|all|, LATE);
    if Prompt(all, kind) && limit <= b {
      Settled(all, kind, limit, b);
    }
  }

  // ---- when the reads decide ------------------------------------------------------------------------

  /** Where the bytes decide, every way of reading them has the same outcome. */
  lemma {:induction false} CertainResult(all: seq<Byte>, kind: HeadKind, b: nat, sizes: seq<nat>)
    requires b <= |all| && Certain(all, kind) && (Prompt(all, kind) ==> b <= MAX_HEAD)
    ensures ByReads(all, kind, b, sizes).Some? ==> ByReads(all, kind, b, sizes) == Some(HeadResult(all, kind))
    decreases |sizes|
  {
    hide Seen;
    hide Prompt;
    var h := Seen(all, kind, b);
    SeenTooLongIff(all, kind, b);
    if h != Ok(None) {
      if b <= MAX_HEAD {
        SettledForGood(all, kind, b);
      }
    } else {
      Unsettled(all, kind, b);
      if b == |all| {
        assert all[..b] == all;
      } else if sizes != [] && CanRead(all, b, sizes[0]) {
        CertainResult(all, kind, b + sizes[0], sizes[1..]);
      }
    }
  }

  function Ones(n: nat): (s: seq<nat>)
    ensures |s| == n
  {
    if n == 0 then [] else [1] + Ones(n - 1)
  }

  /** Byte by byte, the buffer reaches any length within which nothing shows. */
  lemma {:induction false} ReachedByOnes(all: seq<Byte>, kind: HeadKind, b: nat, c: nat)
    requires b <= c <= |all| && c <= MAX_HEAD && Seen(all, kind, c) == Ok(None)
    ensures Reaches(all, kind, b, Ones(c - b), c)
    decreases c - b
  {
    hide Seen;
    if b < c {
      if Seen(all, kind, b) != Ok(None) {
        Settled(all, kind, b, c);
      }
      ReachedByOnes(all, kind, b + 1, c);
      assert Ones(c - b)[1..] == Ones(c - b - 1);
    }
  }

  /** Byte by byte, a head that shows within the limit is seen. */
  lemma {:induction false} SeenByOnes(all: seq<Byte>, kind: HeadKind, b: nat)
    requires b <= MAX_HEAD < |all| && HeadAt(all, kind) != Ok(None)
    ensures ByReads(all, kind, b, Ones(MAX_HEAD - b)) == Some(HeadResult(all, kind))
    decreases MAX_HEAD - b
  {
    hide Seen;
    if Seen(all, kind, b) != Ok(None) {
      SettledForGood(all, kind, b);
    } else {
      SeenByOnes(all, kind, b + 1);
      assert Ones(MAX_HEAD - b)[1..] == Ones(MAX_HEAD - b - 1);
    }
  }

  /** Byte by byte up to the last room for a whole read, and then a whole read: the head is refused. */
  lemma RefusedByWholeRead(all: seq<Byte>, kind: HeadKind, b: nat)
    requires b <= LATE && |all| > MAX_HEAD && !Prompt(all, kind)
    ensures ByReads(all, kind, b, Ones(LATE - b) + [READ_CHUNK]) == Some(Err(HeadTooLong))
  {
    hide Seen;
    ReachedByOnes(all, kind, b, LATE);
    ReachesThen(all, kind, b, Ones(LATE - b), LATE, [READ_CHUNK]);
    SeenTooLongIff(all, kind, LATE + READ_CHUNK);
    assert CanRead(all, LATE, READ_CHUNK);
    assert [READ_CHUNK][1..] == [];
  }

  /**
   * The outcome does not depend on how the bytes are read iff the head shows early, or all the
   * bytes fit into the limit, or nothing shows within it. Otherwise reading byte by byte yields
   * the head, or the violation in it, and one whole read at the wrong place refuses it as too long.
   */
  lemma ReadsDecideIff(all: seq<Byte>, kind: HeadKind, b: nat)
    requires b < READ_CHUNK && b <= |all|
    ensures Certain(all, kind) <==>
              forall x, y :: ByReads(all, kind, b, x).Some? && ByReads(all, kind, b, y).Some? ==>
                ByReads(all, kind, b, x) == ByReads(all, kind, b, y)
    ensures !Certain(all, kind) ==>
              && (exists x :: ByReads(all, kind, b, x) == Some(HeadResult(all, kind)))
              && (exists y :: ByReads(all, kind, b, y) == Some(Err(HeadTooLong)))
              && HeadResult(all, kind) != Err(HeadTooLong)
  {
    hide Seen;
    hide ByReads;
    if Certain(all, kind) {
      forall x | ByReads(all, kind, b, x).Some?
        ensures ByReads(all, kind, b, x) == Some(HeadResult(all, kind))
      {
        CertainResult(all, kind, b, x);
      }
    } else {
      SeenByOnes(all, kind, b);
      RefusedByWholeRead(all, kind, b);
      SeenTooLongIff(all, kind, Least(|all|, MAX_HEAD));
      assert ByReads(all, kind, b, Ones(MAX_HEAD - b)) != ByReads(all, kind, b, Ones(LATE - b) + [READ_CHUNK]);
    }
  }
  /** There are such bytes: any head that ends in the last READ_CHUNK - 1 bytes of the limit, with enough behind it. */
  lemma LateHeadUndecided(head: seq<Byte>, kind: HeadKind, parsed: Head, rest: seq<Byte>)
    requires LATE < |head| <= MAX_HEAD < |head| + |rest| && HeadOf(head, kind) == Ok(Some((parsed, |head|)))
    ensures !Certain(head + rest, kind) && HeadResult(head + rest, kind) == Ok(Some(parsed))
  {
    hide HeadOf;
    hide Seen;
    var all := head + rest;
    SeenOfHead(head, kind, rest, |head|);
    SeenOfHead(head, kind, rest, LATE);
    assert head[..|head|] == head;
    StartUnsettled(head, kind, LATE);
    SettledForGood(all, kind, |head|);
  }

  lemma SeenOfHead(head: seq<Byte>, kind: HeadKind, rest: seq<Byte>, k: nat)
    requires k <= |head|
    ensures Seen(head + rest, kind, k) == HeadOf(head[..k], kind)
  {
    hide HeadOf;
    assert (head + rest)[..k] == head[..k];
  }

  lemma StartUnsettled(head: seq<Byte>, kind: HeadKind, k: nat)
    requires k < |head| && HeadOf(head, kind).Ok? && HeadOf(head, kind).value.Some?
    requires HeadOf(head, kind).value.value.1 == |head|
    ensures HeadOf(head[..k], kind) == Ok(None)
  {
    hide ParseHead;
    hide View;
    hide InOrder;
    ProperPrefixNeedsMore(head, kind, k);
  }
}
