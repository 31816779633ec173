/**
 * The parser for HTTP/1.1 message heads: it looks at the bytes read so far and yields byte
 * ranges into them, a violation, or nothing yet.
 */
module HeadParser {
  import opened Bytes
  import opened Numerals
  import opened Search
  import opened Wrappers

  datatype HttpError = ConnectionClosed | HeadTooLong | Malformed(what: string) | ConflictingHeaders

  const MAX_HEAD: nat := 64 * 1024
  const CR: Byte := 13
  const LF: Byte := 10
  const SP: Byte := 32
  const TAB: Byte := 9
  const COLON: Byte := 58
  const CRLF: seq<Byte> := [CR, LF]
  const HEADER_DELIM: seq<Byte> := [CR, LF, CR, LF]
  /** "HTTP/1.1" and "HTTP/1.0". */
  const HTTP_1_1: seq<Byte> := [72, 84, 84, 80, 47, 49, 46, 49]
  const HTTP_1_0: seq<Byte> := [72, 84, 84, 80, 47, 49, 46, 48]

  datatype Version = Http10 | Http11

  datatype Range = Range(start: nat, end: nat) {
    predicate Within(n: nat) {
      start <= end <= n
    }

    function Shift(offset: nat): Range {
      Range(start + offset, end + offset)
    }
  }

  function Slice(s: seq<Byte>, r: Range): seq<Byte>
    requires r.Within(|s|)
  {
    s[r.start..r.end]
  }

  datatype HeaderRange = HeaderRange(name: Range, value: Range)

  /** A parsed first line: method and target of a request, or the reason (twice) of a response. */
  datatype FirstLine = FirstLine(first: Range, second: Range, version: Version, status: Option<nat>)

  datatype HeadRanges = HeadRanges(line: FirstLine, headers: seq<HeaderRange>, consumed: nat)

  datatype HeadKind = Request | Response

  // ---- optional white space ------------------------------------------------------------

  predicate IsOws(b: Byte) {
    b == SP || b == TAB
  }

  /** `r` cuts exactly the white space off both ends. */
  predicate IsTrim(v: seq<Byte>, r: Range) {
    && r.Within(|v|)
    && (forall i :: 0 <= i < r.start ==> IsOws(v[i]))
    && (forall i :: r.end <= i < |v| ==> IsOws(v[i]))
    && (if r.start == r.end then r.start == |v| else !IsOws(v[r.start]) && !IsOws(v[r.end - 1]))
  }

  function Trim(v: seq<Byte>): (r: Range)
    ensures IsTrim(v, r)
    decreases |v|
  {
    if v == [] then Range(0, 0)
    else if IsOws(v[0]) then
      var r := Trim(v[1..]);
      assert forall i :: 0 < i < |v| ==> v[i] == v[1..][i - 1];
      r.Shift(1)
    else if IsOws(v[|v| - 1]) then Trim(v[..|v| - 1])
    else Range(0, |v|)
  }

  lemma TrimUnique(v: seq<Byte>, r: Range, q: Range)
    requires IsTrim(v, r) && IsTrim(v, q)
    ensures r == q
  {
  }

  method TrimOws(value: seq<Byte>) returns (r: Range)
    ensures r == Trim(value)
  {
    var start, end := 0, |value|;
    while start < end && IsOws(value[start])
      invariant start <= end == |value|
      invariant forall i :: 0 <= i < start ==> IsOws(value[i])
    {
      start := start + 1;
    }
    while end > start && IsOws(value[end - 1])
      invariant start <= end <= |value|
      invariant forall i :: end <= i < |value| ==> IsOws(value[i])
      invariant start < |value| ==> start < end && !IsOws(value[start])
    {
      end := end - 1;
    }
    r := Range(start, end);
    TrimUnique(value, r, Trim(value));
  }

  // ---- lines -----------------------------------------------------------------------------

  /** Locates the blank line that ends the head. */
  function FindHeadEnd(buf: seq<Byte>): (r: Result<Option<nat>, HttpError>)
  {
    if |buf| > MAX_HEAD then Err(HeadTooLong)
    else
      var end := Find(buf, HEADER_DELIM);
      if HasFold(Scanned(buf)) then Err(Malformed("obsolete line folding in header block")) else Ok(end)
  }

  /** The part searched for folding: the head, or what is known to be complete lines of it. */
  function Scanned(buf: seq<Byte>): (s: seq<Byte>)
    ensures s <= buf
  {
    match Find(buf, HEADER_DELIM)
    case Some(end) => buf[..end]
    case None =>
      match FindLast(buf, CRLF)
      case Some(last) => buf[..last]
      case None => []
  }

  predicate HasFold(s: seq<Byte>) {
    Find(s, [LF, SP]).Some? || Find(s, [LF, TAB]).Some?
  }

  function FirstLineRange(head: seq<Byte>): (r: Option<Range>)
    ensures r.Some? ==> r.value.Within(|head|)
  {
    match Find(head, CRLF)
    case Some(end) => Some(Range(0, end))
    case None => if head == [] then None else Some(Range(0, |head|))
  }

  /** The pieces of `buf` from `start` on that CRLFs separate. */
  function Lines(buf: seq<Byte>, start: nat): (r: seq<Range>)
    requires start <= |buf|
    ensures forall x :: x in r ==> start <= x.start && x.Within(|buf|)
    decreases |buf| - start
  {
    match Find(buf[start..], CRLF)
    case None => [Range(start, |buf|)]
    case Some(i) => [Range(start, start + i)] + Lines(buf, start + i + 2)
  }

  /** One `name: value` line that starts at `start`. */
  function HeaderLine(start: nat, line: seq<Byte>): (r: Result<HeaderRange, HttpError>)
    ensures r.Ok? ==> r.value.name.start == start && r.value.name.end < r.value.value.start &&
                      r.value.name.Within(start + |line|) && r.value.value.Within(start + |line|)
    ensures r.Err? ==> r.error.Malformed?
  {
    match Find(line, [COLON])
    case None => Err(Malformed("header line missing colon"))
    case Some(colon) =>
      Ok(HeaderRange(Range(start, start + colon), Trim(line[colon + 1..]).Shift(start + colon + 1)))
  }

  /** The header ranges of the given lines; empty lines are skipped. */
  function HeaderRanges(buf: seq<Byte>, lines: seq<Range>): (r: Result<seq<HeaderRange>, HttpError>)
    requires forall x :: x in lines ==> x.Within(|buf|)
    ensures r.Err? ==> r.error.Malformed?
    decreases |lines|
  {
    if lines == [] then Ok([])
    else if lines[0].start == lines[0].end then HeaderRanges(buf, lines[1..])
    else
      match HeaderLine(lines[0].start, Slice(buf, lines[0]))
      case Err(e) => Err(e)
      case Ok(h) => Prepend([h], HeaderRanges(buf, lines[1..]))
  }

  function Prepend(hs: seq<HeaderRange>, r: Result<seq<HeaderRange>, HttpError>): Result<seq<HeaderRange>, HttpError> {
    match r
    case Err(e) => Err(e)
    case Ok(more) => Ok(hs + more)
  }

  function Later(lines: seq<Range>, skip: nat): (r: seq<Range>)
    ensures forall x :: x in r ==> x in lines
  {
    if skip >= |lines| then [] else lines[skip..]
  }

  /** The header ranges of every line but the first `skip`. */
  function Headers(buf: seq<Byte>, skip: nat): (r: Result<seq<HeaderRange>, HttpError>)
    ensures r.Err? ==> r.error.Malformed?
  {
    HeaderRanges(buf, Later(Lines(buf, 0), skip))
  }

  // ---- the first line --------------------------------------------------------------------

  /** Section 5.6.2 of RFC 9110: the characters of a token. */
  predicate IsTchar(b: Byte) {
    || 65 <= b <= 90 || 97 <= b <= 122 || 48 <= b <= 57
    || b in [33, 35, 36, 37, 38, 39, 42, 43, 45, 46, 94, 95, 96, 124, 126]
  }

  function ParseRequestLine(line: seq<Byte>): (r: Result<FirstLine, HttpError>)
    ensures r.Ok? ==> r.value.first.Within(|line|) && r.value.second.Within(|line|) &&
                      r.value.first.end < r.value.second.start && r.value.status == None
    ensures r.Err? ==> r.error.Malformed?
  {
    match Find(line, [SP])
    case None => Err(Malformed("malformed request line"))
    case Some(sp1) =>
      if sp1 == 0 || exists i :: 0 <= i < sp1 && !IsTchar(line[i]) then Err(Malformed("malformed request line"))
      else
        var rest := line[sp1 + 1..];
        match Find(rest, [SP])
        case None => Err(Malformed("malformed request line"))
        case Some(sp2) =>
          if sp2 == 0 then Err(Malformed("malformed request line"))
          else
            var proto := rest[sp2 + 1..];
            if proto != HTTP_1_1 && proto != HTTP_1_0 then Err(Malformed("unsupported HTTP version"))
            else
              var version := if proto == HTTP_1_1 then Http11 else Http10;
              Ok(FirstLine(Range(0, sp1), Range(sp1 + 1, sp1 + 1 + sp2), version, None))
  }

  function ParseStatusLine(line: seq<Byte>): (r: Result<FirstLine, HttpError>)
    ensures r.Ok? ==> r.value.first.Within(|line|) && r.value.second == r.value.first &&
                      r.value.status.Some? && 100 <= r.value.status.value <= 599
    ensures r.Err? ==> r.error.Malformed?
  {
    if !(HTTP_1_1 + [SP] <= line) && !(HTTP_1_0 + [SP] <= line) then Err(Malformed("malformed status line"))
    else
      var version := if line[5] == 49 then Http11 else Http10;
      var rest := line[9..];
      if |rest| < 3 || !IsDigit(rest[0]) || !IsDigit(rest[1]) || !IsDigit(rest[2]) then
        Err(Malformed("malformed status line"))
      else
        var code := Digit(rest[0]) * 100 + Digit(rest[1]) * 10 + Digit(rest[2]);
        if code < 100 || code > 599 then Err(Malformed("malformed status line"))
        else
          var reason := Trim(rest[3..]).Shift(12);
          Ok(FirstLine(reason, reason, version, Some(code)))
  }

  function ParseFirstLine(line: seq<Byte>, kind: HeadKind): (r: Result<FirstLine, HttpError>)
    ensures r.Ok? ==> r.value.first.Within(|line|) && r.value.second.Within(|line|)
    ensures r.Err? ==> r.error.Malformed?
  {
    if kind == Request then ParseRequestLine(line) else ParseStatusLine(line)
  }

  // ---- the whole head ----------------------------------------------------------------------

  /** A head without its delimiter. */
  function ParseBlock(head: seq<Byte>, kind: HeadKind): (r: Result<HeadRanges, HttpError>)
    ensures r.Err? ==> r.error.Malformed?
  {
    match FirstLineRange(head)
    case None => Err(Malformed("empty head"))
    case Some(r) =>
      match ParseFirstLine(Slice(head, r), kind)
      case Err(e) => Err(e)
      case Ok(line) =>
        match Headers(head, 1)
        case Err(e) => Err(e)
        case Ok(headers) => Ok(HeadRanges(line, headers, |head| + 4))
  }

  /** A head from the front of `buf`; Ok(None) asks for more bytes. */
  function ParseHead(buf: seq<Byte>, kind: HeadKind): (r: Result<Option<HeadRanges>, HttpError>)
    ensures r.Ok? && r.value.Some? ==> 4 < r.value.value.consumed <= |buf|
  {
    match FindHeadEnd(buf)
    case Err(e) => Err(e)
    case Ok(None) => Ok(None)
    case Ok(Some(end)) =>
      match ParseBlock(buf[..end], kind)
      case Err(e) => Err(e)
      case Ok(ranges) => Ok(Some(ranges))
  }

  // ---- the loop that collects the header lines ---------------------------------------------

  method CollectHeaderRanges(buf: seq<Byte>, skip: nat) returns (r: Result<seq<HeaderRange>, HttpError>)
    ensures r == Headers(buf, skip)
  {
    hide HeaderLine;
    hide Find;
    hide HeaderRanges;
    hide Lines;
    hide Prepend;
    hide Later;
    var out := [];
    var start, seen, i := 0, 0, 0;
    PrependNothing(Headers(buf, skip));
    while i + 1 < |buf|
      invariant start <= i <= |buf|
      invariant forall j :: start <= j < i && j + 1 < |buf| ==> !(buf[j] == CR && buf[j + 1] == LF)
      invariant Headers(buf, skip) == Prepend(out, HeaderRanges(buf, Later(Lines(buf, start), Minus(skip, seen))))
    {
      if buf[i] == CR && buf[i + 1] == LF {
        FirstLineAt(buf, start, i);
        AfterLine(buf, start, i, Lines(buf, i + 2), Minus(skip, seen), out);
        if seen >= skip {
          if start < i {
            var h := HeaderLine(start, buf[start..i]);
            if h.Err? {
              return Err(h.error);
            }
            out := out + [h.value];
          }
        }
        seen := seen + 1;
        start := i + 2;
        i := i + 2;
      } else {
        i := i + 1;
      }
    }
    LastLineAt(buf, start);
    AfterLine(buf, start, |buf|, [], Minus(skip, seen), out);
    NothingAfter(buf, Minus(Minus(skip, seen), 1));
    assert buf[start..] == buf[start..|buf|];
    if start < |buf| && seen >= skip {
      var h := HeaderLine(start, buf[start..]);
      if h.Err? {
        return Err(h.error);
      }
      out := out + [h.value];
    }
    PrependToNothing(out);
    r := Ok(out);
  }

  function Minus(a: nat, b: nat): nat {
    if a <= b then 0 else a - b
  }

  lemma PrependNothing(r: Result<seq<HeaderRange>, HttpError>)
    ensures Prepend([], r) == r
  {
    if r.Ok? {
      assert [] + r.value == r.value;
    }
  }

  lemma PrependToNothing(out: seq<HeaderRange>)
    ensures Prepend(out, Ok([])) == Ok(out)
  {
    assert out + [] == out;
  }

  lemma NothingAfter(buf: seq<Byte>, skip: nat)
    ensures HeaderRanges(buf, Later([], skip)) == Ok([])
  {
  }

  /** How one more line adds to the headers collected so far. */
  lemma AfterLine(buf: seq<Byte>, start: nat, end: nat, rest: seq<Range>, skip: nat, out: seq<HeaderRange>)
    requires start <= end <= |buf| && forall x :: x in rest ==> x.Within(|buf|)
    ensures var lines := [Range(start, end)] + rest;
            var tail := HeaderRanges(buf, Later(rest, Minus(skip, 1)));
            Prepend(out, HeaderRanges(buf, Later(lines, skip))) ==
            if skip > 0 || start == end then Prepend(out, tail)
            else if HeaderLine(start, buf[start..end]).Err? then Err(HeaderLine(start, buf[start..end]).error)
            else Prepend(out + [HeaderLine(start, buf[start..end]).value], tail)
  {
    hide HeaderLine;
    var lines := [Range(start, end)] + rest;
    assert lines[1..] == rest;
    if skip > 0 {
      assert Later(lines, skip) == Later(rest, skip - 1);
    } else {
      assert Later(lines, 0) == lines && Later(rest, 0) == rest;
      if start < end && HeaderLine(start, buf[start..end]).Ok? && HeaderRanges(buf, rest).Ok? {
        var h := HeaderLine(start, buf[start..end]).value;
        var hs := HeaderRanges(buf, rest).value;
        assert out + ([h] + hs) == (out + [h]) + hs;
      }
    }
  }

  lemma FirstLineAt(buf: seq<Byte>, start: nat, i: nat)
    requires start <= i && i + 1 < |buf| && buf[i] == CR && buf[i + 1] == LF
    requires forall j :: start <= j < i ==> !(buf[j] == CR && buf[j + 1] == LF)
    ensures Lines(buf, start) == [Range(start, i)] + Lines(buf, i + 2)
  {
    hide Find;
    var s := buf[start..];
    forall j: nat | j <= i - start
      ensures Matches(s, CRLF, j) <==> j == i - start
    {
      MatchesPair(s, CR, LF, j);
      assert s[j] == buf[start + j] && s[j + 1] == buf[start + j + 1];
    }
    FindIs(s, CRLF, i - start);
  }

  lemma LastLineAt(buf: seq<Byte>, start: nat)
    requires start <= |buf|
    requires forall j :: start <= j && j + 1 < |buf| ==> !(buf[j] == CR && buf[j + 1] == LF)
    ensures Lines(buf, start) == [Range(start, |buf|)] + []
  {
    hide Find;
    var s := buf[start..];
    forall j: nat
      ensures !Matches(s, CRLF, j)
    {
      MatchesPair(s, CR, LF, j);
      if j + 1 < |s| {
        assert s[j] == buf[start + j] && s[j + 1] == buf[start + j + 1];
      }
    }
    FindNothing(s, CRLF);
  }

  // ---- the parser is monotone --------------------------------------------------------------

  /** What was searched for folding stays a prefix of what is searched once more bytes are there. */
  lemma ScannedGrows(buf: seq<Byte>, more: seq<Byte>)
    ensures Scanned(buf) <= Scanned(buf + more)
    ensures Find(buf, HEADER_DELIM).Some? ==> Scanned(buf) == Scanned(buf + more)
  {
    hide Find;
    hide FindLast;
    var all := buf + more;
    if Find(buf, HEADER_DELIM).Some? {
      FindStable(buf, more, HEADER_DELIM);
    } else if FindLast(buf, CRLF).Some? {
      var last := FindLast(buf, CRLF).value;
      MatchInPrefix(buf, more, CRLF, last);
      if Find(all, HEADER_DELIM).Some? {
        FindAcross(buf, more, HEADER_DELIM);
        LineEndsBefore(all, Find(all, HEADER_DELIM).value, last);
      } else {
        FindLastIsLast(all, CRLF, last);
      }
    }
  }

  /** A line end can overlap the blank line only at its start or two bytes on. */
  lemma LineEndsBefore(s: seq<Byte>, end: nat, last: nat)
    requires Matches(s, HEADER_DELIM, end) && Matches(s, CRLF, last) && last <= end + 1
    ensures last <= end
  {
    assert s[end + 1] == s[end..end + 4][1];
    assert s[last] == s[last..last + 2][0];
  }

  lemma FoldStays(s: seq<Byte>, t: seq<Byte>)
    requires s <= t && HasFold(s)
    ensures HasFold(t)
  {
    hide Find;
    assert t == s + t[|s|..];
    if Find(s, [LF, SP]).Some? {
      FindStable(s, t[|s|..], [LF, SP]);
    } else {
      FindStable(s, t[|s|..], [LF, TAB]);
    }
  }

  /** Within the size limit, a head that was parsed and a violation that was found are final. */
  lemma HeadStable(buf: seq<Byte>, more: seq<Byte>, kind: HeadKind)
    requires |buf| + |more| <= MAX_HEAD && ParseHead(buf, kind) != Ok(None)
    ensures ParseHead(buf + more, kind) == ParseHead(buf, kind)
  {
    hide Find;
    hide ParseBlock;
    hide HasFold;
    hide Scanned;
    var all := buf + more;
    ScannedGrows(buf, more);
    if HasFold(Scanned(buf)) {
      FoldStays(Scanned(buf), Scanned(all));
    } else {
      FindStable(buf, more, HEADER_DELIM);
      var end := Find(buf, HEADER_DELIM).value;
      assert all[..end] == buf[..end];
    }
  }

  /** Every proper prefix of a head, from its first byte on, asks for more bytes. */
  lemma ProperPrefixNeedsMore(buf: seq<Byte>, kind: HeadKind, k: nat)
    requires ParseHead(buf, kind).Ok? && ParseHead(buf, kind).value.Some?
    requires k < ParseHead(buf, kind).value.value.consumed
    ensures ParseHead(buf[..k], kind) == Ok(None)
  {
    hide ParseHead;
    ConsumedEnd(buf, kind);
    if ParseHead(buf[..k], kind) != Ok(None) {
      assert buf[..k] + buf[k..] == buf;
      HeadStable(buf[..k], buf[k..], kind);
      assert false;
    }
  }

  /** A head ends with the first blank line. */
  lemma ConsumedEnd(buf: seq<Byte>, kind: HeadKind)
    requires ParseHead(buf, kind).Ok? && ParseHead(buf, kind).value.Some?
    ensures |buf| <= MAX_HEAD
    ensures Find(buf, HEADER_DELIM).Some?
    ensures Find(buf, HEADER_DELIM).value + 4 == ParseHead(buf, kind).value.value.consumed
  {
    hide Find;
    hide ParseBlock;
    hide HasFold;
    hide Scanned;
    BlockConsumes(buf[..Find(buf, HEADER_DELIM).value], kind);
  }

  lemma BlankLineSettles(buf: seq<Byte>, kind: HeadKind)
    requires Find(buf, HEADER_DELIM).Some?
    ensures ParseHead(buf, kind) != Ok(None)
  {
    hide Find;
    hide ParseBlock;
    hide HasFold;
    hide Scanned;
  }

  /** The parsed head does not depend on what follows it. */
  lemma HeadAlone(buf: seq<Byte>, kind: HeadKind)
    requires ParseHead(buf, kind).Ok? && ParseHead(buf, kind).value.Some?
    ensures ParseHead(buf[..ParseHead(buf, kind).value.value.consumed], kind) == ParseHead(buf, kind)
  {
    hide Find;
    hide ParseHead;
    hide Matches;
    ConsumedEnd(buf, kind);
    var n := ParseHead(buf, kind).value.value.consumed;
    assert buf[..n] + buf[n..] == buf;
    MatchInPrefix(buf[..n], buf[n..], HEADER_DELIM, n - 4);
    FindIsFirst(buf[..n], HEADER_DELIM, n - 4);
    BlankLineSettles(buf[..n], kind);
    HeadStable(buf[..n], buf[n..], kind);
  }

  lemma BlockConsumes(head: seq<Byte>, kind: HeadKind)
    requires ParseBlock(head, kind).Ok?
    ensures ParseBlock(head, kind).value.consumed == |head| + 4
  {
  }

  // ---- ranges ----------------------------------------------------------------------------

  /** The ranges of the header lines, each within its own line, in order and inside `n`. */
  predicate InOrder(hs: seq<HeaderRange>, from: nat, n: nat)
    decreases |hs|
  {
    hs == [] ||
    (from <= hs[0].name.start && hs[0].name.Within(n) && hs[0].name.end < hs[0].value.start && hs[0].value.Within(n) &&
     InOrder(hs[1..], hs[0].value.end, n))
  }

  lemma {:induction false} LinesInOrder(buf: seq<Byte>, start: nat)
    requires start <= |buf|
    ensures Ascending(Lines(buf, start), start)
    decreases |buf| - start
  {
    hide Find;
    match Find(buf[start..], CRLF)
    case None =>
    case Some(i) => LinesInOrder(buf, start + i + 2);
  }

  predicate Ascending(lines: seq<Range>, from: nat)
    decreases |lines|
  {
    lines == [] || (from <= lines[0].start <= lines[0].end && Ascending(lines[1..], lines[0].end))
  }

  lemma {:induction false} HeadersInOrder(buf: seq<Byte>, lines: seq<Range>, from: nat)
    requires forall x :: x in lines ==> x.Within(|buf|)
    requires Ascending(lines, from) && HeaderRanges(buf, lines).Ok?
    ensures InOrder(HeaderRanges(buf, lines).value, from, |buf|)
    decreases |lines|
  {
    hide HeaderLine;
    if lines != [] {
      var rest := HeaderRanges(buf, lines[1..]);
      HeadersInOrder(buf, lines[1..], lines[0].end);
      var low := if lines[0].start == lines[0].end then from
                 else HeaderLine(lines[0].start, Slice(buf, lines[0])).value.value.end;
      InOrderFrom(rest.value, lines[0].end, low, |buf|);
    }
  }

  lemma InOrderFrom(hs: seq<HeaderRange>, from: nat, low: nat, n: nat)
    requires InOrder(hs, from, n) && low <= from
    ensures InOrder(hs, low, n)
  {
  }

  function Max(a: nat, b: nat): nat {
    if a < b then b else a
  }

  lemma LaterAscends(buf: seq<Byte>)
    ensures Ascending(Later(Lines(buf, 0), 1), if Find(buf, CRLF).Some? then Find(buf, CRLF).value else |buf|)
  {
    hide Find;
    LinesInOrder(buf, 0);
    assert buf[0..] == buf;
  }

  /** Every range of a parsed head lies inside the head, the first line's before the headers'. */
  lemma BlockInOrder(head: seq<Byte>, kind: HeadKind)
    requires ParseBlock(head, kind).Ok?
    ensures var h := ParseBlock(head, kind).value;
            && h.consumed == |head| + 4
            && h.line.first.Within(|head|) && h.line.second.Within(|head|)
            && InOrder(h.headers, Max(h.line.first.end, h.line.second.end), |head|)
  {
    hide Find;
    hide ParseFirstLine;
    hide Ascending;
    hide HeaderRanges;
    hide Lines;
    hide Later;
    hide InOrder;
    var end := FirstLineRange(head).value.end;
    var h := ParseBlock(head, kind).value;
    LaterAscends(head);
    HeadersInOrder(head, Later(Lines(head, 0), 1), end);
    InOrderFrom(h.headers, end, Max(h.line.first.end, h.line.second.end), |head|);
  }

  lemma RangesInOrder(buf: seq<Byte>, kind: HeadKind)
    requires ParseHead(buf, kind).Ok? && ParseHead(buf, kind).value.Some?
    ensures var h := ParseHead(buf, kind).value.value;
            && h.line.first.Within(h.consumed - 4) && h.line.second.Within(h.consumed - 4)
            && InOrder(h.headers, Max(h.line.first.end, h.line.second.end), h.consumed - 4)
  {
    hide Find;
    hide ParseBlock;
    hide InOrder;
    BlockInOrder(buf[..Find(buf, HEADER_DELIM).value], kind);
  }

  /** The version test looks at the major digit: the version of a response is the reported one iff it is 1.1. */
  lemma ResponseVersionIff(buf: seq<Byte>)
    requires ParseHead(buf, Response).Ok? && ParseHead(buf, Response).value.Some?
    ensures var version := ParseHead(buf, Response).value.value.line.version;
            && (HTTP_1_1 + [SP] <= buf || HTTP_1_0 + [SP] <= buf)
            && (version == (if HTTP_1_1 + [SP] <= buf then Http11 else Http10) <==> HTTP_1_1 + [SP] <= buf)
  {
    hide Find;
    hide Headers;
    var end := Find(buf, HEADER_DELIM).value;
    var line := Slice(buf[..end], FirstLineRange(buf[..end]).value);
    assert line <= buf;
    StatusLineVersion(line);
  }

  lemma StatusLineVersion(line: seq<Byte>)
    requires ParseStatusLine(line).Ok?
    ensures ParseStatusLine(line).value.version == Http11 && |line| >= 9
    ensures HTTP_1_1 + [SP] <= line || HTTP_1_0 + [SP] <= line
  {
    hide Trim;
    hide IsTrim;
    hide IsDigit;
    hide Digit;
    if HTTP_1_1 + [SP] <= line {
      assert line[5] == (HTTP_1_1 + [SP])[5];
    } else {
      assert line[5] == (HTTP_1_0 + [SP])[5];
    }
  }

  // ---- the parsed head as the values it names ----------------------------------------------

  /** "host", "content-length", "transfer-encoding", "connection". */
  const HOST: seq<Byte> := [104, 111, 115, 116]
  const CONTENT_LENGTH: seq<Byte> := [99, 111, 110, 116, 101, 110, 116, 45, 108, 101, 110, 103, 116, 104]
  const TRANSFER_ENCODING: seq<Byte> :=
    [116, 114, 97, 110, 115, 102, 101, 114, 45, 101, 110, 99, 111, 100, 105, 110, 103]
  const CONNECTION: seq<Byte> := [99, 111, 110, 110, 101, 99, 116, 105, 111, 110]

  datatype Field = Field(name: seq<Byte>, value: seq<Byte>)

  /** Method, target and version of a request, or reason, reason and status of a response. */
  datatype Head = Head(
    first: seq<Byte>, second: seq<Byte>, version: Version, status: Option<nat>, fields: seq<Field>)

  function Lower(b: Byte): Byte {
    if 65 <= b <= 90 then b + 32 else b
  }

  predicate EqIgnoreCase(a: seq<Byte>, b: seq<Byte>) {
    |a| == |b| && forall i :: 0 <= i < |a| ==> Lower(a[i]) == Lower(b[i])
  }

  /** The value of the first field of that name, in whatever case. */
  function Get(fs: seq<Field>, name: seq<Byte>): Option<seq<Byte>> {
    if fs == [] then None else if EqIgnoreCase(fs[0].name, name) then Some(fs[0].value) else Get(fs[1..], name)
  }

  function Fields(bytes: seq<Byte>, hs: seq<HeaderRange>, from: nat): (fs: seq<Field>)
    requires InOrder(hs, from, |bytes|)
    ensures |fs| == |hs|
    decreases |hs|
  {
    if hs == [] then []
    else [Field(Slice(bytes, hs[0].name), Slice(bytes, hs[0].value))] + Fields(bytes, hs[1..], hs[0].value.end)
  }

  function View(block: seq<Byte>, h: HeadRanges): Head
    requires h.line.first.Within(|block|) && h.line.second.Within(|block|)
    requires InOrder(h.headers, Max(h.line.first.end, h.line.second.end), |block|)
  {
    Head(Slice(block, h.line.first), Slice(block, h.line.second), h.line.version, h.line.status,
         Fields(block, h.headers, Max(h.line.first.end, h.line.second.end)))
  }

  /** The head at the front of `buf` and its length. */
  function HeadOf(buf: seq<Byte>, kind: HeadKind): (r: Result<Option<(Head, nat)>, HttpError>)
    ensures r == Ok(None) <==> ParseHead(buf, kind) == Ok(None)
    ensures r.Err? <==> ParseHead(buf, kind).Err?
    ensures r.Ok? && r.value.Some? ==> 4 < r.value.value.1 <= |buf| <= MAX_HEAD
  {
    match ParseHead(buf, kind)
    case Err(e) => Err(e)
    case Ok(None) => Ok(None)
    case Ok(Some(ranges)) =>
      RangesInOrder(buf, kind);
      ConsumedEnd(buf, kind);
      Ok(Some((View(buf[..ranges.consumed - 4], ranges), ranges.consumed)))
  }

  lemma HeadOfStable(buf: seq<Byte>, more: seq<Byte>, kind: HeadKind)
    requires |buf| + |more| <= MAX_HEAD && HeadOf(buf, kind) != Ok(None)
    ensures HeadOf(buf + more, kind) == HeadOf(buf, kind)
  {
    hide ParseHead;
    hide InOrder;
    hide View;
    HeadStable(buf, more, kind);
    if ParseHead(buf, kind).Ok? {
      var n := ParseHead(buf, kind).value.value.consumed;
      assert (buf + more)[..n - 4] == buf[..n - 4];
    }
  }
}
