/** What the client and the server write as message heads, and what the parser makes of it. */
module HeadPrinters {
  import opened Bytes
  import opened HeadParser
  import opened Numerals
  import opened Search
  import opened Wrappers

  // ---- the text of a head --------------------------------------------------------------

  function FieldText(f: Field): seq<Byte> {
    f.name + [COLON, SP] + f.value
  }

  function FieldLines(fs: seq<Field>): seq<Byte> {
    if fs == [] then [] else FieldText(fs[0]) + CRLF + FieldLines(fs[1..])
  }

  function HeadText(line: seq<Byte>, fs: seq<Field>): seq<Byte> {
    line + CRLF + FieldLines(fs) + CRLF
  }

  predicate NamesHost(fs: seq<Field>) {
    exists i :: 0 <= i < |fs| && EqIgnoreCase(fs[i].name, HOST)
  }

  function RequestLine(meth: seq<Byte>, target: seq<Byte>): seq<Byte> {
    meth + [SP] + target + [SP] + HTTP_1_1
  }

  function VersionText(v: Version): seq<Byte> {
    if v == Http11 then HTTP_1_1 else HTTP_1_0
  }

  /** The status line of a server of either version. */
  function StatusLineOf(v: Version, status: nat, reason: seq<Byte>): seq<Byte> {
    VersionText(v) + [SP] + Decimal(status) + [SP] + reason
  }

  function StatusLine(status: nat, reason: seq<Byte>): seq<Byte> {
    StatusLineOf(Http11, status, reason)
  }

  /** The caller's headers, a host header unless there is one, and the length of the body. */
  function SentFields(headers: seq<Field>, host: seq<Byte>, bodyLen: nat): seq<Field> {
    headers + (if NamesHost(headers) then [] else [Field(HOST, host)]) + [Field(CONTENT_LENGTH, Decimal(bodyLen))]
  }

  lemma {:induction false} FieldLinesAppend(fs: seq<Field>, f: Field)
    ensures FieldLines(fs + [f]) == FieldLines(fs) + (FieldText(f) + CRLF)
  {
    hide FieldText;
    if fs == [] {
      assert fs + [f] == [f];
    } else {
      FieldLinesAppend(fs[1..], f);
      assert (fs + [f])[1..] == fs[1..] + [f];
    }
  }

  method PushField(head: seq<Byte>, f: Field) returns (r: seq<Byte>)
    ensures r == head + (FieldText(f) + CRLF)
  {
    r := head + f.name;
    r := r + [COLON, SP];
    r := r + f.value;
    r := r + CRLF;
  }

  /** The head that the client's `send` writes. */
  method RenderRequest(meth: seq<Byte>, target: seq<Byte>, headers: seq<Field>, host: seq<Byte>, bodyLen: nat)
    returns (head: seq<Byte>)
    ensures head == HeadText(RequestLine(meth, target), SentFields(headers, host, bodyLen))
  {
    hide FieldLines;
    hide EqIgnoreCase;
    hide FieldText;
    hide RequestLine;
    hide Decimal;
    var line := RequestLine(meth, target) + CRLF;
    head := line;
    var hasHost := false;
    assert FieldLines([]) == [] by { NoFields(); }
    for i := 0 to |headers|
      invariant head == line + FieldLines(headers[..i])
      invariant hasHost <==> NamesHost(headers[..i])
    {
      if EqIgnoreCase(headers[i].name, HOST) {
        hasHost := true;
      }
      head := PushField(head, headers[i]);
      FieldLinesAppend(headers[..i], headers[i]);
      assert headers[..i + 1] == headers[..i] + [headers[i]];
    }
    assert headers[..|headers|] == headers;
    ghost var fs := headers;
    if !hasHost {
      head := PushField(head, Field(HOST, host));
      FieldLinesAppend(fs, Field(HOST, host));
      fs := fs + [Field(HOST, host)];
    }
    assert head == line + FieldLines(fs);
    head := PushField(head, Field(CONTENT_LENGTH, Decimal(bodyLen)));
    head := head + CRLF;
    FieldLinesAppend(fs, Field(CONTENT_LENGTH, Decimal(bodyLen)));
    assert SentFields(headers, host, bodyLen) == fs + [Field(CONTENT_LENGTH, Decimal(bodyLen))];
  }

  lemma NoFields()
    ensures FieldLines([]) == []
  {
  }

  /** The head that the server writes; the length is left out when there is no body. */
  method RenderHead(status: nat, reason: seq<Byte>, headers: seq<Field>, includeLength: bool, bodyLen: nat)
    returns (head: seq<Byte>)
    ensures head == HeadText(StatusLine(status, reason),
                             headers + if includeLength then [Field(CONTENT_LENGTH, Decimal(bodyLen))] else [])
  {
    hide FieldLines;
    hide FieldText;
    hide StatusLine;
    hide Decimal;
    var line := StatusLine(status, reason) + CRLF;
    head := line;
    assert FieldLines([]) == [] by { NoFields(); }
    for i := 0 to |headers|
      invariant head == line + FieldLines(headers[..i])
    {
      head := PushField(head, headers[i]);
      FieldLinesAppend(headers[..i], headers[i]);
      assert headers[..i + 1] == headers[..i] + [headers[i]];
    }
    assert headers[..|headers|] == headers;
    assert headers + [] == headers;
    if includeLength {
      head := PushField(head, Field(CONTENT_LENGTH, Decimal(bodyLen)));
      FieldLinesAppend(headers, Field(CONTENT_LENGTH, Decimal(bodyLen)));
    }
    head := head + CRLF;
  }

  // ---- a head as its lines ---------------------------------------------------------------

  /** No line break, and nothing that reads as the continuation of another line. */
  predicate CleanLine(l: seq<Byte>) {
    l != [] && !IsOws(l[0]) && forall i :: 0 <= i < |l| ==> l[i] != CR && l[i] != LF
  }

  predicate AllClean(ls: seq<seq<Byte>>) {
    forall i :: 0 <= i < |ls| ==> CleanLine(ls[i])
  }

  function Joined(ls: seq<seq<Byte>>): (s: seq<Byte>)
    requires ls != []
    ensures ls[0] <= s
  {
    if |ls| == 1 then ls[0] else ls[0] + CRLF + Joined(ls[1..])
  }

  function Texts(fs: seq<Field>): (ls: seq<seq<Byte>>)
    ensures |ls| == |fs| && forall i :: 0 <= i < |fs| ==> ls[i] == FieldText(fs[i])
  {
    if fs == [] then [] else [FieldText(fs[0])] + Texts(fs[1..])
  }

  lemma {:induction false} HeadTextIsJoined(line: seq<Byte>, fs: seq<Field>)
    ensures HeadText(line, fs) == Joined([line] + Texts(fs)) + HEADER_DELIM
    decreases |fs|
  {
    hide FieldText;
    assert CRLF + CRLF == HEADER_DELIM;
    if fs == [] {
      assert [line] + Texts(fs) == [line];
      assert HeadText(line, fs) == line + HEADER_DELIM;
    } else {
      HeadTextIsJoined(FieldText(fs[0]), fs[1..]);
      var ls := [line] + Texts(fs);
      assert ls[1..] == [FieldText(fs[0])] + Texts(fs[1..]);
      assert HeadText(line, fs) == line + CRLF + HeadText(FieldText(fs[0]), fs[1..]);
    }
  }

  /** A blank line starts nowhere inside clean lines. */
  lemma {:induction false} NoEarlyBlankLine(ls: seq<seq<Byte>>, tail: seq<Byte>, j: nat)
    requires ls != [] && AllClean(ls) && j < |Joined(ls)|
    ensures !Matches(Joined(ls) + tail, HEADER_DELIM, j)
    decreases |ls|
  {
    var s := Joined(ls) + tail;
    assert CleanLine(ls[0]) && forall k :: 0 <= k < |ls[0]| ==> s[k] == ls[0][k];
    if |ls| > 1 {
      var n := |ls[0]| + 2;
      var rest := Joined(ls[1..]) + tail;
      assert s == ls[0] + CRLF + rest;
      assert CleanLine(ls[1]) && s[n] == rest[0] == ls[1][0];
      if j >= n {
        assert s[j..] == rest[j - n..];
        assert j + 4 <= |s| ==> s[j..j + 4] == rest[j - n..j - n + 4];
        NoEarlyBlankLine(ls[1..], tail, j - n);
      }
    }
    BlankLineBytes(s, j);
  }

  lemma BlankLineBytes(s: seq<Byte>, j: nat)
    ensures Matches(s, HEADER_DELIM, j) ==> s[j] == CR && s[j + 2] == CR
  {
    if Matches(s, HEADER_DELIM, j) {
      assert s[j] == s[j..j + 4][0] && s[j + 2] == s[j..j + 4][2];
    }
  }

  /** No line feed inside joined clean lines is followed by white space. */
  lemma {:induction false} NoFoldAt(ls: seq<seq<Byte>>, j: nat)
    requires ls != [] && AllClean(ls) && j + 1 < |Joined(ls)| && Joined(ls)[j] == LF
    ensures !IsOws(Joined(ls)[j + 1])
    decreases |ls|
  {
    var s := Joined(ls);
    assert CleanLine(ls[0]) && forall k :: 0 <= k < |ls[0]| ==> s[k] == ls[0][k];
    if |ls| > 1 {
      var n := |ls[0]| + 2;
      var rest := Joined(ls[1..]);
      assert s == ls[0] + CRLF + rest;
      assert CleanLine(ls[1]) && s[n] == rest[0] == ls[1][0];
      if j >= n {
        assert s[j] == rest[j - n] && s[j + 1] == rest[j + 1 - n];
        NoFoldAt(ls[1..], j - n);
      }
    }
  }

  lemma NoFold(ls: seq<seq<Byte>>)
    requires ls != [] && AllClean(ls)
    ensures !HasFold(Joined(ls))
  {
    hide Find;
    hide Joined;
    hide AllClean;
    var s := Joined(ls);
    forall j: nat
      ensures !Matches(s, [LF, SP], j) && !Matches(s, [LF, TAB], j)
    {
      MatchesPair(s, LF, SP, j);
      MatchesPair(s, LF, TAB, j);
      if j + 1 < |s| && s[j] == LF {
        NoFoldAt(ls, j);
      }
    }
    FindNothing(s, [LF, SP]);
    FindNothing(s, [LF, TAB]);
  }

  /** So the parser finds exactly the end of the joined lines. */
  lemma EndOfJoined(ls: seq<seq<Byte>>, rest: seq<Byte>)
    requires ls != [] && AllClean(ls) && |Joined(ls)| + 4 + |rest| <= MAX_HEAD
    ensures FindHeadEnd(Joined(ls) + HEADER_DELIM + rest) == Ok(Some(|Joined(ls)|))
  {
    hide Find;
    hide Joined;
    hide AllClean;
    hide HasFold;
    var s := Joined(ls);
    var tail := HEADER_DELIM + rest;
    var buf := s + HEADER_DELIM + rest;
    assert buf == s + tail;
    forall j: nat | j < |s|
      ensures !Matches(buf, HEADER_DELIM, j)
    {
      NoEarlyBlankLine(ls, tail, j);
    }
    assert buf[|s|..|s| + 4] == HEADER_DELIM;
    FindIs(buf, HEADER_DELIM, |s|);
    assert buf[..|s|] == s;
    NoFold(ls);
  }

  lemma FirstOfJoined(buf: seq<Byte>, start: nat, ls: seq<seq<Byte>>)
    requires ls != [] && CleanLine(ls[0]) && start <= |buf| && buf[start..] == Joined(ls)
    ensures var r := Range(start, start + |ls[0]|);
            && r.Within(|buf|) && Slice(buf, r) == ls[0]
            && (|ls| == 1 ==> Lines(buf, start) == [r])
            && (|ls| > 1 ==> r.end + 2 <= |buf| && buf[r.end + 2..] == Joined(ls[1..]) &&
                             Lines(buf, start) == [r] + Lines(buf, r.end + 2))
  {
    hide Lines;
    hide Find;
    var l := ls[0];
    var end := start + |l|;
    assert forall j :: 0 <= j < |l| ==> buf[start + j] == buf[start..][j] == l[j];
    if |ls| == 1 {
      LastLineAt(buf, start);
    } else {
      assert buf[start..] == l + CRLF + Joined(ls[1..]);
      assert buf[end] == buf[start..][|l|] && buf[end + 1] == buf[start..][|l| + 1];
      FirstLineAt(buf, start, end);
      assert buf[end + 2..] == buf[start..][|l| + 2..];
    }
  }

  /** Splitting at line breaks gives the lines back. */
  lemma {:induction false} LinesOfJoined(buf: seq<Byte>, start: nat, ls: seq<seq<Byte>>)
    requires ls != [] && AllClean(ls) && start <= |buf| && buf[start..] == Joined(ls)
    ensures var r := Lines(buf, start);
            |r| == |ls| && forall i :: 0 <= i < |ls| ==> r[i].Within(|buf|) && Slice(buf, r[i]) == ls[i]
    decreases |ls|
  {
    hide Lines;
    hide Joined;
    hide CleanLine;
    FirstOfJoined(buf, start, ls);
    if |ls| > 1 {
      var end := start + |ls[0]|;
      LinesOfJoined(buf, end + 2, ls[1..]);
      assert forall i :: 1 <= i < |ls| ==>
        Lines(buf, start)[i] == Lines(buf, end + 2)[i - 1] && ls[i] == ls[1..][i - 1];
    }
  }

  // ---- header fields ---------------------------------------------------------------------

  predicate CleanField(f: Field) {
    && CleanLine(FieldText(f))
    && COLON !in f.name
    && (f.value == [] || (!IsOws(f.value[0]) && !IsOws(f.value[|f.value| - 1])))
  }

  lemma ColonEndsName(name: seq<Byte>, rest: seq<Byte>)
    requires COLON !in name
    ensures Find(name + [COLON] + rest, [COLON]) == Some(|name|)
  {
    hide Find;
    var line := name + [COLON] + rest;
    var n := |name|;
    assert line[n..n + 1] == [COLON];
    forall j: nat | j < n
      ensures !Matches(line, [COLON], j)
    {
      assert line[j..j + 1][0] == name[j];
    }
    FindIs(line, [COLON], n);
  }

  lemma TrimPadded(value: seq<Byte>)
    requires value == [] || (!IsOws(value[0]) && !IsOws(value[|value| - 1]))
    ensures Trim([SP] + value) == Range(1, 1 + |value|)
  {
    hide Trim;
    var v := [SP] + value;
    TrimUnique(v, Range(1, 1 + |value|), Trim(v));
  }

  lemma FieldReadBack(start: nat, f: Field)
    requires CleanField(f)
    ensures var n := start + |f.name|;
            HeaderLine(start, FieldText(f)) == Ok(HeaderRange(Range(start, n), Range(n + 2, n + 2 + |f.value|)))
  {
    hide Find;
    hide Trim;
    hide CleanLine;
    var line := FieldText(f);
    var v := [SP] + f.value;
    assert line == f.name + [COLON] + v;
    ColonEndsName(f.name, v);
    assert line[|f.name| + 1..] == v;
    TrimPadded(f.value);
  }

  /** The header lines read back are the fields printed. */
  lemma {:induction false} FieldsReadBack(buf: seq<Byte>, lines: seq<Range>, fs: seq<Field>, from: nat)
    requires |lines| == |fs| && Ascending(lines, from)
    requires forall x :: x in lines ==> x.Within(|buf|)
    requires forall i :: 0 <= i < |fs| ==> CleanField(fs[i]) && Slice(buf, lines[i]) == FieldText(fs[i])
    ensures HeaderRanges(buf, lines).Ok?
    ensures var hs := HeaderRanges(buf, lines).value; InOrder(hs, from, |buf|) && Fields(buf, hs, from) == fs
    decreases |fs|
  {
    hide CleanField;
    hide HeaderLine;
    hide FieldText;
    if fs != [] {
      assert CleanField(fs[0]) && Slice(buf, lines[0]) == FieldText(fs[0]);
      FieldReadBack(lines[0].start, fs[0]);
      FieldsReadBack(buf, lines[1..], fs[1..], lines[0].end);
      OneFieldReadBack(buf, lines[0], fs[0]);
      var hs := HeaderRanges(buf, lines).value;
      assert hs[1..] == HeaderRanges(buf, lines[1..]).value;
      FieldsFrom(buf, hs[1..], lines[0].end, hs[0].value.end);
    }
  }

  lemma OneFieldReadBack(buf: seq<Byte>, line: Range, f: Field)
    requires line.Within(|buf|) && Slice(buf, line) == FieldText(f) && CleanField(f)
    ensures var n := line.start + |f.name|;
            && line.start < line.end && n + 2 + |f.value| == line.end
            && buf[line.start..n] == f.name && buf[n + 2..n + 2 + |f.value|] == f.value
  {
    var t := FieldText(f);
    var n := |f.name|;
    assert t[..n] == f.name && t[n + 2..] == f.value;
    assert buf[line.start..line.start + n] == Slice(buf, line)[..n];
    assert buf[line.start + n + 2..line.end] == Slice(buf, line)[n + 2..];
  }

  lemma FieldsFrom(buf: seq<Byte>, hs: seq<HeaderRange>, from: nat, low: nat)
    requires InOrder(hs, from, |buf|) && low <= from
    ensures InOrder(hs, low, |buf|) && Fields(buf, hs, low) == Fields(buf, hs, from)
  {
  }

  // ---- parsing what was printed ----------------------------------------------------------

  predicate CleanFields(fs: seq<Field>) {
    forall i :: 0 <= i < |fs| ==> CleanField(fs[i])
  }

  lemma {:induction false} JoinedStartsWith(ls: seq<seq<Byte>>)
    requires ls != [] && AllClean(ls)
    ensures FirstLineRange(Joined(ls)) == Some(Range(0, |ls[0]|))
    ensures Slice(Joined(ls), Range(0, |ls[0]|)) == ls[0]
  {
    hide Find;
    hide Joined;
    var buf := Joined(ls);
    assert buf[0..] == buf;
    LinesOfJoined(buf, 0, ls);
    FirstOfLines(buf);
    assert CleanLine(ls[0]);
  }

  lemma FirstOfLines(buf: seq<Byte>)
    requires buf != []
    ensures Lines(buf, 0) != [] && FirstLineRange(buf) == Some(Lines(buf, 0)[0])
  {
    hide Find;
    assert buf[0..] == buf;
  }

  lemma HeadersReadBack(line: seq<Byte>, fs: seq<Field>)
    requires CleanLine(line) && CleanFields(fs)
    ensures var block := Joined([line] + Texts(fs));
            && Headers(block, 1).Ok?
            && InOrder(Headers(block, 1).value, |line|, |block|)
            && Fields(block, Headers(block, 1).value, |line|) == fs
  {
    hide Find;
    hide Joined;
    hide FieldText;
    hide CleanLine;
    hide CleanField;
    hide HeaderRanges;
    hide Lines;
    hide Ascending;
    hide InOrder;
    hide Fields;
    hide AllClean;
    var ls := [line] + Texts(fs);
    var block := Joined(ls);
    TextsAreClean(line, fs);
    JoinedStartsWith(ls);
    assert block[0..] == block;
    LinesOfJoined(block, 0, ls);
    LaterAscends(block);
    var all := Lines(block, 0);
    assert Later(all, 1) == all[1..];
    FirstBreak(block, |line|);
    FieldsReadBack(block, all[1..], fs, |line|);
  }

  lemma BlockReadBack(line: seq<Byte>, fs: seq<Field>, kind: HeadKind)
    requires CleanLine(line) && CleanFields(fs) && ParseFirstLine(line, kind).Ok?
    ensures var block := Joined([line] + Texts(fs));
            var first := ParseFirstLine(line, kind).value;
            var h := ParseBlock(block, kind);
            && h.Ok? && h.value.line == first && h.value.consumed == |block| + 4
            && InOrder(h.value.headers, |line|, |block|) && Fields(block, h.value.headers, |line|) == fs
            && line <= block
  {
    hide Joined;
    hide ParseFirstLine;
    hide CleanLine;
    hide CleanField;
    hide AllClean;
    hide FirstLineRange;
    hide Headers;
    hide InOrder;
    hide Fields;
    TextsAreClean(line, fs);
    JoinedStartsWith([line] + Texts(fs));
    HeadersReadBack(line, fs);
  }

  lemma FirstBreak(block: seq<Byte>, n: nat)
    requires FirstLineRange(block) == Some(Range(0, n))
    ensures n == if Find(block, CRLF).Some? then Find(block, CRLF).value else |block|
  {
    hide Find;
  }

  lemma TextsAreClean(line: seq<Byte>, fs: seq<Field>)
    requires CleanLine(line) && CleanFields(fs)
    ensures AllClean([line] + Texts(fs))
  {
    hide CleanLine;
    hide FieldText;
    forall i | 0 <= i < |[line] + Texts(fs)|
      ensures CleanLine(([line] + Texts(fs))[i])
    {
      if i > 0 {
        assert CleanField(fs[i - 1]);
      }
    }
  }

  function PrintedHead(line: seq<Byte>, fs: seq<Field>, kind: HeadKind): Head
    requires ParseFirstLine(line, kind).Ok?
  {
    var l := ParseFirstLine(line, kind).value;
    Head(Slice(line, l.first), Slice(line, l.second), l.version, l.status, fs)
  }

  /** Whatever follows, parsing a printed head gives its first line and its fields, and takes all of it. */
  lemma PrintedIsParsed(line: seq<Byte>, fs: seq<Field>, rest: seq<Byte>, kind: HeadKind)
    requires CleanLine(line) && CleanFields(fs) && ParseFirstLine(line, kind).Ok?
    requires |HeadText(line, fs)| + |rest| <= MAX_HEAD
    ensures HeadOf(HeadText(line, fs) + rest, kind) ==
            Ok(Some((PrintedHead(line, fs, kind), |HeadText(line, fs)|)))
  {
    hide Joined;
    hide ParseFirstLine;
    hide CleanLine;
    hide CleanField;
    hide FindHeadEnd;
    hide ParseBlock;
    hide InOrder;
    hide Fields;
    hide HeadText;
    var ls := [line] + Texts(fs);
    var block := Joined(ls);
    var buf := HeadText(line, fs) + rest;
    HeadTextIsJoined(line, fs);
    TextsAreClean(line, fs);
    EndOfJoined(ls, rest);
    assert buf == block + HEADER_DELIM + rest;
    assert buf[..|block|] == block;
    BlockReadBack(line, fs, kind);
    var h := ParseBlock(block, kind).value;
    BlockInOrder(block, kind);
    SameFields(block, h.headers, |line|, Max(h.line.first.end, h.line.second.end));
    assert Slice(block, h.line.first) == Slice(line, h.line.first);
    assert Slice(block, h.line.second) == Slice(line, h.line.second);
  }

  lemma {:induction false} SameFields(buf: seq<Byte>, hs: seq<HeaderRange>, a: nat, b: nat)
    requires InOrder(hs, a, |buf|) && InOrder(hs, b, |buf|)
    ensures Fields(buf, hs, a) == Fields(buf, hs, b)
  {
  }

  // ---- the two first lines ---------------------------------------------------------------

  predicate CleanText(s: seq<Byte>) {
    forall i :: 0 <= i < |s| ==> s[i] != CR && s[i] != LF && s[i] != SP
  }

  predicate GoodRequest(meth: seq<Byte>, target: seq<Byte>) {
    && meth != [] && (forall i :: 0 <= i < |meth| ==> IsTchar(meth[i]))
    && target != [] && CleanText(target)
  }

  lemma SpaceEnds(word: seq<Byte>, rest: seq<Byte>)
    requires SP !in word
    ensures Find(word + [SP] + rest, [SP]) == Some(|word|)
  {
    hide Find;
    var line := word + [SP] + rest;
    var n := |word|;
    assert line[n..n + 1] == [SP];
    forall j: nat | j < n
      ensures !Matches(line, [SP], j)
    {
      assert line[j..j + 1][0] == word[j];
    }
    FindIs(line, [SP], n);
  }

  lemma RequestLineReadBack(meth: seq<Byte>, target: seq<Byte>)
    requires GoodRequest(meth, target)
    ensures ParseRequestLine(RequestLine(meth, target)) ==
            Ok(FirstLine(Range(0, |meth|), Range(|meth| + 1, |meth| + 1 + |target|), Http11, None))
  {
    hide Find;
    hide IsTchar;
    var line := RequestLine(meth, target);
    var rest := target + [SP] + HTTP_1_1;
    assert line == meth + [SP] + rest;
    NoSpaceInside(meth, target);
    SpaceEnds(meth, rest);
    SpaceEnds(target, HTTP_1_1);
    assert line[|meth| + 1..] == rest;
    assert rest[|target| + 1..] == HTTP_1_1;
    assert forall i :: 0 <= i < |meth| ==> line[i] == meth[i];
  }

  lemma NoSpaceInside(meth: seq<Byte>, target: seq<Byte>)
    requires GoodRequest(meth, target)
    ensures SP !in meth && SP !in target
  {
  }

  lemma RequestLineWords(meth: seq<Byte>, target: seq<Byte>)
    ensures var line := RequestLine(meth, target);
            && |line| >= |meth| + 1 + |target|
            && line[0..|meth|] == meth && line[|meth| + 1..|meth| + 1 + |target|] == target
  {
  }

  lemma RequestLineIsClean(meth: seq<Byte>, target: seq<Byte>)
    requires GoodRequest(meth, target)
    ensures CleanLine(RequestLine(meth, target))
  {
    hide CleanLine;
    var rest := target + [SP] + HTTP_1_1;
    assert RequestLine(meth, target) == meth + [SP] + rest;
    CleanParts(meth, rest);
  }

  lemma CleanParts(meth: seq<Byte>, rest: seq<Byte>)
    requires meth != [] && forall i :: 0 <= i < |meth| ==> IsTchar(meth[i])
    requires forall i :: 0 <= i < |rest| ==> rest[i] != CR && rest[i] != LF
    ensures CleanLine(meth + [SP] + rest)
  {
    var line := meth + [SP] + rest;
    assert line[0] == meth[0] && IsTchar(meth[0]);
  }

  /** What the client writes is what the server reads: method, target, and every field in order. */
  lemma RequestRoundTrip(
      meth: seq<Byte>, target: seq<Byte>, headers: seq<Field>, host: seq<Byte>, bodyLen: nat, rest: seq<Byte>)
    requires GoodRequest(meth, target) && CleanFields(headers) && CleanField(Field(HOST, host))
    requires |HeadText(RequestLine(meth, target), SentFields(headers, host, bodyLen))| + |rest| <= MAX_HEAD
    ensures var text := HeadText(RequestLine(meth, target), SentFields(headers, host, bodyLen));
            HeadOf(text + rest, Request) ==
            Ok(Some((Head(meth, target, Http11, None, SentFields(headers, host, bodyLen)), |text|)))
  {
    hide HeadOf;
    hide HeadText;
    hide SentFields;
    hide ParseRequestLine;
    hide RequestLine;
    hide CleanLine;
    hide CleanFields;
    hide CleanField;
    SentFieldsAreClean(headers, host, bodyLen);
    RequestLineReadBack(meth, target);
    RequestLineWords(meth, target);
    RequestLineIsClean(meth, target);
    var line, fs := RequestLine(meth, target), SentFields(headers, host, bodyLen);
    assert PrintedHead(line, fs, Request) == Head(meth, target, Http11, None, fs);
    hide PrintedHead;
    hide ParseFirstLine;
    PrintedIsParsed(line, fs, rest, Request);
  }

  predicate GoodReason(reason: seq<Byte>) {
    && (forall i :: 0 <= i < |reason| ==> reason[i] != CR && reason[i] != LF)
    && (reason == [] || (!IsOws(reason[0]) && !IsOws(reason[|reason| - 1])))
  }

  lemma ThreeDigits(n: nat)
    requires 100 <= n <= 599
    ensures var s := Decimal(n);
            && |s| == 3 && AllDigits(s) && OnOneLine(s)
            && Digit(s[0]) * 100 + Digit(s[1]) * 10 + Digit(s[2]) == n
  {
    hide DigitByte;
    DigitRoundTrip(n / 100);
    DigitRoundTrip(n / 10 % 10);
    DigitRoundTrip(n % 10);
    assert n / 10 / 10 == n / 100;
    assert Decimal(n / 100) == [DigitByte(n / 100)];
    assert Decimal(n / 10) == [DigitByte(n / 100)] + [DigitByte(n / 10 % 10)];
    assert Decimal(n) == [DigitByte(n / 100)] + [DigitByte(n / 10 % 10)] + [DigitByte(n % 10)];
  }

  lemma StatusLineIsClean(v: Version, status: nat, reason: seq<Byte>)
    requires 100 <= status <= 599 && GoodReason(reason)
    ensures CleanLine(StatusLineOf(v, status, reason))
  {
    hide Decimal;
    hide DecimalValue;
    ThreeDigits(status);
    var d := Decimal(status);
    var line := StatusLineOf(v, status, reason);
    var start := VersionText(v) + [SP];
    var tail := [SP] + reason;
    assert line == start + d + tail;
    assert forall i :: 0 <= i < 3 ==> line[9 + i] == d[i];
    assert forall i :: 0 <= i < |tail| ==> line[12 + i] == tail[i];
  }

  lemma StatusLineReadBack(v: Version, status: nat, reason: seq<Byte>)
    requires 100 <= status <= 599 && GoodReason(reason)
    ensures var line, n := StatusLineOf(v, status, reason), 13 + |reason|;
            && ParseStatusLine(line) == Ok(FirstLine(Range(13, n), Range(13, n), Http11, Some(status)))
            && |line| == n && line[13..n] == reason
  {
    hide Decimal;
    hide Trim;
    hide IsTrim;
    ThreeDigits(status);
    var d := Decimal(status);
    var line := StatusLineOf(v, status, reason);
    var tail := [SP] + reason;
    StatusLineParts(VersionText(v) + [SP], d, reason);
    assert line == VersionText(v) + [SP] + d + tail;
    assert line[5] == (VersionText(v) + [SP])[5];
    TrimPadded(reason);
  }

  lemma StatusLineParts(start: seq<Byte>, d: seq<Byte>, reason: seq<Byte>)
    requires |start| == 9 && |d| == 3
    ensures var tail := [SP] + reason;
            var line := start + d + tail;
            && |line| == 13 + |reason| && line[..9] == start && line[9..] == d + tail && line[9..][3..] == tail
            && line[13..13 + |reason|] == reason && forall i :: 0 <= i < 9 ==> line[i] == start[i]
  {
    var line := start + d + ([SP] + reason);
    assert line == (start + d + [SP]) + reason;
  }

  /** The response of a server of either version is read, but always as one of HTTP/1.1. */
  lemma EitherVersionRead(v: Version, status: nat, reason: seq<Byte>, fs: seq<Field>, rest: seq<Byte>)
    requires 100 <= status <= 599 && GoodReason(reason) && CleanFields(fs)
    requires |HeadText(StatusLineOf(v, status, reason), fs)| + |rest| <= MAX_HEAD
    ensures var text := HeadText(StatusLineOf(v, status, reason), fs);
            HeadOf(text + rest, Response) == Ok(Some((Head(reason, reason, Http11, Some(status), fs), |text|)))
  {
    hide HeadOf;
    hide HeadText;
    hide ParseStatusLine;
    hide StatusLineOf;
    hide CleanLine;
    hide CleanFields;
    StatusLineReadBack(v, status, reason);
    StatusLineIsClean(v, status, reason);
    var line := StatusLineOf(v, status, reason);
    assert PrintedHead(line, fs, Response) == Head(reason, reason, Http11, Some(status), fs);
    hide PrintedHead;
    hide ParseFirstLine;
    PrintedIsParsed(line, fs, rest, Response);
  }

  /** And what the server writes is what the client reads. */
  lemma ResponseRoundTrip(status: nat, reason: seq<Byte>, fs: seq<Field>, rest: seq<Byte>)
    requires 100 <= status <= 599 && GoodReason(reason) && CleanFields(fs)
    requires |HeadText(StatusLine(status, reason), fs)| + |rest| <= MAX_HEAD
    ensures var text := HeadText(StatusLine(status, reason), fs);
            HeadOf(text + rest, Response) == Ok(Some((Head(reason, reason, Http11, Some(status), fs), |text|)))
  {
    hide HeadOf;
    hide HeadText;
    EitherVersionRead(Http11, status, reason, fs, rest);
  }

  // ---- the fields the library adds ---------------------------------------------------------

  lemma LengthFieldIsClean(n: nat)
    ensures CleanField(Field(CONTENT_LENGTH, Decimal(n)))
  {
    DecimalRoundTrip(n);
    var digits := Decimal(n);
    hide Decimal;
    assert IsDigit(digits[0]) && IsDigit(digits[|digits| - 1]);
    NameIsClean(digits);
  }

  lemma NameIsClean(digits: seq<Byte>)
    requires AllDigits(digits)
    ensures CleanLine(FieldText(Field(CONTENT_LENGTH, digits))) && COLON !in CONTENT_LENGTH
  {
    var name := CONTENT_LENGTH;
    var line := FieldText(Field(name, digits));
    assert name[0] == 99;
    assert forall b :: b in name ==> 45 <= b <= 122 && b != COLON;
    forall i | 0 <= i < |line|
      ensures line[i] != CR && line[i] != LF
    {
      if i < |name| {
        assert line[i] == name[i] && name[i] in name;
      } else if i >= |name| + 2 {
        assert line[i] == digits[i - |name| - 2];
      }
    }
  }

  lemma WithLengthClean(fs: seq<Field>, n: nat)
    requires CleanFields(fs)
    ensures CleanFields(fs + [Field(CONTENT_LENGTH, Decimal(n))])
  {
    hide CleanField;
    LengthFieldIsClean(n);
  }

  /** Clean headers and a clean host make a clean head. */
  lemma SentFieldsAreClean(headers: seq<Field>, host: seq<Byte>, bodyLen: nat)
    requires CleanFields(headers) && CleanField(Field(HOST, host))
    ensures CleanFields(SentFields(headers, host, bodyLen))
  {
    hide CleanField;
    hide NamesHost;
    hide Decimal;
    assert headers + [] == headers;
    WithLengthClean(headers, bodyLen);
    WithLengthClean(headers + [Field(HOST, host)], bodyLen);
  }
}
