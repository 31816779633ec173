/** Which heads are accepted at all: the grammar of the first line, of folding and of field lines. */
module HeadRules {
  import opened Bytes
  import opened HeadParser
  import opened HeadPrinters
  import opened Numerals
  import opened Search
  import opened Spelling
  import opened Wrappers

  // ---- the first line ----------------------------------------------------------------------

  /** Section 5.6.2 of RFC 9110: letters, digits and these marks. */
  lemma TokenBytes(b: Byte)
    ensures IsTchar(b) <==>
              48 <= b <= 57 || 65 <= b <= 90 || 97 <= b <= 122 ||
              b in {33, 35, 36, 37, 38, 39, 42, 43, 45, 46, 94, 95, 96, 124, 126}
  {
  }

  function RequestLineOf(v: Version, meth: seq<Byte>, target: seq<Byte>): seq<Byte> {
    meth + [SP] + target + [SP] + VersionText(v)
  }

  /** A request line as section 3 of RFC 9112 has it: a token, a target without a space, and a version. */
  predicate IsRequestLine(line: seq<Byte>, meth: seq<Byte>, target: seq<Byte>, v: Version) {
    && line == RequestLineOf(v, meth, target)
    && meth != [] && (forall i :: 0 <= i < |meth| ==> IsTchar(meth[i]))
    && target != [] && SP !in target
  }

  lemma CutAtSpace(s: seq<Byte>)
    requires Find(s, [SP]).Some?
    ensures var i := Find(s, [SP]).value;
            i < |s| && SP !in s[..i] && s == s[..i] + [SP] + s[i + 1..]
  {
    hide Find;
    hide Matches;
    ByteFound(s, SP);
    CutAt(s, Find(s, [SP]).value);
  }

  lemma CutAt(s: seq<Byte>, i: nat)
    requires i < |s|
    ensures s == s[..i] + [s[i]] + s[i + 1..]
  {
  }

  lemma TokenHasNoSpace(meth: seq<Byte>)
    requires forall i :: 0 <= i < |meth| ==> IsTchar(meth[i])
    ensures SP !in meth
  {
    assert !IsTchar(SP);
    hide IsTchar;
  }

  lemma VersionTextIff(v: Version)
    ensures (VersionText(v) == HTTP_1_1 <==> v == Http11) && (VersionText(v) == HTTP_1_0 <==> v == Http10)
  {
    assert HTTP_1_0[7] != HTTP_1_1[7];
  }

  /** What its first two spaces make of a line. */
  lemma WordsRead(line: seq<Byte>, sp1: nat, sp2: nat, v: Version)
    requires 0 < sp1 < |line| && Find(line, [SP]) == Some(sp1)
    requires forall i :: 0 <= i < sp1 ==> IsTchar(line[i])
    requires 0 < sp2 && sp1 + 1 + sp2 < |line| && Find(line[sp1 + 1..], [SP]) == Some(sp2)
    requires line[sp1 + 1..][sp2 + 1..] == VersionText(v)
    ensures ParseRequestLine(line) == Ok(FirstLine(Range(0, sp1), Range(sp1 + 1, sp1 + 1 + sp2), v, None))
  {
    hide Find;
    hide IsTchar;
    VersionTextIff(v);
    hide VersionText;
  }

  /** What a request line is read as. */
  lemma RequestLineRead(line: seq<Byte>, meth: seq<Byte>, target: seq<Byte>, v: Version)
    requires IsRequestLine(line, meth, target, v)
    ensures ParseRequestLine(line) ==
            Ok(FirstLine(Range(0, |meth|), Range(|meth| + 1, |meth| + 1 + |target|), v, None))
  {
    hide Find;
    hide IsTchar;
    hide ParseRequestLine;
    hide VersionText;
    var rest := target + [SP] + VersionText(v);
    TokenHasNoSpace(meth);
    SpaceEnds(meth, rest);
    SpaceEnds(target, VersionText(v));
    LineParts(meth, target, VersionText(v));
    WordsRead(line, |meth|, |target|, v);
  }

  lemma LineParts(meth: seq<Byte>, target: seq<Byte>, last: seq<Byte>)
    ensures var rest := target + [SP] + last;
            var line := meth + [SP] + target + [SP] + last;
            && line == meth + [SP] + rest && line[|meth| + 1..] == rest && rest[|target| + 1..] == last
            && forall i :: 0 <= i < |meth| ==> line[i] == meth[i]
  {
    var rest := target + [SP] + last;
    assert meth + [SP] + target + [SP] + last == meth + [SP] + rest;
  }

  /** Where the two spaces of an accepted line are. */
  lemma WordsFound(line: seq<Byte>) returns (sp1: nat, sp2: nat, v: Version)
    requires ParseRequestLine(line).Ok?
    ensures Find(line, [SP]) == Some(sp1) && 0 < sp1 < |line| && forall i :: 0 <= i < sp1 ==> IsTchar(line[i])
    ensures Find(line[sp1 + 1..], [SP]) == Some(sp2) && 0 < sp2 < |line| - sp1 - 1
    ensures line[sp1 + 1..][sp2 + 1..] == VersionText(v)
  {
    hide Find;
    hide IsTchar;
    sp1 := Find(line, [SP]).value;
    sp2 := Find(line[sp1 + 1..], [SP]).value;
    v := ParseRequestLine(line).value.version;
  }

  lemma RequestLineSound(line: seq<Byte>) returns (meth: seq<Byte>, target: seq<Byte>, v: Version)
    requires ParseRequestLine(line).Ok?
    ensures IsRequestLine(line, meth, target, v)
  {
    hide Find;
    hide IsTchar;
    hide ParseRequestLine;
    hide VersionText;
    var sp1, sp2, version := WordsFound(line);
    var rest := line[sp1 + 1..];
    meth, target, v := line[..sp1], rest[..sp2], version;
    CutAtSpace(line);
    CutAtSpace(rest);
    assert line == meth + [SP] + (target + [SP] + VersionText(v));
  }

  /** A request line is accepted iff it has that form. */
  lemma RequestLineIff(line: seq<Byte>)
    ensures ParseRequestLine(line).Ok? <==> exists meth, target, v :: IsRequestLine(line, meth, target, v)
  {
    hide ParseRequestLine;
    hide IsRequestLine;
    if ParseRequestLine(line).Ok? {
      var meth, target, v := RequestLineSound(line);
    }
    if meth, target, v :| IsRequestLine(line, meth, target, v) {
      RequestLineRead(line, meth, target, v);
    }
  }

  /** A status line: a version, three digits from 100 to 599, and anything behind them. */
  predicate IsStatusLine(line: seq<Byte>, v: Version, status: nat, tail: seq<Byte>) {
    100 <= status <= 599 && line == VersionText(v) + [SP] + Decimal(status) + tail
  }

  lemma StatusLineIff(line: seq<Byte>)
    ensures ParseStatusLine(line).Ok? <==> exists v, status: nat, tail :: IsStatusLine(line, v, status, tail)
  {
    hide IsStatusLine;
    hide ParseStatusLine;
    if v, status: nat, tail :| IsStatusLine(line, v, status, tail) {
      StatusRead(line, v, status, tail);
    }
    if ParseStatusLine(line).Ok? {
      StatusSound(line);
    }
  }

  lemma StatusRead(line: seq<Byte>, v: Version, status: nat, tail: seq<Byte>)
    requires IsStatusLine(line, v, status, tail)
    ensures ParseStatusLine(line).Ok? && ParseStatusLine(line).value.status == Some(status)
  {
    hide Decimal;
    hide Trim;
    hide IsTrim;
    ThreeDigits(status);
    var d := Decimal(status);
    assert line == VersionText(v) + [SP] + (d + tail);
    assert line[9..] == d + tail;
  }

  lemma StatusSound(line: seq<Byte>)
    requires ParseStatusLine(line).Ok?
    ensures exists v, status: nat, tail :: IsStatusLine(line, v, status, tail)
  {
    hide Decimal;
    hide Trim;
    hide IsTrim;
    hide IsDigit;
    hide Digit;
    var status := ParseStatusLine(line).value.status.value;
    var v := if HTTP_1_1 + [SP] <= line then Http11 else Http10;
    var d := line[9..][..3];
    assert line == VersionText(v) + [SP] + line[9..];
    assert line[9..] == d + line[12..];
    assert status == Digit(d[0]) * 100 + Digit(d[1]) * 10 + Digit(d[2]);
    hide ParseStatusLine;
    hide VersionText;
    DigitsOf(d, status);
    assert line == VersionText(v) + [SP] + d + line[12..];
    assert IsStatusLine(line, v, status, line[12..]);
  }

  lemma DigitsOf(d: seq<Byte>, n: nat)
    requires |d| == 3 && IsDigit(d[0]) && IsDigit(d[1]) && IsDigit(d[2]) && 100 <= n <= 599
    requires n == Digit(d[0]) * 100 + Digit(d[1]) * 10 + Digit(d[2])
    ensures d == Decimal(n)
  {
    hide Decimal;
    ThreeDigits(n);
    var e := Decimal(n);
    assert IsDigit(e[0]) && IsDigit(e[1]) && IsDigit(e[2]);
    SameDigit(d[0], e[0]);
    SameDigit(d[1], e[1]);
    SameDigit(d[2], e[2]);
    SameNumber(Digit(d[0]), Digit(d[1]), Digit(d[2]), Digit(e[0]), Digit(e[1]), Digit(e[2]));
    hide IsDigit;
    hide Digit;
    hide AllDigits;
    assert d == [d[0], d[1], d[2]] && e == [e[0], e[1], e[2]];
  }

  lemma SameNumber(a: nat, b: nat, c: nat, x: nat, y: nat, z: nat)
    requires b <= 9 && c <= 9 && y <= 9 && z <= 9 && a * 100 + b * 10 + c == x * 100 + y * 10 + z
    ensures a == x && b == y && c == z
  {
  }

  lemma SameDigit(a: Byte, b: Byte)
    requires IsDigit(a) && IsDigit(b)
    ensures Digit(a) == Digit(b) ==> a == b
  {
  }

  // ---- folding ---------------------------------------------------------------------------------

  /** A line that begins with white space, which continued the line before it in old messages. */
  predicate FoldedAt(s: seq<Byte>, i: nat) {
    i + 1 < |s| && s[i] == LF && (s[i + 1] == SP || s[i + 1] == TAB)
  }

  lemma HasFoldIff(s: seq<Byte>)
    ensures HasFold(s) <==> exists i: nat :: FoldedAt(s, i)
  {
    hide Find;
    if Find(s, [LF, SP]).Some? {
      MatchesPair(s, LF, SP, Find(s, [LF, SP]).value);
      assert FoldedAt(s, Find(s, [LF, SP]).value);
    }
    if Find(s, [LF, TAB]).Some? {
      MatchesPair(s, LF, TAB, Find(s, [LF, TAB]).value);
      assert FoldedAt(s, Find(s, [LF, TAB]).value);
    }
    if i: nat :| FoldedAt(s, i) {
      MatchesPair(s, LF, SP, i);
      MatchesPair(s, LF, TAB, i);
      if s[i + 1] == SP {
        FindIsFirst(s, [LF, SP], i);
      } else {
        FindIsFirst(s, [LF, TAB], i);
      }
    }
  }

  /** A complete head is refused for folding iff one of its lines begins with white space. */
  lemma FoldRefusedIff(buf: seq<Byte>, kind: HeadKind)
    requires |buf| <= MAX_HEAD && Find(buf, HEADER_DELIM).Some?
    ensures FindHeadEnd(buf).Err? <==> exists i: nat :: FoldedAt(buf[..Find(buf, HEADER_DELIM).value], i)
    ensures FindHeadEnd(buf).Err? ==> ParseHead(buf, kind) == Err(FindHeadEnd(buf).error)
    ensures FindHeadEnd(buf).Err? ==> FindHeadEnd(buf).error == Malformed("obsolete line folding in header block")
  {
    hide Find;
    hide HasFold;
    hide ParseBlock;
    HasFoldIff(buf[..Find(buf, HEADER_DELIM).value]);
  }

  // ---- field lines -----------------------------------------------------------------------------

  /** A line that is neither empty nor has a colon. */
  predicate LacksColon(buf: seq<Byte>, line: Range)
    requires line.Within(|buf|)
  {
    line.start < line.end && COLON !in Slice(buf, line)
  }

  lemma ColonIff(start: nat, line: seq<Byte>)
    ensures HeaderLine(start, line).Err? <==> COLON !in line
  {
    hide Find;
    ByteFound(line, COLON);
  }

  /** The field lines of a head are refused iff one of them lacks a colon. */
  lemma {:induction false} HeadersRefusedIff(buf: seq<Byte>, lines: seq<Range>)
    requires forall x :: x in lines ==> x.Within(|buf|)
    ensures HeaderRanges(buf, lines).Err? <==> exists i :: 0 <= i < |lines| && LacksColon(buf, lines[i])
    decreases |lines|
  {
    hide HeaderLine;
    if lines != [] {
      ColonIff(lines[0].start, Slice(buf, lines[0]));
      HeadersRefusedIff(buf, lines[1..]);
      if i :| 0 <= i < |lines| && LacksColon(buf, lines[i]) {
        assert i > 0 ==> lines[1..][i - 1] == lines[i];
      }
      if i :| 0 <= i < |lines[1..]| && LacksColon(buf, lines[1..][i]) {
        assert lines[1..][i] == lines[i + 1];
      }
    }
  }

  predicate AllOws(s: seq<Byte>) {
    forall i :: 0 <= i < |s| ==> IsOws(s[i])
  }

  /** A field line is its name up to the first colon, and its value without the white space around it. */
  lemma FieldLineRead(start: nat, name: seq<Byte>, before: seq<Byte>, value: seq<Byte>, after: seq<Byte>)
    requires COLON !in name && AllOws(before) && AllOws(after)
    requires value != [] && !IsOws(value[0]) && !IsOws(value[|value| - 1])
    ensures var n := start + |name| + 1 + |before|;
            HeaderLine(start, name + [COLON] + (before + value + after)) ==
            Ok(HeaderRange(Range(start, start + |name|), Range(n, n + |value|)))
  {
    hide Find;
    hide Trim;
    var text := before + value + after;
    var line := name + [COLON] + text;
    ColonEndsName(name, text);
    assert line[|name| + 1..] == text;
    Surrounded(before, value, after);
  }

  lemma Surrounded(before: seq<Byte>, value: seq<Byte>, after: seq<Byte>)
    requires AllOws(before) && AllOws(after)
    requires value != [] && !IsOws(value[0]) && !IsOws(value[|value| - 1])
    ensures Trim(before + value + after) == Range(|before|, |before| + |value|)
  {
    hide IsOws;
    hide Trim;
    var text := before + value + after;
    assert text[|before|] == value[0] && text[|before| + |value| - 1] == value[|value| - 1];
    assert forall i :: 0 <= i < |before| ==> text[i] == before[i];
    assert forall i :: |before| + |value| <= i < |text| ==> text[i] == after[i - |before| - |value|];
    TrimUnique(text, Trim(text), Range(|before|, |before| + |value|));
  }
}
