/** Finding the first occurrence of a byte pattern. */
module Search {
  import opened Bytes
  import opened Wrappers

  predicate Matches(s: seq<Byte>, needle: seq<Byte>, i: nat) {
    i + |needle| <= |s| && s[i..i + |needle|] == needle
  }

  lemma MatchesPair(s: seq<Byte>, a: Byte, b: Byte, i: nat)
    ensures Matches(s, [a, b], i) <==> i + 1 < |s| && s[i] == a && s[i + 1] == b
  {
    if i + 1 < |s| {
      assert s[i..i + 2] == [s[i], s[i + 1]];
    }
  }

  /** Where `needle` first occurs in `s`. */
  function Find(s: seq<Byte>, needle: seq<Byte>): (r: Option<nat>)
    ensures r.Some? ==> Matches(s, needle, r.value)
    decreases |s|
  {
    if |needle| > |s| then None
    else if s[..|needle|] == needle then Some(0)
    else if s == [] then None
    else
      match Find(s[1..], needle)
      case None => None
      case Some(i) =>
        assert s[1..][i..i + |needle|] == s[i + 1..i + 1 + |needle|];
        Some(i + 1)
  }

  /** It occurs nowhere before that; if it is not found it occurs nowhere. */
  lemma {:induction false} FindIsFirst(s: seq<Byte>, needle: seq<Byte>, j: nat)
    requires Matches(s, needle, j)
    ensures Find(s, needle).Some? && Find(s, needle).value <= j
    decreases |s|
  {
    if s[..|needle|] != needle {
      assert j > 0;
      assert s[1..][j - 1..j - 1 + |needle|] == s[j..j + |needle|];
      FindIsFirst(s[1..], needle, j - 1);
    }
  }

  /** The first occurrence is the one with none before it. */
  lemma FindIs(s: seq<Byte>, needle: seq<Byte>, i: nat)
    requires Matches(s, needle, i)
    requires forall j: nat :: j < i ==> !Matches(s, needle, j)
    ensures Find(s, needle) == Some(i)
  {
    hide Find;
    FindIsFirst(s, needle, i);
  }

  lemma FindNothing(s: seq<Byte>, needle: seq<Byte>)
    requires forall j: nat :: !Matches(s, needle, j)
    ensures Find(s, needle) == None
  {
    hide Find;
  }

  lemma MatchInPrefix(s: seq<Byte>, more: seq<Byte>, needle: seq<Byte>, i: nat)
    requires i + |needle| <= |s|
    ensures Matches(s + more, needle, i) <==> Matches(s, needle, i)
  {
    assert (s + more)[i..i + |needle|] == s[i..i + |needle|];
  }

  /** An occurrence stays the first when bytes are appended. */
  lemma FindStable(s: seq<Byte>, more: seq<Byte>, needle: seq<Byte>)
    requires Find(s, needle).Some?
    ensures Find(s + more, needle) == Find(s, needle)
  {
    hide Find;
    var i := Find(s, needle).value;
    MatchInPrefix(s, more, needle, i);
    forall j: nat | j < i
      ensures !Matches(s + more, needle, j)
    {
      MatchInPrefix(s, more, needle, j);
      if Matches(s, needle, j) {
        FindIsFirst(s, needle, j);
      }
    }
    FindIs(s + more, needle, i);
  }

  /** A needle that was not there before the bytes `more` came ends among them. */
  lemma FindAcross(s: seq<Byte>, more: seq<Byte>, needle: seq<Byte>)
    requires Find(s, needle) == None && Find(s + more, needle).Some?
    ensures Find(s + more, needle).value + |needle| > |s|
  {
    hide Find;
    var i := Find(s + more, needle).value;
    if i + |needle| <= |s| {
      MatchInPrefix(s, more, needle, i);
      FindIsFirst(s, needle, i);
    }
  }

  /** Where `needle` last occurs in `s`. */
  function FindLast(s: seq<Byte>, needle: seq<Byte>): (r: Option<nat>)
    ensures r.Some? ==> Matches(s, needle, r.value)
    decreases |s|
  {
    if |needle| > |s| then None
    else if s[|s| - |needle|..] == needle then Some(|s| - |needle|)
    else if s == [] then None
    else
      match FindLast(s[..|s| - 1], needle)
      case None => None
      case Some(i) =>
        assert s[..|s| - 1][i..i + |needle|] == s[i..i + |needle|];
        Some(i)
  }

  lemma {:induction false} FindLastIsLast(s: seq<Byte>, needle: seq<Byte>, j: nat)
    requires Matches(s, needle, j)
    ensures FindLast(s, needle).Some? && FindLast(s, needle).value >= j
    decreases |s|
  {
    if s[|s| - |needle|..] != needle {
      assert j + |needle| < |s|;
      assert s[..|s| - 1][j..j + |needle|] == s[j..j + |needle|];
      FindLastIsLast(s[..|s| - 1], needle, j);
    }
  }
  lemma MatchesOne(s: seq<Byte>, b: Byte, i: nat)
    ensures Matches(s, [b], i) <==> i < |s| && s[i] == b
  {
    if i < |s| {
      assert s[i..i + 1] == [s[i]];
    }
  }

  /** A single byte is found iff it is there, and then where it first is. */
  lemma ByteFound(s: seq<Byte>, b: Byte)
    ensures Find(s, [b]) == None <==> b !in s
    ensures Find(s, [b]).Some? ==>
              var i := Find(s, [b]).value; i < |s| && s[i] == b && b !in s[..i]
  {
    hide Find;
    var end := if Find(s, [b]).Some? then Find(s, [b]).value else |s|;
    if Find(s, [b]).Some? {
      MatchesOne(s, b, end);
    }
    forall j | 0 <= j < end && j < |s|
      ensures s[j] != b
    {
      MatchesOne(s, b, j);
      if s[j] == b {
        FindIsFirst(s, [b], j);
      }
    }
  }
  lemma FirstByteIs(s: seq<Byte>, b: Byte, i: nat)
    requires i < |s| && s[i] == b && b !in s[..i]
    ensures Find(s, [b]) == Some(i)
  {
    hide Find;
    forall j: nat | j < i
      ensures !Matches(s, [b], j)
    {
      MatchesOne(s, b, j);
      assert s[j] in s[..i];
    }
    MatchesOne(s, b, i);
    FindIs(s, [b], i);
  }
}
