/** The texts that the HTTP modules hold as bytes, and which spellings of them count as the same. */
module Spelling {
  import opened Bytes
  import opened HeadParser
  import opened Numerals
  import opened Wrappers

  /** The ASCII text that these bytes are. */
  function Text(s: seq<Byte>): (text: string)
    ensures |text| == |s|
  {
    seq(|s|, i requires 0 <= i < |s| => (s[i] as int) as char)
  }

  lemma HostName()
    ensures Text(HOST) == "host"
  {
  }

  lemma ConnectionName()
    ensures Text(CONNECTION) == "connection"
  {
  }

  lemma ContentLengthName()
    ensures Text(CONTENT_LENGTH) == "content-length"
  {
  }

  lemma TransferEncodingName()
    ensures Text(TRANSFER_ENCODING) == "transfer-encoding"
  {
  }

  lemma Versions()
    ensures Text(HTTP_1_1) == "HTTP/1.1" && Text(HTTP_1_0) == "HTTP/1.0"
    ensures Text(CRLF) == "\r\n" && Text(HEADER_DELIM) == "\r\n\r\n"
  {
  }

  /** One letter in either case, or the same byte. */
  predicate SameLetter(a: Byte, b: Byte) {
    a == b || (65 <= a <= 90 && b == a + 32) || (65 <= b <= 90 && a == b + 32)
  }

  predicate SameSpelling(a: seq<Byte>, b: seq<Byte>) {
    |a| == |b| && forall i :: 0 <= i < |a| ==> SameLetter(a[i], b[i])
  }

  /** Field names and keywords are compared letter by letter, in whatever case. */
  lemma CaseIgnoredIff(a: seq<Byte>, b: seq<Byte>)
    ensures EqIgnoreCase(a, b) <==> SameSpelling(a, b)
  {
    if |a| == |b| {
      forall i | 0 <= i < |a|
        ensures Lower(a[i]) == Lower(b[i]) <==> SameLetter(a[i], b[i])
      {
        LetterIff(a[i], b[i]);
      }
    }
  }

  lemma LetterIff(a: Byte, b: Byte)
    ensures Lower(a) == Lower(b) <==> SameLetter(a, b)
  {
  }

  /** A capital in front, which is how field names are usually written. */
  function Capital(s: seq<Byte>): (t: seq<Byte>)
    ensures |t| == |s|
  {
    if s != [] && 97 <= s[0] <= 122 then [s[0] - 32] + s[1..] else s
  }

  /** So a name is found whether each of its words begins with a capital or not. */
  lemma CapitalsIgnored(a: seq<Byte>, b: seq<Byte>)
    ensures EqIgnoreCase(Capital(a) + Capital(b), a + b)
  {
  }
}
