/** The text form of a certificate digest: two lower-case hexadecimal digits a
    byte, separated by colons. */
module Fingerprint {
  import opened Wrappers

  type Byte = b: int | 0 <= b < 256

  function HexDigit(d: int): char
    requires 0 <= d < 16
  {
    "0123456789abcdef"[d]
  }

  function HexByte(b: Byte): string {
    [HexDigit(b / 16), HexDigit(b % 16)]
  }

  /** Both the pin check and the CA listing print a digest in this form. */
  function FormatDigest(digest: seq<Byte>): string {
    if |digest| == 0 then ""
    else if |digest| == 1 then HexByte(digest[0])
    else HexByte(digest[0]) + ":" + FormatDigest(digest[1..])
  }

  function AsciiLower(c: char): char {
    if 'A' <= c <= 'Z' then (c as int + 32) as char else c
  }

  predicate EqIgnoreAsciiCase(s: string, t: string) {
    |s| == |t| && forall i | 0 <= i < |s| :: AsciiLower(s[i]) == AsciiLower(t[i])
  }

  /** The same character, or the same ASCII letter in two cases. */
  predicate SameLetter(c: char, d: char) {
    || c == d
    || ('a' <= c <= 'z' && d as int + 32 == c as int)
    || ('a' <= d <= 'z' && c as int + 32 == d as int)
  }

  /** Two texts are equal up to ASCII case exactly if they are so letter by letter. */
  lemma EqIgnoreAsciiCaseIff(s: string, t: string)
    ensures EqIgnoreAsciiCase(s, t) <==> |s| == |t| && forall i | 0 <= i < |s| :: SameLetter(s[i], t[i])
  {
    forall c, d ensures AsciiLower(c) == AsciiLower(d) <==> SameLetter(c, d) {
      SameLetterIff(c, d);
    }
  }

  lemma SameLetterIff(c: char, d: char)
    ensures AsciiLower(c) == AsciiLower(d) <==> SameLetter(c, d)
  {
  }

  // ----- reading the form back -----

  function HexValue(c: char): Option<int> {
    if '0' <= c <= '9' then Some(c as int - '0' as int)
    else if 'a' <= AsciiLower(c) <= 'f' then Some(AsciiLower(c) as int - 'a' as int + 10)
    else None
  }

  function ReadByte(s: string): (r: Option<Byte>) {
    if |s| == 2 && HexValue(s[0]).Some? && HexValue(s[1]).Some?
    then Some(16 * HexValue(s[0]).value + HexValue(s[1]).value)
    else None
  }

  /** Reads a fingerprint in either case; anything else is refused. */
  function ReadDigest(s: string): Option<seq<Byte>> {
    if |s| <= 2 then
      match ReadByte(s) case Some(b) => Some([b]) case None => None
    else if s[2] != ':' then None
    else
      match (ReadByte(s[..2]), ReadDigest(s[3..]))
      case (Some(b), Some(rest)) => Some([b] + rest)
      case _ => None
  }

  /** The text of n bytes has 3n - 1 characters, a colon at every third place
      and nowhere else, and no capital letter. */
  lemma {:induction false} DigestShape(digest: seq<Byte>)
    requires |digest| > 0
    ensures |FormatDigest(digest)| == 3 * |digest| - 1
    ensures forall i | 0 <= i < |FormatDigest(digest)| :: FormatDigest(digest)[i] == ':' <==> i % 3 == 2
    ensures forall i | 0 <= i < |FormatDigest(digest)| :: AsciiLower(FormatDigest(digest)[i]) == FormatDigest(digest)[i]
  {
    var text := FormatDigest(digest);
    if |digest| > 1 {
      DigestShape(digest[1..]);
      var rest := FormatDigest(digest[1..]);
      assert text == HexByte(digest[0]) + ":" + rest;
      forall i | 0 <= i < |text|
        ensures (text[i] == ':' <==> i % 3 == 2) && AsciiLower(text[i]) == text[i]
      {
        if i >= 3 {
          assert text[i] == rest[i - 3];
        }
      }
    }
  }

  lemma {:induction false} ReadBackByte(b: Byte, s: string)
    requires EqIgnoreAsciiCase(s, HexByte(b))
    ensures ReadByte(s) == Some(b)
  {
    HexDigitReads(b / 16, s[0]);
    HexDigitReads(b % 16, s[1]);
  }

  lemma HexDigitReads(d: int, c: char)
    requires 0 <= d < 16 && AsciiLower(c) == HexDigit(d)
    ensures HexValue(c) == Some(d)
  {
  }

  /** The printed form, in whatever case it was stored, reads back as its bytes. */
  lemma {:induction false} ReadBackDigest(digest: seq<Byte>, s: string)
    requires |digest| > 0 && EqIgnoreAsciiCase(s, FormatDigest(digest))
    ensures ReadDigest(s) == Some(digest)
  {
    var t := FormatDigest(digest);
    DigestShape(digest);
    if |digest| == 1 {
      assert digest == [digest[0]];
      ReadBackByte(digest[0], s);
    } else {
      DigestShape(digest[1..]);
      assert t[..2] == HexByte(digest[0]) && t[2] == ':' && t[3..] == FormatDigest(digest[1..]);
      assert AsciiLower(s[2]) == ':';
      ReadBackByte(digest[0], s[..2]);
      ReadBackDigest(digest[1..], s[3..]);
      assert [digest[0]] + digest[1..] == digest;
    }
  }

  /** The form is faithful: two digests print alike, up to case, only if equal. */
  lemma {:induction false} SameTextSameDigest(d: seq<Byte>, e: seq<Byte>)
    requires |d| > 0 && |e| > 0
    ensures EqIgnoreAsciiCase(FormatDigest(d), FormatDigest(e)) <==> d == e
  {
    if EqIgnoreAsciiCase(FormatDigest(d), FormatDigest(e)) {
      ReadBackDigest(e, FormatDigest(d));
      ReadBackDigest(d, FormatDigest(d));
    }
  }
}
