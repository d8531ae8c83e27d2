/**
 * The PKCE material that USpotifyService::Initialize produces: a 64-character
 * code verifier drawn from an alphanumeric alphabet, and the code challenge
 * obtained by Base64-encoding the SHA-256 digest of the verifier and turning
 * the result into base64url text (RFC 7636, sections 4.1 and 4.2).
 *
 * The random generator is modelled by the indices it returned, and the
 * `sha256` helper by the bytes it returned. That helper and FBase64::Encode
 * are not part of this model: the helper is taken to return the 32 raw
 * digest bytes, and FBase64::Encode to be the standard encoding of
 * RFC 4648, section 4 (alphabet A-Z a-z 0-9 + /, '=' padding). The lemmas
 * about the challenge's length and alphabet rest on both assumptions.
 */
module Pkce {

  type byte = x: int | 0 <= x < 256

  const Uppercase: string := "ABCDEFGHIJKLMNOPQRSTUVWXYZ"
  const Lowercase: string := "abcdefghijklmnopqrstuvwxyz"
  const Digits: string := "0123456789"

  /** The 62 characters the verifier is drawn from, in the source's order. */
  const RandomChars: string := Uppercase + Lowercase + Digits

  /** The number of characters Initialize appends to the verifier. */
  const VerifierLength: nat := 64

  /** A value of FMath::RandRange(0, RandomChars.Len() - 1). */
  type Pick = i: nat | i < 62

  predicate IsAlphanumeric(c: char) {
    'A' <= c <= 'Z' || 'a' <= c <= 'z' || '0' <= c <= '9'
  }

  /** The unreserved characters that RFC 7636, section 4.1 allows in a code verifier. */
  predicate IsUnreserved(c: char) {
    IsAlphanumeric(c) || c == '-' || c == '.' || c == '_' || c == '~'
  }

  /** A code verifier as section 4.1 of RFC 7636 defines it: 43 to 128 unreserved characters. */
  predicate IsCodeVerifier(v: string) {
    43 <= |v| <= 128 && forall i :: 0 <= i < |v| ==> IsUnreserved(v[i])
  }

  predicate AllAlphanumeric(s: string) {
    forall i :: 0 <= i < |s| ==> IsAlphanumeric(s[i])
  }

  /** RandomChars is exactly the 62 ASCII letters and digits. */
  lemma RandomCharsAreAlphanumerics()
    ensures |RandomChars| == 62
    ensures AllAlphanumeric(RandomChars)
  {
    assert AllAlphanumeric(Uppercase);
    assert AllAlphanumeric(Lowercase);
    assert AllAlphanumeric(Digits);
  }

  /** Every ASCII letter and digit is one of RandomChars. */
  lemma AlphanumericInRandomChars(c: char)
    requires IsAlphanumeric(c)
    ensures c in RandomChars
  {
    if 'A' <= c <= 'Z' {
      assert Uppercase[c as int - 'A' as int] == c;
    } else if 'a' <= c <= 'z' {
      assert Lowercase[c as int - 'a' as int] == c;
    } else {
      assert Digits[c as int - '0' as int] == c;
    }
  }

  /** The characters the loop of Initialize picks, in order. */
  function RandomText(picks: seq<Pick>): (v: string)
    ensures |v| == |picks|
  {
    RandomCharsAreAlphanumerics();
    seq(|picks|, i requires 0 <= i < |picks| => RandomChars[picks[i]])
  }

  /**
   * The loop of Initialize: append one character of RandomChars per
   * random index to the verifier, 64 times.
   */
  method AppendRandomChars(verify: string, picks: seq<Pick>) returns (v: string)
    requires |picks| == VerifierLength
    ensures v == verify + RandomText(picks)
  {
    RandomCharsAreAlphanumerics();
    ghost var text := RandomText(picks);
    v := verify;
    for i := 0 to VerifierLength
      invariant v == verify + text[..i]
    {
      assert text[..i + 1] == text[..i] + [RandomChars[picks[i]]];
      v := v + [RandomChars[picks[i]]];
    }
    assert text[..VerifierLength] == text;
  }

  /**
   * Starting from an empty verifier, the 64 characters are all from
   * RandomChars, and so form a valid RFC 7636 code verifier.
   */
  lemma GeneratedVerifierIsValid(picks: seq<Pick>)
    requires |picks| == VerifierLength
    ensures |RandomText(picks)| == 64
    ensures forall i :: 0 <= i < 64 ==> RandomText(picks)[i] in RandomChars
    ensures AllAlphanumeric(RandomText(picks))
    ensures IsCodeVerifier(RandomText(picks))
  {
    RandomCharsAreAlphanumerics();
    var v := RandomText(picks);
    forall i | 0 <= i < 64
      ensures v[i] in RandomChars && IsAlphanumeric(v[i])
    {
      assert v[i] == RandomChars[picks[i]];
    }
  }

  /* ---------------------------------------------------------------------- */
  /* Base64, RFC 4648 section 4: the encoding FBase64::Encode produces.      */

  const Base64Alphabet: string := RandomChars + "+/"

  predicate IsBase64Char(c: char) {
    IsAlphanumeric(c) || c == '+' || c == '/'
  }

  /** The character that encodes the 6-bit value n. */
  function Sextet(n: nat): (c: char)
    requires n < 64
    ensures IsBase64Char(c)
  {
    if n < 26 then ('A' as int + n) as char
    else if n < 52 then ('a' as int + n - 26) as char
    else if n < 62 then ('0' as int + n - 52) as char
    else if n == 62 then '+'
    else '/'
  }

  /** Sextet is the table of section 4 of RFC 4648. */
  lemma SextetIsAlphabet(n: nat)
    requires n < 64
    ensures |Base64Alphabet| == 64 && Sextet(n) == Base64Alphabet[n]
  {
    RandomCharsAreAlphanumerics();
    if n < 26 {
      assert Base64Alphabet[n] == Uppercase[n];
    } else if n < 52 {
      assert Base64Alphabet[n] == Lowercase[n - 26];
    } else if n < 62 {
      assert Base64Alphabet[n] == Digits[n - 52];
    }
  }

  /** The number of '=' characters that pad the encoding of n bytes. */
  function Padding(n: nat): (p: nat)
    ensures p <= 2
  {
    (3 - n % 3) % 3
  }

  /** The four 6-bit pieces of three bytes x, y, z, most significant first. */
  function Piece1(x: byte): (n: nat) ensures n < 64 { x / 4 }
  function Piece2(x: byte, y: byte): (n: nat) ensures n < 64 { (x % 4) * 16 + y / 16 }
  function Piece3(y: byte, z: byte): (n: nat) ensures n < 64 { (y % 16) * 4 + z / 64 }
  function Piece4(z: byte): (n: nat) ensures n < 64 { z % 64 }

  /**
   * One group of one to three bytes as four characters: the 6-bit pieces of
   * the bytes (missing bytes read as zero), then '=' for each missing byte.
   */
  function EncodeGroup(g: seq<byte>): (r: string)
    requires 1 <= |g| <= 3
    ensures |r| == 4
    ensures forall i :: 0 <= i < 4 - Padding(|g|) ==> IsBase64Char(r[i])
    ensures forall i :: 4 - Padding(|g|) <= i < 4 ==> r[i] == '='
  {
    if |g| == 1 then
      [Sextet(Piece1(g[0])), Sextet(Piece2(g[0], 0)), '=', '=']
    else if |g| == 2 then
      [Sextet(Piece1(g[0])), Sextet(Piece2(g[0], g[1])), Sextet(Piece3(g[1], 0)), '=']
    else
      [Sextet(Piece1(g[0])), Sextet(Piece2(g[0], g[1])), Sextet(Piece3(g[1], g[2])), Sextet(Piece4(g[2]))]
  }

  /** Standard Base64 with '=' padding, three bytes to four characters. */
  function Base64Encode(b: seq<byte>): string
    decreases |b|
  {
    if |b| == 0 then ""
    else if |b| < 3 then EncodeGroup(b)
    else EncodeGroup(b[..3]) + Base64Encode(b[3..])
  }

  lemma GroupArithmetic(n: nat)
    requires n >= 3
    ensures Padding(n - 3) == Padding(n)
    ensures 4 * ((n + 2) / 3) == 4 * ((n - 3 + 2) / 3) + 4
  {
  }

  lemma Base64Last(b: seq<byte>)
    requires |b| < 3
    ensures |b| == 0 ==> Base64Encode(b) == ""
    ensures |b| > 0 ==> Base64Encode(b) == EncodeGroup(b)
    ensures 4 * ((|b| + 2) / 3) == if |b| == 0 then 0 else 4
  {
    if |b| > 0 {
      assert (|b| + 2) / 3 == 1;
    }
  }

  /**
   * The encoding of n bytes has 4 * ceil(n / 3) characters: alphabet
   * characters followed by exactly Padding(n) '=' characters.
   */
  lemma {:induction false} Base64Shape(b: seq<byte>)
    ensures |Base64Encode(b)| == 4 * ((|b| + 2) / 3)
    ensures Padding(|b|) <= |Base64Encode(b)|
    ensures forall i :: 0 <= i < |Base64Encode(b)| - Padding(|b|) ==> IsBase64Char(Base64Encode(b)[i])
    ensures forall i :: |Base64Encode(b)| - Padding(|b|) <= i < |Base64Encode(b)| ==> Base64Encode(b)[i] == '='
    decreases |b|
  {
    if |b| < 3 {
      Base64Last(b);
    } else {
      GroupArithmetic(|b|);
      Base64Shape(b[3..]);
      var head := EncodeGroup(b[..3]);
      var tail := Base64Encode(b[3..]);
      assert forall i :: 0 <= i < 4 ==> (head + tail)[i] == head[i];
      assert forall i :: 4 <= i < 4 + |tail| ==> (head + tail)[i] == tail[i - 4];
    }
  }

  /* ---------------------------------------------------------------------- */
  /* The post-processing of the challenge text.                              */

  /** FString::Replace of one character by another: every occurrence. */
  function ReplaceChar(s: string, from: char, to: char): (r: string)
    ensures |r| == |s|
    ensures forall i :: 0 <= i < |s| ==> r[i] == (if s[i] == from then to else s[i])
  {
    if |s| == 0 then ""
    else [if s[0] == from then to else s[0]] + ReplaceChar(s[1..], from, to)
  }

  /** FString::Replace of one character by the empty string: every occurrence is deleted. */
  function RemoveChar(s: string, c: char): (r: string)
    ensures |r| <= |s|
    ensures c !in r
    ensures c !in s ==> r == s
  {
    if |s| == 0 then ""
    else if s[0] == c then RemoveChar(s[1..], c)
    else [s[0]] + RemoveChar(s[1..], c)
  }

  /** Deleting c keeps every other character and adds none. */
  lemma {:induction false} RemoveCharKeeps(s: string, c: char, d: char)
    ensures d in RemoveChar(s, c) <==> d != c && d in s
  {
    if |s| > 0 {
      RemoveCharKeeps(s[1..], c, d);
      assert s == [s[0]] + s[1..];
    }
  }

  lemma {:induction false} RemoveCharAppend(a: string, b: string, c: char)
    ensures RemoveChar(a + b, c) == RemoveChar(a, c) + RemoveChar(b, c)
    decreases |a|
  {
    if |a| == 0 {
      assert a + b == b;
    } else {
      assert (a + b)[0] == a[0];
      assert (a + b)[1..] == a[1..] + b;
      RemoveCharAppend(a[1..], b, c);
    }
  }

  /** FString::RemoveFromEnd: drop the suffix once if the text ends with it. */
  function RemoveFromEnd(s: string, suffix: string): (r: string)
    ensures s == r + suffix || r == s
    ensures r == s <==> !(0 < |suffix| <= |s| && s[|s| - |suffix|..] == suffix)
  {
    if 0 < |suffix| <= |s| && s[|s| - |suffix|..] == suffix then s[..|s| - |suffix|] else s
  }

  /** The text after the '+' and '/' replacements and the deletion of spaces (lines 196-198). */
  function UrlSafeText(encoded: string): string {
    RemoveChar(ReplaceChar(ReplaceChar(encoded, '+', '-'), '/', '_'), ' ')
  }

  /** The whole post-processing, including RemoveFromEnd("=") (lines 196-199). */
  function Base64Url(encoded: string): string {
    RemoveFromEnd(UrlSafeText(encoded), "=")
  }

  /** The challenge Initialize stores for a given SHA-256 digest. */
  function Challenge(digest: seq<byte>): string {
    Base64Url(Base64Encode(digest))
  }

  /**
   * The post-processed challenge holds no '+', '/' or space; exactly one
   * '=' is removed when the space-stripped text ends in '=', otherwise
   * nothing is.
   */
  lemma Base64UrlProperties(encoded: string)
    ensures '+' !in Base64Url(encoded) && '/' !in Base64Url(encoded) && ' ' !in Base64Url(encoded)
    ensures var t := UrlSafeText(encoded);
            if |t| > 0 && t[|t| - 1] == '=' then Base64Url(encoded) == t[..|t| - 1]
            else Base64Url(encoded) == t
  {
    var once := ReplaceChar(encoded, '+', '-');
    var twice := ReplaceChar(once, '/', '_');
    assert '+' !in twice by {
      forall i | 0 <= i < |twice| ensures twice[i] != '+' {
        assert once[i] != '+';
      }
    }
    var t := UrlSafeText(encoded);
    var r := Base64Url(encoded);
    assert |t| > 0 && t[|t| - 1] == '=' ==> t[|t| - 1..] == "=";
    RemoveCharKeeps(twice, ' ', '+');
    RemoveCharKeeps(twice, ' ', '/');
    assert forall d :: d in r ==> d in t by {
      if r != t {
        assert t == r + "=";
        forall d | d in r ensures d in t {
          var k :| 0 <= k < |r| && r[k] == d;
          assert t[k] == d;
        }
      }
    }
  }

  function UrlSafeChar(c: char): char {
    if c == '+' then '-' else if c == '/' then '_' else c
  }

  /** The base64url alphabet of RFC 4648, section 5. */
  predicate IsBase64UrlChar(c: char) {
    IsAlphanumeric(c) || c == '-' || c == '_'
  }

  /**
   * The challenge RFC 7636 asks for: base64url of the digest with all
   * padding removed.
   */
  function UnpaddedBase64Url(digest: seq<byte>): string {
    RemoveChar(ReplaceChar(ReplaceChar(Base64Encode(digest), '+', '-'), '/', '_'), '=')
  }

  lemma UrlSafeEncodingShape(digest: seq<byte>)
    ensures var e := Base64Encode(digest);
            var u := ReplaceChar(ReplaceChar(e, '+', '-'), '/', '_');
            var body := |e| - Padding(|digest|);
            && 0 <= body <= |u|
            && (forall i :: 0 <= i < body ==> u[i] == UrlSafeChar(e[i]) && IsBase64UrlChar(u[i]))
            && (forall i :: body <= i < |u| ==> u[i] == '=')
            && ' ' !in u
  {
    Base64Shape(digest);
  }

  lemma RemoveFromEndUnpadded(pre: string)
    requires '=' !in pre
    ensures RemoveFromEnd(pre, "=") == pre
  {
    if |pre| > 0 {
      assert pre[|pre| - 1] in pre;
      assert pre[|pre| - 1..] != "=";
    }
  }

  lemma RemoveFromEndOnePad(pre: string)
    ensures RemoveFromEnd(pre + "=", "=") == pre
  {
    assert (pre + "=")[..|pre|] == pre;
  }

  lemma RemoveFromEndTwoPads(pre: string)
    ensures RemoveFromEnd(pre + "==", "=") == pre + "="
  {
    assert (pre + "==")[..|pre| + 1] == pre + "=";
  }

  /** Trimming '=' padding from text whose only '=' characters form a tail of at most two. */
  lemma StripPadding(pre: string, pads: string)
    requires '=' !in pre
    requires |pads| <= 2 && forall i :: 0 <= i < |pads| ==> pads[i] == '='
    ensures RemoveChar(pre + pads, '=') == pre
    ensures |pads| <= 1 ==> RemoveFromEnd(pre + pads, "=") == pre
    ensures |pads| == 2 ==> RemoveFromEnd(pre + pads, "=") == pre + "="
  {
    RemoveCharAppend(pre, pads, '=');
    if |pads| == 0 {
      assert pre + pads == pre;
      RemoveFromEndUnpadded(pre);
    } else if |pads| == 1 {
      assert pads == "=";
      RemoveFromEndOnePad(pre);
    } else {
      assert pads == "==";
      RemoveFromEndTwoPads(pre);
    }
  }

  /**
   * The unpadded base64url text holds one URL-safe character per
   * non-padding character of the Base64 encoding.
   */
  lemma UnpaddedShape(digest: seq<byte>)
    ensures |UnpaddedBase64Url(digest)| == |Base64Encode(digest)| - Padding(|digest|)
    ensures forall i :: 0 <= i < |UnpaddedBase64Url(digest)| ==>
      UnpaddedBase64Url(digest)[i] == UrlSafeChar(Base64Encode(digest)[i]) &&
      IsBase64UrlChar(UnpaddedBase64Url(digest)[i])
  {
    UrlSafeEncodingShape(digest);
    var e := Base64Encode(digest);
    var u := ReplaceChar(ReplaceChar(e, '+', '-'), '/', '_');
    var body := |e| - Padding(|digest|);
    var pre := u[..body];
    var pads := u[body..];
    assert u == pre + pads;
    assert '=' !in pre by {
      forall i | 0 <= i < |pre| ensures pre[i] != '=' {
        assert IsBase64UrlChar(u[i]);
      }
    }
    StripPadding(pre, pads);
  }

  /**
   * Removing one '=' agrees with RFC 7636 when the encoding carries at most
   * one padding character; when it carries two, one '=' is left behind.
   */
  lemma ChallengeAgainstUnpadded(digest: seq<byte>)
    ensures Padding(|digest|) <= 1 ==> Challenge(digest) == UnpaddedBase64Url(digest)
    ensures Padding(|digest|) == 2 ==> Challenge(digest) == UnpaddedBase64Url(digest) + "="
  {
    UrlSafeEncodingShape(digest);
    var e := Base64Encode(digest);
    var u := ReplaceChar(ReplaceChar(e, '+', '-'), '/', '_');
    var body := |e| - Padding(|digest|);
    assert UrlSafeText(e) == u;
    var pre := u[..body];
    var pads := u[body..];
    assert u == pre + pads;
    assert '=' !in pre by {
      forall i | 0 <= i < |pre| ensures pre[i] != '=' {
        assert IsBase64UrlChar(u[i]);
      }
    }
    StripPadding(pre, pads);
  }

  /**
   * For a 32-byte SHA-256 digest the challenge is 43 base64url characters
   * without padding, the value section 4.2 of RFC 7636 prescribes.
   */
  lemma Sha256ChallengeShape(digest: seq<byte>)
    requires |digest| == 32
    ensures Challenge(digest) == UnpaddedBase64Url(digest)
    ensures |Challenge(digest)| == 43
    ensures forall i :: 0 <= i < 43 ==> IsBase64UrlChar(Challenge(digest)[i])
    ensures '=' !in Challenge(digest)
  {
    assert Padding(32) == 1;
    Base64Shape(digest);
    assert |Base64Encode(digest)| == 44;
    ChallengeAgainstUnpadded(digest);
    UnpaddedShape(digest);
    var c := Challenge(digest);
    forall k | 0 <= k < |c| ensures c[k] != '=' {
      assert IsBase64UrlChar(c[k]);
    }
  }
}
