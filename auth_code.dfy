/**
 * The two patterns USpotifyService::RetrieveAuthKey applies to the text of
 * the browser's redirect request: `/?code=([\d\w-_]+)` and
 * `/?error=([\d\w-_]+)`, each searched once with FindNext.
 *
 * The `?` makes the '/' optional: a match starts at the '/' just before the
 * key when there is one, and at the key itself otherwise. Either way the
 * '/' decides neither whether a match exists nor what the capture group
 * holds, and the group is all the model keeps. The group is read at the
 * first occurrence of the key ("code=" or "error=") anywhere in the text
 * that is followed by at least one token character, and it is the longest
 * run of token characters after that key (the `+` is greedy).
 */
module AuthCode {

  datatype Option<T> = None | Some(value: T)

  const CodeKey: string := "code="
  const ErrorKey: string := "error="

  /** The class `[\d\w-_]`, restricted to ASCII. */
  predicate IsTokenChar(c: char) {
    'A' <= c <= 'Z' || 'a' <= c <= 'z' || '0' <= c <= '9' || c == '_' || c == '-'
  }

  predicate AllTokenChars(t: string) {
    forall i :: 0 <= i < |t| ==> IsTokenChar(t[i])
  }

  /** The key occurs at p and the next character starts a capture. */
  predicate MatchesAt(s: string, key: string, p: nat) {
    p + |key| < |s| && s[p..p + |key|] == key && IsTokenChar(s[p + |key|])
  }

  /** t is the greedy, maximal run of token characters starting at index i of s. */
  predicate IsMaximalRun(s: string, i: nat, t: string) {
    && i + |t| <= |s|
    && s[i..i + |t|] == t
    && AllTokenChars(t)
    && (i + |t| == |s| || !IsTokenChar(s[i + |t|]))
  }

  /** What FindNext reports: the leftmost match and its capture group. */
  ghost predicate IsLeftmostCapture(s: string, key: string, t: string) {
    exists p: nat ::
      && MatchesAt(s, key, p)
      && (forall q: nat :: q < p ==> !MatchesAt(s, key, q))
      && IsMaximalRun(s, p + |key|, t)
  }

  /** The greedy run of token characters from index i. */
  function TokenRun(s: string, i: nat): (t: string)
    requires i <= |s|
    ensures IsMaximalRun(s, i, t)
    decreases |s| - i
  {
    if i < |s| && IsTokenChar(s[i]) then [s[i]] + TokenRun(s, i + 1) else ""
  }

  /** The scan for the first position at or after `from` where the pattern matches. */
  function FindFrom(s: string, key: string, from: nat): (r: Option<nat>)
    ensures r.Some? ==> from <= r.value && MatchesAt(s, key, r.value)
    ensures r.Some? ==> forall q: nat :: from <= q < r.value ==> !MatchesAt(s, key, q)
    ensures r.None? ==> forall q: nat :: from <= q ==> !MatchesAt(s, key, q)
    decreases |s| - from
  {
    if from >= |s| then None
    else if MatchesAt(s, key, from) then Some(from)
    else FindFrom(s, key, from + 1)
  }

  /** FindNext followed by GetCaptureGroup(1). */
  function Capture(s: string, key: string): Option<string> {
    match FindFrom(s, key, 0)
    case None => None
    case Some(p) => Some(TokenRun(s, p + |key|))
  }

  /** The code the redirect carries, if any. */
  function AuthorizationCode(request: string): Option<string> {
    Capture(request, CodeKey)
  }

  /** The error the redirect carries, if any; RetrieveAuthKey only logs it. */
  function AuthorizationError(request: string): Option<string> {
    Capture(request, ErrorKey)
  }

  /** A maximal run is the one TokenRun computes. */
  lemma {:induction false} MaximalRunIsTokenRun(s: string, i: nat, t: string)
    requires IsMaximalRun(s, i, t)
    ensures t == TokenRun(s, i)
    decreases |s| - i
  {
    if i < |s| && IsTokenChar(s[i]) {
      assert |t| > 0;
      assert t[0] == s[i];
      assert s[i + 1..i + 1 + |t[1..]|] == t[1..];
      MaximalRunIsTokenRun(s, i + 1, t[1..]);
      assert t == [t[0]] + t[1..];
    } else {
      assert |t| == 0;
    }
  }

  lemma MaximalRunUnique(s: string, i: nat, t: string, u: string)
    requires IsMaximalRun(s, i, t) && IsMaximalRun(s, i, u)
    ensures t == u
  {
    MaximalRunIsTokenRun(s, i, t);
    MaximalRunIsTokenRun(s, i, u);
  }

  /** No match lies before the leftmost one. */
  lemma FirstMatchBound(s: string, key: string, p: nat, q: nat)
    requires MatchesAt(s, key, p)
    requires forall r: nat :: r < q ==> !MatchesAt(s, key, r)
    ensures q <= p
  {
  }

  /** The leftmost match is unique, and so is its capture. */
  lemma LeftmostCaptureUnique(s: string, key: string, t: string, u: string)
    requires IsLeftmostCapture(s, key, t) && IsLeftmostCapture(s, key, u)
    ensures t == u
  {
    var p: nat :| && MatchesAt(s, key, p)
                  && (forall q: nat :: q < p ==> !MatchesAt(s, key, q))
                  && IsMaximalRun(s, p + |key|, t);
    var q: nat :| && MatchesAt(s, key, q)
                  && (forall r: nat :: r < q ==> !MatchesAt(s, key, r))
                  && IsMaximalRun(s, q + |key|, u);
    FirstMatchBound(s, key, p, q);
    FirstMatchBound(s, key, q, p);
    MaximalRunUnique(s, p + |key|, t, u);
  }

  /**
   * Capture finds exactly what the leftmost regular-expression match
   * captures, and finds nothing exactly when the text has no match.
   */
  lemma CaptureIsLeftmostMatch(s: string, key: string)
    ensures forall t :: Capture(s, key) == Some(t) <==> IsLeftmostCapture(s, key, t)
    ensures Capture(s, key).None? <==> forall p: nat :: !MatchesAt(s, key, p)
  {
    match FindFrom(s, key, 0)
    case None =>
      assert forall t :: !IsLeftmostCapture(s, key, t);
    case Some(p) =>
      var run := TokenRun(s, p + |key|);
      assert IsLeftmostCapture(s, key, run);
      forall t | IsLeftmostCapture(s, key, t) ensures t == run {
        LeftmostCaptureUnique(s, key, t, run);
      }
  }

  /** A captured code is a non-empty run of token characters of the text. */
  lemma CaptureIsTokenRun(s: string, key: string)
    requires Capture(s, key).Some?
    ensures |Capture(s, key).value| > 0
    ensures AllTokenChars(Capture(s, key).value)
  {
  }

  /** The leftmost match at p with capture t is what Capture reports. */
  lemma CaptureAt(s: string, key: string, p: nat, t: string)
    requires MatchesAt(s, key, p)
    requires forall q: nat :: q < p ==> !MatchesAt(s, key, q)
    requires IsMaximalRun(s, p + |key|, t)
    ensures Capture(s, key) == Some(t)
  {
    CaptureIsLeftmostMatch(s, key);
    assert IsLeftmostCapture(s, key, t);
  }

  const ApprovedRequest: string := "GET /?code=abc123 HTTP/1.1"
  const DeclinedRequest: string := "GET /?error=access_denied HTTP/1.1"

  /** A text that differs from the key at its j-th character does not match at p. */
  lemma Mismatch(s: string, key: string, p: nat, j: nat)
    requires j < |key| && p + j < |s| && s[p + j] != key[j]
    ensures !MatchesAt(s, key, p)
  {
    if p + |key| < |s| {
      assert s[p..p + |key|][j] == s[p + j];
    }
  }

  /** In a text that holds c once, between a and b, no other index holds c. */
  lemma OnlyOccurrence(s: string, a: string, c: char, b: string, k: nat)
    requires s == a + [c] + b && c !in a && c !in b
    requires k < |s| && k != |a|
    ensures s[k] != c
  {
    if k < |a| {
      assert s[k] == a[k];
    } else {
      assert s[k] == b[k - |a| - 1];
    }
  }

  /** The only '=' of the approved request is the one of "code=", at index 10. */
  lemma ApprovedRequestSplit()
    ensures ApprovedRequest == "GET /?code" + ['='] + "abc123 HTTP/1.1"
  {
  }

  lemma ApprovedRequestNoEarlierCode(q: nat)
    requires q < 6
    ensures !MatchesAt(ApprovedRequest, CodeKey, q)
  {
    ApprovedRequestSplit();
    OnlyOccurrence(ApprovedRequest, "GET /?code", '=', "abc123 HTTP/1.1", q + 4);
    Mismatch(ApprovedRequest, CodeKey, q, 4);
  }

  lemma ApprovedRequestHasNoErrorAt(p: nat)
    ensures !MatchesAt(ApprovedRequest, ErrorKey, p)
  {
    ApprovedRequestSplit();
    if p + 5 < |ApprovedRequest| {
      if p + 5 == 10 {
        Mismatch(ApprovedRequest, ErrorKey, p, 0);
      } else {
        OnlyOccurrence(ApprovedRequest, "GET /?code", '=', "abc123 HTTP/1.1", p + 5);
        Mismatch(ApprovedRequest, ErrorKey, p, 5);
      }
    }
  }

  /** A key followed by a run that ends the text or a non-token character. */
  lemma MatchOfParts(a: string, key: string, t: string, b: string)
    requires |t| > 0 && AllTokenChars(t)
    requires |b| == 0 || !IsTokenChar(b[0])
    ensures MatchesAt(a + key + t + b, key, |a|)
    ensures IsMaximalRun(a + key + t + b, |a| + |key|, t)
  {
    var s := a + key + t + b;
    assert s[|a|..|a| + |key|] == key;
    assert s[|a| + |key|] == t[0];
    assert s[|a| + |key|..|a| + |key| + |t|] == t;
    if |b| > 0 {
      assert s[|a| + |key| + |t|] == b[0];
    }
  }

  lemma ApprovedRequestParts()
    ensures ApprovedRequest == "GET /?" + CodeKey + "abc123" + " HTTP/1.1"
  {
  }

  lemma ApprovedRequestMatches()
    ensures MatchesAt(ApprovedRequest, CodeKey, 6)
    ensures IsMaximalRun(ApprovedRequest, 11, "abc123")
  {
    ApprovedRequestParts();
    assert AllTokenChars("abc123");
    MatchOfParts("GET /?", CodeKey, "abc123", " HTTP/1.1");
  }

  /** The only '=' of the declined request is the one of "error=", at index 11. */
  lemma DeclinedRequestSplit()
    ensures DeclinedRequest == "GET /?error" + ['='] + "access_denied HTTP/1.1"
  {
  }

  lemma DeclinedRequestHasNoCodeAt(p: nat)
    ensures !MatchesAt(DeclinedRequest, CodeKey, p)
  {
    DeclinedRequestSplit();
    if p + 4 < |DeclinedRequest| {
      if p + 4 == 11 {
        Mismatch(DeclinedRequest, CodeKey, p, 0);
      } else {
        OnlyOccurrence(DeclinedRequest, "GET /?error", '=', "access_denied HTTP/1.1", p + 4);
        Mismatch(DeclinedRequest, CodeKey, p, 4);
      }
    }
  }

  lemma DeclinedRequestNoEarlierError(q: nat)
    requires q < 6
    ensures !MatchesAt(DeclinedRequest, ErrorKey, q)
  {
    DeclinedRequestSplit();
    OnlyOccurrence(DeclinedRequest, "GET /?error", '=', "access_denied HTTP/1.1", q + 5);
    Mismatch(DeclinedRequest, ErrorKey, q, 5);
  }

  lemma DeclinedRequestParts()
    ensures DeclinedRequest == "GET /?" + ErrorKey + "access_denied" + " HTTP/1.1"
  {
  }

  lemma DeclinedRequestMatches()
    ensures MatchesAt(DeclinedRequest, ErrorKey, 6)
    ensures IsMaximalRun(DeclinedRequest, 12, "access_denied")
  {
    DeclinedRequestParts();
    assert AllTokenChars("access_denied");
    MatchOfParts("GET /?", ErrorKey, "access_denied", " HTTP/1.1");
  }

  /** The redirect of a user who approved: `GET /?code=abc123 HTTP/1.1` carries code abc123. */
  lemma ApprovedRedirect()
    ensures AuthorizationCode(ApprovedRequest) == Some("abc123")
    ensures AuthorizationError(ApprovedRequest) == None
  {
    forall q: nat | q < 6 ensures !MatchesAt(ApprovedRequest, CodeKey, q) {
      ApprovedRequestNoEarlierCode(q);
    }
    forall p: nat ensures !MatchesAt(ApprovedRequest, ErrorKey, p) {
      ApprovedRequestHasNoErrorAt(p);
    }
    ApprovedRequestMatches();
    CaptureAt(ApprovedRequest, CodeKey, 6, "abc123");
    CaptureIsLeftmostMatch(ApprovedRequest, ErrorKey);
  }

  /** The redirect of a user who declined carries an error and no code. */
  lemma DeclinedRedirect()
    ensures AuthorizationCode(DeclinedRequest) == None
    ensures AuthorizationError(DeclinedRequest) == Some("access_denied")
  {
    forall p: nat ensures !MatchesAt(DeclinedRequest, CodeKey, p) {
      DeclinedRequestHasNoCodeAt(p);
    }
    forall q: nat | q < 6 ensures !MatchesAt(DeclinedRequest, ErrorKey, q) {
      DeclinedRequestNoEarlierError(q);
    }
    DeclinedRequestMatches();
    CaptureIsLeftmostMatch(DeclinedRequest, CodeKey);
    CaptureAt(DeclinedRequest, ErrorKey, 6, "access_denied");
  }
}
