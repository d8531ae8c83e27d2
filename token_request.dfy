/**
 * The texts USpotifyService builds with FString::Printf: the body of the
 * token request of RequestRefreshKey (with its URL, verb and header) and the
 * authorize URL Initialize opens in the browser.
 *
 * Each builder is written as the Printf concatenation. Its partner is an
 * independent reading of the same text as an
 * `application/x-www-form-urlencoded` list of `key=value` fields separated
 * by '&', and the lemmas prove that the server reads back exactly the fields
 * the builder was given. The reader decodes '+' and `%XX`, and no value is
 * percent-encoded, so that only holds for values free of '&', '+' and '%'
 * (`IsPlain`); the values the service supplies are.
 */
module TokenRequest {

  type uint16 = x: int | 0 <= x < 0x1_0000

  /** The defaults of SpotifyService.h. */
  const DefaultClientKey: string := "43bf2bdff42d4bc8877fdd9d2ff77717"
  const DefaultRedirectUrl: string := "http://localhost"
  const DefaultPort: uint16 := 3036

  const TokenEndpoint: string := "https://accounts.spotify.com/api/token"
  const TokenVerb: string := "POST"
  const ContentTypeHeader: (string, string) := ("Content-Type", "application/x-www-form-urlencoded;charset=UTF-8")
  const AuthorizeEndpoint: string := "https://accounts.spotify.com/authorize"
  const Scope: string := "user-modify-playback-state"

  // ---------------------------------------------------------------------
  // `%d` of a non-negative integer

  predicate IsDigit(c: char) {
    '0' <= c <= '9'
  }

  function DigitChar(d: nat): (c: char)
    requires d < 10
    ensures IsDigit(c)
  {
    ('0' as int + d) as char
  }

  function DigitValue(c: char): nat
    requires IsDigit(c)
  {
    c as int - '0' as int
  }

  /** The decimal digits of n, most significant first, without leading zeros. */
  function Decimal(n: nat): (s: string)
    ensures |s| > 0
    ensures forall i :: 0 <= i < |s| ==> IsDigit(s[i])
    ensures |s| > 1 ==> s[0] != '0'
  {
    if n < 10 then [DigitChar(n)] else Decimal(n / 10) + [DigitChar(n % 10)]
  }

  /** Reads a string of decimal digits as a number. */
  function ParseDecimal(s: string): nat
    requires forall i :: 0 <= i < |s| ==> IsDigit(s[i])
  {
    if |s| == 0 then 0 else 10 * ParseDecimal(s[..|s| - 1]) + DigitValue(s[|s| - 1])
  }

  /** `%d` is read back as the number it printed. */
  lemma {:induction false} DecimalRoundTrip(n: nat)
    ensures ParseDecimal(Decimal(n)) == n
  {
    var s := Decimal(n);
    if n >= 10 {
      DecimalRoundTrip(n / 10);
      assert s[..|s| - 1] == Decimal(n / 10);
    }
  }

  /** Different ports print differently. */
  lemma DecimalInjective(m: nat, n: nat)
    requires Decimal(m) == Decimal(n)
    ensures m == n
  {
    DecimalRoundTrip(m);
    DecimalRoundTrip(n);
  }

  /** Under one redirect URL, different ports give different redirect URIs. */
  lemma RedirectUriInjective(redirectUrl: string, m: uint16, n: uint16)
    requires RedirectUri(redirectUrl, m) == RedirectUri(redirectUrl, n)
    ensures m == n
  {
    var k := |redirectUrl| + 1;
    assert RedirectUri(redirectUrl, m)[k..] == Decimal(m as nat);
    assert RedirectUri(redirectUrl, n)[k..] == Decimal(n as nat);
    DecimalInjective(m as nat, n as nat);
  }

  lemma DefaultPortDecimal()
    ensures Decimal(DefaultPort as nat) == "3036"
  {
    assert Decimal(3) == "3";
    assert Decimal(30) == "30";
    assert Decimal(303) == "303";
  }

  // ---------------------------------------------------------------------
  // The Printf builders

  /** RedirectURL + ":" + Port, the `redirect_uri` of both texts. */
  function RedirectUri(redirectUrl: string, port: uint16): string {
    redirectUrl + ":" + Decimal(port as nat)
  }

  /** The content of the token request. */
  function TokenRequestBody(authKey: string, redirectUrl: string, port: uint16, clientKey: string, verify: string): string {
    "grant_type=authorization_code&code=" + authKey + "&redirect_uri=" + RedirectUri(redirectUrl, port)
      + "&client_id=" + clientKey + "&code_verifier=" + verify
  }

  /** The authorize URL opened with LaunchURL. */
  function AuthorizeUrl(clientKey: string, redirectUrl: string, port: uint16, challenge: string): string {
    "https://accounts.spotify.com/authorize?" + "response_type=code" + "&client_id=" + clientKey
      + "&redirect_uri=" + RedirectUri(redirectUrl, port)
      + "&scope=" + Scope + "&code_challenge=" + challenge + "&code_challenge_method=" + "S256"
  }

  datatype HttpRequest = HttpRequest(url: string, verb: string, headers: seq<(string, string)>, body: string)

  /** The request RequestRefreshKey hands to the HTTP module. */
  function RefreshKeyRequest(authKey: string, redirectUrl: string, port: uint16, clientKey: string, verify: string): (r: HttpRequest)
    ensures r.url == TokenEndpoint && r.verb == TokenVerb
    ensures r.headers == [ContentTypeHeader]
  {
    HttpRequest(TokenEndpoint, TokenVerb, [ContentTypeHeader], TokenRequestBody(authKey, redirectUrl, port, clientKey, verify))
  }

  // ---------------------------------------------------------------------
  // Reading a form-encoded text

  /** The index of the first c in s, or |s| when there is none. */
  function IndexOf(s: string, c: char): (i: nat)
    ensures i <= |s|
    ensures i < |s| ==> s[i] == c
    ensures forall j :: 0 <= j < i ==> s[j] != c
  {
    if |s| == 0 then 0 else if s[0] == c then 0 else 1 + IndexOf(s[1..], c)
  }

  /** The pieces of s between the separators. */
  function Split(s: string, sep: char): (r: seq<string>)
    ensures |r| > 0
    decreases |s|
  {
    var i := IndexOf(s, sep);
    if i == |s| then [s] else [s[..i]] + Split(s[i + 1..], sep)
  }

  /** The pieces, with a separator between each two. */
  function Join(pieces: seq<string>, sep: char): string
    requires |pieces| > 0
  {
    if |pieces| == 1 then pieces[0] else pieces[0] + [sep] + Join(pieces[1..], sep)
  }

  function EncodeField(field: (string, string)): string {
    field.0 + "=" + field.1
  }

  predicate IsHexDigit(c: char) {
    '0' <= c <= '9' || 'A' <= c <= 'F' || 'a' <= c <= 'f'
  }

  function HexValue(c: char): (n: nat)
    requires IsHexDigit(c)
    ensures n < 16
  {
    if c <= '9' then c as int - '0' as int
    else if c <= 'F' then c as int - 'A' as int + 10
    else c as int - 'a' as int + 10
  }

  /**
   * The form decoding of a key or a value: '+' reads as a space and %XX as
   * the character with that hexadecimal code; a '%' without two hexadecimal
   * digits after it is kept.
   */
  function FormDecode(t: string): string
    decreases |t|
  {
    if |t| == 0 then ""
    else if t[0] == '+' then " " + FormDecode(t[1..])
    else if t[0] == '%' && |t| >= 3 && IsHexDigit(t[1]) && IsHexDigit(t[2])
    then [(16 * HexValue(t[1]) + HexValue(t[2])) as char] + FormDecode(t[3..])
    else [t[0]] + FormDecode(t[1..])
  }

  /** A field reads as the decoded text before the first '=' and the decoded rest after it. */
  function DecodeField(text: string): (string, string) {
    var i := IndexOf(text, '=');
    if i == |text| then (FormDecode(text), "") else (FormDecode(text[..i]), FormDecode(text[i + 1..]))
  }

  function EncodeForm(fields: seq<(string, string)>): string
    requires |fields| > 0
  {
    Join(seq(|fields|, i requires 0 <= i < |fields| => EncodeField(fields[i])), '&')
  }

  function ParseForm(text: string): (fields: seq<(string, string)>) {
    var pieces := Split(text, '&');
    seq(|pieces|, i requires 0 <= i < |pieces| => DecodeField(pieces[i]))
  }

  /** A text the form encoding carries unchanged: no separator '&' and nothing the decoding rewrites. */
  predicate IsPlain(t: string) {
    '&' !in t && '+' !in t && '%' !in t
  }

  /** A field that can be read back: a plain key without '=', and a plain value. */
  predicate IsFormSafe(field: (string, string)) {
    '=' !in field.0 && IsPlain(field.0) && IsPlain(field.1)
  }

  lemma IndexOfAbsent(s: string, c: char)
    requires c !in s
    ensures IndexOf(s, c) == |s|
  {
  }

  lemma {:induction false} IndexOfFirst(a: string, c: char, b: string)
    requires c !in a
    ensures IndexOf(a + [c] + b, c) == |a|
  {
    if |a| > 0 {
      assert (a + [c] + b)[1..] == a[1..] + [c] + b;
      IndexOfFirst(a[1..], c, b);
    }
  }

  /** Splitting at a first separator peels off the text before it. */
  lemma SplitCons(a: string, sep: char, b: string)
    requires sep !in a
    ensures Split(a + [sep] + b, sep) == [a] + Split(b, sep)
  {
    var s := a + [sep] + b;
    IndexOfFirst(a, sep, b);
    assert s[..|a|] == a;
    assert s[|a| + 1..] == b;
  }

  lemma {:induction false} SplitJoin(pieces: seq<string>, sep: char)
    requires |pieces| > 0
    requires forall i :: 0 <= i < |pieces| ==> sep !in pieces[i]
    ensures Split(Join(pieces, sep), sep) == pieces
    decreases |pieces|
  {
    if |pieces| == 1 {
      IndexOfAbsent(pieces[0], sep);
    } else {
      var rest := pieces[1..];
      assert forall i :: 0 <= i < |rest| ==> sep !in rest[i] by {
        forall i | 0 <= i < |rest| ensures sep !in rest[i] {
          assert rest[i] == pieces[i + 1];
        }
      }
      SplitCons(pieces[0], sep, Join(rest, sep));
      SplitJoin(rest, sep);
      assert pieces == [pieces[0]] + rest;
    }
  }

  /** A text without '+' or '%' decodes to itself. */
  lemma {:induction false} PlainDecodes(t: string)
    requires '+' !in t && '%' !in t
    ensures FormDecode(t) == t
    decreases |t|
  {
    if |t| > 0 {
      PlainDecodes(t[1..]);
      assert t == [t[0]] + t[1..];
    }
  }

  /** The decoding is not the identity: '+' is a space and %41 is 'A'. */
  lemma FormDecodeRewrites()
    ensures FormDecode("b+c") == "b c"
    ensures FormDecode("%41") == "A"
  {
    assert FormDecode("c") == "c";
    assert FormDecode("+c") == " c";
    assert HexValue('4') == 4 && HexValue('1') == 1;
  }

  lemma DecodeEncodeField(field: (string, string))
    requires IsFormSafe(field)
    ensures DecodeField(EncodeField(field)) == field
  {
    var text := EncodeField(field);
    IndexOfFirst(field.0, '=', field.1);
    assert text[..|field.0|] == field.0;
    assert text[|field.0| + 1..] == field.1;
    PlainDecodes(field.0);
    PlainDecodes(field.1);
  }

  /** A form of safe fields is read back field by field, in order. */
  lemma ParseEncodeForm(fields: seq<(string, string)>)
    requires |fields| > 0
    requires forall i :: 0 <= i < |fields| ==> IsFormSafe(fields[i])
    ensures ParseForm(EncodeForm(fields)) == fields
  {
    var pieces := seq(|fields|, i requires 0 <= i < |fields| => EncodeField(fields[i]));
    forall i | 0 <= i < |pieces| ensures '&' !in pieces[i] {
      assert pieces[i] == fields[i].0 + "=" + fields[i].1;
    }
    SplitJoin(pieces, '&');
    forall i | 0 <= i < |fields| ensures DecodeField(pieces[i]) == fields[i] {
      DecodeEncodeField(fields[i]);
    }
  }

  // ---------------------------------------------------------------------
  // What the Spotify accounts service reads

  function TokenRequestFields(authKey: string, redirectUrl: string, port: uint16, clientKey: string, verify: string): seq<(string, string)> {
    [("grant_type", "authorization_code"), ("code", authKey), ("redirect_uri", RedirectUri(redirectUrl, port)),
     ("client_id", clientKey), ("code_verifier", verify)]
  }

  function AuthorizeFields(clientKey: string, redirectUrl: string, port: uint16, challenge: string): seq<(string, string)> {
    [("response_type", "code"), ("client_id", clientKey), ("redirect_uri", RedirectUri(redirectUrl, port)),
     ("scope", Scope), ("code_challenge", challenge), ("code_challenge_method", "S256")]
  }

  lemma DecimalIsPlain(n: nat)
    ensures IsPlain(Decimal(n))
  {
  }

  lemma EncodeFormCons(fields: seq<(string, string)>)
    requires |fields| > 1
    ensures EncodeForm(fields) == EncodeField(fields[0]) + "&" + EncodeForm(fields[1..])
  {
    var pieces := seq(|fields|, i requires 0 <= i < |fields| => EncodeField(fields[i]));
    assert pieces[1..] == seq(|fields| - 1, i requires 0 <= i < |fields| - 1 => EncodeField(fields[1..][i]));
  }

  lemma EncodeFormOne(fields: seq<(string, string)>)
    requires |fields| == 1
    ensures EncodeForm(fields) == EncodeField(fields[0])
  {
    var pieces := seq(|fields|, i requires 0 <= i < |fields| => EncodeField(fields[i]));
    assert pieces == [EncodeField(fields[0])];
  }

  /** The form of five fields, one field and separator at a time. */
  lemma EncodeFormFive(f: seq<(string, string)>)
    requires |f| == 5
    ensures EncodeForm(f) == EncodeField(f[0]) + "&" + EncodeField(f[1]) + "&" + EncodeField(f[2]) + "&"
                          + EncodeField(f[3]) + "&" + EncodeField(f[4])
  {
    var f1, f2, f3, f4 := f[1..], f[2..], f[3..], f[4..];
    EncodeFormCons(f);
    EncodeFormCons(f1);
    assert f1[1..] == f2;
    EncodeFormCons(f2);
    assert f2[1..] == f3;
    EncodeFormCons(f3);
    assert f3[1..] == f4;
    EncodeFormOne(f4);
  }

  /** The form of six fields, one field and separator at a time. */
  lemma EncodeFormSix(f: seq<(string, string)>)
    requires |f| == 6
    ensures EncodeForm(f) == EncodeField(f[0]) + "&" + EncodeField(f[1]) + "&" + EncodeField(f[2]) + "&"
                          + EncodeField(f[3]) + "&" + EncodeField(f[4]) + "&" + EncodeField(f[5])
  {
    EncodeFormCons(f);
    EncodeFormFive(f[1..]);
  }

  // The literal pieces of the two texts, one equation each.
  lemma GrantTypeText()
    ensures "grant_type=authorization_code&code=" == "grant_type" + "=" + "authorization_code" + "&" + ("code" + "=")
  {
    assert "grant_type" + "=" + "authorization_code" == "grant_type=authorization_code";
  }

  lemma AuthorizePrefixText()
    ensures "https://accounts.spotify.com/authorize?" == AuthorizeEndpoint + "?"
  {
  }

  lemma ResponseTypeText()
    ensures "response_type=code" == "response_type" + "=" + "code"
  {
  }

  lemma ClientIdText()
    ensures "&client_id=" == "&" + ("client_id" + "=")
  {
  }

  lemma RedirectUriText()
    ensures "&redirect_uri=" == "&" + ("redirect_uri" + "=")
  {
  }

  lemma CodeVerifierText()
    ensures "&code_verifier=" == "&" + ("code_verifier" + "=")
  {
  }

  lemma ScopeText()
    ensures "&scope=" == "&" + ("scope" + "=")
  {
  }

  lemma CodeChallengeText()
    ensures "&code_challenge=" == "&" + ("code_challenge" + "=")
  {
  }

  lemma ChallengeMethodText()
    ensures "&code_challenge_method=" == "&" + ("code_challenge_method" + "=")
  {
  }

  /** A literal that ends in a separator and a key, then the key's value: one more field. */
  lemma AppendField(h: string, f: string, lit: string, key: string, value: string)
    requires lit == "&" + key
    ensures h + f + lit + value == h + (f + "&" + (key + value))
  {
  }

  /** The same without a prefix. */
  lemma AppendNextField(f: string, lit: string, key: string, value: string)
    requires lit == "&" + key
    ensures f + lit + value == f + "&" + (key + value)
  {
  }

  lemma FirstFields(lit: string, first: string, key: string, value: string)
    requires lit == first + "&" + key
    ensures lit + value == first + "&" + (key + value)
  {
  }

  /** The body of the token request is the form of its five fields, in the order Printf writes them. */
  lemma TokenRequestBodyIsForm(authKey: string, redirectUrl: string, port: uint16, clientKey: string, verify: string)
    ensures TokenRequestBody(authKey, redirectUrl, port, clientKey, verify)
         == EncodeForm(TokenRequestFields(authKey, redirectUrl, port, clientKey, verify))
  {
    var f := TokenRequestFields(authKey, redirectUrl, port, clientKey, verify);
    EncodeFormFive(f);
    GrantTypeText();
    FirstFields("grant_type=authorization_code&code=", EncodeField(f[0]), "code" + "=", authKey);
    var f1 := EncodeField(f[0]) + "&" + EncodeField(f[1]);
    RedirectUriText();
    AppendNextField(f1, "&redirect_uri=", "redirect_uri" + "=", RedirectUri(redirectUrl, port));
    var f2 := f1 + "&" + EncodeField(f[2]);
    ClientIdText();
    AppendNextField(f2, "&client_id=", "client_id" + "=", clientKey);
    var f3 := f2 + "&" + EncodeField(f[3]);
    CodeVerifierText();
    AppendNextField(f3, "&code_verifier=", "code_verifier" + "=", verify);
  }

  /**
   * When no value holds '&', '+' or '%', the accounts service reads the
   * grant type, the code, the redirect URI, the client id and the verifier
   * exactly.
   */
  lemma TokenRequestBodyFields(authKey: string, redirectUrl: string, port: uint16, clientKey: string, verify: string)
    requires IsPlain(authKey) && IsPlain(redirectUrl) && IsPlain(clientKey) && IsPlain(verify)
    ensures ParseForm(TokenRequestBody(authKey, redirectUrl, port, clientKey, verify))
         == TokenRequestFields(authKey, redirectUrl, port, clientKey, verify)
  {
    TokenRequestBodyIsForm(authKey, redirectUrl, port, clientKey, verify);
    TokenRequestFieldsSafe(authKey, redirectUrl, port, clientKey, verify);
    ParseEncodeForm(TokenRequestFields(authKey, redirectUrl, port, clientKey, verify));
  }

  /** The query of the authorize URL is the form of its six fields, built up one field at a time. */
  lemma AuthorizeUrlIsForm(clientKey: string, redirectUrl: string, port: uint16, challenge: string)
    ensures AuthorizeUrl(clientKey, redirectUrl, port, challenge)
         == AuthorizeEndpoint + "?" + EncodeForm(AuthorizeFields(clientKey, redirectUrl, port, challenge))
  {
    var f := AuthorizeFields(clientKey, redirectUrl, port, challenge);
    EncodeFormSix(f);
    AuthorizePrefixText();
    ResponseTypeText();
    var h := AuthorizeEndpoint + "?";
    var f0 := EncodeField(f[0]);
    ClientIdText();
    AppendField(h, f0, "&client_id=", "client_id" + "=", clientKey);
    var f1 := f0 + "&" + EncodeField(f[1]);
    RedirectUriText();
    AppendField(h, f1, "&redirect_uri=", "redirect_uri" + "=", RedirectUri(redirectUrl, port));
    var f2 := f1 + "&" + EncodeField(f[2]);
    ScopeText();
    AppendField(h, f2, "&scope=", "scope" + "=", Scope);
    var f3 := f2 + "&" + EncodeField(f[3]);
    CodeChallengeText();
    AppendField(h, f3, "&code_challenge=", "code_challenge" + "=", challenge);
    var f4 := f3 + "&" + EncodeField(f[4]);
    ChallengeMethodText();
    AppendField(h, f4, "&code_challenge_method=", "code_challenge_method" + "=", "S256");
  }

  // The fixed keys and values are plain, one text at a time.
  lemma GrantTypeFieldSafe()
    ensures IsFormSafe(("grant_type", "authorization_code"))
  {
  }

  lemma CodeKeyPlain()
    ensures '=' !in "code" && IsPlain("code")
  {
  }

  lemma RedirectUriKeyPlain()
    ensures '=' !in "redirect_uri" && IsPlain("redirect_uri")
  {
  }

  lemma ClientIdKeyPlain()
    ensures '=' !in "client_id" && IsPlain("client_id")
  {
  }

  lemma CodeVerifierKeyPlain()
    ensures '=' !in "code_verifier" && IsPlain("code_verifier")
  {
  }

  lemma DefaultClientKeyPlain()
    ensures IsPlain(DefaultClientKey)
  {
  }

  lemma DefaultRedirectUrlPlain()
    ensures IsPlain(DefaultRedirectUrl)
  {
  }

  lemma ResponseTypeFieldSafe()
    ensures IsFormSafe(("response_type", "code"))
  {
  }

  lemma ScopeFieldSafe()
    ensures IsFormSafe(("scope", Scope))
  {
  }

  lemma CodeChallengeKeyPlain()
    ensures '=' !in "code_challenge" && IsPlain("code_challenge")
  {
  }

  lemma ChallengeMethodFieldSafe()
    ensures IsFormSafe(("code_challenge_method", "S256"))
  {
  }

  /** Each token-request field is safe when the values are plain. */
  lemma TokenRequestFieldsSafe(authKey: string, redirectUrl: string, port: uint16, clientKey: string, verify: string)
    requires IsPlain(authKey) && IsPlain(redirectUrl) && IsPlain(clientKey) && IsPlain(verify)
    ensures var f := TokenRequestFields(authKey, redirectUrl, port, clientKey, verify);
      forall i :: 0 <= i < |f| ==> IsFormSafe(f[i])
  {
    DecimalIsPlain(port as nat);
    assert IsPlain(RedirectUri(redirectUrl, port));
    GrantTypeFieldSafe();
    CodeKeyPlain();
    RedirectUriKeyPlain();
    ClientIdKeyPlain();
    CodeVerifierKeyPlain();
  }

  /** Each authorize field is safe when the values are plain. */
  lemma AuthorizeFieldsSafe(clientKey: string, redirectUrl: string, port: uint16, challenge: string)
    requires IsPlain(clientKey) && IsPlain(redirectUrl) && IsPlain(challenge)
    ensures var f := AuthorizeFields(clientKey, redirectUrl, port, challenge);
      forall i :: 0 <= i < |f| ==> IsFormSafe(f[i])
  {
    DecimalIsPlain(port as nat);
    assert IsPlain(RedirectUri(redirectUrl, port));
    ResponseTypeFieldSafe();
    ClientIdKeyPlain();
    RedirectUriKeyPlain();
    ScopeFieldSafe();
    CodeChallengeKeyPlain();
    ChallengeMethodFieldSafe();
  }

  /** The authorize request carries the client id, redirect URI, challenge and method S256, when those are plain texts. */
  lemma AuthorizeUrlFields(clientKey: string, redirectUrl: string, port: uint16, challenge: string)
    requires IsPlain(clientKey) && IsPlain(redirectUrl) && IsPlain(challenge)
    ensures var url := AuthorizeUrl(clientKey, redirectUrl, port, challenge);
      && url[..|AuthorizeEndpoint| + 1] == AuthorizeEndpoint + "?"
      && ParseForm(url[|AuthorizeEndpoint| + 1..]) == AuthorizeFields(clientKey, redirectUrl, port, challenge)
  {
    AuthorizeUrlIsForm(clientKey, redirectUrl, port, challenge);
    var fields := AuthorizeFields(clientKey, redirectUrl, port, challenge);
    AuthorizeFieldsSafe(clientKey, redirectUrl, port, challenge);
    ParseEncodeForm(fields);
    var url := AuthorizeUrl(clientKey, redirectUrl, port, challenge);
    assert url == (AuthorizeEndpoint + "?") + EncodeForm(fields);
  }

  /** With the defaults the redirect URI is `http://localhost:3036`. */
  lemma DefaultRedirectUri()
    ensures RedirectUri(DefaultRedirectUrl, DefaultPort) == "http://localhost:3036"
  {
    DefaultPortDecimal();
  }
}
