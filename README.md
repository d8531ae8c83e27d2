# Spotify loopback authorization (PKCE) — a Dafny model

`USpotifyService` is an Unreal Engine game-instance subsystem. It obtains a
Spotify authorization code with the OAuth 2.0 authorization-code flow and
PKCE (RFC 7636).

On `Initialize` it does four things:

- builds a 64-character code verifier from a 62-character alphanumeric alphabet;
- derives the challenge: Base64 of the SHA-256 digest of the verifier, made URL-safe;
- opens the authorize URL in the browser;
- starts a TCP server socket on the loopback address and the configured port.

Every `Tick` does two things:

- `TCPListener` accepts a pending browser connection and closes the previous one;
- `ConnectionListener` reads the redirect request, extracts `code=` or
  `error=` from it, answers with a fixed HTML page and shuts the connection down.

On a code, `RetrieveAuthKey` keeps the code, stops listening, closes the server
socket and posts the token request (`RequestRefreshKey`). The token answer
(`ReceiveRefreshKey`) is only logged. `USpotifyCredentials` is the save-game
record with its `SetValues` setter.

The project has five modules:

- **`Pkce`** (`pkce.dfy`): the verifier loop, and the Base64 encoding of
  RFC 4648, section 4, written out as a reference definition. Also the '+'/'/'
  replacements, the space deletion and `RemoveFromEnd("=")`, checked against
  unpadded base64url (RFC 4648, section 5).
- **`AuthCode`** (`auth_code.dfy`): the two regular expressions as a
  leftmost-match scanner with a greedy capture. It is proved equal to a
  declarative "leftmost match, maximal run" definition.
- **`TokenRequest`** (`token_request.dfy`): the two `Printf` texts (token body
  and authorize URL), the `%d` of the port, and an independent
  `application/x-www-form-urlencoded` reader that splits on '&' and '=' and
  decodes '+' and `%XX`. The reader is proved to give back exactly the fields
  each text was built from, whenever no value holds '&', '+' or '%'.
- **`Service`** (`spotify_service.dfy`): the fields of the subsystem as a `State`
  value and one step function per operation. The class `SpotifyService` has
  the same fields, and each method is proved to change them exactly as its
  step function does. Its lemmas cover:
  - the socket invariant: at most one accepted connection is alive, only
    the pointed-to listener is, and every socket number in use was issued
    before the next one;
  - how the request text is read from the received bytes;
  - the code/error handling and the token request;
  - the approved-redirect scenario;
  - `Deinitialize`.
- **`Credentials`** (`spotify_credentials.dfy`): the save-game record.

The environment is modelled as inputs:

- the random indices (`Pick`s);
- the SHA-256 function (a parameter of `Initialize`; the lemmas take its 32-byte digest);
- whether the bind succeeds;
- whether a connection is pending and whether `Accept` succeeds;
- the `HasPendingData` sizes and the bytes each `Recv` delivers (`Chunk`s).

Socket calls are appended to a log of `SocketOp`s. Requests handed to the HTTP
module, and URLs passed to `LaunchURL`, are appended to lists.

### Notes on the code

- **Padding.** The challenge strips a single trailing '='
  (SpotifyService.cpp:199). Unpadded base64url removes all padding. The two
  agree whenever the input length is not 1 modulo 3
  (`ChallengeAgainstUnpadded`). If `sha256` returns the 32 raw digest bytes
  and `FBase64::Encode` is standard padded Base64, which this model assumes,
  the input is 32 bytes long and the challenge is exactly the unpadded
  base64url form (`Sha256ChallengeShape`).
- **Scope.** The only scope requested is `user-modify-playback-state`
  (SpotifyService.cpp:201). The model follows the code.
- **An error redirect changes nothing.** The `error=` match only logs
  (SpotifyService.cpp:105-108). The server socket stays open. Listening stops
  only because `ConnectionListener` always clears `bListening`
  (SpotifyService.cpp:88). The model follows the code
  (`RetrieveAuthKeyChangesIffCode`).
- **A failed re-accept leaves `bListening` as it was.** When `Accept` returns
  null after a previous connection was closed, `bListening` keeps its old
  value (SpotifyService.cpp:48-53). The model follows the code. Because
  `ConnectionListener` clears the flag in every tick that has a connection,
  the flag is already false between ticks (`TickEndsNotListening`,
  `NotListeningAfterAnyRun`), so a failed re-accept leaves it false.
- **The response literal.** It keeps the tabs that the line splices of the
  source leave in the string, and it uses "\n\r" line ends
  (SpotifyService.cpp:77-81). `Service.Response` reproduces it.

## Model

| member | source | states |
|---|---|---|
| Pkce.RandomCharsAreAlphanumerics | Source/Spotify/SpotifyService.cpp:186 | RandomChars has 62 characters, every one an ASCII letter or digit |
| Pkce.AlphanumericInRandomChars | Source/Spotify/SpotifyService.cpp:186 | every ASCII letter and digit is in RandomChars, so every alphanumeric can be drawn |
| Pkce.RandomText | Source/Spotify/SpotifyService.cpp:190-193 | one character per random index |
| Pkce.AppendRandomChars | Source/Spotify/SpotifyService.cpp:190-193 | the loop appends RandomChars[pick] for each pick, in order: the result is the old verifier followed by RandomText(picks) |
| Pkce.GeneratedVerifierIsValid | Source/Spotify/SpotifyService.cpp:186-193 | 64 picks give a 64-character text drawn from RandomChars that is a valid RFC 7636 code verifier (43 to 128 unreserved characters) |
| Pkce.Sextet | Source/Spotify/SpotifyService.cpp:195 | every 6-bit value maps to a character of the Base64 alphabet |
| Pkce.SextetIsAlphabet | Source/Spotify/SpotifyService.cpp:195 | the sextet mapping is indexing into the 64-character alphabet A-Z a-z 0-9 + / |
| Pkce.EncodeGroup | Source/Spotify/SpotifyService.cpp:195 | a group of 1 to 3 bytes gives 4 characters: alphabet characters, then 2, 1 or 0 '=' |
| Pkce.Base64Encode | Source/Spotify/SpotifyService.cpp:195 | (no contract of its own) the reference Base64 of RFC 4648, section 4, taken for FBase64::Encode: three bytes to four characters, the last group padded; Base64Shape states its length, alphabet and padding |
| Pkce.Base64Shape | Source/Spotify/SpotifyService.cpp:195 | the encoding has length 4 * ceil(n / 3); it is alphabet characters followed by exactly Padding(n) '=' |
| Pkce.ReplaceChar | Source/Spotify/SpotifyService.cpp:196-197 | Replace keeps the length and turns exactly the occurrences of one character into the other |
| Pkce.RemoveChar | Source/Spotify/SpotifyService.cpp:198 | Replace with an empty text removes every occurrence and leaves a text without that character unchanged |
| Pkce.RemoveCharKeeps | Source/Spotify/SpotifyService.cpp:198 | after the removal a character occurs exactly when it occurred before and is not the removed one |
| Pkce.RemoveCharAppend | Source/Spotify/SpotifyService.cpp:198 | removal distributes over concatenation |
| Pkce.RemoveFromEnd | Source/Spotify/SpotifyService.cpp:199 | RemoveFromEnd strips the suffix once when the text ends with it, and only then changes the text |
| Pkce.UrlSafeText | Source/Spotify/SpotifyService.cpp:196-198 | (no contract of its own) the three Replace calls: '+' to '-', '/' to '_', spaces deleted; Base64UrlProperties and UrlSafeEncodingShape state the result |
| Pkce.Base64Url | Source/Spotify/SpotifyService.cpp:196-199 | (no contract of its own) UrlSafeText followed by RemoveFromEnd("="); Base64UrlProperties states the result |
| Pkce.Challenge | Source/Spotify/SpotifyService.cpp:195-199 | (no contract of its own) Base64Url of the Base64 of the digest; ChallengeAgainstUnpadded and Sha256ChallengeShape state it |
| Pkce.Base64UrlProperties | Source/Spotify/SpotifyService.cpp:196-199 | the post-processed text holds no '+', '/' or space, and loses exactly one trailing '=' when it ends in one |
| Pkce.UrlSafeEncodingShape | Source/Spotify/SpotifyService.cpp:195-198 | after the replacements the encoding is URL-safe characters of the encoding, followed by its padding and no space |
| Pkce.StripPadding | Source/Spotify/SpotifyService.cpp:199 | on a padded text, dropping every '=' gives the body; RemoveFromEnd("=") gives the body for one pad and leaves one '=' for two |
| Pkce.UnpaddedShape | Source/Spotify/SpotifyService.cpp:195-199 | unpadded base64url has one URL-safe character per non-padding character of the Base64 encoding |
| Pkce.ChallengeAgainstUnpadded | Source/Spotify/SpotifyService.cpp:195-199 | the challenge equals unpadded base64url when the padding is at most one '=', and keeps one '=' more when two were added |
| Pkce.Sha256ChallengeShape | Source/Spotify/SpotifyService.cpp:195-199 | for a 32-byte digest the challenge is unpadded base64url: 43 base64url characters and no '=' |
| AuthCode.TokenRun | Source/Spotify/SpotifyService.cpp:93-94 | the run of `[\d\w-_]` characters from an index is maximal (greedy `+`) |
| AuthCode.Capture | Source/Spotify/SpotifyService.cpp:97-99 | (no contract of its own) FindNext then GetCaptureGroup(1): the token run after the key at the first matching position; CaptureIsLeftmostMatch and CaptureIsTokenRun state it |
| AuthCode.AuthorizationCode | Source/Spotify/SpotifyService.cpp:93-99 | (no contract of its own) the capture of `code=`, the pattern of line 93; ApprovedRedirect and CaptureIsLeftmostMatch state it |
| AuthCode.AuthorizationError | Source/Spotify/SpotifyService.cpp:105-107 | (no contract of its own) the capture of `error=`, the pattern of line 94, which is only logged; DeclinedRedirect and RetrieveAuthKeyChangesIffCode state it |
| AuthCode.FindFrom | Source/Spotify/SpotifyService.cpp:97 | the scan returns the first position from which the key is followed by a token character, or none when there is none |
| AuthCode.MaximalRunIsTokenRun | Source/Spotify/SpotifyService.cpp:93-94 | any maximal token run from an index is the one computed |
| AuthCode.MaximalRunUnique | Source/Spotify/SpotifyService.cpp:93-94 | there is one maximal run per index |
| AuthCode.LeftmostCaptureUnique | Source/Spotify/SpotifyService.cpp:97-99 | the leftmost match and its capture are unique |
| AuthCode.CaptureIsLeftmostMatch | Source/Spotify/SpotifyService.cpp:93-99 | FindNext plus GetCaptureGroup(1) returns t exactly when t is the capture of the leftmost match, and returns nothing exactly when no position matches |
| AuthCode.CaptureIsTokenRun | Source/Spotify/SpotifyService.cpp:99 | a captured code is non-empty and made of token characters |
| AuthCode.CaptureAt | Source/Spotify/SpotifyService.cpp:97-99 | a leftmost match at p with maximal run t is what the matcher reports |
| AuthCode.MatchOfParts | Source/Spotify/SpotifyService.cpp:93-94 | a key followed by a token run and then a non-token character, or the end of the text, matches with that run as its capture |
| AuthCode.ApprovedRedirect | Source/Spotify/SpotifyService.cpp:93-108 | `GET /?code=abc123 HTTP/1.1` yields the code abc123 and no error |
| AuthCode.DeclinedRedirect | Source/Spotify/SpotifyService.cpp:93-108 | `GET /?error=access_denied HTTP/1.1` yields no code and the error access_denied |
| TokenRequest.Decimal | Source/Spotify/SpotifyService.cpp:119-120 | `%d` of the port is a non-empty string of digits without a leading zero |
| TokenRequest.DecimalRoundTrip | Source/Spotify/SpotifyService.cpp:119-120 | reading the printed port back as a number gives the port |
| TokenRequest.DecimalInjective | Source/Spotify/SpotifyService.cpp:119-120 | different ports print as different `%d` texts |
| TokenRequest.RedirectUri | Source/Spotify/SpotifyService.cpp:119-120 | (no contract of its own) the `%s:%d` of the redirect URL and the port, shared by both Printf texts; RedirectUriInjective and DefaultRedirectUri state it |
| TokenRequest.RedirectUriInjective | Source/Spotify/SpotifyService.cpp:201-202 | for one redirect URL, different ports give different redirect URIs |
| TokenRequest.DefaultPortDecimal | Source/Spotify/SpotifyService.h:45 | the default port prints as 3036 |
| TokenRequest.DefaultRedirectUri | Source/Spotify/SpotifyService.h:41-45 | with the defaults the redirect URI is http://localhost:3036 |
| TokenRequest.RefreshKeyRequest | Source/Spotify/SpotifyService.cpp:116-122 | the token request is a POST to https://accounts.spotify.com/api/token with only the form content type header |
| TokenRequest.IndexOf | Source/Spotify/SpotifyService.cpp:122 | the index found for a character is its first occurrence, or the length when it does not occur |
| TokenRequest.SplitJoin | Source/Spotify/SpotifyService.cpp:122 | splitting on a separator no piece contains gives the joined pieces back |
| TokenRequest.PlainDecodes | Source/Spotify/SpotifyService.cpp:122 | the form decoding leaves a text without '+' or '%' unchanged |
| TokenRequest.FormDecodeRewrites | Source/Spotify/SpotifyService.cpp:122 | the form decoding turns '+' into a space and `%41` into 'A' |
| TokenRequest.DecodeEncodeField | Source/Spotify/SpotifyService.cpp:122 | a `key=value` field whose key holds no '=' and whose key and value hold no '&', '+' or '%' reads back, decoded, as the pair |
| TokenRequest.ParseEncodeForm | Source/Spotify/SpotifyService.cpp:122 | the form reader, which splits on '&' and '=' and decodes '+' and `%XX`, gives back every field of a form whose keys hold no '=' and whose keys and values hold no '&', '+' or '%' |
| TokenRequest.DecimalIsPlain | Source/Spotify/SpotifyService.cpp:119-120 | the printed port holds no '&', '+' or '%' |
| TokenRequest.TokenRequestBody | Source/Spotify/SpotifyService.cpp:119-120 | (no contract of its own) the Printf text of the token request body; TokenRequestBodyIsForm and TokenRequestBodyFields state it |
| TokenRequest.TokenRequestBodyIsForm | Source/Spotify/SpotifyService.cpp:119-120 | the Printf body is the form of grant_type, code, redirect_uri, client_id and code_verifier, in that order |
| TokenRequest.TokenRequestBodyFields | Source/Spotify/SpotifyService.cpp:119-122 | when no value holds '&', '+' or '%', a form-urlencoded reader gets exactly those five fields back |
| TokenRequest.AuthorizeUrl | Source/Spotify/SpotifyService.cpp:201-202 | (no contract of its own) the Printf text of the authorize URL; AuthorizeUrlIsForm and AuthorizeUrlFields state it |
| TokenRequest.AuthorizeUrlIsForm | Source/Spotify/SpotifyService.cpp:201-202 | the authorize URL is the endpoint, '?', and the form of response_type, client_id, redirect_uri, scope, code_challenge and code_challenge_method |
| TokenRequest.AuthorizeUrlFields | Source/Spotify/SpotifyService.cpp:201-202 | when no value holds '&', '+' or '%', the query reads back, decoded, as those six fields, with the challenge and method S256 |
| Service.Zeros | Source/Spotify/SpotifyService.cpp:67 | Init(0, n) gives n zero bytes |
| Service.Received | Source/Spotify/SpotifyService.cpp:69 | Recv overwrites the front of the buffer with the delivered bytes and keeps its size |
| Service.LastBuffer | Source/Spotify/SpotifyService.cpp:65-70 | (no contract of its own) the buffer the read loop leaves: empty without data, else the last chunk's; OnlyLastChunkCounts and the ConnectionListener method state it |
| Service.TextBeforeNul | Source/Spotify/SpotifyService.cpp:72-73 | the request text is the bytes before the first NUL, each read as a character |
| Service.RequestText | Source/Spotify/SpotifyService.cpp:62-73 | (no contract of its own) the buffer with a NUL appended, read up to the first NUL; RequestTextIsPrefix, StopsAtNul and NoDataNoText state it |
| Service.BeginAuthorizationStep | Source/Spotify/SpotifyService.cpp:12-29 | (no contract of its own) a new listener numbered nextId when the bind succeeds, a null pointer otherwise; InitializeSockets and InitializeEstablishesInv state it |
| Service.InitializeStep | Source/Spotify/SpotifyService.cpp:181-204 | 64 characters are appended to the verifier, Http is set, one URL is launched, and apart from the challenge and the server socket nothing else changes |
| Service.RequestRefreshKeyStep | Source/Spotify/SpotifyService.cpp:112-125 | only the request list changes: one request more exactly when Http is set, the earlier ones kept |
| Service.RetrieveAuthKeyStep | Source/Spotify/SpotifyService.cpp:91-110 | (no contract of its own) on a code match: keep the code, stop listening, close the server socket, request the tokens; RetrieveAuthKeyChangesIffCode and RetrieveAuthKeyOnCode state it |
| Service.DeinitializeStep | Source/Spotify/SpotifyService.cpp:206-219 | (no contract of its own) releases the connection, then the server socket; DeinitializeReleasesAll states it |
| Service.AtMostOneLiveConnection | Source/Spotify/SpotifyService.cpp:42-48 | under the invariant at most one accepted connection is alive, and none when the pointer is null |
| Service.TcpListenerStep | Source/Spotify/SpotifyService.cpp:31-56 | TCPListener never leaves a connection without the server socket it came from |
| Service.ConnectionListenerStep | Source/Spotify/SpotifyService.cpp:58-89 | ConnectionListener keeps the connection tied to its server socket |
| Service.TickStep | Source/Spotify/SpotifyService.cpp:170-174 | a tick keeps the connection tied to its server socket |
| Service.Run | Source/Spotify/SpotifyService.cpp:170-174 | any sequence of ticks keeps the connection tied to its server socket |
| Service.InitializeEstablishesInv | Source/Spotify/SpotifyService.cpp:181-204 | Initialize establishes the socket invariant whether or not the bind succeeds |
| Service.InitializeVerifier | Source/Spotify/SpotifyService.cpp:186-193 | after Initialize the verifier is the 64 drawn characters, a valid code verifier, and holds no '&', '+' or '%' |
| Service.InitializeChallenge | Source/Spotify/SpotifyService.cpp:195-199 | after Initialize the challenge is the 43-character unpadded base64url of the digest |
| Service.InitializeLaunchesAuthorizeUrl | Source/Spotify/SpotifyService.cpp:200-202 | Initialize opens exactly one URL; its query reads as the authorize fields with the stored challenge |
| Service.ChallengeIsPlain | Source/Spotify/SpotifyService.cpp:195-199 | the challenge of a 32-byte digest holds no '&', '+' or '%' |
| Service.DefaultsArePlain | Source/Spotify/SpotifyService.h:35-41 | the default client key and redirect URL hold no '&', '+' or '%' |
| Service.InitializeSockets | Source/Spotify/SpotifyService.cpp:200-203 | after Initialize the HTTP module is loaded, one listener exists exactly when the bind succeeded, and nothing is connected or requested |
| Service.TcpListenerKeepsInv | Source/Spotify/SpotifyService.cpp:39-53 | TCPListener destroys the old connection before accepting, so the invariant holds afterwards |
| Service.AcceptedConnectionIsNew | Source/Spotify/SpotifyService.cpp:48 | under the invariant the socket Accept returns is new: it is not the server socket and its number appears nowhere in the log |
| Service.RetrieveAuthKeyKeepsInv | Source/Spotify/SpotifyService.cpp:97-104 | closing the server socket keeps the invariant |
| Service.ReplyKeepsInv | Source/Spotify/SpotifyService.cpp:86-88 | sending the response and shutting the connection down keep the invariant |
| Service.ConnectionListenerKeepsInv | Source/Spotify/SpotifyService.cpp:58-89 | ConnectionListener keeps the invariant |
| Service.TickKeepsInv | Source/Spotify/SpotifyService.cpp:170-174 | a tick keeps the invariant |
| Service.RunKeepsInv | Source/Spotify/SpotifyService.cpp:170-174 | any number of ticks keep the invariant |
| Service.OneConnectionAfterAnyRun | Source/Spotify/SpotifyService.cpp:42-48 | after Initialize and any ticks at most one accepted connection is alive |
| Service.TcpListenerOutcome | Source/Spotify/SpotifyService.cpp:31-56 | no server socket or no pending connection changes nothing; otherwise the old connection is released, Accept's result is stored, and listening starts only on success; nothing else changes |
| Service.RetrieveAuthKeyChangesIffCode | Source/Spotify/SpotifyService.cpp:91-110 | the extraction changes the state exactly when the request carries a code; an error alone changes nothing |
| Service.RetrieveAuthKeyOnCode | Source/Spotify/SpotifyService.cpp:97-104 | on a code: AuthKey is the code, listening stops, the server socket is closed, and one token request is posted when Http is set; nothing else changes |
| Service.TokenRequestCarriesCode | Source/Spotify/SpotifyService.cpp:103-122 | the posted request is the POST to the token endpoint whose form carries the extracted code and the verifier |
| Service.ConnectionListenerOutcome | Source/Spotify/SpotifyService.cpp:58-89 | without listening or a connection it does nothing; otherwise it extracts only from a non-empty text, then sends the response, shuts down and stops listening |
| Service.OnlyLastChunkCounts | Source/Spotify/SpotifyService.cpp:65-70 | each read re-initialises the buffer, so only the last read decides the request |
| Service.NoDataNoText | Source/Spotify/SpotifyService.cpp:72-75 | no pending data gives the empty request, so no extraction |
| Service.StopsAtNul | Source/Spotify/SpotifyService.cpp:72-73 | the request text ends at or before any NUL |
| Service.RequestTextIsPrefix | Source/Spotify/SpotifyService.cpp:62-73 | the request text is the front of the last delivered bytes, bounded by min(Size, 65507), ending at a NUL, at the end of the data or at the buffer size |
| Service.RequestTextOfWholeRequest | Source/Spotify/SpotifyService.cpp:62-73 | a request without NUL that fits the buffer is read exactly |
| Service.TickEndsNotListening | Source/Spotify/SpotifyService.cpp:31-89 | a tick that starts without bListening ends without it, whatever Accept and the reads return |
| Service.NotListeningAfterAnyRun | Source/Spotify/SpotifyService.cpp:170-174 | from a state without bListening, any run of ticks ends without it |
| Service.AlphanumericTextIsPlain | Source/Spotify/SpotifyService.cpp:186-193 | a text of letters and digits, such as the verifier, holds no '&', '+' or '%' |
| Service.TickAnswersNewConnection | Source/Spotify/SpotifyService.cpp:170-174 | a connection accepted in a tick is answered and shut down in the same tick, after the accept |
| Service.ApprovedRedirectScenario | Source/Spotify/SpotifyService.cpp:58-122 | the approved redirect on a new connection stores abc123, stops listening, posts one token request carrying the code, and keeps the invariant |
| Service.DeinitializeReleasesAll | Source/Spotify/SpotifyService.cpp:206-219 | Deinitialize closes and destroys the connection and then the server socket, leaves no socket alive, and changes nothing else |
| Service.SpotifyService.constructor | Source/Spotify/SpotifyService.h:35-45 | a new subsystem holds the default client key, redirect URL and port, empty texts and null pointers, and the socket invariant holds |
| Service.SpotifyService.Initialize | Source/Spotify/SpotifyService.cpp:181-204 | the fields change as InitializeStep says: verifier, challenge of sha256(verifier), Http, one launched URL, then BeginAuthorization; on a new subsystem the invariant holds afterwards |
| Service.SpotifyService.BeginAuthorization | Source/Spotify/SpotifyService.cpp:12-29 | the server socket is a new listener when the bind succeeds, null otherwise |
| Service.SpotifyService.TCPListener | Source/Spotify/SpotifyService.cpp:31-56 | the fields change as TcpListenerStep says, and the invariant is kept |
| Service.SpotifyService.ConnectionListener | Source/Spotify/SpotifyService.cpp:58-89 | the read loop leaves the last chunk's buffer; the fields change as ConnectionListenerStep says, and the invariant is kept |
| Service.SpotifyService.RetrieveAuthKey | Source/Spotify/SpotifyService.cpp:91-110 | the fields change as RetrieveAuthKeyStep says; the error text it returns is the error capture |
| Service.SpotifyService.RequestRefreshKey | Source/Spotify/SpotifyService.cpp:112-125 | without Http nothing happens; otherwise the token request is appended |
| Service.SpotifyService.ReceiveRefreshKey | Source/Spotify/SpotifyService.cpp:139-149 | no log exactly when the request failed, a warning exactly for a 2xx status, an error exactly for any other status |
| Service.SpotifyService.Tick | Source/Spotify/SpotifyService.cpp:170-174 | TCPListener then ConnectionListener, keeping the invariant |
| Service.SpotifyService.Deinitialize | Source/Spotify/SpotifyService.cpp:206-219 | the fields change as DeinitializeStep says |
| Credentials.SpotifyCredentials.constructor | Source/Spotify/SpotifyCredentials.h:17-24 | a new record holds three empty texts |
| Credentials.SpotifyCredentials.SetValues | Source/Spotify/SpotifyCredentials.cpp:6-11 | the three fields take the arguments, and nothing else changes |
| Credentials.SaveTwice | Source/Spotify/SpotifyCredentials.cpp:6-11 | of two saves in a row, the second one's values are what the record holds |

## Left out

- Sockets, the HTTP module and the browser are not modelled as real resources.
  - A socket is a numbered handle. Every call made on it is appended, in order, to a log.
  - What the engine answers is an input: the bind, pending connections, Accept, pending data, Recv.
  - A request given to the HTTP module is appended to a list. Sending it and its completion callback are not modelled.
  - `LaunchURL` appends its URL to a list.
- `CreateServerSocket`'s builder options (reusable, the backlog of 8, the
  2 MiB receive buffer) are not modelled. Only its success or a null result is.
- The `RemoteAddr` created in `BeginAuthorization` and the
  `RemoteConnectionEndpoint` stored by `TCPListener` are not modelled. Neither
  value is used.
- `UE_LOG` output is not kept, because logging has no effect on the state.
  `RetrieveAuthKey` returns the error text it would log, and
  `ReceiveRefreshKey` returns the log level it would use.
- `FMath::RandRange` is modelled by the indices it returns (`Pick`s).
- SHA-256 is a function parameter. Its algorithm is outside this model.
- `sha256` and `FBase64::Encode` are not part of this model. The `sha256`
  helper is assumed to return the 32 raw digest bytes. `FBase64::Encode` is
  assumed to be standard RFC 4648 Base64 with '=' padding (`Base64Encode`).
  `Sha256ChallengeShape`, `InitializeChallenge` and `ChallengeIsPlain` rest
  on both assumptions.
- The class `[\d\w-_]` is narrowed to ASCII letters, digits, '-' and '_'
  (`IsTokenChar`). ICU's `\w` and `\d` are Unicode classes. Since
  UTF8_TO_TCHAR is read here as one character per byte, ICU would also count
  most of the bytes 0xC0-0xFF and a few others (such as 0xAA, 0xB5 and 0xBA),
  read as Latin-1 letters, as word characters. The model does not.
- UTF8_TO_TCHAR reads each byte as one character. Multi-byte UTF-8 decoding is
  not modelled. The redirect requests the service expects are ASCII.
- The response's length is taken as `Strlen` of the wide text, and the bytes
  `TCHAR_TO_UTF8` sends are not modelled. The log records the response text that is sent.
- `RequestPlaybackInformation`, `RequestPlay`, `RequestPause`,
  `ReceivePlaybackInformation`, `ReceivePlay`, `ReceivePause` and `OnError`
  are left out: their bodies are empty (SpotifyService.cpp:127-137, :152-167).
- `SaveToSlot`, `LoadCredentials` and `RefreshAccessKey` are declared in
  SpotifyService.h but have no definition in SpotifyService.cpp, so they are
  left out.
- `ShouldCreateSubsystem` only calls the base class and is left out.
- `Super::Initialize`, `Super::Deinitialize` and the tick-interface functions
  of the header are engine callbacks and are left out.
- No value is percent-encoded, in the code or in the model. The reader
  decodes '+' and `%XX`, so the form round-trip lemmas require values free of
  '&', '+' and '%'. The service's own values are proved free of all three:
  the defaults (`DefaultsArePlain`), the verifier (`InitializeVerifier`), the
  challenge (`ChallengeIsPlain`), the port (`DecimalIsPlain`) and the
  captured code (`TokenRequestCarriesCode`).
- Service.SpotifyService.BeginAuthorization: not proved to keep the socket
  invariant. Called a second time with a live server socket, it would leave
  the old listener alive. The code calls it only once, from `Initialize` on a
  fresh subsystem, where `InitializeEstablishesInv` covers it.
- Service.SpotifyService.Deinitialize: leaves the pointers as they were, as
  the code does. `DeinitializeReleasesAll` states that no socket stays alive.
- The port's `uint16` range is a subset type. Nothing in the code does
  arithmetic on it.
- The `Size` reported by `HasPendingData` is a `uint32`, as in the code. The
  minimum with 65507 is exact.
