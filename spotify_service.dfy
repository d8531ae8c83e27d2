/**
 * USpotifyService: the loopback side of the OAuth 2.0 authorization-code
 * flow with PKCE. Initialize makes the verifier and the challenge, opens the
 * authorize URL and starts a server socket on localhost; every Tick accepts
 * a pending browser connection (TCPListener) and answers it
 * (ConnectionListener), and a redirect carrying `code=` makes the service
 * keep the code, close the server socket and post the token request.
 *
 * The engine's sockets and HTTP module are reduced to what the service does
 * with them: a socket is a handle with a number, every call on a socket is
 * appended to a log, and every request handed to the HTTP module is appended
 * to a list. What the environment answers (a pending connection, whether
 * Accept succeeds, the pending data and the bytes read) are inputs.
 *
 * The step functions below are the specification: each method of the class
 * SpotifyService changes its fields exactly as the matching step function
 * changes the State value, and the lemmas state what the service promises
 * about those functions.
 */
module Service {
  import opened Pkce
  import opened AuthCode
  import opened TokenRequest

  type uint32 = x: int | 0 <= x < 0x1_0000_0000

  /** The largest buffer ConnectionListener allocates for one read. */
  const MaxReadSize: nat := 65507

  /** The answer sent to the browser (the line splices of the source keep the tabs that start each line). */
  const Response: string := "HTTP/1.1 200 OK\r\n\t\tCache-Control: no-cache, private\n\r\t\tServer: Unreal-Socket-Server\n\r\n\r\t\t<!DOCTYPE HTML PUBLIC \"-//IETF//DTD HTML 2.0//EN\">\r\n<html><head>\r\n<title>Success!</title>\t\t\r\n</head><body>\r<h1>Success!</h1>\n<p>You can close this document now!</p></body></html>"

  /** An FSocket pointer: null, or the socket with the given number. */
  datatype Handle = Null | Socket(id: nat)

  /** A call on a socket, in the order the service makes them. */
  datatype SocketOp =
    | Listen(id: nat)
    | Accept(id: nat)
    | Send(id: nat, data: string)
    | Shutdown(id: nat)
    | Close(id: nat)
    | Destroy(id: nat)

  /** One `true` answer of HasPendingData: the size it reports and the bytes Recv then delivers. */
  datatype Chunk = Chunk(pendingSize: uint32, received: seq<byte>)

  /** How ReceiveRefreshKey reports a finished token request. */
  datatype LogLevel = NoLog | Warning | Error

  /** The fields of USpotifyService the model keeps. */
  datatype State = State(
    clientKey: string,
    redirectUrl: string,
    port: uint16,
    authKey: string,
    verify: string,
    challenge: string,
    http: bool,
    serverSocket: Handle,
    connectionSocket: Handle,
    listening: bool,
    nextId: nat,
    sockets: seq<SocketOp>,
    requests: seq<HttpRequest>,
    launched: seq<string>)

  /** A new subsystem: the defaults of SpotifyService.h, empty texts, null pointers. */
  function InitialState(): State {
    State(DefaultClientKey, DefaultRedirectUrl, DefaultPort, "", "", "", false, Null, Null, false, 0, [], [], [])
  }

  // ---------------------------------------------------------------------
  // Sockets that are still alive

  datatype Kind = Listening | Accepted | Destroyed

  predicate IsKind(op: SocketOp, k: Kind) {
    match k
    case Listening => op.Listen?
    case Accepted => op.Accept?
    case Destroyed => op.Destroy?
  }

  /** The numbers of the sockets the log shows listening, accepted or destroyed. */
  function Ids(log: seq<SocketOp>, k: Kind): set<nat> {
    if |log| == 0 then {}
    else Ids(log[..|log| - 1], k) + (if IsKind(log[|log| - 1], k) then {log[|log| - 1].id} else {})
  }

  /** Sockets opened as listeners or accepted connections and not yet destroyed. */
  function Live(log: seq<SocketOp>, k: Kind): set<nat> {
    Ids(log, k) - Ids(log, Destroyed)
  }

  function HandleIds(h: Handle): set<nat> {
    if h.Socket? then {h.id} else {}
  }

  /** The connection socket is only ever accepted from the server socket. */
  predicate ServerOutlivesConnection(s: State) {
    s.connectionSocket.Socket? ==> s.serverSocket.Socket?
  }

  /** Every socket number the log mentions is below n. */
  predicate LogBelow(log: seq<SocketOp>, n: nat) {
    forall i :: 0 <= i < |log| ==> log[i].id < n
  }

  predicate HandleBelow(h: Handle, n: nat) {
    h.Socket? ==> h.id < n
  }

  /** Socket numbers are handed out in order: the log and both pointers only use numbers below the next one. */
  predicate NumbersIssued(s: State) {
    && LogBelow(s.sockets, s.nextId)
    && HandleBelow(s.serverSocket, s.nextId)
    && HandleBelow(s.connectionSocket, s.nextId)
  }

  /**
   * The invariant the service keeps: the only live accepted connection is
   * the one ConnectionSocket points to, the only live listener is the one
   * ServerSocket points to, a connection implies a server socket (the
   * one RetrieveAuthKey closes), and every socket number in use was issued.
   */
  predicate Inv(s: State) {
    && Live(s.sockets, Accepted) <= HandleIds(s.connectionSocket)
    && Live(s.sockets, Listening) <= HandleIds(s.serverSocket)
    && ServerOutlivesConnection(s)
    && NumbersIssued(s)
  }

  lemma LogBelowAppend(a: seq<SocketOp>, b: seq<SocketOp>, m: nat, n: nat)
    requires LogBelow(a, m) && LogBelow(b, n) && m <= n
    ensures LogBelow(a + b, n)
  {
    forall i | 0 <= i < |a + b| ensures (a + b)[i].id < n {
      if i < |a| {
        assert (a + b)[i] == a[i];
      } else {
        assert (a + b)[i] == b[i - |a|];
      }
    }
  }

  /** A number the log shows listening, accepted or destroyed is below every bound of the log. */
  lemma {:induction false} IdsBelowBound(log: seq<SocketOp>, n: nat, k: Kind)
    requires LogBelow(log, n)
    ensures forall x :: x in Ids(log, k) ==> x < n
    decreases |log|
  {
    if |log| > 0 {
      var init := log[..|log| - 1];
      assert LogBelow(init, n) by {
        forall i | 0 <= i < |init| ensures init[i].id < n {
          assert init[i] == log[i];
        }
      }
      IdsBelowBound(init, n, k);
      assert log[|log| - 1].id < n;
    }
  }

  lemma {:induction false} IdsAppend(a: seq<SocketOp>, b: seq<SocketOp>, k: Kind)
    ensures Ids(a + b, k) == Ids(a, k) + Ids(b, k)
    decreases |b|
  {
    if |b| == 0 {
      assert a + b == a;
    } else {
      var b' := b[..|b| - 1];
      assert (a + b)[..|a + b| - 1] == a + b';
      IdsAppend(a, b', k);
    }
  }

  /** At most one accepted connection is alive at any time. */
  lemma AtMostOneLiveConnection(s: State)
    requires Inv(s)
    ensures |Live(s.sockets, Accepted)| <= 1
    ensures s.connectionSocket.Null? ==> Live(s.sockets, Accepted) == {}
  {
    var live := Live(s.sockets, Accepted);
    if s.connectionSocket.Socket? {
      assert live <= {s.connectionSocket.id};
      if live != {} {
        var x :| x in live;
        assert live == {x};
      }
    }
  }

  // ---------------------------------------------------------------------
  // Reading the browser's request

  function Min(a: nat, b: nat): nat {
    if a < b then a else b
  }

  /** ReceivedData.Init(0, n). */
  function Zeros(n: nat): (z: seq<byte>)
    ensures |z| == n && forall i :: 0 <= i < n ==> z[i] == 0
  {
    seq(n, _ => 0)
  }

  /** Recv into the buffer: the delivered bytes overwrite its front, as many as fit. */
  function Received(buffer: seq<byte>, delivered: seq<byte>): (r: seq<byte>)
    ensures |r| == |buffer|
    ensures forall i :: 0 <= i < |r| ==> r[i] == if i < |delivered| then delivered[i] else buffer[i]
  {
    var n := Min(|delivered|, |buffer|);
    delivered[..n] + buffer[n..]
  }

  /** The buffer after one pass of the read loop. */
  function ChunkBuffer(c: Chunk): seq<byte> {
    Received(Zeros(Min(c.pendingSize, MaxReadSize)), c.received)
  }

  /** The buffer after the read loop: each pass re-initialises it, so only the last chunk is left. */
  function LastBuffer(chunks: seq<Chunk>): seq<byte> {
    if |chunks| == 0 then [] else ChunkBuffer(chunks[|chunks| - 1])
  }

  /** UTF8_TO_TCHAR, with every byte read as one character: the bytes before the first NUL. */
  function TextBeforeNul(bytes: seq<byte>): (t: string)
    ensures |t| <= |bytes|
    ensures forall i :: 0 <= i < |t| ==> bytes[i] != 0 && t[i] == bytes[i] as char
    ensures |t| < |bytes| ==> bytes[|t|] == 0
  {
    if |bytes| == 0 || bytes[0] == 0 then "" else [bytes[0] as char] + TextBeforeNul(bytes[1..])
  }

  /** The request text: the buffer with a NUL appended, read up to the first NUL. */
  function RequestText(chunks: seq<Chunk>): string {
    TextBeforeNul(LastBuffer(chunks) + [0])
  }

  // ---------------------------------------------------------------------
  // The steps

  /** CreateServerSocket succeeds (bindOk) with a new listening socket, or yields null. */
  function BeginAuthorizationStep(s: State, bindOk: bool): State {
    if bindOk then s.(serverSocket := Socket(s.nextId), nextId := s.nextId + 1, sockets := s.sockets + [Listen(s.nextId)])
    else s.(serverSocket := Null)
  }

  function InitializeStep(s: State, picks: seq<Pick>, digest: seq<byte>, bindOk: bool): (r: State)
    requires |picks| == VerifierLength
    ensures |r.verify| == |s.verify| + 64 && r.verify[..|s.verify|] == s.verify
    ensures r.http && |r.launched| == |s.launched| + 1 && r.launched[..|s.launched|] == s.launched
    ensures r.(verify := s.verify, challenge := s.challenge, http := s.http, launched := s.launched,
               serverSocket := s.serverSocket, nextId := s.nextId, sockets := s.sockets) == s
  {
    var verify := s.verify + RandomText(picks);
    var challenge := Challenge(digest);
    var url := AuthorizeUrl(s.clientKey, s.redirectUrl, s.port, challenge);
    BeginAuthorizationStep(s.(verify := verify, challenge := challenge, http := true, launched := s.launched + [url]), bindOk)
  }

  function TcpListenerStep(s: State, pending: bool, acceptOk: bool): (r: State)
    ensures ServerOutlivesConnection(s) ==> ServerOutlivesConnection(r)
  {
    if s.serverSocket.Null? || !pending then s
    else
      var s1 := if s.connectionSocket.Socket?
        then s.(sockets := s.sockets + [Close(s.connectionSocket.id), Destroy(s.connectionSocket.id)])
        else s;
      if acceptOk
      then s1.(connectionSocket := Socket(s1.nextId), nextId := s1.nextId + 1, sockets := s1.sockets + [Accept(s1.nextId)], listening := true)
      else s1.(connectionSocket := Null)
  }

  /** Only the list of requests changes, and only with the HTTP module loaded. */
  function RequestRefreshKeyStep(s: State): (r: State)
    ensures r.(requests := s.requests) == s
    ensures |r.requests| == |s.requests| + (if s.http then 1 else 0) && r.requests[..|s.requests|] == s.requests
  {
    if !s.http then s
    else s.(requests := s.requests + [RefreshKeyRequest(s.authKey, s.redirectUrl, s.port, s.clientKey, s.verify)])
  }

  /** A code match keeps the code, stops listening, closes the server socket and requests the tokens. */
  function RetrieveAuthKeyStep(s: State, request: string): State
    requires AuthorizationCode(request).Some? ==> s.serverSocket.Socket?
  {
    match AuthorizationCode(request)
    case None => s
    case Some(code) =>
      RequestRefreshKeyStep(s.(authKey := code, listening := false, sockets := s.sockets + [Close(s.serverSocket.id)]))
  }

  function ConnectionListenerStep(s: State, chunks: seq<Chunk>): (r: State)
    requires ServerOutlivesConnection(s)
    ensures ServerOutlivesConnection(r)
  {
    if !s.listening || s.connectionSocket.Null? then s
    else
      var c := s.connectionSocket.id;
      var text := RequestText(chunks);
      var s1 := if |text| > 0 then RetrieveAuthKeyStep(s, text) else s;
      s1.(sockets := s1.sockets + [Send(c, Response), Shutdown(c)], listening := false)
  }

  function TickStep(s: State, pending: bool, acceptOk: bool, chunks: seq<Chunk>): (r: State)
    requires ServerOutlivesConnection(s)
    ensures ServerOutlivesConnection(r)
  {
    ConnectionListenerStep(TcpListenerStep(s, pending, acceptOk), chunks)
  }

  /** Close and destroy the socket a non-null handle points to. */
  function Release(h: Handle): seq<SocketOp> {
    if h.Socket? then [Close(h.id), Destroy(h.id)] else []
  }

  /** The connection first, then the server socket; the pointers are left as they were. */
  function DeinitializeStep(s: State): State {
    s.(sockets := s.sockets + Release(s.connectionSocket) + Release(s.serverSocket))
  }

  // ---------------------------------------------------------------------
  // What the steps keep and promise

  /** Initialize on a new subsystem establishes the invariant, whatever the bind does. */
  lemma InitializeEstablishesInv(picks: seq<Pick>, digest: seq<byte>, bindOk: bool)
    requires |picks| == VerifierLength
    ensures Inv(InitializeStep(InitialState(), picks, digest, bindOk))
  {
    var r := InitializeStep(InitialState(), picks, digest, bindOk);
    if bindOk {
      assert r.sockets == [] + [Listen(0)];
      IdsAppend([], [Listen(0)], Listening);
      IdsAppend([], [Listen(0)], Accepted);
      IdsAppend([], [Listen(0)], Destroyed);
    }
  }

  /** Initialize on a new subsystem leaves a valid 64-character code verifier, picked from RandomChars. */
  lemma InitializeVerifier(picks: seq<Pick>, digest: seq<byte>, bindOk: bool)
    requires |picks| == VerifierLength
    ensures var r := InitializeStep(InitialState(), picks, digest, bindOk);
      && r.verify == RandomText(picks) && |r.verify| == 64
      && (forall i :: 0 <= i < 64 ==> r.verify[i] in RandomChars)
      && IsCodeVerifier(r.verify)
      && IsPlain(r.verify)
  {
    var r := InitializeStep(InitialState(), picks, digest, bindOk);
    assert r.verify == "" + RandomText(picks);
    GeneratedVerifierIsValid(picks);
    AlphanumericTextIsPlain(r.verify);
  }

  /** Letters and digits hold none of '&', '+', '%', so the form carries the verifier unchanged. */
  lemma AlphanumericTextIsPlain(t: string)
    requires AllAlphanumeric(t)
    ensures IsPlain(t)
  {
    forall i | 0 <= i < |t| ensures t[i] != '&' && t[i] != '+' && t[i] != '%' {
      assert IsAlphanumeric(t[i]);
    }
  }

  /** For a 32-byte digest the challenge is its 43-character unpadded base64url form. */
  lemma InitializeChallenge(picks: seq<Pick>, digest: seq<byte>, bindOk: bool)
    requires |picks| == VerifierLength && |digest| == 32
    ensures var r := InitializeStep(InitialState(), picks, digest, bindOk);
      && r.challenge == UnpaddedBase64Url(digest) && |r.challenge| == 43
      && forall i :: 0 <= i < 43 ==> IsBase64UrlChar(r.challenge[i])
  {
    Sha256ChallengeShape(digest);
  }

  /**
   * The one URL Initialize opens is the authorize URL, whose query the
   * accounts service reads as response type, client id, redirect URI,
   * scope, the challenge and the method S256.
   */
  lemma InitializeLaunchesAuthorizeUrl(picks: seq<Pick>, digest: seq<byte>, bindOk: bool)
    requires |picks| == VerifierLength && |digest| == 32
    ensures var r := InitializeStep(InitialState(), picks, digest, bindOk);
      && r.launched == [AuthorizeUrl(DefaultClientKey, DefaultRedirectUrl, DefaultPort, r.challenge)]
      && ParseForm(r.launched[0][|AuthorizeEndpoint| + 1..])
         == AuthorizeFields(DefaultClientKey, DefaultRedirectUrl, DefaultPort, r.challenge)
  {
    var challenge := Challenge(digest);
    ChallengeIsPlain(digest);
    DefaultsArePlain();
    AuthorizeUrlFields(DefaultClientKey, DefaultRedirectUrl, DefaultPort, challenge);
    var r := InitializeStep(InitialState(), picks, digest, bindOk);
    assert r.launched == [] + [AuthorizeUrl(DefaultClientKey, DefaultRedirectUrl, DefaultPort, challenge)];
  }

  /** A challenge never holds '&', '+' or '%', so the form carries it unchanged. */
  lemma ChallengeIsPlain(digest: seq<byte>)
    requires |digest| == 32
    ensures IsPlain(Challenge(digest))
  {
    Sha256ChallengeShape(digest);
    UrlSafeTextIsPlain(Challenge(digest));
  }

  lemma UrlSafeTextIsPlain(t: string)
    requires forall i :: 0 <= i < |t| ==> IsBase64UrlChar(t[i])
    ensures IsPlain(t)
  {
    forall i | 0 <= i < |t| ensures t[i] != '&' && t[i] != '+' && t[i] != '%' {
      assert IsBase64UrlChar(t[i]);
    }
  }

  /** The default client key and redirect URL are plain texts. */
  lemma DefaultsArePlain()
    ensures IsPlain(DefaultClientKey) && IsPlain(DefaultRedirectUrl)
  {
    DefaultClientKeyPlain();
    DefaultRedirectUrlPlain();
  }

  /** After Initialize a server socket listens exactly when the bind succeeded; nothing is connected or requested yet. */
  lemma InitializeSockets(picks: seq<Pick>, digest: seq<byte>, bindOk: bool)
    requires |picks| == VerifierLength
    ensures var r := InitializeStep(InitialState(), picks, digest, bindOk);
      && r.http
      && r.serverSocket == (if bindOk then Socket(0) else Null)
      && r.sockets == (if bindOk then [Listen(0)] else [])
      && r.connectionSocket.Null? && !r.listening && r.requests == []
  {
  }

  /** Close and Destroy only add to the destroyed numbers. */
  lemma ReleaseIds(h: Handle, k: Kind)
    ensures Ids(Release(h), k) == (if k == Destroyed then HandleIds(h) else {})
  {
    if h.Socket? {
      assert Release(h) == [Close(h.id)] + [Destroy(h.id)];
      IdsAppend([Close(h.id)], [Destroy(h.id)], k);
    }
  }

  /** Releasing the connection leaves no accepted socket alive and opens nothing. */
  lemma ReleaseConnectionKeeps(s: State)
    requires Inv(s)
    ensures var log := s.sockets + Release(s.connectionSocket);
      && Live(log, Accepted) == {}
      && Live(log, Listening) <= Live(s.sockets, Listening)
      && LogBelow(log, s.nextId)
  {
    var tail := Release(s.connectionSocket);
    forall k ensures Ids(s.sockets + tail, k) == Ids(s.sockets, k) + (if k == Destroyed then HandleIds(s.connectionSocket) else {}) {
      IdsAppend(s.sockets, tail, k);
      ReleaseIds(s.connectionSocket, k);
    }
    assert LogBelow(tail, s.nextId);
    LogBelowAppend(s.sockets, tail, s.nextId, s.nextId);
  }

  /** Accepting with number n, when no accepted socket is alive, leaves only n alive. */
  lemma AcceptKeeps(log: seq<SocketOp>, n: nat)
    requires Live(log, Accepted) == {} && LogBelow(log, n)
    ensures var log' := log + [Accept(n)];
      && Live(log', Accepted) <= {n}
      && Live(log', Listening) <= Live(log, Listening)
      && LogBelow(log', n + 1)
  {
    IdsAppend(log, [Accept(n)], Accepted);
    IdsAppend(log, [Accept(n)], Listening);
    IdsAppend(log, [Accept(n)], Destroyed);
    LogBelowAppend(log, [Accept(n)], n, n + 1);
  }

  /** TCPListener keeps the invariant: the old connection is destroyed before Accept replaces it. */
  lemma TcpListenerKeepsInv(s: State, pending: bool, acceptOk: bool)
    requires Inv(s)
    ensures Inv(TcpListenerStep(s, pending, acceptOk))
  {
    if s.serverSocket.Socket? && pending {
      ReleaseConnectionKeeps(s);
      var log := s.sockets + Release(s.connectionSocket);
      if s.connectionSocket.Null? {
        assert log == s.sockets;
      }
      if acceptOk {
        AcceptKeeps(log, s.nextId);
      }
    }
  }

  /** The socket Accept hands to the connection is new: its number is the server's and no logged socket's. */
  lemma AcceptedConnectionIsNew(s: State, pending: bool, acceptOk: bool)
    requires Inv(s) && s.serverSocket.Socket? && pending && acceptOk
    ensures var r := TcpListenerStep(s, pending, acceptOk);
      && r.connectionSocket == Socket(s.nextId)
      && r.connectionSocket != s.serverSocket
      && forall k :: s.nextId !in Ids(s.sockets, k)
  {
    forall k ensures s.nextId !in Ids(s.sockets, k) {
      IdsBelowBound(s.sockets, s.nextId, k);
    }
  }

  /** The extraction keeps the invariant: closing the server socket does not destroy it. */
  lemma RetrieveAuthKeyKeepsInv(s: State, request: string)
    requires Inv(s)
    requires AuthorizationCode(request).Some? ==> s.serverSocket.Socket?
    ensures Inv(RetrieveAuthKeyStep(s, request))
    ensures RetrieveAuthKeyStep(s, request).connectionSocket == s.connectionSocket
    ensures RetrieveAuthKeyStep(s, request).nextId == s.nextId
  {
    if AuthorizationCode(request).Some? {
      forall k ensures Ids(s.sockets + [Close(s.serverSocket.id)], k) == Ids(s.sockets, k) {
        IdsAppend(s.sockets, [Close(s.serverSocket.id)], k);
      }
      LogBelowAppend(s.sockets, [Close(s.serverSocket.id)], s.nextId, s.nextId);
    }
  }

  /** Sending the response and shutting the connection down opens and destroys nothing. */
  lemma ReplyKeepsInv(s: State, c: nat)
    requires Inv(s) && s.connectionSocket == Socket(c)
    ensures Inv(s.(sockets := s.sockets + [Send(c, Response), Shutdown(c)], listening := false))
  {
    var tail := [Send(c, Response), Shutdown(c)];
    forall k ensures Ids(s.sockets + tail, k) == Ids(s.sockets, k) {
      IdsAppend(s.sockets, tail, k);
      assert tail == [Send(c, Response)] + [Shutdown(c)];
      IdsAppend([Send(c, Response)], [Shutdown(c)], k);
    }
    assert LogBelow(tail, s.nextId);
    LogBelowAppend(s.sockets, tail, s.nextId, s.nextId);
  }

  lemma ConnectionListenerKeepsInv(s: State, chunks: seq<Chunk>)
    requires Inv(s)
    ensures Inv(ConnectionListenerStep(s, chunks))
  {
    if s.listening && s.connectionSocket.Socket? {
      var text := RequestText(chunks);
      if |text| > 0 {
        RetrieveAuthKeyKeepsInv(s, text);
        ReplyKeepsInv(RetrieveAuthKeyStep(s, text), s.connectionSocket.id);
      } else {
        ReplyKeepsInv(s, s.connectionSocket.id);
      }
    }
  }

  lemma TickKeepsInv(s: State, pending: bool, acceptOk: bool, chunks: seq<Chunk>)
    requires Inv(s)
    ensures Inv(TickStep(s, pending, acceptOk, chunks))
  {
    TcpListenerKeepsInv(s, pending, acceptOk);
    ConnectionListenerKeepsInv(TcpListenerStep(s, pending, acceptOk), chunks);
  }

  /** What the environment answers in one tick. */
  datatype TickInput = TickInput(pending: bool, acceptOk: bool, chunks: seq<Chunk>)

  /** A run of ticks. */
  function Run(s: State, ticks: seq<TickInput>): (r: State)
    requires ServerOutlivesConnection(s)
    ensures ServerOutlivesConnection(r)
    decreases |ticks|
  {
    if |ticks| == 0 then s
    else Run(TickStep(s, ticks[0].pending, ticks[0].acceptOk, ticks[0].chunks), ticks[1..])
  }

  lemma {:induction false} RunKeepsInv(s: State, ticks: seq<TickInput>)
    requires Inv(s)
    ensures Inv(Run(s, ticks))
    decreases |ticks|
  {
    if |ticks| > 0 {
      TickKeepsInv(s, ticks[0].pending, ticks[0].acceptOk, ticks[0].chunks);
      RunKeepsInv(TickStep(s, ticks[0].pending, ticks[0].acceptOk, ticks[0].chunks), ticks[1..]);
    }
  }

  /** However many ticks run after Initialize, at most one accepted connection is alive. */
  lemma OneConnectionAfterAnyRun(picks: seq<Pick>, digest: seq<byte>, bindOk: bool, ticks: seq<TickInput>)
    requires |picks| == VerifierLength
    ensures var s := InitializeStep(InitialState(), picks, digest, bindOk);
      |Live(Run(s, ticks).sockets, Accepted)| <= 1
  {
    InitializeEstablishesInv(picks, digest, bindOk);
    var s := InitializeStep(InitialState(), picks, digest, bindOk);
    RunKeepsInv(s, ticks);
    AtMostOneLiveConnection(Run(s, ticks));
  }

  /** TCPListener does nothing without a server socket or a pending connection; otherwise it accepts. */
  lemma TcpListenerOutcome(s: State, pending: bool, acceptOk: bool)
    ensures s.serverSocket.Null? || !pending ==> TcpListenerStep(s, pending, acceptOk) == s
    ensures s.serverSocket.Socket? && pending ==>
      var r := TcpListenerStep(s, pending, acceptOk);
      && r.sockets == s.sockets + Release(s.connectionSocket) + (if acceptOk then [Accept(s.nextId)] else [])
      && r.connectionSocket == (if acceptOk then Socket(s.nextId) else Null)
      && r.listening == (acceptOk || s.listening)
      && r.(connectionSocket := s.connectionSocket, nextId := s.nextId, sockets := s.sockets, listening := s.listening) == s
  {
  }

  /** The extraction changes the state exactly when the request carries a code; an error alone changes nothing. */
  lemma RetrieveAuthKeyChangesIffCode(s: State, request: string)
    requires AuthorizationCode(request).Some? ==> s.serverSocket.Socket?
    ensures RetrieveAuthKeyStep(s, request) != s <==> AuthorizationCode(request).Some?
  {
    if AuthorizationCode(request).Some? {
      var r := RetrieveAuthKeyStep(s, request);
      assert |r.sockets| == |s.sockets| + 1;
    }
  }

  /**
   * On a code match: AuthKey is the code, listening stops, the server
   * socket is closed (and its pointer kept), and exactly one token request
   * is posted when the HTTP module is loaded and none otherwise; nothing
   * else changes.
   */
  lemma RetrieveAuthKeyOnCode(s: State, request: string, code: string)
    requires AuthorizationCode(request) == Some(code) && s.serverSocket.Socket?
    ensures var r := RetrieveAuthKeyStep(s, request);
      && r.authKey == code && |code| > 0 && AllTokenChars(code)
      && !r.listening
      && r.serverSocket == s.serverSocket
      && r.sockets == s.sockets + [Close(s.serverSocket.id)]
      && r.requests == s.requests + (if s.http then [RefreshKeyRequest(code, s.redirectUrl, s.port, s.clientKey, s.verify)] else [])
      && r.(authKey := s.authKey, listening := s.listening, sockets := s.sockets, requests := s.requests) == s
  {
    CaptureIsTokenRun(request, CodeKey);
  }

  /**
   * The token request posted on a code match is a POST to the token
   * endpoint whose form the accounts service reads as the grant type, the
   * code, the redirect URI, the client id and the verifier.
   */
  lemma TokenRequestCarriesCode(s: State, request: string, code: string)
    requires AuthorizationCode(request) == Some(code) && s.serverSocket.Socket? && s.http
    requires IsPlain(s.redirectUrl) && IsPlain(s.clientKey) && IsPlain(s.verify)
    ensures var r := RetrieveAuthKeyStep(s, request);
      && |r.requests| == |s.requests| + 1
      && r.requests[|s.requests|].url == TokenEndpoint
      && r.requests[|s.requests|].verb == TokenVerb
      && r.requests[|s.requests|].headers == [ContentTypeHeader]
      && ParseForm(r.requests[|s.requests|].body) == TokenRequestFields(code, s.redirectUrl, s.port, s.clientKey, s.verify)
  {
    RetrieveAuthKeyOnCode(s, request, code);
    forall i | 0 <= i < |code| ensures code[i] != '&' && code[i] != '+' && code[i] != '%' {
      assert IsTokenChar(code[i]);
    }
    TokenRequestBodyFields(code, s.redirectUrl, s.port, s.clientKey, s.verify);
  }

  /**
   * ConnectionListener on a listening connection always answers: it sends
   * the fixed response, shuts the connection down and stops listening, and
   * it runs the extraction only on a non-empty request text.
   */
  lemma ConnectionListenerOutcome(s: State, chunks: seq<Chunk>)
    requires ServerOutlivesConnection(s)
    ensures !s.listening || s.connectionSocket.Null? ==> ConnectionListenerStep(s, chunks) == s
    ensures s.listening && s.connectionSocket.Socket? ==>
      var c := s.connectionSocket.id;
      var r := ConnectionListenerStep(s, chunks);
      var s1 := if |RequestText(chunks)| > 0 then RetrieveAuthKeyStep(s, RequestText(chunks)) else s;
      && !r.listening
      && r.connectionSocket == s.connectionSocket
      && |r.sockets| >= 2
      && r.sockets[|r.sockets| - 2..] == [Send(c, Response), Shutdown(c)]
      && r == s1.(sockets := s1.sockets + [Send(c, Response), Shutdown(c)], listening := false)
      && (|RequestText(chunks)| == 0 ==> r == s.(sockets := s.sockets + [Send(c, Response), Shutdown(c)], listening := false))
  {
  }

  /** The request text comes from the last chunk alone; earlier chunks are overwritten. */
  lemma OnlyLastChunkCounts(earlier: seq<Chunk>, last: Chunk)
    ensures RequestText(earlier + [last]) == RequestText([last])
  {
  }

  /** No data at all gives the empty request text, so no extraction. */
  lemma NoDataNoText()
    ensures RequestText([]) == ""
  {
  }

  /** The text stops at or before any NUL. */
  lemma StopsAtNul(bytes: seq<byte>, k: nat)
    requires k < |bytes| && bytes[k] == 0
    ensures |TextBeforeNul(bytes)| <= k
  {
  }

  /**
   * The request text is the front of the bytes the last read delivered,
   * each read as a character: it stops at the first NUL, at the end of
   * the delivered bytes, or at the buffer size min(Size, 65507).
   */
  lemma RequestTextIsPrefix(chunks: seq<Chunk>)
    requires |chunks| > 0
    ensures var c := chunks[|chunks| - 1];
      var t := RequestText(chunks);
      && |t| <= Min(c.pendingSize, MaxReadSize) && |t| <= |c.received|
      && (forall i :: 0 <= i < |t| ==> c.received[i] != 0 && t[i] == c.received[i] as char)
      && (|t| < Min(c.pendingSize, MaxReadSize) && |t| < |c.received| ==> c.received[|t|] == 0)
  {
    var c := chunks[|chunks| - 1];
    var n := Min(c.pendingSize, MaxReadSize);
    var buffer := ChunkBuffer(c);
    assert LastBuffer(chunks) == buffer;
    var b := buffer + [0];
    var t := TextBeforeNul(b);
    assert |b| == n + 1;
    StopsAtNul(b, n);
    if |c.received| < n {
      assert b[|c.received|] == 0;
      StopsAtNul(b, |c.received|);
    }
    assert |t| <= |c.received|;
    forall i | 0 <= i < |t| ensures c.received[i] != 0 && t[i] == c.received[i] as char {
      assert b[i] == buffer[i] == c.received[i];
    }
    if |t| < n && |t| < |c.received| {
      assert b[|t|] == buffer[|t|] == c.received[|t|];
    }
  }

  /** The bytes of a text whose characters are all bytes. */
  function Bytes(t: string): (b: seq<byte>)
    requires forall i :: 0 <= i < |t| ==> t[i] as int < 256
    ensures |b| == |t|
  {
    seq(|t|, i requires 0 <= i < |t| => t[i] as int)
  }

  /** A request that arrives whole in the last read, with no NUL in it, is read exactly. */
  lemma RequestTextOfWholeRequest(earlier: seq<Chunk>, t: string, size: uint32)
    requires forall i :: 0 <= i < |t| ==> 0 < t[i] as int < 256
    requires |t| <= size && |t| <= MaxReadSize
    ensures RequestText(earlier + [Chunk(size, Bytes(t))]) == t
  {
    var chunks := earlier + [Chunk(size, Bytes(t))];
    RequestTextIsPrefix(chunks);
  }

  /**
   * Between ticks the service is not listening: a tick that starts without
   * bListening ends without it, whatever the environment answers.
   */
  lemma TickEndsNotListening(s: State, pending: bool, acceptOk: bool, chunks: seq<Chunk>)
    requires ServerOutlivesConnection(s) && !s.listening
    ensures !TickStep(s, pending, acceptOk, chunks).listening
  {
  }

  /** After Initialize and any run of ticks, bListening is false. */
  lemma {:induction false} NotListeningAfterAnyRun(s: State, ticks: seq<TickInput>)
    requires ServerOutlivesConnection(s) && !s.listening
    ensures !Run(s, ticks).listening
    decreases |ticks|
  {
    if |ticks| > 0 {
      TickEndsNotListening(s, ticks[0].pending, ticks[0].acceptOk, ticks[0].chunks);
      NotListeningAfterAnyRun(TickStep(s, ticks[0].pending, ticks[0].acceptOk, ticks[0].chunks), ticks[1..]);
    }
  }

  /** Tick accepts before it responds: a connection accepted in a tick is answered in that tick. */
  lemma TickAnswersNewConnection(s: State, chunks: seq<Chunk>)
    requires ServerOutlivesConnection(s) && s.serverSocket.Socket?
    ensures var n := s.nextId;
      var r := TickStep(s, true, true, chunks);
      && r.connectionSocket == Socket(n)
      && !r.listening
      && |r.sockets| >= |s.sockets| + 3
      && r.sockets[..|s.sockets| + |Release(s.connectionSocket)| + 1] == s.sockets + Release(s.connectionSocket) + [Accept(n)]
      && r.sockets[|r.sockets| - 2..] == [Send(n, Response), Shutdown(n)]
  {
    var t := TcpListenerStep(s, true, true);
    TcpListenerOutcome(s, true, true);
    ConnectionListenerOutcome(t, chunks);
    var r := TickStep(s, true, true, chunks);
    var text := RequestText(chunks);
    var s1 := if |text| > 0 then RetrieveAuthKeyStep(t, text) else t;
    assert s1.sockets[..|t.sockets|] == t.sockets by {
      if |text| > 0 && AuthorizationCode(text).Some? {
        RetrieveAuthKeyOnCode(t, text, AuthorizationCode(text).value);
      }
    }
    assert r.sockets[..|t.sockets|] == t.sockets;
  }

  /**
   * GET /?code=abc123 HTTP/1.1 arriving on a fresh connection stores the
   * code abc123, closes the server socket and posts one token request with
   * code=abc123, after which the response is sent.
   */
  lemma ApprovedRedirectScenario(s: State, size: uint32)
    requires Inv(s) && s.serverSocket.Socket? && s.http
    requires |ApprovedRequest| <= size
    requires IsPlain(s.redirectUrl) && IsPlain(s.clientKey) && IsPlain(s.verify)
    ensures var r := TickStep(s, true, true, [Chunk(size, ApprovedBytes())]);
      && r.authKey == "abc123"
      && !r.listening
      && |r.requests| == |s.requests| + 1
      && ParseForm(r.requests[|s.requests|].body) == TokenRequestFields("abc123", s.redirectUrl, s.port, s.clientKey, s.verify)
      && Inv(r)
  {
    var t := TcpListenerStep(s, true, true);
    TcpListenerOutcome(s, true, true);
    TickKeepsInv(s, true, true, [Chunk(size, ApprovedBytes())]);
    ApprovedChars();
    RequestTextOfWholeRequest([], ApprovedRequest, size);
    assert [] + [Chunk(size, ApprovedBytes())] == [Chunk(size, ApprovedBytes())];
    ApprovedRedirect();
    TokenRequestCarriesCode(t, ApprovedRequest, "abc123");
  }

  lemma ApprovedChars()
    ensures forall i :: 0 <= i < |ApprovedRequest| ==> 0 < ApprovedRequest[i] as int < 256
  {
  }

  function ApprovedBytes(): seq<byte> {
    ApprovedChars();
    Bytes(ApprovedRequest)
  }

  /** Deinitialize closes and destroys each non-null socket, connection first, and leaves none alive. */
  lemma DeinitializeReleasesAll(s: State)
    requires Inv(s)
    ensures var r := DeinitializeStep(s);
      && r.sockets == s.sockets + Release(s.connectionSocket) + Release(s.serverSocket)
      && Live(r.sockets, Accepted) == {} && Live(r.sockets, Listening) == {}
      && r.(sockets := s.sockets) == s
  {
    var a := Release(s.connectionSocket);
    var b := Release(s.serverSocket);
    forall k ensures Ids(s.sockets + a + b, k)
      == Ids(s.sockets, k) + (if k == Destroyed then HandleIds(s.connectionSocket) + HandleIds(s.serverSocket) else {})
    {
      IdsAppend(s.sockets, a, k);
      IdsAppend(s.sockets + a, b, k);
      ReleaseIds(s.connectionSocket, k);
      ReleaseIds(s.serverSocket, k);
    }
  }

  // ---------------------------------------------------------------------
  // The subsystem

  class SpotifyService {
    var clientKey: string
    var redirectUrl: string
    var port: uint16
    var authKey: string
    var verify: string
    var challenge: string
    var http: bool
    var serverSocket: Handle
    var connectionSocket: Handle
    var listening: bool
    var nextId: nat
    var sockets: seq<SocketOp>
    var requests: seq<HttpRequest>
    var launched: seq<string>

    function Current(): State
      reads this
    {
      State(clientKey, redirectUrl, port, authKey, verify, challenge, http,
            serverSocket, connectionSocket, listening, nextId, sockets, requests, launched)
    }

    predicate Valid()
      reads this
    {
      Inv(Current())
    }

    constructor ()
      ensures Current() == InitialState()
      ensures Valid()
    {
      clientKey := DefaultClientKey;
      redirectUrl := DefaultRedirectUrl;
      port := DefaultPort;
      authKey := "";
      verify := "";
      challenge := "";
      http := false;
      serverSocket := Null;
      connectionSocket := Null;
      listening := false;
      nextId := 0;
      sockets := [];
      requests := [];
      launched := [];
    }

    /** Verifier, challenge, the HTTP module, the authorize URL, then the server socket. */
    method Initialize(picks: seq<Pick>, sha256: string -> seq<byte>, bindOk: bool)
      requires |picks| == VerifierLength
      modifies this
      ensures Current() == InitializeStep(old(Current()), picks, sha256(old(verify) + RandomText(picks)), bindOk)
      ensures old(Current()) == InitialState() ==> Valid()
    {
      ghost var s0 := Current();
      var newVerify := AppendRandomChars(verify, picks);
      var newChallenge := Challenge(sha256(newVerify));
      var url := AuthorizeUrl(clientKey, redirectUrl, port, newChallenge);
      verify, challenge, http, launched := newVerify, newChallenge, true, launched + [url];
      BeginAuthorization(bindOk);
      assert Current() == InitializeStep(s0, picks, sha256(newVerify), bindOk);
      if s0 == InitialState() {
        InitializeEstablishesInv(picks, sha256(newVerify), bindOk);
      }
    }

    method BeginAuthorization(bindOk: bool)
      modifies this
      ensures Current() == BeginAuthorizationStep(old(Current()), bindOk)
    {
      if bindOk {
        serverSocket := Socket(nextId);
        sockets := sockets + [Listen(nextId)];
        nextId := nextId + 1;
      } else {
        serverSocket := Null;
      }
    }

    method TCPListener(pending: bool, acceptOk: bool)
      requires Valid()
      modifies this
      ensures Current() == TcpListenerStep(old(Current()), pending, acceptOk)
      ensures Valid()
    {
      if serverSocket.Socket? && pending {
        if connectionSocket.Socket? {
          sockets := sockets + [Close(connectionSocket.id), Destroy(connectionSocket.id)];
        }
        if acceptOk {
          connectionSocket := Socket(nextId);
          sockets := sockets + [Accept(nextId)];
          nextId := nextId + 1;
        } else {
          connectionSocket := Null;
        }
        if connectionSocket.Socket? {
          listening := true;
        }
      }
      assert Current() == TcpListenerStep(old(Current()), pending, acceptOk);
      TcpListenerKeepsInv(old(Current()), pending, acceptOk);
    }

    method ConnectionListener(chunks: seq<Chunk>)
      requires Valid()
      modifies this
      ensures Current() == ConnectionListenerStep(old(Current()), chunks)
      ensures Valid()
    {
      ConnectionListenerKeepsInv(Current(), chunks);
      if !listening || connectionSocket.Null? {
        return;
      }
      var receivedData: seq<byte> := [];
      var i := 0;
      while i < |chunks|
        invariant 0 <= i <= |chunks|
        invariant receivedData == LastBuffer(chunks[..i])
      {
        receivedData := Zeros(Min(chunks[i].pendingSize, MaxReadSize));
        receivedData := Received(receivedData, chunks[i].received);
        i := i + 1;
      }
      assert chunks[..i] == chunks;
      var request := TextBeforeNul(receivedData + [0]);
      if |request| > 0 {
        var _ := RetrieveAuthKey(request);
      }
      sockets := sockets + [Send(connectionSocket.id, Response), Shutdown(connectionSocket.id)];
      listening := false;
    }

    /** Returns what is logged as an authentication error, if anything. */
    method RetrieveAuthKey(request: string) returns (error: Option<string>)
      requires AuthorizationCode(request).Some? ==> serverSocket.Socket?
      modifies this
      ensures Current() == RetrieveAuthKeyStep(old(Current()), request)
      ensures error == AuthorizationError(request)
    {
      var code := AuthorizationCode(request);
      if code.Some? {
        authKey := code.value;
        listening := false;
        sockets := sockets + [Close(serverSocket.id)];
        RequestRefreshKey();
      }
      error := AuthorizationError(request);
    }

    method RequestRefreshKey()
      modifies this
      ensures Current() == RequestRefreshKeyStep(old(Current()))
    {
      if !http {
        return;
      }
      requests := requests + [RefreshKeyRequest(authKey, redirectUrl, port, clientKey, verify)];
    }

    /** Only logs: nothing when the request failed, a warning for a 2xx status, an error otherwise. */
    method ReceiveRefreshKey(wasSuccessful: bool, responseCode: int) returns (level: LogLevel)
      ensures level == NoLog <==> !wasSuccessful
      ensures level == Warning <==> wasSuccessful && 200 <= responseCode < 300
      ensures level == Error <==> wasSuccessful && !(200 <= responseCode < 300)
    {
      if !wasSuccessful {
        return NoLog;
      }
      if responseCode >= 200 && responseCode < 300 {
        return Warning;
      }
      return Error;
    }

    method Tick(pending: bool, acceptOk: bool, chunks: seq<Chunk>)
      requires Valid()
      modifies this
      ensures Current() == TickStep(old(Current()), pending, acceptOk, chunks)
      ensures Valid()
    {
      TCPListener(pending, acceptOk);
      ConnectionListener(chunks);
    }

    method Deinitialize()
      modifies this
      ensures Current() == DeinitializeStep(old(Current()))
    {
      if connectionSocket.Socket? {
        sockets := sockets + [Close(connectionSocket.id), Destroy(connectionSocket.id)];
      }
      if serverSocket.Socket? {
        sockets := sockets + [Close(serverSocket.id), Destroy(serverSocket.id)];
      }
    }
  }
}
