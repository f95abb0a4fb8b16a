/** Connections, handshake, session registry and frame broadcaster of
    src/server/server.rs and src/client/connection.rs, as one state machine.
    Every step is one piece of code that runs without the others being able to
    observe its middle; a run is any interleaving of such steps. */
module Protocol {
  import opened Basics
  import opened Wire

  type ConnId = nat
  type SessionId = nat

  // ---------- State ----------

  /** Where connect is: each phase is a point between two of its awaits. */
  datatype ClientPhase = Fresh | AwaitAck | Keyed | AwaitAuth | Streaming | Failed

  /** Where handle_client is. StoringKey lies between queueing the acknowledgement
      and storing the key; Registering between choosing the session id and
      inserting it; Answering between inserting and queueing the answer. Cleaned
      is the regular end; Errored is an exit by `?`, which skips the cleanup. */
  datatype ServerPhase =
    | Reading | StoringKey(key: Key) | Registering | Answering(success: bool) | Cleaned | Errored

  /** Both ends of one connection and the bytes between them. The last three
      fields only record history: ids registered, whether an authentication
      answer was queued, whether a screen frame was queued before any answer. */
  datatype Conn = Conn(
    honest: bool, secret: nat,
    client: ClientPhase, clientKey: Option<Key>, toServer: seq<Frame>,
    server: ServerPhase, crypto: Option<Key>, session: Option<SessionId>, toClient: seq<Frame>,
    ids: set<SessionId>, answered: bool, early: bool)

  datatype Session = Session(conn: ConnId, key: Key)

  datatype AccessCode = AccessCode(hashed: seq<byte>, expiresAt: nat)

  /** issued records which connection each session id was drawn for; ids are
      version-4 UUIDs, taken to be distinct. */
  datatype State = State(
    conns: map<ConnId, Conn>, sessions: map<SessionId, Session>, issued: map<SessionId, ConnId>, code: Option<AccessCode>)

  const INIT := State(map[], map[], map[], None)

  function NewConn(honest: bool, secret: nat): Conn {
    Conn(honest, secret, Fresh, None, [], Reading, None, None, [], {}, false, false)
  }

  // ---------- Steps of one connection ----------

  datatype Event =
    | ClientSendsKey
    | ClientReads
    | ClientSendsAuth(code: seq<byte>)
    | ClientSends(msg: Msg)
    | PeerInjects(frame: Frame)
    | ServerReads(secret: nat, now: nat, id: SessionId)
    | ServerStoresKey
    | ServerAnswers
    | ServerFails

  /** AccessCode::generate for a code drawn at time now, in seconds. */
  function NewCode(p: Primitives, code: seq<byte>, now: nat): AccessCode {
    AccessCode(p.sha256(code), now + 300)
  }

  /** handle_auth and AccessCode::verify. */
  predicate Verified(p: Primitives, stored: Option<AccessCode>, code: seq<byte>, now: nat) {
    stored.Some? && now <= stored.value.expiresAt && p.sha256(code) == stored.value.hashed
  }

  function ServerMode(c: Conn): Mode { if c.crypto.Some? then Sealed(c.crypto.value) else Plain }

  function ClientMode(c: Conn): Mode {
    if c.client == AwaitAck || c.clientKey.None? then Plain else Sealed(c.clientKey.value)
  }

  /** The next message the client takes, in whatever phase it is. */
  function ClientTakes(p: Primitives, c: Conn): Conn
    requires c.toClient != []
  {
    var f, rest := c.toClient[0], c.(toClient := c.toClient[1..]);
    match c.client
    case AwaitAck =>
      if f.mode == Plain && f.msg.KeyExchangeAck? && |f.msg.publicKey| == PUBLIC_KEY
      then rest.(client := Keyed, clientKey := Some(AgreedKey(p, c.secret, f.msg.publicKey)))
      else rest.(client := Failed)
    case AwaitAuth =>
      if f.mode == ClientMode(c) && f.msg == AuthResponse(true)
      then rest.(client := Streaming)
      else rest.(client := Failed)
    case _ => rest
  }

  /** One pass of the inner loop of handle_client, up to its first visible effect. */
  function ServerTakes(p: Primitives, code: Option<AccessCode>, c: Conn, secret: nat, now: nat, id: SessionId): Conn
    requires c.toServer != []
  {
    var f, rest := c.toServer[0], c.(toServer := c.toServer[1..]);
    if f.mode != ServerMode(c) then rest.(server := Errored)
    else
      match f.msg
      case KeyExchange(theirs) =>
        var acked := rest.(toClient := c.toClient + [Frame(Plain, KeyExchangeAck(p.publicOf(secret)))]);
        if |theirs| == PUBLIC_KEY
        then acked.(server := StoringKey(AgreedKey(p, secret, theirs)))
        else acked.(server := Errored)
      case AuthRequest(given) =>
        if c.crypto.None? then rest.(server := Errored)
        else if Verified(p, code, given, now) then rest.(server := Registering, session := Some(id))
        else rest.(server := Answering(false))
      case StartStream => Reply(rest)
      case RequestQualityChange => Reply(rest)
      case _ => rest
  }

  /** The server confirms a quality mode to a connection that has a session. */
  function Reply(c: Conn): Conn {
    if c.session.Some? then c.(toClient := c.toClient + [Frame(ServerMode(c), QualityChange)]) else c
  }

  /** A local step, or None if it is not enabled. */
  function LocalStep(p: Primitives, code: Option<AccessCode>, c: Conn, e: Event): Option<Conn> {
    match e
    case ClientSendsKey =>
      if c.honest && c.client == Fresh
      then Some(c.(client := AwaitAck, toServer := c.toServer + [Frame(Plain, KeyExchange(p.publicOf(c.secret)))]))
      else None
    case ClientReads =>
      if c.honest && c.client in {AwaitAck, AwaitAuth, Streaming} && c.toClient != []
      then Some(ClientTakes(p, c)) else None
    case ClientSendsAuth(given) =>
      if c.honest && c.client == Keyed && c.clientKey.Some?
      then Some(c.(client := AwaitAuth, toServer := c.toServer + [Frame(Sealed(c.clientKey.value), AuthRequest(given))]))
      else None
    case ClientSends(m) =>
      if c.honest && c.client == Streaming && c.clientKey.Some? && !m.KeyExchange? && !m.AuthRequest?
      then Some(c.(toServer := c.toServer + [Frame(Sealed(c.clientKey.value), m)]))
      else None
    case PeerInjects(f) =>
      if !c.honest then Some(c.(toServer := c.toServer + [f])) else None
    case ServerReads(secret, now, id) =>
      if c.server == Reading && c.toServer != []
      then Some(ServerTakes(p, code, c, secret, now, id)) else None
    case ServerStoresKey =>
      if c.server.StoringKey? then Some(c.(server := Reading, crypto := Some(c.server.key))) else None
    case ServerAnswers =>
      if c.server.Answering?
      then Some(c.(server := Reading, answered := true,
                   toClient := c.toClient + [Frame(ServerMode(c), AuthResponse(c.server.success))]))
      else None
    case ServerFails =>
      if c.server in {Cleaned, Errored} then None else Some(c.(server := Errored))
  }

  // ---------- Steps of the whole system ----------

  datatype Step =
    | Accept(conn: ConnId, honest: bool, secret: nat)
    | Local(conn: ConnId, event: Event)
    | Register(conn: ConnId)
    | EndOfStream(conn: ConnId)
    | Broadcast(id: SessionId, data: seq<byte>)
    | SetCode(code: Option<AccessCode>)

  function Apply(p: Primitives, s: State, step: Step): Option<State> {
    match step
    case Accept(c, honest, secret) =>
      if c in s.conns then None else Some(s.(conns := s.conns[c := NewConn(honest, secret)]))
    case Local(c, e) =>
      if c !in s.conns || (e.ServerReads? && e.id in s.issued) then None
      else
        var next := LocalStep(p, s.code, s.conns[c], e);
        if next.None? then None
        else Some(s.(conns := s.conns[c := next.value], issued := if e.ServerReads? then s.issued[e.id := c] else s.issued))
    case Register(c) =>
      if c in s.conns && s.conns[c].server == Registering && s.conns[c].session.Some? && s.conns[c].crypto.Some?
      then
        var conn, id := s.conns[c], s.conns[c].session.value;
        Some(s.(sessions := s.sessions[id := Session(c, conn.crypto.value)],
                conns := s.conns[c := conn.(server := Answering(true), ids := conn.ids + {id})]))
      else None
    case EndOfStream(c) =>
      if c in s.conns && s.conns[c].server == Reading
      then
        var conn := s.conns[c];
        Some(s.(sessions := if conn.session.Some? then s.sessions - {conn.session.value} else s.sessions,
                conns := s.conns[c := conn.(server := Cleaned)]))
      else None
    case Broadcast(id, data) =>
      if id in s.sessions && s.sessions[id].conn in s.conns
      then
        var Session(c, key) := s.sessions[id];
        var conn := s.conns[c];
        Some(s.(conns := s.conns[c := conn.(toClient := conn.toClient + [Frame(Sealed(key), ScreenFrame(data))],
                                             early := conn.early || !conn.answered)]))
      else None
    case SetCode(code) => Some(s.(code := code))
  }

  /** The state after a run, or None if some step was not enabled. */
  function Exec(p: Primitives, run: seq<Step>): Option<State> {
    if run == [] then Some(INIT)
    else
      match Exec(p, run[..|run| - 1])
      case None => None
      case Some(s) => Apply(p, s, run[|run| - 1])
  }

  // ---------- Mode agreement on one connection ----------

  predicate AllSealed(fs: seq<Frame>, k: Key) { forall f | f in fs :: f.mode == Sealed(k) }

  predicate Ended(c: Conn) { c.server in {Cleaned, Errored} }

  predicate Untouched(c: Conn) {
    c.session.None? && c.ids == {} && !c.answered && !c.early
  }

  /** Nothing has come back from the server yet. */
  predicate Quiet(c: Conn) { c.toClient == [] && c.crypto.None? && Untouched(c) && (c.server == Reading || Ended(c)) }

  /** The server has, is about to have, or gave up before having, key k. */
  predicate HasOrGetsKey(c: Conn, k: Key) {
    || (c.server == StoringKey(k) && c.crypto.None? && Untouched(c))
    || (c.crypto == Some(k) && !c.server.StoringKey?)
    || (c.crypto.None? && Ended(c) && Untouched(c))
  }

  /** While the client waits for the answer: what can be first in its queue. */
  predicate AuthWindow(c: Conn, k: Key) {
    && (c.toServer == [] || (|c.toServer| == 1 && c.toServer[0].msg.AuthRequest? && Untouched(c) && c.toClient == []
                             && !c.server.Registering? && !c.server.Answering?))
    && (c.server == Registering ==> c.ids == {} && !c.answered && !c.early && c.toClient == [])
    && (c.ids == {} ==> !c.early)
    && (c.server.Answering? ==> !c.answered)
    && (!c.answered ==> (c.early <==> c.toClient != []) && (c.toClient != [] ==> c.toClient[0].msg.ScreenFrame?))
    && (c.answered ==> c.toClient != [] &&
                       if c.early then c.toClient[0].msg.ScreenFrame? else c.toClient[0].msg.AuthResponse?)
  }

  /** Invariant of a connection whose client follows connect. */
  predicate ConnInv(p: Primitives, c: Conn) {
    match c.client
    case Fresh => c.clientKey.None? && c.toServer == [] && Quiet(c)
    case AwaitAck =>
      && c.clientKey.None?
      && ( || (c.toServer == [Frame(Plain, KeyExchange(p.publicOf(c.secret)))] && Quiet(c))
           || (&& c.toServer == [] && |c.toClient| == 1 && c.toClient[0].mode == Plain
               && c.toClient[0].msg.KeyExchangeAck? && |c.toClient[0].msg.publicKey| == PUBLIC_KEY
               && HasOrGetsKey(c, AgreedKey(p, c.secret, c.toClient[0].msg.publicKey)) && Untouched(c)
               && (c.server == Reading || c.server.StoringKey? || Ended(c))))
    case Keyed =>
      && c.clientKey.Some? && HasOrGetsKey(c, c.clientKey.value)
      && c.toServer == [] && c.toClient == [] && Untouched(c)
      && (c.server == Reading || c.server.StoringKey? || Ended(c))
    case _ =>
      && c.clientKey.Some? && HasOrGetsKey(c, c.clientKey.value)
      && (c.crypto.None? ==> c.toClient == [])
      && AllSealed(c.toServer, c.clientKey.value) && AllSealed(c.toClient, c.clientKey.value)
      && (forall f | f in c.toServer :: !f.msg.KeyExchange?)
      && (c.client == AwaitAuth ==> AuthWindow(c, c.clientKey.value))
  }

  lemma AppendSealed(fs: seq<Frame>, k: Key, f: Frame)
    requires AllSealed(fs, k) && f.mode == Sealed(k)
    ensures AllSealed(fs + [f], k)
  {
  }

  lemma ClientStepKeepsInv(p: Primitives, c: Conn, e: Event)
    requires Sound(p) && c.honest && ConnInv(p, c)
    requires e.ClientSendsKey? || e.ClientReads? || e.ClientSendsAuth? || e.ClientSends?
    requires LocalStep(p, None, c, e).Some?
    ensures ConnInv(p, LocalStep(p, None, c, e).value)
  {
  }

  lemma KeyReadKeepsInv(p: Primitives, code: Option<AccessCode>, c: Conn, secret: nat, now: nat, id: SessionId)
    requires Sound(p) && c.honest && c.client == AwaitAck && ConnInv(p, c)
    requires c.server == Reading && c.toServer != []
    ensures ConnInv(p, ServerTakes(p, code, c, secret, now, id))
  {
    KeysAgree(p, c.secret, secret);
    hide Sound;
    assert c.toServer == [Frame(Plain, KeyExchange(p.publicOf(c.secret)))];
  }

  lemma AuthReadKeepsInv(p: Primitives, code: Option<AccessCode>, c: Conn, secret: nat, now: nat, id: SessionId)
    requires c.honest && c.client == AwaitAuth && ConnInv(p, c)
    requires c.server == Reading && c.toServer != []
    ensures ConnInv(p, ServerTakes(p, code, c, secret, now, id))
  {
    assert c.toServer[0] in c.toServer;
  }

  lemma LaterReadKeepsInv(p: Primitives, code: Option<AccessCode>, c: Conn, secret: nat, now: nat, id: SessionId)
    requires c.honest && c.client in {Streaming, Failed} && ConnInv(p, c)
    requires c.server == Reading && c.toServer != []
    ensures ConnInv(p, ServerTakes(p, code, c, secret, now, id))
  {
    hide AuthWindow;
    var f, rest := c.toServer[0], c.toServer[1..];
    assert f in c.toServer && AllSealed(rest, c.clientKey.value);
    assert forall g | g in rest :: !g.msg.KeyExchange?;
    AppendSealed(c.toClient, c.clientKey.value, Frame(Sealed(c.clientKey.value), QualityChange));
  }

  lemma ServerStepKeepsInv(p: Primitives, c: Conn, e: Event)
    requires Sound(p) && c.honest && ConnInv(p, c)
    requires e.ServerStoresKey? || e.ServerAnswers? || e.ServerFails?
    requires LocalStep(p, None, c, e).Some?
    ensures ConnInv(p, LocalStep(p, None, c, e).value)
  {
  }
}
