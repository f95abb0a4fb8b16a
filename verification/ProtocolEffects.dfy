/** What single steps of the protocol do, and who may stream, written out in
    terms of the frames, the stored access code and the primitives. */
module ProtocolEffects {
  import opened Basics
  import opened Wire
  import opened Protocol
  import opened ProtocolRuns
  import opened ProtocolSafety
  import opened ServerDispatch

  // ---------- Authentication ----------

  /** Connection c is about to take a request for `given`, sealed under its key. */
  predicate RequestNext(s: State, c: ConnId, given: seq<byte>) {
    && c in s.conns && s.conns[c].server == Reading && s.conns[c].crypto.Some? && s.conns[c].toServer != []
    && s.conns[c].toServer[0] == Frame(Sealed(s.conns[c].crypto.value), AuthRequest(given))
  }

  /** A request is refused when no code is stored, when it has expired, or when its
      hash is another one: nothing is registered, and the answer says so. */
  lemma RefusedRequest(p: Primitives, s: State, c: ConnId, given: seq<byte>, secret: nat, now: nat, id: SessionId)
    requires RequestNext(s, c, given) && id !in s.issued
    requires s.code.None? || now > s.code.value.expiresAt || p.sha256(given) != s.code.value.hashed
    ensures var read := Apply(p, s, Local(c, ServerReads(secret, now, id)));
            && read.Some? && c in read.value.conns && Apply(p, read.value, Register(c)).None?
            && var done := Apply(p, read.value, Local(c, ServerAnswers));
            && done.Some? && c in done.value.conns && done.value.sessions == s.sessions
            && var k, n := s.conns[c], done.value.conns[c];
            && n.toClient == k.toClient + [Frame(Sealed(k.crypto.value), AuthResponse(false))]
            && n.toServer == k.toServer[1..] && n.server == Reading
            && n.session == k.session && n.ids == k.ids && n.crypto == k.crypto
  {
    hide AgreedKey;
  }

  /** Otherwise it registers the session it drew and is answered with success. */
  lemma GrantedRequest(p: Primitives, s: State, c: ConnId, given: seq<byte>, secret: nat, now: nat, id: SessionId)
    requires RequestNext(s, c, given) && id !in s.issued
    requires s.code.Some? && now <= s.code.value.expiresAt && p.sha256(given) == s.code.value.hashed
    ensures var read := Apply(p, s, Local(c, ServerReads(secret, now, id)));
            && read.Some? && c in read.value.conns && Apply(p, read.value, Local(c, ServerAnswers)).None?
            && var put := Apply(p, read.value, Register(c));
            && put.Some? && put.value.sessions == s.sessions[id := Session(c, s.conns[c].crypto.value)]
            && var done := Apply(p, put.value, Local(c, ServerAnswers));
            && done.Some? && c in done.value.conns && done.value.sessions == put.value.sessions
            && var k, n := s.conns[c], done.value.conns[c];
            && n.toClient == k.toClient + [Frame(Sealed(k.crypto.value), AuthResponse(true))]
            && n.toServer == k.toServer[1..] && n.server == Reading
            && n.session == Some(id) && n.ids == k.ids + {id} && n.crypto == k.crypto
  {
    hide AgreedKey;
  }

  /** A generated code is accepted for five minutes, and no other hash is. */
  lemma CodeLastsFiveMinutes(p: Primitives, s: State, c: ConnId, given: seq<byte>, secret: nat, now: nat, id: SessionId,
                             code: seq<byte>, drawn: nat)
    requires RequestNext(s, c, given) && id !in s.issued
    requires s.code == Some(NewCode(p, code, drawn))
    ensures var read := Apply(p, s, Local(c, ServerReads(secret, now, id)));
            && read.Some?
            && (Apply(p, read.value, Register(c)).Some? <==> now <= drawn + 300 && p.sha256(given) == p.sha256(code))
  {
    hide Apply;
    if now <= drawn + 300 && p.sha256(given) == p.sha256(code) {
      GrantedRequest(p, s, c, given, secret, now, id);
    } else {
      RefusedRequest(p, s, c, given, secret, now, id);
    }
  }

  /** Success has been answered, or is about to be, or has been read. */
  predicate SaysSuccess(k: Conn) {
    k.client == Streaming || k.server == Answering(true) || exists i | 0 <= i < |k.toClient| :: k.toClient[i].msg == AuthResponse(true)
  }

  /** Only a registered connection is told of success. */
  predicate SuccessIsEarned(k: Conn) { SaysSuccess(k) ==> k.ids != {} }

  lemma LocalSuccess(p: Primitives, code: Option<AccessCode>, k: Conn, e: Event)
    requires LocalStep(p, code, k, e).Some? && SuccessIsEarned(k)
    ensures SuccessIsEarned(LocalStep(p, code, k, e).value)
  {
    var n := LocalStep(p, code, k, e).value;
    LocalFrame(p, code, k, e);
    match e {
      case ServerReads(secret, now, id) => TakenSaysNothing(p, code, k, secret, now, id);
      case ClientReads => ReadSaysNothingNew(p, k);
      case ServerAnswers =>
        if n.toClient[|n.toClient| - 1].msg != AuthResponse(true) && SaysSuccess(n) {
          NothingNewSaid(k, n, n.toClient[|n.toClient| - 1]);
        }
      case _ => hide ServerTakes, ClientTakes;
    }
  }

  lemma NothingNewSaid(k: Conn, n: Conn, f: Frame)
    requires n.toClient == k.toClient + [f] && f.msg != AuthResponse(true)
    requires n.client == k.client && n.server != Answering(true) && SaysSuccess(n)
    ensures SaysSuccess(k)
  {
    if i :| 0 <= i < |n.toClient| && n.toClient[i].msg == AuthResponse(true) {
      assert k.toClient[i].msg == AuthResponse(true);
    }
  }

  lemma TakenSaysNothing(p: Primitives, code: Option<AccessCode>, k: Conn, secret: nat, now: nat, id: SessionId)
    requires k.server == Reading && k.toServer != []
    ensures SaysSuccess(ServerTakes(p, code, k, secret, now, id)) ==> SaysSuccess(k)
  {
    var n := ServerTakes(p, code, k, secret, now, id);
    hide Verified, AgreedKey;
    assert n.client == k.client && n.server != Answering(true);
    assert n.toClient == k.toClient ||
           (n.toClient == k.toClient + [n.toClient[|k.toClient|]] && n.toClient[|k.toClient|].msg != AuthResponse(true));
    if SaysSuccess(n) && n.toClient != k.toClient {
      NothingNewSaid(k, n, n.toClient[|k.toClient|]);
    }
  }

  lemma ReadSaysNothingNew(p: Primitives, k: Conn)
    requires k.toClient != []
    ensures SaysSuccess(ClientTakes(p, k)) ==> SaysSuccess(k)
  {
    var n := ClientTakes(p, k);
    hide AgreedKey;
    assert n.toClient == k.toClient[1..] && n.server == k.server;
    if i :| 0 <= i < |n.toClient| && n.toClient[i].msg == AuthResponse(true) {
      assert k.toClient[i + 1].msg == AuthResponse(true);
    }
    if n.client == Streaming && k.client != Streaming {
      assert k.toClient[0].msg == AuthResponse(true);
    }
  }

  lemma SuccessStep(p: Primitives, s: State, step: Step, c: ConnId)
    requires Apply(p, s, step).Some? && c in Apply(p, s, step).value.conns
    requires c in s.conns ==> SuccessIsEarned(s.conns[c])
    ensures SuccessIsEarned(Apply(p, s, step).value.conns[c])
  {
    var t := Apply(p, s, step).value;
    if step.Local? && step.conn == c {
      LocalSuccess(p, s.code, s.conns[c], step.event);
    } else if step.Broadcast? && c in s.conns && t.conns[c] != s.conns[c] && SaysSuccess(t.conns[c]) && s.conns[c].server != Answering(true) {
      NothingNewSaid(s.conns[c], t.conns[c], t.conns[c].toClient[|s.conns[c].toClient|]);
    }
    hide LocalStep;
  }

  lemma {:induction false} RunEarnsSuccess(p: Primitives, run: seq<Step>, c: ConnId)
    requires Exec(p, run).Some? && c in Exec(p, run).value.conns
    ensures SuccessIsEarned(Exec(p, run).value.conns[c])
  {
    hide Apply, SuccessIsEarned;
    var n := |run| - 1;
    assert run != [];
    var s := Exec(p, run[..n]).value;
    if c in s.conns {
      RunEarnsSuccess(p, run[..n], c);
    }
    SuccessStep(p, s, run[n], c);
  }

  /** A client that reached the stream was let in: on its connection the server had
      taken a request sealed under the key, while a code was stored that had not
      expired, and the request's code had the stored hash. */
  lemma StreamingIsEarned(p: Primitives, run: seq<Step>, c: ConnId) returns (j: nat)
    requires Sound(p) && Exec(p, run).Some? && c in Exec(p, run).value.conns
    requires Exec(p, run).value.conns[c].client == Streaming
    ensures j < |run| && run[j].Local? && run[j].conn == c && run[j].event.ServerReads?
    ensures Exec(p, run[..j]).Some? && c in Exec(p, run[..j]).value.conns
    ensures var s := Exec(p, run[..j]).value; var k := s.conns[c];
            && k.crypto.Some? && k.toServer != [] && k.toServer[0].mode == Sealed(k.crypto.value)
            && k.toServer[0].msg.AuthRequest? && s.code.Some? && run[j].event.now <= s.code.value.expiresAt
            && p.sha256(k.toServer[0].msg.code) == s.code.value.hashed
  {
    RunEarnsSuccess(p, run, c);
    var id :| id in Exec(p, run).value.conns[c].ids;
    j := CodeWasTaken(p, run, c, id);
  }

  // ---------- Keys ----------

  predicate HasKey(k: Conn, key: Key) { k.crypto == Some(key) || k.server == StoringKey(key) }

  lemma KeyAppears(p: Primitives, code: Option<AccessCode>, k: Conn, e: Event, key: Key)
    requires LocalStep(p, code, k, e).Some? && HasKey(LocalStep(p, code, k, e).value, key) && !HasKey(k, key)
    ensures e.ServerReads? && k.toServer != [] && k.toServer[0].mode == ServerMode(k)
    ensures k.toServer[0].msg.KeyExchange? && |k.toServer[0].msg.publicKey| == 32
    ensures key == p.sha256(p.diffieHellman(e.secret, k.toServer[0].msg.publicKey))
  {
    hide Verified;
  }

  /** The server's key, stored or about to be, is the hash of the shared secret of
      the secret it drew and the public key it took, at one step of the run. */
  lemma {:induction false} KeyIsDerived(p: Primitives, run: seq<Step>, c: ConnId, key: Key) returns (i: nat)
    requires Exec(p, run).Some? && c in Exec(p, run).value.conns && HasKey(Exec(p, run).value.conns[c], key)
    ensures TakesKey(p, run, i, c)
    ensures var k := Exec(p, run[..i]).value.conns[c];
            key == p.sha256(p.diffieHellman(run[i].event.secret, k.toServer[0].msg.publicKey))
  {
    var n := |run| - 1;
    assert run != [];
    var s := Exec(p, run[..n]).value;
    KeyStep(p, s, run[n], c);
    if HasKey(s.conns[c], key) {
      i := KeyIsDerived(p, run[..n], c, key);
      assert run[..n][..i] == run[..i];
    } else {
      OthersKeepKey(p, s, run[n], c, key);
      KeyAppears(p, s.code, s.conns[c], run[n].event, key);
      i := n;
    }
  }

  lemma OthersKeepKey(p: Primitives, s: State, step: Step, c: ConnId, key: Key)
    requires Apply(p, s, step).Some? && c in s.conns && !HasKey(s.conns[c], key)
    requires HasKey(Apply(p, s, step).value.conns[c], key)
    ensures step.Local? && step.conn == c
  {
    hide LocalStep;
  }

  // ---------- One pass of the server's loop ----------

  /** What one whole pass does to the connection, message by message. */
  predicate PassDoes(p: Primitives, c: Conn, i: Inputs, r: Conn)
    requires c.toServer != []
  {
    var f := c.toServer[0];
    var mode := if c.crypto.Some? then Sealed(c.crypto.value) else Plain;
    && r.toServer == c.toServer[1..]
    && (f.mode != mode ==> r.server == Errored && SameBut(c, r, c.toClient, c.crypto, c.session))
    && (f.mode == mode ==>
         match f.msg
         case KeyExchange(theirs) =>
           var acked := c.toClient + [Frame(Plain, KeyExchangeAck(p.publicOf(i.secret)))];
           if |theirs| != 32 then r.server == Errored && SameBut(c, r, acked, c.crypto, c.session)
           else r.server == Reading && SameBut(c, r, acked, Some(p.sha256(p.diffieHellman(i.secret, theirs))), c.session)
         case AuthRequest(given) =>
           if c.crypto.None? then r.server == Errored && SameBut(c, r, c.toClient, None, c.session)
           else
             var ok := i.code.Some? && i.now <= i.code.value.expiresAt && p.sha256(given) == i.code.value.hashed;
             && r.server == Reading
             && SameBut(c, r, c.toClient + [Frame(mode, AuthResponse(ok))], c.crypto, if ok then Some(i.id) else c.session)
         case StartStream => r.server == Reading && Confirmed(c, r, mode)
         case RequestQualityChange => r.server == Reading && Confirmed(c, r, mode)
         case Input =>
           && r.server == (if i.inputFails then Errored else Reading)
           && SameBut(c, r, c.toClient, c.crypto, c.session)
         case _ => r.server == Reading && SameBut(c, r, c.toClient, c.crypto, c.session))
  }

  lemma PassWrittenOut(p: Primitives, c: Conn, i: Inputs)
    requires c.server == Reading && c.toServer != []
    ensures PassDoes(p, c, i, ServeOne(p, c, i))
  {
    hide PassDoes, ServeOne;
    var f := c.toServer[0];
    if f.mode != ServerMode(c) {
      WrongModePass(p, c, i);
    } else if f.msg.KeyExchange? {
      KeyPass(p, c, i);
    } else if f.msg.AuthRequest? {
      RequestPass(p, c, i);
    } else {
      OtherPass(p, c, i);
    }
  }

  lemma WrongModePass(p: Primitives, c: Conn, i: Inputs)
    requires c.server == Reading && c.toServer != [] && c.toServer[0].mode != ServerMode(c)
    ensures PassDoes(p, c, i, ServeOne(p, c, i))
  {
    hide Verified, AgreedKey;
  }

  lemma KeyPass(p: Primitives, c: Conn, i: Inputs)
    requires c.server == Reading && c.toServer != [] && c.toServer[0].mode == ServerMode(c)
    requires c.toServer[0].msg.KeyExchange?
    ensures PassDoes(p, c, i, ServeOne(p, c, i))
  {
    hide Verified;
  }

  lemma RequestPass(p: Primitives, c: Conn, i: Inputs)
    requires c.server == Reading && c.toServer != [] && c.toServer[0].mode == ServerMode(c)
    requires c.toServer[0].msg.AuthRequest?
    ensures PassDoes(p, c, i, ServeOne(p, c, i))
  {
    hide AgreedKey;
  }

  lemma OtherPass(p: Primitives, c: Conn, i: Inputs)
    requires c.server == Reading && c.toServer != [] && c.toServer[0].mode == ServerMode(c)
    requires !c.toServer[0].msg.KeyExchange? && !c.toServer[0].msg.AuthRequest?
    ensures PassDoes(p, c, i, ServeOne(p, c, i))
  {
    hide Verified, AgreedKey;
  }

  predicate SameBut(c: Conn, r: Conn, toClient: seq<Frame>, crypto: Option<Key>, session: Option<SessionId>) {
    r.toClient == toClient && r.crypto == crypto && r.session == session && r.client == c.client && r.clientKey == c.clientKey
  }

  /** A quality mode is confirmed to a connection that has a session, and to no other. */
  predicate Confirmed(c: Conn, r: Conn, mode: Mode) {
    SameBut(c, r, c.toClient + if c.session.Some? then [Frame(mode, QualityChange)] else [], c.crypto, c.session)
  }

  // ---------- The client and the broadcaster ----------

  /** connect, message by message: it fails on anything but the one it waits for. */
  lemma ClientWrittenOut(p: Primitives, code: Option<AccessCode>, c: Conn, given: seq<byte>, m: Msg)
    requires c.honest
    ensures c.client == Fresh ==>
              LocalStep(p, code, c, ClientSendsKey) ==
              Some(c.(client := AwaitAck, toServer := c.toServer + [Frame(Plain, KeyExchange(p.publicOf(c.secret)))]))
    ensures c.client == Keyed && c.clientKey.Some? ==>
              LocalStep(p, code, c, ClientSendsAuth(given)) ==
              Some(c.(client := AwaitAuth, toServer := c.toServer + [Frame(Sealed(c.clientKey.value), AuthRequest(given))]))
    ensures c.client == AwaitAck && c.toClient != [] ==>
              var f, r := c.toClient[0], LocalStep(p, code, c, ClientReads);
              && r.Some? && r.value.toClient == c.toClient[1..] && r.value.toServer == c.toServer
              && if f.mode == Plain && f.msg.KeyExchangeAck? && |f.msg.publicKey| == 32
                 then r.value.client == Keyed && r.value.clientKey == Some(p.sha256(p.diffieHellman(c.secret, f.msg.publicKey)))
                 else r.value.client == Failed && r.value.clientKey == c.clientKey
    ensures c.client == AwaitAuth && c.toClient != [] && c.clientKey.Some? ==>
              var f, r := c.toClient[0], LocalStep(p, code, c, ClientReads);
              && r.Some? && r.value.toClient == c.toClient[1..] && r.value.clientKey == c.clientKey
              && r.value.client == (if f == Frame(Sealed(c.clientKey.value), AuthResponse(true)) then Streaming else Failed)
    ensures c.client == Streaming && c.toClient != [] ==>
              LocalStep(p, code, c, ClientReads) == Some(c.(toClient := c.toClient[1..]))
    ensures c.client == Streaming && c.clientKey.Some? && !m.KeyExchange? && !m.AuthRequest? ==>
              LocalStep(p, code, c, ClientSends(m)) ==
              Some(c.(toServer := c.toServer + [Frame(Sealed(c.clientKey.value), m)]))
  {
    hide ServerTakes;
  }

  /** A broadcast reaches the queue of the session's own connection, sealed under the
      session's key, and no other. */
  lemma BroadcastDelivers(p: Primitives, s: State, id: SessionId, data: seq<byte>)
    requires id in s.sessions && s.sessions[id].conn in s.conns
    ensures var t := Apply(p, s, Broadcast(id, data)); var c := s.sessions[id].conn;
            && t.Some? && t.value.sessions == s.sessions && t.value.conns.Keys == s.conns.Keys
            && t.value.conns[c].toClient == s.conns[c].toClient + [Frame(Sealed(s.sessions[id].key), ScreenFrame(data))]
            && forall d | d in s.conns && d != c :: t.value.conns[d] == s.conns[d]
  {
  }
}
