/** The main results about the protocol, each over every run. */
module ProtocolSafety {
  import opened Basics
  import opened Wire
  import opened Protocol
  import opened ProtocolRuns

  // ---------- Modes and keys ----------

  predicate ClientListens(k: Conn) { k.client in {AwaitAck, AwaitAuth, Streaming} }

  /** In every interleaving, for a client that follows connect: the frame each end
      reads next was written in the mode it is read in, so its bytes parse to the
      message sent, under whatever nonce was drawn. */
  lemma ModesAgree(p: Primitives, run: seq<Step>, c: ConnId, nonce: seq<byte>)
    requires Sound(p) && Exec(p, run).Some? && |nonce| == NONCE
    requires c in Exec(p, run).value.conns && Exec(p, run).value.conns[c].honest
    ensures var k := Exec(p, run).value.conns[c];
            && (k.server == Reading && k.toServer != [] ==>
                  && k.toServer[0].mode == ServerMode(k)
                  && ReadAs(p, ServerMode(k), PayloadOf(p, k.toServer[0], nonce)) == Some(k.toServer[0].msg))
            && (ClientListens(k) && k.toClient != [] ==>
                  && k.toClient[0].mode == ClientMode(k)
                  && ReadAs(p, ClientMode(k), PayloadOf(p, k.toClient[0], nonce)) == Some(k.toClient[0].msg))
  {
    RunKeepsInv(p, run);
    var k := Exec(p, run).value.conns[c];
    assert ConnInv(p, k);
    if k.server == Reading && k.toServer != [] {
      assert k.toServer[0] in k.toServer;
      ReadInWrittenMode(p, k.toServer[0], nonce);
    }
    if ClientListens(k) && k.toClient != [] {
      assert k.toClient[0] in k.toClient;
      ReadInWrittenMode(p, k.toClient[0], nonce);
    }
  }

  /** Keys: the two ends never hold different keys; whatever the server or the
      broadcaster seals is under the key the client already holds; whatever the
      client seals is under a key the server holds, is just storing, or failed
      before storing. */
  lemma KeysMatch(p: Primitives, run: seq<Step>, c: ConnId)
    requires Sound(p) && Exec(p, run).Some?
    requires c in Exec(p, run).value.conns && Exec(p, run).value.conns[c].honest
    ensures var s := Exec(p, run).value; var k := s.conns[c];
            && (k.clientKey.Some? && k.crypto.Some? ==> k.clientKey == k.crypto)
            && (forall f | f in k.toClient && f.mode.Sealed? :: k.clientKey == Some(f.mode.key))
            && (forall f | f in k.toServer && f.mode.Sealed? ::
                  k.clientKey == Some(f.mode.key) &&
                  (k.crypto == Some(f.mode.key) || k.server == StoringKey(f.mode.key) || Ended(k)))
            && (forall id | id in s.sessions && s.sessions[id].conn == c :: k.clientKey == Some(s.sessions[id].key))
  {
    RunKeepsInv(p, run);
    var s := Exec(p, run).value;
    var k := s.conns[c];
    assert ConnInv(p, k) && ConnReg(s, c);
    FramesUnderKey(p, k);
    hide ConnInv, Exec, Ended;
    forall id | id in s.sessions && s.sessions[id].conn == c
      ensures k.clientKey == Some(s.sessions[id].key)
    {
      assert EntryReg(s, id);
    }
  }

  lemma FramesUnderKey(p: Primitives, k: Conn)
    requires k.honest && ConnInv(p, k)
    ensures k.clientKey.Some? && k.crypto.Some? ==> k.clientKey == k.crypto
    ensures k.ids != {} && k.crypto.Some? ==> k.clientKey.Some?
    ensures forall f | f in k.toClient && f.mode.Sealed? :: k.clientKey == Some(f.mode.key)
    ensures forall f | f in k.toServer && f.mode.Sealed? ::
              k.clientKey == Some(f.mode.key) &&
              (k.crypto == Some(f.mode.key) || k.server == StoringKey(f.mode.key) || Ended(k))
  {
    hide AuthWindow, Sound;
    match k.client {
      case Fresh =>
      case AwaitAck =>
      case Keyed =>
      case _ =>
    }
  }

  // ---------- When the server holds the key ----------

  /** The handler of c has stored its key in the run. */
  predicate Stored(run: seq<Step>, c: ConnId) { Took(run, Local(c, ServerStoresKey)) }

  predicate Answered(run: seq<Step>, c: ConnId) { Took(run, Local(c, ServerAnswers)) }

  predicate Took(run: seq<Step>, step: Step) { exists i | 0 <= i < |run| :: run[i] == step }

  /** Step i queues a screen frame to a session of connection c. */
  predicate BroadcastTo(p: Primitives, run: seq<Step>, i: nat, c: ConnId) {
    && i < |run| && run[i].Broadcast? && Exec(p, run[..i]).Some?
    && run[i].id in Exec(p, run[..i]).value.sessions && Exec(p, run[..i]).value.sessions[run[i].id].conn == c
  }

  /** A frame is broadcast to a session of c before the handler of c has queued an
      answer; since only a registered session is broadcast to, between the two. */
  predicate HitBeforeAnswer(p: Primitives, run: seq<Step>, c: ConnId) {
    exists i: nat | i < |run| :: Hits(p, run, i, c)
  }

  predicate Hits(p: Primitives, run: seq<Step>, i: nat, c: ConnId)
    requires i < |run|
  {
    BroadcastTo(p, run, i, c) && !Answered(run[..i], c)
  }

  lemma LocalHistory(p: Primitives, code: Option<AccessCode>, k: Conn, e: Event)
    requires LocalStep(p, code, k, e).Some?
    ensures var n := LocalStep(p, code, k, e).value;
            && (n.crypto.Some? <==> k.crypto.Some? || e == ServerStoresKey)
            && (n.answered <==> k.answered || e == ServerAnswers) && n.early == k.early
  {
    if e.ServerReads? {
      TakesHistory(p, code, k, e.secret, e.now, e.id);
    }
    hide ServerTakes;
  }

  lemma TakesHistory(p: Primitives, code: Option<AccessCode>, k: Conn, secret: nat, now: nat, id: SessionId)
    requires k.toServer != []
    ensures var n := ServerTakes(p, code, k, secret, now, id);
            n.crypto == k.crypto && n.answered == k.answered && n.early == k.early
  {
    hide Verified, AgreedKey, ServerMode;
  }

  /** One step's effect on what a connection has stored, answered and been sent early. */
  lemma HistoryStep(p: Primitives, s: State, step: Step, c: ConnId)
    requires c in s.conns && Apply(p, s, step).Some?
    ensures c in Apply(p, s, step).value.conns
    ensures var k, n := s.conns[c], Apply(p, s, step).value.conns[c];
            && (n.crypto.Some? <==> k.crypto.Some? || step == Local(c, ServerStoresKey))
            && (n.answered <==> k.answered || step == Local(c, ServerAnswers))
            && (n.early <==>
                (k.early || (step.Broadcast? && step.id in s.sessions && s.sessions[step.id].conn == c && !k.answered)))
  {
    if step.Local? && step.conn == c {
      LocalHistory(p, s.code, s.conns[c], step.event);
    }
    hide LocalStep;
  }

  lemma AbsentHasNoEntry(p: Primitives, s: State, c: ConnId)
    requires Inv(p, s) && c !in s.conns
    ensures forall id | id in s.sessions :: s.sessions[id].conn != c
  {
    forall id | id in s.sessions
      ensures s.sessions[id].conn != c
    {
      assert EntryReg(s, id);
    }
  }

  /** A connection that has not been accepted has no history. */
  lemma {:induction false} NothingBeforeAccept(p: Primitives, run: seq<Step>, c: ConnId)
    requires Sound(p) && Exec(p, run).Some? && c !in Exec(p, run).value.conns
    ensures !Stored(run, c) && !Answered(run, c) && !HitBeforeAnswer(p, run, c)
  {
    if run != [] {
      var n := |run| - 1;
      var s := Exec(p, run[..n]).value;
      assert c !in s.conns by {
        if c in s.conns {
          HistoryStep(p, s, run[n], c);
        }
      }
      NothingBeforeAccept(p, run[..n], c);
      RunKeepsInv(p, run[..n]);
      AbsentHasNoEntry(p, s, c);
      assert !BroadcastTo(p, run, n, c);
      hide Exec, Apply;
      HitSplits(p, run, c);
    }
  }

  lemma HitSplits(p: Primitives, run: seq<Step>, c: ConnId)
    requires run != []
    ensures var n := |run| - 1;
            && (Stored(run, c) <==> Stored(run[..n], c) || run[n] == Local(c, ServerStoresKey))
            && (Answered(run, c) <==> Answered(run[..n], c) || run[n] == Local(c, ServerAnswers))
            && (HitBeforeAnswer(p, run, c) <==>
                  HitBeforeAnswer(p, run[..n], c) || (BroadcastTo(p, run, n, c) && !Answered(run[..n], c)))
  {
    var n := |run| - 1;
    var init := run[..n];
    forall i: nat | i < n
      ensures Hits(p, init, i, c) <==> Hits(p, run, i, c)
    {
      assert init[..i] == run[..i];
    }
    StepSplits(run, Local(c, ServerStoresKey));
    StepSplits(run, Local(c, ServerAnswers));
    hide Hits, Answered, Stored;
    assert HitBeforeAnswer(p, init, c) <==> exists i: nat | i < n :: Hits(p, init, i, c);
    assert Hits(p, run, n, c) <==> BroadcastTo(p, run, n, c) && !Answered(init, c) by { HitsNow(p, run, n, c); }
  }

  lemma HitsNow(p: Primitives, run: seq<Step>, i: nat, c: ConnId)
    requires i < |run|
    ensures Hits(p, run, i, c) <==> BroadcastTo(p, run, i, c) && !Answered(run[..i], c)
  {
  }

  lemma StepSplits(run: seq<Step>, step: Step)
    requires run != []
    ensures Took(run, step) <==> Took(run[..|run| - 1], step) || run[|run| - 1] == step
  {
    var init := run[..|run| - 1];
    if Took(init, step) {
      var i :| 0 <= i < |init| && init[i] == step;
      assert run[i] == step;
    }
    if Took(run, step) && run[|run| - 1] != step {
      var i :| 0 <= i < |run| && run[i] == step;
      assert init[i] == step;
    }
  }

  /** In every run: the server holds a key exactly when its handler has taken the
      storing step, it has answered exactly when it has taken the answering step,
      and the early flag records exactly a broadcast before the answer. */
  lemma {:induction false} HistoryIff(p: Primitives, run: seq<Step>, c: ConnId)
    requires Sound(p) && Exec(p, run).Some? && c in Exec(p, run).value.conns
    ensures var k := Exec(p, run).value.conns[c];
            && (k.crypto.Some? <==> Stored(run, c))
            && (k.answered <==> Answered(run, c))
            && (k.early <==> HitBeforeAnswer(p, run, c))
  {
    assert run != [];
    var n := |run| - 1;
    var s, step := Exec(p, run[..n]).value, run[n];
    HitSplits(p, run, c);
    if c in s.conns {
      HistoryIff(p, run[..n], c);
      HistoryStep(p, s, step, c);
      hide Apply, Stored, Answered, HitBeforeAnswer;
    } else {
      NothingBeforeAccept(p, run[..n], c);
      RunKeepsInv(p, run[..n]);
      AbsentHasNoEntry(p, s, c);
      assert !BroadcastTo(p, run, n, c);
      hide Stored, Answered, HitBeforeAnswer, LocalStep;
    }
  }

  /** The claim that both ends hold the key before either uses it, exactly: a frame
      the client has sealed is under a key the server holds if and only if the
      handler's storing step came before. What the server has sealed is always
      under a key the client holds (KeysMatch). */
  lemma SealedUnderHeldKeyIff(p: Primitives, run: seq<Step>, c: ConnId, f: Frame)
    requires Sound(p) && Exec(p, run).Some?
    requires c in Exec(p, run).value.conns && Exec(p, run).value.conns[c].honest
    requires f in Exec(p, run).value.conns[c].toServer && f.mode.Sealed?
    ensures Exec(p, run).value.conns[c].crypto == Some(f.mode.key) <==> Stored(run, c)
  {
    KeysMatch(p, run, c);
    HistoryIff(p, run, c);
  }

  // ---------- When the answer comes first ----------

  /** connect gets its answer exactly when no screen frame was broadcast to the
      new session between its registration and the queueing of its answer: the
      client's next read is an AuthResponse if and only if the run has no such
      broadcast. */
  lemma AnswerComesFirstIff(p: Primitives, run: seq<Step>, c: ConnId)
    requires Sound(p) && Exec(p, run).Some?
    requires c in Exec(p, run).value.conns && Exec(p, run).value.conns[c].honest
    requires Exec(p, run).value.conns[c].client == AwaitAuth && Exec(p, run).value.conns[c].toClient != []
    ensures var k := Exec(p, run).value.conns[c];
            && (k.toClient[0].msg.AuthResponse? <==> !HitBeforeAnswer(p, run, c))
            && (ClientTakes(p, k).client == Streaming <==>
                  !HitBeforeAnswer(p, run, c) && k.toClient[0].msg == AuthResponse(true))
  {
    RunKeepsInv(p, run);
    HistoryIff(p, run, c);
    var k := Exec(p, run).value.conns[c];
    assert ConnInv(p, k);
    assert k.toClient[0] in k.toClient;
  }

  // ---------- Two runs that show what does not hold ----------

  lemma ExecSnoc(p: Primitives, run: seq<Step>, step: Step)
    requires Exec(p, run).Some?
    ensures Exec(p, run + [step]) == Apply(p, Exec(p, run).value, step)
  {
    assert (run + [step])[..|run|] == run;
  }

  lemma Then(p: Primitives, run: seq<Step>, step: Step) returns (next: seq<Step>)
    requires Exec(p, run).Some? && Apply(p, Exec(p, run).value, step).Some?
    ensures Exec(p, next) == Apply(p, Exec(p, run).value, step)
  {
    ExecSnoc(p, run, step);
    next := run + [step];
  }

  /** A local step of connection 0 in a state where it is the only one. */
  lemma ThenLocal(p: Primitives, run: seq<Step>, s: State, k: Conn, e: Event, n: Conn) returns (next: seq<Step>)
    requires Exec(p, run) == Some(s) && s.conns == map[0 := k] && !(e.ServerReads? && e.id in s.issued)
    requires LocalStep(p, s.code, k, e) == Some(n)
    ensures Exec(p, next) ==
            Some(s.(conns := map[0 := n], issued := if e.ServerReads? then s.issued[e.id := 0] else s.issued))
  {
    next := Then(p, run, Local(0, e));
    assert s.conns[0 := n] == map[0 := n];
  }

  /** The connection after the server has queued its acknowledgement. */
  function Acknowledged(p: Primitives): Conn {
    NewConn(true, 1).(client := AwaitAck, server := StoringKey(AgreedKey(p, 2, p.publicOf(1))),
                      toClient := [Frame(Plain, KeyExchangeAck(p.publicOf(2)))])
  }

  lemma HandshakeToAck(p: Primitives) returns (run: seq<Step>)
    requires Sound(p)
    ensures Exec(p, run) == Some(State(map[0 := Acknowledged(p)], map[], map[9 := 0], None))
  {
    run := Then(p, [], Accept(0, true, 1));
    var k0 := NewConn(true, 1);
    assert Exec(p, run) == Some(State(map[0 := k0], map[], map[], None));
    var k1 := k0.(client := AwaitAck, toServer := [Frame(Plain, KeyExchange(p.publicOf(1)))]);
    assert k0.toServer + k1.toServer == k1.toServer;
    run := ThenLocal(p, run, Exec(p, run).value, k0, ClientSendsKey, k1);
    assert k1.toServer[1..] == [];
    assert k1.toClient + Acknowledged(p).toClient == Acknowledged(p).toClient;
    run := ThenLocal(p, run, Exec(p, run).value, k1, ServerReads(2, 0, 9), Acknowledged(p));
  }

  /** The client may seal a frame before the server has stored the key: the
      acknowledgement is queued first. */
  lemma SealedBeforeStored(p: Primitives, code: seq<byte>) returns (run: seq<Step>)
    requires Sound(p)
    ensures Exec(p, run).Some? && 0 in Exec(p, run).value.conns
    ensures var k := Exec(p, run).value.conns[0];
            k.honest && |k.toServer| == 1 && k.toServer[0].mode.Sealed? && k.crypto.None?
  {
    run := HandshakeToAck(p);
    var k := Acknowledged(p);
    var keyed := ClientTakes(p, k);
    run := ThenLocal(p, run, Exec(p, run).value, k, ClientReads, keyed);
    var asked := keyed.(client := AwaitAuth, toServer := [Frame(Sealed(keyed.clientKey.value), AuthRequest(code))]);
    assert keyed.toServer + asked.toServer == asked.toServer;
    run := ThenLocal(p, run, Exec(p, run).value, keyed, ClientSendsAuth(code), asked);
  }

  /** Both ends hold the key and the client's request is on its way. */
  function Asking(key: Key, code: seq<byte>): Conn {
    NewConn(true, 1).(client := AwaitAuth, clientKey := Some(key), crypto := Some(key),
                      toServer := [Frame(Sealed(key), AuthRequest(code))])
  }

  lemma RequestPending(p: Primitives, code: seq<byte>, key: Key) returns (run: seq<Step>)
    requires Sound(p) && key == AgreedKey(p, 1, p.publicOf(2))
    ensures Exec(p, run) ==
            Some(State(map[0 := Asking(key, code)], map[], map[9 := 0], Some(AccessCode(p.sha256(code), 300))))
  {
    KeysAgree(p, 1, 2);
    run := HandshakeToAck(p);
    var stored := Acknowledged(p).(server := Reading, crypto := Some(key));
    run := ThenLocal(p, run, Exec(p, run).value, Acknowledged(p), ServerStoresKey, stored);
    var keyed := NewConn(true, 1).(client := Keyed, clientKey := Some(key), crypto := Some(key));
    assert stored.toClient[1..] == [];
    assert ClientTakes(p, stored) == keyed;
    run := ThenLocal(p, run, Exec(p, run).value, stored, ClientReads, keyed);
    assert keyed.toServer + Asking(key, code).toServer == Asking(key, code).toServer;
    run := ThenLocal(p, run, Exec(p, run).value, keyed, ClientSendsAuth(code), Asking(key, code));
    run := Then(p, run, SetCode(Some(AccessCode(p.sha256(code), 300))));
  }

  /** The session is registered; its answer is not queued yet. */
  function Registered(key: Key): Conn {
    NewConn(true, 1).(client := AwaitAuth, clientKey := Some(key), crypto := Some(key),
                      server := Answering(true), session := Some(10), ids := {10})
  }

  lemma AnswerPending(p: Primitives, code: seq<byte>, key: Key) returns (run: seq<Step>)
    requires Sound(p) && key == AgreedKey(p, 1, p.publicOf(2))
    ensures Exec(p, run).Some?
    ensures Exec(p, run).value.conns == map[0 := Registered(key)]
    ensures Exec(p, run).value.sessions == map[10 := Session(0, key)]
  {
    run := RequestPending(p, code, key);
    var k0 := Asking(key, code);
    var k1 := Registered(key).(server := Registering, ids := {});
    assert k0.toServer[1..] == [];
    assert ServerTakes(p, Exec(p, run).value.code, k0, 3, 0, 10) == k1;
    run := ThenLocal(p, run, Exec(p, run).value, k0, ServerReads(3, 0, 10), k1);
    hide Sound, AgreedKey;
    assert k1.ids + {10} == {10};
    run := Then(p, run, Register(0));
    assert Exec(p, run).value.conns == map[0 := k1][0 := Registered(key)] == map[0 := Registered(key)];
  }

  /** The other hazard: a frame broadcast between registration and answer reaches
      a waiting client first, and a connect whose code verified fails. The
      broadcaster sends a new session nothing for 33 ms (Pacing.FirstSendWaits), so
      the handler must stall that long before it queues the answer. */
  lemma EarlyFrameFails(p: Primitives, code: seq<byte>, data: seq<byte>) returns (run: seq<Step>)
    requires Sound(p)
    ensures Exec(p, run).Some? && 0 in Exec(p, run).value.conns
    ensures var k := Exec(p, run).value.conns[0]; k.honest && k.answered && k.ids != {} && k.client == Failed
  {
    var key := AgreedKey(p, 1, p.publicOf(2));
    run := AnswerPending(p, code, key);
    hide Sound, AgreedKey, Exec;
    var k2 := Registered(key);
    var k3 := k2.(toClient := [Frame(Sealed(key), ScreenFrame(data))], early := true);
    assert k2.toClient + k3.toClient == k3.toClient;
    run := Then(p, run, Broadcast(10, data));
    assert Exec(p, run).value.conns == map[0 := k2][0 := k3] == map[0 := k3];
    var k4 := k3.(server := Reading, answered := true, toClient := k3.toClient + [Frame(Sealed(key), AuthResponse(true))]);
    run := ThenLocal(p, run, Exec(p, run).value, k3, ServerAnswers, k4);
    run := ThenLocal(p, run, Exec(p, run).value, k4, ClientReads, ClientTakes(p, k4));
  }

  // ---------- The registry ----------

  /** The session of some connection whose handler is still running. */
  predicate Current(s: State, id: SessionId) {
    exists c | c in s.conns :: s.conns[c].session == Some(id) && id in s.conns[c].ids && !Ended(s.conns[c])
  }

  /** The connection has not authenticated again since it registered, and did not
      leave by an error while registered. */
  predicate LeavesNothing(k: Conn) {
    && (forall id | id in k.ids :: k.session == Some(id))
    && (k.server == Errored ==> k.ids == {})
  }

  /** What the handler of c is at after reading a message in this step, if it does. */
  function PhaseAfterRead(p: Primitives, s: State, step: Step, c: ConnId): Option<ServerPhase> {
    if step.Local? && step.conn == c && step.event.ServerReads? && c in s.conns && s.conns[c].toServer != []
    then Some(ServerTakes(p, s.code, s.conns[c], step.event.secret, step.event.now, step.event.id).server)
    else None
  }

  /** The handler of c takes a request whose code verifies. */
  predicate TakesRequest(p: Primitives, s: State, step: Step, c: ConnId) {
    PhaseAfterRead(p, s, step, c) == Some(Registering)
  }

  /** The handler of c ends by an error. */
  predicate EndsByError(p: Primitives, s: State, step: Step, c: ConnId) {
    step == Local(c, ServerFails) || PhaseAfterRead(p, s, step, c) == Some(Errored)
  }

  predicate Strays(p: Primitives, s: State, step: Step, c: ConnId) {
    TakesRequest(p, s, step, c) || EndsByError(p, s, step, c)
  }

  /** Step i strays after c has registered. */
  predicate StraysAt(p: Primitives, run: seq<Step>, i: nat, c: ConnId)
    requires i < |run|
  {
    Took(run[..i], Register(c)) && Exec(p, run[..i]).Some? && Strays(p, Exec(p, run[..i]).value, run[i], c)
  }

  /** After registering a session, c is granted another one or ends by an error. */
  predicate StraysAfterRegistering(p: Primitives, run: seq<Step>, c: ConnId) {
    exists i: nat | i < |run| :: StraysAt(p, run, i, c)
  }

  lemma StraysSplits(p: Primitives, run: seq<Step>, c: ConnId)
    requires run != []
    ensures StraysAfterRegistering(p, run, c) <==>
            StraysAfterRegistering(p, run[..|run| - 1], c) || StraysAt(p, run, |run| - 1, c)
  {
    var n := |run| - 1;
    var init := run[..n];
    forall i: nat | i < n
      ensures StraysAt(p, init, i, c) <==> StraysAt(p, run, i, c)
    {
      assert init[..i] == run[..i];
    }
    hide StraysAt;
    assert StraysAfterRegistering(p, init, c) <==> exists i: nat | i < n :: StraysAt(p, init, i, c);
  }

  /** One step: ids are recorded by Register alone, and what was left behind stays. */
  lemma StrayStep(p: Primitives, s: State, step: Step, c: ConnId)
    requires c in s.conns && ConnReg(s, c) && Apply(p, s, step).Some?
    ensures c in Apply(p, s, step).value.conns
    ensures var k, n := s.conns[c], Apply(p, s, step).value.conns[c];
            && (n.ids != {} <==> k.ids != {} || step == Register(c))
            && (LeavesNothing(n) <==> LeavesNothing(k) && !(k.ids != {} && Strays(p, s, step, c)))
  {
    if step.Local? && step.conn == c {
      LocalStray(p, s, c, step.event);
    }
    hide LocalStep, Strays;
  }

  lemma LocalStray(p: Primitives, s: State, c: ConnId, e: Event)
    requires c in s.conns && ConnReg(s, c) && Apply(p, s, Local(c, e)).Some?
    ensures var k, n := s.conns[c], Apply(p, s, Local(c, e)).value.conns[c];
            && n.ids == k.ids
            && (LeavesNothing(n) <==> LeavesNothing(k) && !(k.ids != {} && Strays(p, s, Local(c, e), c)))
  {
    LocalFrame(p, s.code, s.conns[c], e);
    LocalPhases(p, s.code, s.conns[c], e);
    hide LocalStep, ServerTakes;
  }

  /** Only a read or a failure brings a handler to Registering or Errored. */
  lemma LocalPhases(p: Primitives, code: Option<AccessCode>, k: Conn, e: Event)
    requires LocalStep(p, code, k, e).Some?
    ensures var n := LocalStep(p, code, k, e).value;
            && (e.ServerReads? ==> k.toServer != [] && k.server == Reading &&
                                   n.server == ServerTakes(p, code, k, e.secret, e.now, e.id).server)
            && (e == ServerFails ==> n.server == Errored && k.server != Errored)
            && (!e.ServerReads? && e != ServerFails && n.server != k.server ==> n.server == Reading)
  {
    hide ServerTakes, AgreedKey;
  }

  lemma {:induction false} StraysIff(p: Primitives, run: seq<Step>, c: ConnId)
    requires Sound(p) && Exec(p, run).Some? && c in Exec(p, run).value.conns
    ensures var k := Exec(p, run).value.conns[c];
            && (k.ids != {} <==> Took(run, Register(c)))
            && (LeavesNothing(k) <==> !StraysAfterRegistering(p, run, c))
  {
    assert run != [];
    var n := |run| - 1;
    var s, step := Exec(p, run[..n]).value, run[n];
    StraysSplits(p, run, c);
    StepSplits(run, Register(c));
    RunKeepsInv(p, run[..n]);
    if c in s.conns {
      StraysIff(p, run[..n], c);
      assert ConnReg(s, c);
      StrayStep(p, s, step, c);
      hide Apply, Took, StraysAfterRegistering, LeavesNothing, ConnInv, Strays;
    } else {
      NoStraysBeforeAccept(p, run[..n], c);
      hide Took, StraysAfterRegistering, LocalStep, ConnInv;
    }
  }

  lemma {:induction false} NoStraysBeforeAccept(p: Primitives, run: seq<Step>, c: ConnId)
    requires Exec(p, run).Some? && c !in Exec(p, run).value.conns
    ensures !Took(run, Register(c)) && !StraysAfterRegistering(p, run, c)
  {
    if run != [] {
      var n := |run| - 1;
      var s := Exec(p, run[..n]).value;
      assert c !in s.conns by {
        if c in s.conns {
          HistoryStep(p, s, run[n], c);
        }
      }
      NoStraysBeforeAccept(p, run[..n], c);
      assert run[n] != Register(c) && !StraysAt(p, run, n, c);
      hide Exec, Apply;
      StraysSplits(p, run, c);
      StepSplits(run, Register(c));
    }
  }

  /** In every run over any peers, the session map holds exactly the sessions of
      running handlers if and only if no handler, after it had registered, took
      another verified request or ended by an error. */
  lemma RegistryExactIff(p: Primitives, run: seq<Step>)
    requires Sound(p) && Exec(p, run).Some?
    ensures var s := Exec(p, run).value;
            (forall id :: id in s.sessions <==> Current(s, id)) <==>
            (forall c | c in s.conns :: !StraysAfterRegistering(p, run, c))
  {
    RunKeepsInv(p, run);
    var s := Exec(p, run).value;
    forall c | c in s.conns
      ensures LeavesNothing(s.conns[c]) <==> !StraysAfterRegistering(p, run, c)
    {
      StraysIff(p, run, c);
    }
    hide ConnInv, Exec, StraysAfterRegistering;
    if forall id :: id in s.sessions <==> Current(s, id) {
      forall c | c in s.conns
        ensures LeavesNothing(s.conns[c])
      {
        ExactLeavesNothing(s, c);
      }
    }
    if forall c | c in s.conns :: LeavesNothing(s.conns[c]) {
      forall id
        ensures id in s.sessions <==> Current(s, id)
      {
        LeavesNothingExact(s, id);
      }
    }
  }

  ghost predicate RegInv(s: State) {
    (forall c | c in s.conns :: ConnReg(s, c)) && (forall id | id in s.sessions :: EntryReg(s, id))
  }

  lemma ExactLeavesNothing(s: State, c: ConnId)
    requires RegInv(s) && c in s.conns
    requires forall id :: id in s.sessions <==> Current(s, id)
    ensures LeavesNothing(s.conns[c])
  {
    var k := s.conns[c];
    assert ConnReg(s, c);
    forall id | id in k.ids
      ensures k.session == Some(id) && k.server != Errored
    {
      if !(k.server == Cleaned && k.session == Some(id)) {
        assert id in s.sessions;
        assert Current(s, id);
        var d :| d in s.conns && s.conns[d].session == Some(id) && id in s.conns[d].ids && !Ended(s.conns[d]);
        assert ConnReg(s, d);
        assert d == c;
      }
    }
  }

  lemma LeavesNothingExact(s: State, id: SessionId)
    requires RegInv(s) && forall c | c in s.conns :: LeavesNothing(s.conns[c])
    ensures id in s.sessions <==> Current(s, id)
  {
    if id in s.sessions {
      assert EntryReg(s, id);
      var c := s.sessions[id].conn;
      assert ConnReg(s, c) && LeavesNothing(s.conns[c]);
      assert s.conns[c].session == Some(id) && id in s.conns[c].ids;
    }
    if Current(s, id) {
      var c :| c in s.conns && s.conns[c].session == Some(id) && id in s.conns[c].ids && !Ended(s.conns[c]);
      assert ConnReg(s, c);
    }
  }

  /** An error exit after registering leaves an entry behind. */
  lemma ErrorExitLeaks(p: Primitives, code: seq<byte>) returns (run: seq<Step>)
    requires Sound(p)
    ensures Exec(p, run).Some? && 10 in Exec(p, run).value.sessions && !Current(Exec(p, run).value, 10)
  {
    var key := AgreedKey(p, 1, p.publicOf(2));
    run := AnswerPending(p, code, key);
    hide Exec, Sound;
    var k := Registered(key);
    run := ThenLocal(p, run, Exec(p, run).value, k, ServerFails, k.(server := Errored));
  }

  /** A peer that is not bound to connect, after one more verified request. */
  function Authenticated(k: Conn, id: SessionId): Conn
    requires k.crypto.Some?
  {
    k.(session := Some(id), ids := k.ids + {id}, answered := true,
       toClient := k.toClient + [Frame(Sealed(k.crypto.value), AuthResponse(true))])
  }

  function Requesting(k: Conn, f: Frame): Conn { k.(toServer := [f]) }

  function Granted(k: Conn, id: SessionId): Conn { k.(server := Registering, session := Some(id)) }

  lemma PeerRequests(p: Primitives, stored: Option<AccessCode>, k: Conn, f: Frame, id: SessionId)
    requires !k.honest && k.server == Reading && k.crypto.Some? && k.toServer == []
    requires f.mode == Sealed(k.crypto.value) && f.msg.AuthRequest? && Verified(p, stored, f.msg.code, 0)
    ensures LocalStep(p, stored, k, PeerInjects(f)) == Some(Requesting(k, f))
    ensures LocalStep(p, stored, Requesting(k, f), ServerReads(0, 0, id)) == Some(Granted(k, id))
  {
    hide ClientTakes, Verified;
    assert k.toServer + [f] == [f] && [f][1..] == [];
  }

  lemma GrantedAnswered(p: Primitives, stored: Option<AccessCode>, k: Conn, id: SessionId)
    requires k.server == Reading && k.crypto.Some?
    ensures LocalStep(p, stored, Granted(k, id).(server := Answering(true), ids := k.ids + {id}), ServerAnswers) ==
            Some(Authenticated(k, id))
  {
    hide ServerTakes, ClientTakes;
  }

  lemma PeerAuthenticates(p: Primitives, run: seq<Step>, s: State, k: Conn, code: seq<byte>, id: SessionId)
    returns (next: seq<Step>)
    requires Exec(p, run) == Some(s) && s.conns == map[0 := k] && id !in s.issued
    requires !k.honest && k.server == Reading && k.crypto.Some? && k.toServer == []
    requires Verified(p, s.code, code, 0)
    ensures Exec(p, next) == Some(s.(conns := map[0 := Authenticated(k, id)], issued := s.issued[id := 0],
                                     sessions := s.sessions[id := Session(0, k.crypto.value)]))
  {
    var f := Frame(Sealed(k.crypto.value), AuthRequest(code));
    PeerRequests(p, s.code, k, f, id);
    GrantedAnswered(p, s.code, k, id);
    hide Exec, LocalStep, Requesting, Authenticated, Verified;
    next := ThenLocal(p, run, s, k, PeerInjects(f), Requesting(k, f));
    next := ThenLocal(p, next, Exec(p, next).value, Requesting(k, f), ServerReads(0, 0, id), Granted(k, id));
    var kept := Granted(k, id).(server := Answering(true), ids := k.ids + {id});
    next := Then(p, next, Register(0));
    assert Exec(p, next).value.conns == map[0 := Granted(k, id)][0 := kept] == map[0 := kept];
    next := ThenLocal(p, next, Exec(p, next).value, kept, ServerAnswers, Authenticated(k, id));
  }

  /** Such a peer after its key exchange. */
  function PeerKeyed(p: Primitives): Conn {
    NewConn(false, 0).(crypto := Some(AgreedKey(p, 2, p.publicOf(1))),
                       toClient := [Frame(Plain, KeyExchangeAck(p.publicOf(2)))])
  }

  /** The same peer with its key in flight, and with the server about to store. */
  function PeerAsking(p: Primitives): Conn { NewConn(false, 0).(toServer := [Frame(Plain, KeyExchange(p.publicOf(1)))]) }

  function PeerStored(p: Primitives): Conn {
    NewConn(false, 0).(server := StoringKey(AgreedKey(p, 2, p.publicOf(1))), toClient := PeerKeyed(p).toClient)
  }

  lemma PeerAsks(p: Primitives)
    ensures LocalStep(p, None, NewConn(false, 0), PeerInjects(Frame(Plain, KeyExchange(p.publicOf(1))))) == Some(PeerAsking(p))
    ensures LocalStep(p, None, PeerStored(p), ServerStoresKey) == Some(PeerKeyed(p))
  {
    hide ServerTakes, ClientTakes, AgreedKey;
    assert [] + PeerAsking(p).toServer == PeerAsking(p).toServer;
  }

  lemma ServerAcknowledges(p: Primitives)
    requires Sound(p)
    ensures LocalStep(p, None, PeerAsking(p), ServerReads(2, 0, 9)) == Some(PeerStored(p))
  {
    assert PeerAsking(p).toServer[1..] == [] && |p.publicOf(1)| == PUBLIC_KEY;
    hide AgreedKey, Sound;
    assert [] + PeerKeyed(p).toClient == PeerKeyed(p).toClient;
  }

  lemma PeerExchangesKey(p: Primitives, code: seq<byte>) returns (run: seq<Step>)
    requires Sound(p)
    ensures Exec(p, run) == Some(State(map[0 := PeerKeyed(p)], map[], map[9 := 0], Some(AccessCode(p.sha256(code), 300))))
  {
    run := Then(p, [], Accept(0, false, 0));
    assert Exec(p, run) == Some(State(map[0 := NewConn(false, 0)], map[], map[], None));
    PeerAsks(p);
    ServerAcknowledges(p);
    hide Exec, Sound, LocalStep, NewConn, PeerAsking, PeerStored, PeerKeyed;
    run := ThenLocal(p, run, Exec(p, run).value, NewConn(false, 0), PeerInjects(Frame(Plain, KeyExchange(p.publicOf(1)))), PeerAsking(p));
    run := ThenLocal(p, run, Exec(p, run).value, PeerAsking(p), ServerReads(2, 0, 9), PeerStored(p));
    run := ThenLocal(p, run, Exec(p, run).value, PeerStored(p), ServerStoresKey, PeerKeyed(p));
    run := Then(p, run, SetCode(Some(AccessCode(p.sha256(code), 300))));
  }

  /** Authenticating twice leaves the first entry behind. */
  lemma ReauthenticationLeaks(p: Primitives, code: seq<byte>) returns (run: seq<Step>)
    requires Sound(p)
    ensures Exec(p, run).Some? && 10 in Exec(p, run).value.sessions && !Current(Exec(p, run).value, 10)
    ensures 11 in Exec(p, run).value.sessions && Current(Exec(p, run).value, 11)
  {
    hide Exec, Apply, Sound;
    run := PeerExchangesKey(p, code);
    var k3 := PeerKeyed(p);
    run := PeerAuthenticates(p, run, Exec(p, run).value, k3, code, 10);
    var k4 := Authenticated(k3, 10);
    run := PeerAuthenticates(p, run, Exec(p, run).value, k4, code, 11);
    var s := Exec(p, run).value;
    assert s.conns == map[0 := Authenticated(k4, 11)];
    assert s.conns[0].session == Some(11) && 11 in s.conns[0].ids;
  }

  /** A running handler always finds its own session in the map, so the lookups
      that guard its replies cannot fail. */
  lemma OwnEntryPresent(p: Primitives, run: seq<Step>, c: ConnId)
    requires Sound(p) && Exec(p, run).Some? && c in Exec(p, run).value.conns
    requires var k := Exec(p, run).value.conns[c]; k.server == Reading && k.session.Some?
    ensures var s := Exec(p, run).value;
            s.conns[c].session.value in s.sessions && s.sessions[s.conns[c].session.value].conn == c
  {
    RunKeepsInv(p, run);
    assert ConnReg(Exec(p, run).value, c);
  }

  /** No handler fails, and none that already has a session is granted another. */
  predicate RegularRun(p: Primitives, run: seq<Step>) {
    forall i: nat | i < |run| :: Exec(p, run[..i]).Some? && !Misbehaves(p, Exec(p, run[..i]).value, run[i])
  }

  predicate Misbehaves(p: Primitives, s: State, step: Step) {
    && step.Local? && step.conn in s.conns
    && (EndsByError(p, s, step, step.conn) || (TakesRequest(p, s, step, step.conn) && s.conns[step.conn].session.Some?))
  }

  /** When every connection authenticates at most once and ends by end of stream,
      the keys of the map are exactly the sessions not yet cleaned up. */
  lemma RegistryExact(p: Primitives, run: seq<Step>)
    requires Sound(p) && Exec(p, run).Some? && RegularRun(p, run)
    ensures var s := Exec(p, run).value; forall id :: id in s.sessions <==> Current(s, id)
  {
    hide Exec, Strays;
    forall c | c in Exec(p, run).value.conns
      ensures !StraysAfterRegistering(p, run, c)
    {
      forall i: nat | i < |run|
        ensures !StraysAt(p, run, i, c)
      {
        if StraysAt(p, run, i, c) {
          StraysMisbehaves(p, run, i, c);
        }
      }
    }
    RegistryExactIff(p, run);
  }

  lemma StraysMisbehaves(p: Primitives, run: seq<Step>, i: nat, c: ConnId)
    requires Sound(p) && i < |run| && StraysAt(p, run, i, c)
    ensures Exec(p, run[..i]).Some? && Misbehaves(p, Exec(p, run[..i]).value, run[i])
  {
    hide ConnInv;
    RunKeepsInv(p, run[..i]);
    if c !in Exec(p, run[..i]).value.conns {
      NoStraysBeforeAccept(p, run[..i], c);
    }
    StraysIff(p, run[..i], c);
    assert ConnReg(Exec(p, run[..i]).value, c);
  }

  // ---------- Where entries come from ----------

  /** Step i is the handler of c taking a key exchange with a key of the right length. */
  predicate TakesKey(p: Primitives, run: seq<Step>, i: nat, c: ConnId) {
    && i < |run| && run[i].Local? && run[i].conn == c && run[i].event.ServerReads?
    && Exec(p, run[..i]).Some? && c in Exec(p, run[..i]).value.conns
    && var k := Exec(p, run[..i]).value.conns[c];
    && k.toServer != [] && k.toServer[0].mode == ServerMode(k)
    && k.toServer[0].msg.KeyExchange? && |k.toServer[0].msg.publicKey| == 32
  }

  /** Step j is the handler of c taking an authentication request whose code
      verifies at that moment, and drawing id for it. */
  predicate TakesCode(p: Primitives, run: seq<Step>, j: nat, c: ConnId, id: SessionId) {
    && j < |run| && run[j].Local? && run[j].conn == c && run[j].event.ServerReads? && run[j].event.id == id
    && Exec(p, run[..j]).Some? && c in Exec(p, run[..j]).value.conns
    && var s := Exec(p, run[..j]).value; var k := s.conns[c];
    && k.toServer != [] && k.crypto.Some? && k.toServer[0].mode == Sealed(k.crypto.value)
    && k.toServer[0].msg.AuthRequest?
    && s.code.Some? && run[j].event.now <= s.code.value.expiresAt
    && p.sha256(k.toServer[0].msg.code) == s.code.value.hashed
  }

  predicate KeyUnderWay(k: Conn) { k.crypto.Some? || k.server.StoringKey? }

  lemma KeyStep(p: Primitives, s: State, step: Step, c: ConnId)
    requires Apply(p, s, step).Some? && c in Apply(p, s, step).value.conns
    requires KeyUnderWay(Apply(p, s, step).value.conns[c])
    ensures c in s.conns
    ensures KeyUnderWay(s.conns[c]) ||
            (step.Local? && step.conn == c && step.event.ServerReads? && s.conns[c].toServer != [] &&
             s.conns[c].toServer[0].mode == ServerMode(s.conns[c]) &&
             s.conns[c].toServer[0].msg.KeyExchange? && |s.conns[c].toServer[0].msg.publicKey| == PUBLIC_KEY)
  {
  }

  lemma {:induction false} KeyWasTaken(p: Primitives, run: seq<Step>, c: ConnId) returns (i: nat)
    requires Exec(p, run).Some? && c in Exec(p, run).value.conns && KeyUnderWay(Exec(p, run).value.conns[c])
    ensures TakesKey(p, run, i, c)
  {
    var n := |run| - 1;
    assert run != [];
    KeyStep(p, Exec(p, run[..n]).value, run[n], c);
    if KeyUnderWay(Exec(p, run[..n]).value.conns[c]) {
      i := KeyWasTaken(p, run[..n], c);
      assert run[..n][..i] == run[..i];
    } else {
      i := n;
    }
  }

  lemma SessionStep(p: Primitives, s: State, step: Step, c: ConnId, id: SessionId)
    requires Apply(p, s, step).Some? && c in Apply(p, s, step).value.conns
    requires var k := Apply(p, s, step).value.conns[c]; id in k.ids || k.session == Some(id)
    ensures c in s.conns
    ensures var k := s.conns[c];
            (id in k.ids || k.session == Some(id)) ||
            (step.Local? && step.conn == c && step.event.ServerReads? && step.event.id == id && k.toServer != [] &&
             k.crypto.Some? && k.toServer[0].mode == Sealed(k.crypto.value) && k.toServer[0].msg.AuthRequest? &&
             Verified(p, s.code, k.toServer[0].msg.code, step.event.now))
  {
    if step.Local? && step.conn == c {
      LocalFrame(p, s.code, s.conns[c], step.event);
      if step.event.ServerReads? {
        var e := step.event;
        SessionTaken(p, s.code, s.conns[c], e.secret, e.now, e.id);
      }
    }
    hide ServerTakes, ClientTakes;
  }

  lemma SessionTaken(p: Primitives, code: Option<AccessCode>, k: Conn, secret: nat, now: nat, id: SessionId)
    requires k.toServer != []
    ensures ServerTakes(p, code, k, secret, now, id).session == k.session ||
            (&& k.crypto.Some? && k.toServer[0].mode == Sealed(k.crypto.value) && k.toServer[0].msg.AuthRequest?
             && Verified(p, code, k.toServer[0].msg.code, now))
  {
  }

  lemma {:induction false} CodeWasTaken(p: Primitives, run: seq<Step>, c: ConnId, id: SessionId) returns (j: nat)
    requires Exec(p, run).Some? && c in Exec(p, run).value.conns
    requires var k := Exec(p, run).value.conns[c]; id in k.ids || k.session == Some(id)
    ensures TakesCode(p, run, j, c, id)
  {
    var n := |run| - 1;
    assert run != [];
    SessionStep(p, Exec(p, run[..n]).value, run[n], c, id);
    var k := Exec(p, run[..n]).value.conns[c];
    if id in k.ids || k.session == Some(id) {
      j := CodeWasTaken(p, run[..n], c, id);
      assert run[..n][..j] == run[..j];
    } else {
      j := n;
    }
  }

  /** Every entry of the session map, in every run and whoever the peers are, was
      preceded on its own connection by a key exchange and, later, by a request
      sealed under the connection's key: at that moment a code was stored and not
      past its expiry, and the hash of the code in the request was the stored one. */
  lemma EntryIsEarned(p: Primitives, run: seq<Step>, id: SessionId) returns (i: nat, j: nat)
    requires Sound(p) && Exec(p, run).Some? && id in Exec(p, run).value.sessions
    ensures i < j
    ensures TakesKey(p, run, i, Exec(p, run).value.sessions[id].conn)
    ensures TakesCode(p, run, j, Exec(p, run).value.sessions[id].conn, id)
    ensures var s := Exec(p, run[..j]).value;
            var k := s.conns[Exec(p, run).value.sessions[id].conn];
            && k.crypto.Some? && k.toServer != [] && k.toServer[0].mode == Sealed(k.crypto.value)
            && k.toServer[0].msg.AuthRequest? && s.code.Some? && run[j].event.now <= s.code.value.expiresAt
            && p.sha256(k.toServer[0].msg.code) == s.code.value.hashed
  {
    RunKeepsInv(p, run);
    assert EntryReg(Exec(p, run).value, id);
    var c := Exec(p, run).value.sessions[id].conn;
    j := CodeWasTaken(p, run, c, id);
    i := KeyWasTaken(p, run[..j], c);
    assert run[..j][..i] == run[..i];
  }
}
