/** The dispatch inside the reader loop of handle_client in src/server/server.rs:
    the loop over bytes run with the server's own handler, and the proof that it
    does what the frame-level steps of the protocol do. */
module ServerDispatch {
  import opened Basics
  import opened Wire
  import opened Protocol
  import ProtocolRuns
  import ProtocolSafety
  import F = Framing

  /** What the surroundings supply while one message is handled: the drawn secret,
      the time, the drawn session id, the stored access code, and whether the input
      handler fails. */
  datatype Inputs = Inputs(secret: nat, now: nat, id: SessionId, code: Option<AccessCode>, inputFails: bool)

  type Env = nat -> Inputs

  /** The handler's variables and the number of messages it has been given. */
  datatype Served = Served(conn: Conn, count: nat)

  /** The rest of one pass after its first visible effect. */
  function Settle(c: Conn): (r: Conn)
    ensures r.toServer == c.toServer && r.honest == c.honest
  {
    match c.server
    case StoringKey(key) => c.(server := Reading, crypto := Some(key))
    case Registering =>
      if c.session.Some? then Answer(c.(ids := c.ids + {c.session.value}), true) else c
    case Answering(success) => Answer(c, success)
    case _ => c
  }

  function Answer(c: Conn, success: bool): Conn {
    c.(server := Reading, answered := true, toClient := c.toClient + [Frame(ServerMode(c), AuthResponse(success))])
  }

  lemma TakesOne(p: Primitives, c: Conn, i: Inputs)
    requires c.toServer != []
    ensures var n := ServerTakes(p, i.code, c, i.secret, i.now, i.id);
            n.toServer == c.toServer[1..] && n.honest == c.honest
  {
    hide Verified, AgreedKey, ServerMode;
  }

  /** One whole pass of the inner loop over the first frame in flight. */
  function ServeOne(p: Primitives, c: Conn, i: Inputs): (r: Conn)
    requires c.toServer != []
    ensures r.toServer == c.toServer[1..] && r.honest == c.honest
  {
    TakesOne(p, c, i);
    var n := Settle(ServerTakes(p, i.code, c, i.secret, i.now, i.id));
    if c.toServer[0].msg == Input && i.inputFails then n.(server := Errored) else n
  }

  /** The handler of one payload: decrypt if there is a key, parse, dispatch. */
  function Handle(p: Primitives, env: Env, st: Served, payload: seq<byte>): (Served, F.Outcome) {
    match ReadAs(p, ServerMode(st.conn), payload)
    case None => (Served(st.conn.(server := Errored), st.count + 1), F.Abort)
    case Some(m) =>
      var c := ServeOne(p, st.conn.(toServer := [Frame(ServerMode(st.conn), m)]), env(st.count));
      (Served(c, st.count + 1), if c.server == Errored then F.Abort else if m == Disconnect then F.Leave else F.Continue)
  }

  function Handler(p: Primitives, env: Env): F.Handler<Served> { (st, payload) => Handle(p, env, st, payload) }

  // ---------- Which payloads stop the loop ----------

  /** The payload makes handle_client return an error. */
  predicate Rejected(p: Primitives, env: Env, st: Served, payload: seq<byte>) {
    match ReadAs(p, ServerMode(st.conn), payload)
    case None => true
    case Some(KeyExchange(theirs)) => |theirs| != PUBLIC_KEY
    case Some(AuthRequest(_)) => st.conn.crypto.None?
    case Some(Input) => env(st.count).inputFails
    case Some(_) => false
  }

  predicate Says(p: Primitives, st: Served, payload: seq<byte>, m: Msg) {
    ReadAs(p, ServerMode(st.conn), payload) == Some(m)
  }

  /** The loop aborts exactly on a rejected payload, is left exactly on Disconnect,
      and otherwise the handler is ready for the next message. */
  lemma OutcomeExact(p: Primitives, env: Env, st: Served, payload: seq<byte>)
    requires st.conn.server == Reading
    ensures var (next, outcome) := Handle(p, env, st, payload);
            && (outcome == F.Abort <==> Rejected(p, env, st, payload))
            && (outcome == F.Leave <==> Says(p, st, payload, Disconnect))
            && (outcome != F.Abort ==> next.conn.server == Reading)
  {
    hide Verified, AgreedKey, ReadAs;
  }

  /** The state in which the handler is given payload i. */
  function At(p: Primitives, env: Env, st: Served, ps: seq<seq<byte>>, i: nat): Served
    requires i <= |ps|
  {
    F.Fold(Handler(p, env), st, ps[..i])
  }

  lemma OutcomeAt(p: Primitives, env: Env, st: Served, ps: seq<seq<byte>>, i: nat)
    requires i < |ps| && At(p, env, st, ps, i).conn.server == Reading
    ensures F.OutcomeOn(Handler(p, env), st, ps, i) == F.Continue <==>
            !Rejected(p, env, At(p, env, st, ps, i), ps[i]) && !Says(p, At(p, env, st, ps, i), ps[i], Disconnect)
    ensures F.OutcomeOn(Handler(p, env), st, ps, i) == F.Continue ==> At(p, env, st, ps, i + 1).conn.server == Reading
  {
    F.TakeOne(Handler(p, env), st, ps, i);
    OutcomeExact(p, env, At(p, env, st, ps, i), ps[i]);
    hide Handle, Rejected, Says;
  }

  ghost predicate NothingStopsBeforeEnd(p: Primitives, env: Env, st: Served, ps: seq<seq<byte>>) {
    forall i: nat | i + 1 < |ps| ::
      !Rejected(p, env, At(p, env, st, ps, i), ps[i]) && !Says(p, At(p, env, st, ps, i), ps[i], Disconnect)
  }

  lemma {:induction false} ReadingUntilStop(p: Primitives, env: Env, st: Served, ps: seq<seq<byte>>, i: nat)
    requires st.conn.server == Reading && i <= |ps|
    requires forall j: nat | j < i :: F.OutcomeOn(Handler(p, env), st, ps, j) == F.Continue
    ensures At(p, env, st, ps, i).conn.server == Reading
  {
    if i > 0 {
      hide Handler, At;
      ReadingUntilStop(p, env, st, ps, i - 1);
      OutcomeAt(p, env, st, ps, i - 1);
    }
  }

  lemma {:induction false} ContinuesBefore(p: Primitives, env: Env, st: Served, ps: seq<seq<byte>>, i: nat)
    requires st.conn.server == Reading && NothingStopsBeforeEnd(p, env, st, ps) && i + 1 <= |ps|
    ensures forall j: nat | j < i :: F.OutcomeOn(Handler(p, env), st, ps, j) == F.Continue
  {
    hide Handler, At, Rejected, Says;
    if i > 0 {
      ContinuesBefore(p, env, st, ps, i - 1);
      ReadingUntilStop(p, env, st, ps, i - 1);
      OutcomeAt(p, env, st, ps, i - 1);
    }
  }

  /** The server handles every payload under every cutting of the stream into reads
      if and only if no payload but the last is rejected or says Disconnect. */
  lemma DispatchHandlesAllIff(p: Primitives, env: Env, st: Served, ps: seq<seq<byte>>)
    requires st.conn.server == Reading && F.AllShort(ps)
    ensures (forall chunks: seq<seq<byte>> | F.NonEmptyChunks(chunks) && Flatten(chunks) == F.EncodeAll(ps) ::
               F.ReadLoop(Handler(p, env), F.Start(st), chunks).taken == ps)
            <==> NothingStopsBeforeEnd(p, env, st, ps)
  {
    hide Handler, At, Rejected, Says;
    F.ServerHandlesAllIff(Handler(p, env), st, ps);
    StopsIff(p, env, st, ps);
    hide F.ReadLoop, F.EncodeAll, Flatten, NothingStopsBeforeEnd, F.StopsOnlyAtEnd;
  }

  lemma StopsIff(p: Primitives, env: Env, st: Served, ps: seq<seq<byte>>)
    requires st.conn.server == Reading
    ensures F.StopsOnlyAtEnd(Handler(p, env), st, ps) <==> NothingStopsBeforeEnd(p, env, st, ps)
  {
    hide Handler, At, Rejected, Says;
    if F.StopsOnlyAtEnd(Handler(p, env), st, ps) {
      forall i: nat | i + 1 < |ps|
        ensures !Rejected(p, env, At(p, env, st, ps, i), ps[i]) && !Says(p, At(p, env, st, ps, i), ps[i], Disconnect)
      {
        ReadingUntilStop(p, env, st, ps, i);
        OutcomeAt(p, env, st, ps, i);
      }
    }
    if NothingStopsBeforeEnd(p, env, st, ps) && ps != [] {
      ContinuesBefore(p, env, st, ps, |ps| - 1);
    }
  }

  // ---------- Disconnect followed by an input ----------

  /** The framed bytes of Disconnect and of an input message, under ToyPrimitives. */
  const DISCONNECT: seq<byte> := [0, 0, 0, 1, 8]
  const INPUT: seq<byte> := [0, 0, 0, 1, 9]

  function ToyHandler(): F.Handler<Served> {
    Handler(ToyPrimitives(), _ => Inputs(0, 0, 0, None, false))
  }

  /** In one read only the Disconnect is taken; in two reads both messages are. */
  lemma DisconnectThenInput()
    ensures var start := F.Start(Served(NewConn(false, 0), 0));
            && F.ReadLoop(ToyHandler(), start, [DISCONNECT + INPUT]).taken == [[8]]
            && F.ReadLoop(ToyHandler(), start, [DISCONNECT + INPUT]).buffer == INPUT
            && F.ReadLoop(ToyHandler(), start, [DISCONNECT, INPUT]).taken == [[8], [9]]
  {
    var st := Served(NewConn(false, 0), 0);
    InOneRead(st);
    InTwoReads(st);
  }

  lemma InOneRead(st: Served)
    requires st.conn.server == Reading && st.conn.crypto.None? && st.conn.toServer == []
    ensures F.ReadLoop(ToyHandler(), F.Start(st), [DISCONNECT + INPUT]) ==
            F.Loop(Served(st.conn, st.count + 1), INPUT, [[8]], false)
  {
    DisconnectLeaves(st, INPUT);
    OneRead(ToyHandler(), F.Start(st), DISCONNECT + INPUT);
  }

  lemma InTwoReads(st: Served)
    requires st.conn.server == Reading && st.conn.crypto.None? && st.conn.toServer == []
    ensures F.ReadLoop(ToyHandler(), F.Start(st), [DISCONNECT, INPUT]).taken == [[8], [9]]
  {
    hide ToyHandler, F.Dispatch;
    DisconnectLeaves(st, []);
    assert DISCONNECT + [] == DISCONNECT;
    InputTaken(Served(st.conn, st.count + 1));
    TwoReads(ToyHandler(), F.Start(st), DISCONNECT, INPUT);
  }

  lemma OneRead(step: F.Handler<Served>, l: F.Loop<Served>, c: seq<byte>)
    requires l.buffer == [] && c != [] && !l.aborted
    ensures F.ReadLoop(step, l, [c]) == F.Dispatch(step, l.(buffer := c))
  {
    assert [c][1..] == [] && [] + c == c;
    hide F.Dispatch;
  }

  lemma TwoReads(step: F.Handler<Served>, l: F.Loop<Served>, a: seq<byte>, b: seq<byte>)
    requires l.buffer == [] && a != [] && b != [] && !l.aborted
    requires var m := F.Dispatch(step, l.(buffer := a)); m.buffer == [] && !m.aborted
    ensures F.ReadLoop(step, l, [a, b]) == F.Dispatch(step, F.Dispatch(step, l.(buffer := a)).(buffer := b))
  {
    assert [a, b][1..] == [b] && [] + a == a;
    OneRead(step, F.Dispatch(step, l.(buffer := a)), b);
    hide F.Dispatch;
  }

  lemma OneByteFrame(tag: byte, rest: seq<byte>)
    ensures var b := [0, 0, 0, 1, tag] + rest;
            F.HasFrame(b) && F.FramePayload(b) == [tag] && F.AfterFrame(b) == rest
  {
    assert F.ReadLength([0, 0, 0, 1, tag] + rest) == 1;
  }

  lemma ToyHandles(st: Served)
    requires st.conn.server == Reading && st.conn.crypto.None? && st.conn.toServer == []
    ensures ToyHandler()(st, [8]) == (Served(st.conn, st.count + 1), F.Leave)
    ensures ToyHandler()(st, [9]) == (Served(st.conn, st.count + 1), F.Continue)
  {
    assert Says(ToyPrimitives(), st, [8], Disconnect) && Says(ToyPrimitives(), st, [9], Input);
    hide ReadAs;
    assert [Frame(Plain, Disconnect)][1..] == [] && [Frame(Plain, Input)][1..] == [];
  }

  lemma DisconnectLeaves(st: Served, rest: seq<byte>)
    requires st.conn.server == Reading && st.conn.crypto.None? && st.conn.toServer == []
    ensures F.Dispatch(ToyHandler(), F.Loop(st, DISCONNECT + rest, [], false)) ==
            F.Loop(Served(st.conn, st.count + 1), rest, [[8]], false)
  {
    hide ToyHandler, F.HasFrame, F.FramePayload, F.AfterFrame;
    OneByteFrame(8, rest);
    ToyHandles(st);
    assert [] + [[8]] == [[8]];
  }

  lemma InputTaken(st: Served)
    requires st.conn.server == Reading && st.conn.crypto.None? && st.conn.toServer == []
    ensures F.Dispatch(ToyHandler(), F.Loop(st, INPUT, [[8]], false)).taken == [[8], [9]]
  {
    OneByteFrame(9, []);
    assert INPUT + [] == INPUT && !F.HasFrame([]);
    hide ToyHandler, F.HasFrame, F.FramePayload, F.AfterFrame;
    ToyHandles(st);
    assert [[8]] + [[9]] == [[8], [9]];
  }

  // ---------- The bytes of a connection and the steps of the protocol ----------

  /** The connection after the first k frames in flight have been served. */
  function ServedBy(p: Primitives, env: Env, c: Conn, k: nat): (r: Conn)
    requires k <= |c.toServer|
    ensures r.toServer == c.toServer[k..] && r.honest == c.honest
  {
    if k == 0 then c
    else
      assert c.toServer[k - 1..][1..] == c.toServer[k..];
      ServeOne(p, ServedBy(p, env, c, k - 1), env(k - 1))
  }

  /** What is on the wire for the frames in flight, each under the nonce drawn for it. */
  function Payloads(p: Primitives, fs: seq<Frame>, nonces: nat -> seq<byte>): (ps: seq<seq<byte>>)
    ensures |ps| == |fs| && forall i | 0 <= i < |fs| :: ps[i] == PayloadOf(p, fs[i], nonces(i))
  {
    seq(|fs|, i requires 0 <= i < |fs| => PayloadOf(p, fs[i], nonces(i)))
  }

  /** A step the server takes for the connection, or a new access code. */
  predicate ServesOn(step: Step, id: ConnId) {
    match step
    case Local(c, e) => c == id && (e.ServerReads? || e.ServerStoresKey? || e.ServerAnswers? || e.ServerFails?)
    case Register(c) => c == id
    case SetCode(_) => true
    case _ => false
  }

  /** What serving leaves of a state: only this connection, the registry, the ids
      drawn and the access code change. */
  predicate ServedState(p: Primitives, s: State, id: ConnId, i: Inputs, t: State)
    requires id in s.conns && s.conns[id].toServer != []
  {
    t.conns == s.conns[id := ServeOne(p, s.conns[id], i)] && t.issued == s.issued[i.id := id]
  }

  lemma ThenLocally(p: Primitives, run: seq<Step>, id: ConnId, e: Event) returns (next: seq<Step>)
    requires Exec(p, run).Some? && id in Exec(p, run).value.conns
    requires !(e.ServerReads? && e.id in Exec(p, run).value.issued) && ServesOn(Local(id, e), id)
    requires LocalStep(p, Exec(p, run).value.code, Exec(p, run).value.conns[id], e).Some?
    ensures next == run + [Local(id, e)]
    ensures var s := Exec(p, run).value;
            Exec(p, next) == Some(s.(conns := s.conns[id := LocalStep(p, s.code, s.conns[id], e).value],
                                     issued := if e.ServerReads? then s.issued[e.id := id] else s.issued))
  {
    next := run + [Local(id, e)];
    ProtocolSafety.ExecSnoc(p, run, Local(id, e));
  }

  /** Steps of the protocol that serve the first frame in flight exactly as one
      pass of the loop does. */
  lemma ServeOneIsSteps(p: Primitives, run: seq<Step>, id: ConnId, i: Inputs) returns (next: seq<Step>)
    requires Exec(p, run).Some? && id in Exec(p, run).value.conns && i.id !in Exec(p, run).value.issued
    requires var c := Exec(p, run).value.conns[id]; c.server == Reading && c.toServer != []
    ensures run <= next && forall j | |run| <= j < |next| :: ServesOn(next[j], id)
    ensures Exec(p, next).Some? && ServedState(p, Exec(p, run).value, id, i, Exec(p, next).value)
  {
    hide Exec, ServerTakes, LocalStep, Settle, ServerMode;
    var s := Exec(p, run).value;
    var c := s.conns[id];
    var n := ServerTakes(p, i.code, c, i.secret, i.now, i.id);
    ReadStep(p, c, i);
    SettleSteps(p, i.code, n);
    ProtocolSafety.ExecSnoc(p, run, SetCode(i.code));
    next := ThenLocally(p, run + [SetCode(i.code)], id, ServerReads(i.secret, i.now, i.id));
    assert Exec(p, next).value.conns[id] == n;
    TakenPhase(p, i.code, c, i.secret, i.now, i.id);
    if n.server.StoringKey? {
      next := ThenLocally(p, next, id, ServerStoresKey);
    } else if n.server == Registering {
      ProtocolSafety.ExecSnoc(p, next, Register(id));
      next := ThenLocally(p, next + [Register(id)], id, ServerAnswers);
    } else if n.server.Answering? {
      next := ThenLocally(p, next, id, ServerAnswers);
    } else if c.toServer[0].msg == Input && i.inputFails && n.server == Reading {
      next := ThenLocally(p, next, id, ServerFails);
    }
  }

  lemma ReadStep(p: Primitives, c: Conn, i: Inputs)
    requires c.server == Reading && c.toServer != []
    ensures LocalStep(p, i.code, c, ServerReads(i.secret, i.now, i.id)) ==
            Some(ServerTakes(p, i.code, c, i.secret, i.now, i.id))
  {
    hide ServerTakes;
  }

  /** What is left of a pass, step by step. */
  lemma SettleSteps(p: Primitives, code: Option<AccessCode>, n: Conn)
    ensures n.server.StoringKey? ==> LocalStep(p, code, n, ServerStoresKey) == Some(Settle(n))
    ensures n.server == Registering && n.session.Some? ==>
              LocalStep(p, code, n.(server := Answering(true), ids := n.ids + {n.session.value}), ServerAnswers) == Some(Settle(n))
    ensures n.server.Answering? ==> LocalStep(p, code, n, ServerAnswers) == Some(Settle(n))
    ensures n.server == Reading ==> LocalStep(p, code, n, ServerFails) == Some(n.(server := Errored)) && Settle(n) == n
    ensures n.server == Errored ==> Settle(n) == n
  {
    hide ServerTakes, ClientTakes;
  }

  lemma TakenPhase(p: Primitives, code: Option<AccessCode>, c: Conn, secret: nat, now: nat, id: SessionId)
    requires c.server == Reading && c.toServer != []
    ensures var n := ServerTakes(p, code, c, secret, now, id);
            && (n.server == Registering ==> n.session.Some? && n.crypto.Some?)
            && (c.toServer[0].msg == Input ==> n.server in {Reading, Errored}) && n.server != Cleaned
  {
  }

  /** A connection whose client follows connect is only ever failed by an input. */
  lemma HonestServed(p: Primitives, c: Conn, i: Inputs)
    requires Sound(p) && c.honest && ConnInv(p, c) && c.server == Reading && c.toServer != []
    ensures ServeOne(p, c, i).server == if FailingInput(c.toServer[0], i) then Errored else Reading
  {
    HonestHead(p, c);
    hide ConnInv, Sound;
    AcceptedServed(p, c, i);
  }

  /** The first frame in flight is one the server accepts in its present state. */
  predicate Accepted(c: Conn)
    requires c.toServer != []
  {
    var f := c.toServer[0];
    && f.mode == ServerMode(c) && (f.msg.KeyExchange? ==> |f.msg.publicKey| == PUBLIC_KEY)
    && (f.msg.AuthRequest? ==> c.crypto.Some?)
  }

  lemma HonestHead(p: Primitives, c: Conn)
    requires Sound(p) && c.honest && ConnInv(p, c) && c.server == Reading && c.toServer != []
    ensures Accepted(c)
  {
    assert c.toServer[0] in c.toServer;
    assert c.client == AwaitAck ==> c.toServer[0].msg == KeyExchange(p.publicOf(c.secret));
    hide AuthWindow;
  }

  lemma AcceptedServed(p: Primitives, c: Conn, i: Inputs)
    requires c.server == Reading && c.toServer != [] && Accepted(c)
    ensures ServeOne(p, c, i).server == if FailingInput(c.toServer[0], i) then Errored else Reading
  {
    hide Verified, AgreedKey;
  }

  predicate FailingInput(f: Frame, i: Inputs) { f.msg == Input && i.inputFails }

  /** None of the first k frames is an input that fails. */
  predicate Survives(fs: seq<Frame>, env: Env, k: nat)
    requires k <= |fs|
  {
    forall i: nat | i < k :: !FailingInput(fs[i], env(i))
  }

  /** No frame but the last ends the loop. */
  predicate GoesOn(fs: seq<Frame>, env: Env) {
    forall i: nat | i + 1 < |fs| :: fs[i].msg != Disconnect && !FailingInput(fs[i], env(i))
  }

  /** The first n session ids are fresh in s and distinct. */
  predicate FreshIds(s: State, env: Env, n: nat) {
    && (forall i: nat | i < n :: env(i).id !in s.issued)
    && (forall i: nat, j: nat | i < j < n :: env(i).id != env(j).id)
  }

  /** A connection of the run whose handler is about to read, with ids drawn afresh
      for what is in flight. */
  predicate ReadyToServe(p: Primitives, run: seq<Step>, id: ConnId, env: Env) {
    && Exec(p, run).Some? && id in Exec(p, run).value.conns
    && var c := Exec(p, run).value.conns[id];
       c.honest && c.server == Reading && FreshIds(Exec(p, run).value, env, |c.toServer|)
  }

  function ConnOf(p: Primitives, run: seq<Step>, id: ConnId): Conn
    requires Exec(p, run).Some? && id in Exec(p, run).value.conns
  {
    Exec(p, run).value.conns[id]
  }

  /** The protocol serves the first k frames in flight, given that none before the
      last of them fails. */
  lemma {:induction false} ServedByIsRun(p: Primitives, run: seq<Step>, id: ConnId, env: Env, k: nat) returns (next: seq<Step>)
    requires Sound(p) && ReadyToServe(p, run, id, env) && k <= |ConnOf(p, run, id).toServer|
    requires k > 0 ==> Survives(ConnOf(p, run, id).toServer, env, k - 1)
    ensures run <= next && forall j | |run| <= j < |next| :: ServesOn(next[j], id)
    ensures Exec(p, next).Some? && id in Exec(p, next).value.conns
    ensures var c := ConnOf(p, run, id);
            && ConnOf(p, next, id) == ServedBy(p, env, c, k)
            && (Survives(c.toServer, env, k) ==> ConnOf(p, next, id).server == Reading)
            && (forall i: nat | k <= i < |c.toServer| :: env(i).id !in Exec(p, next).value.issued)
  {
    hide Exec, ServeOne, ConnInv, Sound, FailingInput;
    var c := ConnOf(p, run, id);
    if k == 0 {
      next := run;
    } else {
      var mid := ServedByIsRun(p, run, id, env, k - 1);
      var t := Exec(p, mid).value;
      assert t.conns[id].toServer[0] == c.toServer[k - 1];
      next := ServeOneIsSteps(p, mid, id, env(k - 1));
      ProtocolRuns.RunKeepsInv(p, mid);
      HonestServed(p, t.conns[id], env(k - 1));
    }
  }

  /** The handler does to a payload what serving does to the frame it carries. */
  lemma HandleServes(p: Primitives, env: Env, c: Conn, n: nat, payload: seq<byte>)
    requires c.server == Reading && c.toServer != [] && c.toServer[0].mode == ServerMode(c)
    requires ReadAs(p, ServerMode(c), payload) == Some(c.toServer[0].msg)
    ensures Handle(p, env, Served(c.(toServer := []), n), payload) ==
            (Served(ServeOne(p, c, env(n)).(toServer := []), n + 1),
             if ServeOne(p, c, env(n)).server == Errored then F.Abort
             else if c.toServer[0].msg == Disconnect then F.Leave
             else F.Continue)
  {
    hide ReadAs;
    var alone := c.(toServer := []).(toServer := [c.toServer[0]]);
    assert alone.toServer[1..] == [];
    SameServing(p, c, env(n));
  }

  lemma SameServing(p: Primitives, c: Conn, i: Inputs)
    requires c.toServer != []
    ensures ServeOne(p, c.(toServer := [c.toServer[0]]), i) == ServeOne(p, c, i).(toServer := [])
  {
    SameTaken(p, c, i);
    SameSettled(ServerTakes(p, i.code, c, i.secret, i.now, i.id));
    hide ServerTakes, Settle;
  }

  lemma SameTaken(p: Primitives, c: Conn, i: Inputs)
    requires c.toServer != []
    ensures ServerTakes(p, i.code, c.(toServer := [c.toServer[0]]), i.secret, i.now, i.id) ==
            ServerTakes(p, i.code, c, i.secret, i.now, i.id).(toServer := [])
  {
    hide ServerTakes;
    if c.toServer[0].mode != ServerMode(c) {
      SameWrongMode(p, c, i);
    } else if c.toServer[0].msg.KeyExchange? {
      SameKeyTaken(p, c, i);
    } else if c.toServer[0].msg.AuthRequest? {
      SameAuthTaken(p, c, i);
    } else {
      SameOtherTaken(p, c, i);
    }
  }

  lemma SameWrongMode(p: Primitives, c: Conn, i: Inputs)
    requires c.toServer != [] && c.toServer[0].mode != ServerMode(c)
    ensures ServerTakes(p, i.code, c.(toServer := [c.toServer[0]]), i.secret, i.now, i.id) ==
            ServerTakes(p, i.code, c, i.secret, i.now, i.id).(toServer := [])
  {
    var alone := c.(toServer := [c.toServer[0]]);
    assert alone.toServer[1..] == [] && ServerMode(alone) == ServerMode(c);
    hide ServerMode;
  }

  lemma SameKeyTaken(p: Primitives, c: Conn, i: Inputs)
    requires c.toServer != [] && c.toServer[0].mode == ServerMode(c)
    requires c.toServer[0].msg.KeyExchange?
    ensures ServerTakes(p, i.code, c.(toServer := [c.toServer[0]]), i.secret, i.now, i.id) ==
            ServerTakes(p, i.code, c, i.secret, i.now, i.id).(toServer := [])
  {
    var alone := c.(toServer := [c.toServer[0]]);
    assert alone.toServer[1..] == [] && ServerMode(alone) == ServerMode(c);
    hide AgreedKey, ServerMode;
  }

  lemma SameAuthTaken(p: Primitives, c: Conn, i: Inputs)
    requires c.toServer != [] && c.toServer[0].mode == ServerMode(c)
    requires c.toServer[0].msg.AuthRequest?
    ensures ServerTakes(p, i.code, c.(toServer := [c.toServer[0]]), i.secret, i.now, i.id) ==
            ServerTakes(p, i.code, c, i.secret, i.now, i.id).(toServer := [])
  {
    var alone := c.(toServer := [c.toServer[0]]);
    assert alone.toServer[1..] == [] && ServerMode(alone) == ServerMode(c);
    hide Verified, ServerMode;
  }

  lemma SameOtherTaken(p: Primitives, c: Conn, i: Inputs)
    requires c.toServer != [] && c.toServer[0].mode == ServerMode(c)
    requires !c.toServer[0].msg.KeyExchange? && !c.toServer[0].msg.AuthRequest?
    ensures ServerTakes(p, i.code, c.(toServer := [c.toServer[0]]), i.secret, i.now, i.id) ==
            ServerTakes(p, i.code, c, i.secret, i.now, i.id).(toServer := [])
  {
    var alone := c.(toServer := [c.toServer[0]]);
    assert alone.toServer[1..] == [] && ServerMode(alone) == ServerMode(c);
    SameReply(c.(toServer := c.toServer[1..]));
    hide Reply, ServerMode;
  }

  lemma SameReply(c: Conn)
    ensures Reply(c.(toServer := [])) == Reply(c).(toServer := [])
  {
  }

  lemma SameSettled(c: Conn)
    ensures Settle(c.(toServer := [])) == Settle(c).(toServer := [])
  {
    hide Answer;
    match c.server {
      case Registering => SameAnswer(c.(ids := if c.session.Some? then c.ids + {c.session.value} else c.ids), true);
      case Answering(success) => SameAnswer(c, success);
      case _ =>
    }
  }

  lemma SameAnswer(c: Conn, success: bool)
    ensures Answer(c.(toServer := []), success) == Answer(c, success).(toServer := [])
  {
  }

  /** Serving one more frame, from bytes: the payload is read in the mode it was
      written in, so only a failing input aborts and only Disconnect leaves. */
  lemma PayloadServes(p: Primitives, run: seq<Step>, id: ConnId, env: Env, nonces: nat -> seq<byte>, k: nat)
    requires Sound(p) && ReadyToServe(p, run, id, env) && forall i :: |nonces(i)| == NONCE
    requires k < |ConnOf(p, run, id).toServer| && Survives(ConnOf(p, run, id).toServer, env, k)
    ensures var c := ConnOf(p, run, id);
            Handle(p, env, Served(ServedBy(p, env, c, k).(toServer := []), k), Payloads(p, c.toServer, nonces)[k]) ==
            (Served(ServedBy(p, env, c, k + 1).(toServer := []), k + 1), OutcomeOfFrame(c.toServer[k], env(k)))
  {
    hide Exec, ServeOne, Sound, Handle, ReadAs, PayloadOf, ServerMode, ConnInv, FailingInput;
    var c := ConnOf(p, run, id);
    var here := ServedBy(p, env, c, k);
    var next := ServedByIsRun(p, run, id, env, k);
    ProtocolSafety.ModesAgree(p, next, id, nonces(k));
    assert here.toServer[0] == c.toServer[k];
    ProtocolRuns.RunKeepsInv(p, next);
    HonestServed(p, here, env(k));
    HandleServes(p, env, here, k, Payloads(p, c.toServer, nonces)[k]);
  }

  function OutcomeOfFrame(f: Frame, i: Inputs): F.Outcome {
    if FailingInput(f, i) then F.Abort else if f.msg == Disconnect then F.Leave else F.Continue
  }

  /** The handler's state after the first k payloads is the connection served so far. */
  lemma {:induction false} FoldServes(p: Primitives, run: seq<Step>, id: ConnId, env: Env, nonces: nat -> seq<byte>, k: nat)
    requires Sound(p) && ReadyToServe(p, run, id, env) && forall i :: |nonces(i)| == NONCE
    requires k <= |ConnOf(p, run, id).toServer| && (k > 0 ==> Survives(ConnOf(p, run, id).toServer, env, k - 1))
    ensures var c := ConnOf(p, run, id);
            At(p, env, Served(c.(toServer := []), 0), Payloads(p, c.toServer, nonces), k) ==
            Served(ServedBy(p, env, c, k).(toServer := []), k)
  {
    var c := ConnOf(p, run, id);
    hide Exec, ServedBy, Sound, Handle, Payloads, F.Fold, ReadyToServe, FailingInput, ConnOf;
    if k > 0 {
      FoldServes(p, run, id, env, nonces, k - 1);
      PayloadServes(p, run, id, env, nonces, k - 1);
      F.TakeOne(Handler(p, env), Served(c.(toServer := []), 0), Payloads(p, c.toServer, nonces), k - 1);
    } else {
      NoneServed(p, env, c, Payloads(p, c.toServer, nonces));
    }
  }

  lemma NoneServed(p: Primitives, env: Env, c: Conn, ps: seq<seq<byte>>)
    ensures At(p, env, Served(c.(toServer := []), 0), ps, 0) == Served(ServedBy(p, env, c, 0).(toServer := []), 0)
  {
  }

  /** What the handler decides on payload k. */
  lemma OutcomeServes(p: Primitives, run: seq<Step>, id: ConnId, env: Env, nonces: nat -> seq<byte>, k: nat)
    requires Sound(p) && ReadyToServe(p, run, id, env) && forall i :: |nonces(i)| == NONCE
    requires k < |ConnOf(p, run, id).toServer| && Survives(ConnOf(p, run, id).toServer, env, k)
    ensures var c := ConnOf(p, run, id);
            F.OutcomeOn(Handler(p, env), Served(c.(toServer := []), 0), Payloads(p, c.toServer, nonces), k) ==
            OutcomeOfFrame(c.toServer[k], env(k))
  {
    hide Exec, ServedBy, Sound, Handle, Payloads, F.Fold, ReadyToServe, ConnOf, OutcomeOfFrame, FailingInput;
    FoldServes(p, run, id, env, nonces, k);
    PayloadServes(p, run, id, env, nonces, k);
  }

  lemma NoneStops(p: Primitives, run: seq<Step>, id: ConnId, env: Env, nonces: nat -> seq<byte>)
    requires Sound(p) && ReadyToServe(p, run, id, env) && forall i :: |nonces(i)| == NONCE
    requires GoesOn(ConnOf(p, run, id).toServer, env)
    ensures var c := ConnOf(p, run, id);
            F.StopsOnlyAtEnd(Handler(p, env), Served(c.(toServer := []), 0), Payloads(p, c.toServer, nonces))
  {
    var c := ConnOf(p, run, id);
    hide Exec, Sound, Handler, Payloads, ReadyToServe, FailingInput, ConnOf, F.OutcomeOn;
    var st, ps := Served(c.(toServer := []), 0), Payloads(p, c.toServer, nonces);
    forall i: nat | i + 1 < |ps|
      ensures F.OutcomeOn(Handler(p, env), st, ps, i) == F.Continue
    {
      OutcomeServes(p, run, id, env, nonces, i);
    }
  }

  /** If only the last of m payloads taken may have aborted, only the last of m
      frames may be an input that fails. */
  lemma {:induction false} TakenSurvives(p: Primitives, run: seq<Step>, id: ConnId, env: Env, nonces: nat -> seq<byte>, m: nat, k: nat)
    requires Sound(p) && ReadyToServe(p, run, id, env) && forall i :: |nonces(i)| == NONCE
    requires k < m <= |ConnOf(p, run, id).toServer|
    requires var c := ConnOf(p, run, id);
             forall i: nat | i + 1 < m ::
               F.OutcomeOn(Handler(p, env), Served(c.(toServer := []), 0), Payloads(p, c.toServer, nonces), i) != F.Abort
    ensures Survives(ConnOf(p, run, id).toServer, env, k)
  {
    hide Exec, Sound, Handler, Payloads, ReadyToServe, FailingInput, ConnOf, F.OutcomeOn;
    if k > 0 {
      TakenSurvives(p, run, id, env, nonces, m, k - 1);
      OutcomeServes(p, run, id, env, nonces, k - 1);
    }
  }

  /** The composition. Take any run and a connection whose client follows connect.
      Whatever nonces its frames in flight were sealed under, however much of their
      bytes has arrived and however it is cut into reads, the byte loop takes the
      payloads of the first m of them, and leaves the connection in the state to
      which steps of the protocol lead, all of them the server's for that
      connection, with the other frames still in flight. When all bytes have arrived
      and no frame but the last ends the loop, it has taken them all. */
  lemma BytesFollowProtocol(
    p: Primitives, run: seq<Step>, id: ConnId, env: Env, nonces: nat -> seq<byte>, chunks: seq<seq<byte>>)
    returns (next: seq<Step>)
    requires Sound(p) && ReadyToServe(p, run, id, env) && forall i :: |nonces(i)| == NONCE
    requires var ps := Payloads(p, ConnOf(p, run, id).toServer, nonces);
             F.AllShort(ps) && Flatten(chunks) <= F.EncodeAll(ps)
    ensures run <= next && forall j | |run| <= j < |next| :: ServesOn(next[j], id)
    ensures Exec(p, next).Some? && id in Exec(p, next).value.conns
    ensures var c := ConnOf(p, run, id);
            var ps := Payloads(p, c.toServer, nonces);
            var loop := F.ReadLoop(Handler(p, env), F.Start(Served(c.(toServer := []), 0)), chunks);
            var m := |loop.taken|;
            && loop.taken <= ps
            && ConnOf(p, next, id).toServer == c.toServer[m..]
            && ConnOf(p, next, id).(toServer := []) == loop.state.conn
            && (GoesOn(c.toServer, env) && F.NonEmptyChunks(chunks) && Flatten(chunks) == F.EncodeAll(ps) ==> m == |ps|)
  {
    var c := ConnOf(p, run, id);
    hide Exec, Sound, Handler, ConnOf, ReadyToServe, Payloads, F.EncodeAll, F.ReadLoop, Flatten, F.AllShort, GoesOn;
    var st, ps := Served(c.(toServer := []), 0), Payloads(p, c.toServer, nonces);
    var m := TakenByLoop(p, run, id, env, nonces, chunks);
    next := ServedByIsRun(p, run, id, env, m);
    FoldServes(p, run, id, env, nonces, m);
    if GoesOn(c.toServer, env) && F.NonEmptyChunks(chunks) && Flatten(chunks) == F.EncodeAll(ps) {
      NoneStops(p, run, id, env, nonces);
      LoopEmpties(Handler(p, env), st, ps, chunks);
    }
  }

  /** How many payloads the loop takes, and its state in terms of the handler's. */
  lemma TakenByLoop(p: Primitives, run: seq<Step>, id: ConnId, env: Env, nonces: nat -> seq<byte>, chunks: seq<seq<byte>>)
    returns (m: nat)
    requires Sound(p) && ReadyToServe(p, run, id, env) && forall i :: |nonces(i)| == NONCE
    requires var ps := Payloads(p, ConnOf(p, run, id).toServer, nonces);
             F.AllShort(ps) && Flatten(chunks) <= F.EncodeAll(ps)
    ensures m <= |ConnOf(p, run, id).toServer| && (m > 0 ==> Survives(ConnOf(p, run, id).toServer, env, m - 1))
    ensures var c := ConnOf(p, run, id);
            var st, ps := Served(c.(toServer := []), 0), Payloads(p, c.toServer, nonces);
            var loop := F.ReadLoop(Handler(p, env), F.Start(st), chunks);
            loop.taken == ps[..m] && loop.state == At(p, env, st, ps, m)
  {
    var c := ConnOf(p, run, id);
    hide Exec, Sound, Handler, ConnOf, ReadyToServe, Payloads, F.EncodeAll, F.ReadLoop, Flatten, F.AllShort, F.Fold, Survives;
    var st, ps := Served(c.(toServer := []), 0), Payloads(p, c.toServer, nonces);
    var loop := F.ReadLoop(Handler(p, env), F.Start(st), chunks);
    F.LoopTakesPrefix(Handler(p, env), st, ps, chunks);
    m := |loop.taken|;
    StartAbortsLast(Handler(p, env), st);
    F.LoopAbortsLast(Handler(p, env), st, F.Start(st), chunks);
    assert loop.taken == ps[..m];
    if m > 0 {
      forall i: nat | i + 1 < m
        ensures F.OutcomeOn(Handler(p, env), st, ps, i) != F.Abort
      {
        assert loop.taken[..i] == ps[..i] && loop.taken[i] == ps[i];
        assert F.OutcomeOn(Handler(p, env), st, loop.taken, i) == F.OutcomeOn(Handler(p, env), st, ps, i);
      }
      TakenSurvives(p, run, id, env, nonces, m, m - 1);
    }
  }

  lemma StartAbortsLast(step: F.Handler<Served>, st: Served)
    ensures F.AbortsLast(step, st, F.Start(st))
  {
  }

  lemma LoopEmpties(step: F.Handler<Served>, st: Served, ps: seq<seq<byte>>, chunks: seq<seq<byte>>)
    requires F.AllShort(ps) && F.NonEmptyChunks(chunks) && Flatten(chunks) == F.EncodeAll(ps)
    requires F.StopsOnlyAtEnd(step, st, ps)
    ensures F.ReadLoop(step, F.Start(st), chunks).taken == ps && F.ReadLoop(step, F.Start(st), chunks).buffer == []
  {
    assert ps[0..] == ps && ps[..0] == [];
    assert [] + Flatten(chunks) == F.EncodeAll(ps[0..]);
    F.LoopWithin(step, st, ps, 0, [], chunks);
  }
}
