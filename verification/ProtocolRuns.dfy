/** The invariant of the whole system, kept by every step and so by every run. */
module ProtocolRuns {
  import opened Basics
  import opened Wire
  import opened Protocol

  // ---------- Global invariant ----------

  /** How the local session_id relates to the ids registered. */
  predicate SessionPhase(k: Conn) {
    && (k.server == Registering ==> k.session.Some? && k.session.value !in k.ids)
    && (k.server != Registering && k.server != Errored && k.session.Some? ==> k.session.value in k.ids)
    && (k.session.None? ==> k.ids == {})
    && (k.ids != {} || k.session.Some? ==> k.crypto.Some?)
  }

  /** Every id this connection registered is in the map, except the one its cleanup removed. */
  predicate ConnReg(s: State, c: ConnId)
    requires c in s.conns
  {
    var k := s.conns[c];
    && SessionPhase(k)
    && (k.session.Some? ==> k.session.value in s.issued && s.issued[k.session.value] == c)
    && (forall id | id in k.ids ::
          && id in s.issued && s.issued[id] == c
          && if k.server == Cleaned && k.session == Some(id) then id !in s.sessions
             else id in s.sessions && s.sessions[id].conn == c)
  }

  predicate EntryReg(s: State, id: SessionId)
    requires id in s.sessions
  {
    var Session(c, key) := s.sessions[id];
    && c in s.conns && id in s.conns[c].ids
    && (s.conns[c].honest ==> s.conns[c].crypto == Some(key))
  }

  ghost predicate Inv(p: Primitives, s: State) {
    && (forall c | c in s.conns :: ConnReg(s, c) && (s.conns[c].honest ==> ConnInv(p, s.conns[c])))
    && (forall id | id in s.sessions :: EntryReg(s, id))
  }

  // ---------- Local steps ----------

  /** What a local step leaves alone. */
  predicate Frames(k: Conn, n: Conn, e: Event) {
    && n.honest == k.honest && n.ids == k.ids
    && (n.session == k.session || (e.ServerReads? && n.server == Registering && n.session == Some(e.id)))
    && (n.crypto == k.crypto || (k.server.StoringKey? && n.crypto == Some(k.server.key)))
    && (n.server == k.server || (n.server != Cleaned && k.server != Cleaned && k.server != Errored))
    && (n.server == Registering && n.server != k.server ==>
          k.crypto.Some? && e.ServerReads? && n.session == Some(e.id))
    && (k.server == Registering && n.server != k.server ==> n.server == Errored)
  }

  lemma ServerTakesFrames(p: Primitives, code: Option<AccessCode>, k: Conn, secret: nat, now: nat, id: SessionId)
    requires k.server == Reading && k.toServer != []
    ensures Frames(k, ServerTakes(p, code, k, secret, now, id), ServerReads(secret, now, id))
  {
    var f := k.toServer[0];
    if f.mode == ServerMode(k) {
      match f.msg {
        case KeyExchange(theirs) =>
        case AuthRequest(given) =>
        case _ =>
      }
    }
  }

  lemma LocalFrame(p: Primitives, code: Option<AccessCode>, k: Conn, e: Event)
    requires LocalStep(p, code, k, e).Some?
    ensures Frames(k, LocalStep(p, code, k, e).value, e)
  {
    match e {
      case ServerReads(secret, now, id) => ServerTakesFrames(p, code, k, secret, now, id);
      case _ => hide ServerTakes;
    }
  }

  lemma LocalKeepsConnInv(p: Primitives, code: Option<AccessCode>, k: Conn, e: Event)
    requires Sound(p) && k.honest && ConnInv(p, k) && LocalStep(p, code, k, e).Some?
    ensures ConnInv(p, LocalStep(p, code, k, e).value)
  {
    match e {
      case ServerReads(secret, now, id) =>
        match k.client {
          case AwaitAck => KeyReadKeepsInv(p, code, k, secret, now, id);
          case AwaitAuth => AuthReadKeepsInv(p, code, k, secret, now, id);
          case Streaming => LaterReadKeepsInv(p, code, k, secret, now, id);
          case Failed => LaterReadKeepsInv(p, code, k, secret, now, id);
          case _ => assert false;
        }
      case ServerStoresKey => ServerStepKeepsInv(p, k, e);
      case ServerAnswers => ServerStepKeepsInv(p, k, e);
      case ServerFails => ServerStepKeepsInv(p, k, e);
      case PeerInjects(_) =>
      case _ => ClientStepKeepsInv(p, k, e);
    }
  }

  /** The registry half of the invariant, for the connection that moved and for the others. */
  lemma FramedConnReg(s: State, c: ConnId, n: Conn, e: Event, d: ConnId)
    requires c in s.conns && d in s.conns && Frames(s.conns[c], n, e) && ConnReg(s, d)
    requires e.ServerReads? ==> e.id !in s.issued
    ensures var issued := if e.ServerReads? then s.issued[e.id := c] else s.issued;
            ConnReg(s.(conns := s.conns[c := n], issued := issued), d)
  {
  }

  lemma LocalKeepsInv(p: Primitives, s: State, c: ConnId, e: Event)
    requires Sound(p) && Inv(p, s) && Apply(p, s, Local(c, e)).Some?
    ensures Inv(p, Apply(p, s, Local(c, e)).value)
  {
    var t := Apply(p, s, Local(c, e)).value;
    var k, n := s.conns[c], t.conns[c];
    assert n == LocalStep(p, s.code, k, e).value;
    LocalFrame(p, s.code, k, e);
    if k.honest {
      LocalKeepsConnInv(p, s.code, k, e);
      if k.server.StoringKey? {
        StoringKeyUntouched(p, k);
      }
    }
    assert t.conns == s.conns[c := n] && t.sessions == s.sessions;
    assert t == s.(conns := s.conns[c := n], issued := if e.ServerReads? then s.issued[e.id := c] else s.issued);
    hide ConnInv, LocalStep, ConnReg, Apply;
    forall d | d in t.conns
      ensures ConnReg(t, d) && (t.conns[d].honest ==> ConnInv(p, t.conns[d]))
    {
      FramedConnReg(s, c, n, e, d);
    }
    forall id | id in t.sessions
      ensures EntryReg(t, id)
    {
      assert EntryReg(s, id);
    }
  }

  lemma StoringKeyUntouched(p: Primitives, k: Conn)
    requires ConnInv(p, k) && k.server.StoringKey?
    ensures k.ids == {}
  {
  }

  // ---------- Registry steps ----------

  lemma RegisterKeepsConnInv(p: Primitives, k: Conn)
    requires ConnInv(p, k) && k.server == Registering && k.session.Some?
    ensures ConnInv(p, k.(server := Answering(true), ids := k.ids + {k.session.value}))
  {
  }

  /** Registering keeps the registry half for the registering connection and for the others. */
  lemma RegisteredConnReg(s: State, c: ConnId, d: ConnId)
    requires c in s.conns && d in s.conns && ConnReg(s, c) && ConnReg(s, d)
    requires s.conns[c].server == Registering && s.conns[c].session.Some? && s.conns[c].crypto.Some?
    ensures var k := s.conns[c]; var id := k.session.value;
            ConnReg(s.(conns := s.conns[c := k.(server := Answering(true), ids := k.ids + {id})],
                       sessions := s.sessions[id := Session(c, k.crypto.value)]), d)
  {
  }

  lemma RegisterKeepsInv(p: Primitives, s: State, c: ConnId)
    requires Inv(p, s) && Apply(p, s, Register(c)).Some?
    ensures Inv(p, Apply(p, s, Register(c)).value)
  {
    var t := Apply(p, s, Register(c)).value;
    var k, id := s.conns[c], s.conns[c].session.value;
    if k.honest {
      RegisterKeepsConnInv(p, k);
    }
    var n := k.(server := Answering(true), ids := k.ids + {id});
    assert t == s.(conns := s.conns[c := n], sessions := s.sessions[id := Session(c, k.crypto.value)]);
    hide ConnInv, Apply, ConnReg;
    forall d | d in t.conns
      ensures ConnReg(t, d) && (t.conns[d].honest ==> ConnInv(p, t.conns[d]))
    {
      RegisteredConnReg(s, c, d);
    }
    forall i | i in t.sessions
      ensures EntryReg(t, i)
    {
      assert i != id ==> EntryReg(s, i);
    }
  }

  lemma CleanKeepsConnInv(p: Primitives, k: Conn)
    requires ConnInv(p, k) && k.server == Reading
    ensures ConnInv(p, k.(server := Cleaned))
  {
  }

  /** The state after the cleanup of connection c. */
  function CleanedUp(s: State, c: ConnId): State
    requires c in s.conns
  {
    var k := s.conns[c];
    s.(conns := s.conns[c := k.(server := Cleaned)],
       sessions := if k.session.Some? then s.sessions - {k.session.value} else s.sessions)
  }

  lemma CleanedConnReg(s: State, c: ConnId)
    requires c in s.conns && ConnReg(s, c) && s.conns[c].server == Reading
    ensures ConnReg(CleanedUp(s, c), c)
  {
  }

  lemma OtherConnReg(s: State, c: ConnId, d: ConnId)
    requires c in s.conns && d in s.conns && c != d && ConnReg(s, c) && ConnReg(s, d)
    ensures ConnReg(CleanedUp(s, c), d)
  {
  }

  lemma CleanedEntry(s: State, c: ConnId, id: SessionId)
    requires c in s.conns && id in CleanedUp(s, c).sessions && EntryReg(s, id)
    ensures EntryReg(CleanedUp(s, c), id)
  {
  }

  lemma EndKeepsInv(p: Primitives, s: State, c: ConnId)
    requires Inv(p, s) && Apply(p, s, EndOfStream(c)).Some?
    ensures Inv(p, Apply(p, s, EndOfStream(c)).value)
  {
    var t := Apply(p, s, EndOfStream(c)).value;
    if s.conns[c].honest {
      CleanKeepsConnInv(p, s.conns[c]);
    }
    assert t == CleanedUp(s, c);
    assert t.conns == s.conns[c := t.conns[c]];
    CleanedConnReg(s, c);
    hide ConnInv, Apply, ConnReg, EntryReg;
    forall d | d in t.conns
      ensures ConnReg(t, d) && (t.conns[d].honest ==> ConnInv(p, t.conns[d]))
    {
      if d != c {
        OtherConnReg(s, c, d);
      }
    }
    forall i | i in t.sessions
      ensures EntryReg(t, i)
    {
      CleanedEntry(s, c, i);
    }
  }

  lemma BroadcastKeepsConnInv(p: Primitives, k: Conn, key: Key, data: seq<byte>)
    requires ConnInv(p, k) && k.crypto == Some(key) && k.ids != {}
    ensures ConnInv(p, k.(toClient := k.toClient + [Frame(Sealed(key), ScreenFrame(data))], early := k.early || !k.answered))
  {
  }

  lemma BroadcastKeepsInv(p: Primitives, s: State, id: SessionId, data: seq<byte>)
    requires Inv(p, s) && Apply(p, s, Broadcast(id, data)).Some?
    ensures Inv(p, Apply(p, s, Broadcast(id, data)).value)
  {
    var t := Apply(p, s, Broadcast(id, data)).value;
    var Session(c, key) := s.sessions[id];
    assert EntryReg(s, id);
    if s.conns[c].honest {
      BroadcastKeepsConnInv(p, s.conns[c], key, data);
    }
    var n := t.conns[c];
    assert t == s.(conns := s.conns[c := n]);
    hide ConnInv, Apply, ConnReg;
    forall d | d in t.conns
      ensures ConnReg(t, d) && (t.conns[d].honest ==> ConnInv(p, t.conns[d]))
    {
      QueueKeepsConnReg(s, c, n.toClient, n.early, d);
    }
    forall i | i in t.sessions
      ensures EntryReg(t, i)
    {
      assert EntryReg(s, i);
    }
  }

  /** What is queued to a client is no business of the registry. */
  lemma QueueKeepsConnReg(s: State, c: ConnId, queue: seq<Frame>, early: bool, d: ConnId)
    requires c in s.conns && d in s.conns && ConnReg(s, d)
    ensures ConnReg(s.(conns := s.conns[c := s.conns[c].(toClient := queue, early := early)]), d)
  {
  }

  lemma AcceptKeepsInv(p: Primitives, s: State, c: ConnId, honest: bool, secret: nat)
    requires Inv(p, s) && Apply(p, s, Accept(c, honest, secret)).Some?
    ensures Inv(p, Apply(p, s, Accept(c, honest, secret)).value)
  {
    var t := Apply(p, s, Accept(c, honest, secret)).value;
    assert ConnInv(p, NewConn(honest, secret));
    hide ConnInv;
    forall d | d in t.conns
      ensures ConnReg(t, d) && (t.conns[d].honest ==> ConnInv(p, t.conns[d]))
    {
      assert d != c ==> ConnReg(s, d);
    }
    forall i | i in t.sessions
      ensures EntryReg(t, i)
    {
      assert EntryReg(s, i);
    }
  }

  lemma StepKeepsInv(p: Primitives, s: State, step: Step)
    requires Sound(p) && Inv(p, s) && Apply(p, s, step).Some?
    ensures Inv(p, Apply(p, s, step).value)
  {
    match step {
      case Accept(c, honest, secret) => AcceptKeepsInv(p, s, c, honest, secret);
      case Local(c, e) => LocalKeepsInv(p, s, c, e);
      case Register(c) => RegisterKeepsInv(p, s, c);
      case EndOfStream(c) => EndKeepsInv(p, s, c);
      case Broadcast(id, data) => BroadcastKeepsInv(p, s, id, data);
      case SetCode(code) =>
        forall d | d in s.conns
          ensures ConnReg(s.(code := code), d)
        {
          assert ConnReg(s, d);
        }
        forall i | i in s.sessions
          ensures EntryReg(s.(code := code), i)
        {
          assert EntryReg(s, i);
        }
    }
  }

  lemma {:induction false} RunKeepsInv(p: Primitives, run: seq<Step>)
    requires Sound(p) && Exec(p, run).Some?
    ensures Inv(p, Exec(p, run).value)
  {
    if run != [] {
      RunKeepsInv(p, run[..|run| - 1]);
      StepKeepsInv(p, Exec(p, run[..|run| - 1]).value, run[|run| - 1]);
    }
  }
}
