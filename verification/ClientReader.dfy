/** The client's side of the stream in src/client/connection.rs: exact reads
    during the handshake, then the reader task, which drops what it cannot open. */
module ClientReader {
  import opened Basics
  import opened Framing

  /** Decryption and deserialisation together; None when either fails. */
  type Opener<!M> = seq<byte> -> Option<M>

  /** The payloads that open, in order. */
  function Opened<M>(open: Opener<M>, ps: seq<seq<byte>>): seq<M> {
    if ps == [] then []
    else
      var init := Opened(open, ps[..|ps| - 1]);
      match open(ps[|ps| - 1])
      case Some(m) => init + [m]
      case None => init
  }

  /** Every payload counts for itself: one that opens gives its message, the others nothing. */
  lemma {:induction false} OpenedWrittenOut<M>(open: Opener<M>, ps: seq<seq<byte>>, qs: seq<seq<byte>>)
    ensures Opened(open, ps + qs) == Opened(open, ps) + Opened(open, qs)
    ensures |ps| == 1 ==> Opened(open, ps) == match open(ps[0]) case Some(m) => [m] case None => []
  {
    if |ps| == 1 {
      assert ps[..0] == [];
    }
    if qs == [] {
      assert ps + qs == ps;
    } else {
      var init := qs[..|qs| - 1];
      OpenedWrittenOut(open, ps, init);
      assert (ps + qs)[..|ps + qs| - 1] == ps + init;
    }
  }

  /** Forward what opens. The user interface takes `room` messages and then closes
      its channel, or never closes it; the message it does not take ends the reader. */
  function Deliver<M>(open: Opener<M>, room: Option<nat>): Handler<seq<M>> {
    (out: seq<M>, p: seq<byte>) =>
      match open(p)
      case None => (out, Continue)
      case Some(m) => if room == Some(|out|) then (out, Abort) else (out + [m], Continue)
  }

  lemma {:induction false} DeliverFolds<M>(open: Opener<M>, ps: seq<seq<byte>>)
    ensures Fold(Deliver(open, None), [], ps) == Opened(open, ps)
  {
    if ps != [] {
      DeliverFolds(open, ps[..|ps| - 1]);
    }
  }

  /** The reader task: appends each chunk, takes complete frames, forwards what opens. */
  method ReadMessages<M>(open: Opener<M>, room: Option<nat>, chunks: seq<seq<byte>>) returns (out: seq<M>, buffer: seq<byte>)
    ensures var l := ReadLoop(Deliver(open, room), Start<seq<M>>([]), chunks); out == l.state && buffer == l.buffer
  {
    out, buffer := [], [];
    ghost var step, taken := Deliver(open, room), [];
    ghost var final := ReadLoop(step, Start<seq<M>>([]), chunks);
    var i := 0;
    while i < |chunks| && chunks[i] != []
      invariant 0 <= i <= |chunks|
      invariant final == ReadLoop(step, Loop(out, buffer, taken, false), chunks[i..])
    {
      buffer := buffer + chunks[i];
      ghost var entry := Loop(out, buffer, taken, false);
      while |buffer| >= 4
        invariant Dispatch(step, entry) == Dispatch(step, Loop(out, buffer, taken, false))
        decreases |buffer|
      {
        var len := ReadLength(buffer);
        if |buffer| < 4 + len {
          break;
        }
        ghost var here := buffer;
        buffer := buffer[4..];
        var msg := buffer[..len];
        buffer := buffer[len..];
        assert msg == FramePayload(here) && buffer == AfterFrame(here);
        taken := taken + [msg];
        match open(msg) {
          case None =>
          case Some(m) =>
            if room == Some(|out|) {
              return;
            }
            out := out + [m];
        }
      }
      assert Dispatch(step, entry) == Loop(out, buffer, taken, false);
      i := i + 1;
    }
  }

  /** However the stream is cut into reads, the client forwards exactly the
      payloads that open, in order; the others are dropped without disturbing
      their successors, and an incomplete tail stays in the buffer. */
  lemma ClientReadsAll<M(!new)>(open: Opener<M>, ps: seq<seq<byte>>, tail: seq<byte>, chunks: seq<seq<byte>>)
    requires AllShort(ps) && !HasFrame(tail)
    requires NonEmptyChunks(chunks) && Flatten(chunks) == EncodeAll(ps) + tail
    ensures ReadLoop(Deliver(open, None), Start([]), chunks) == Loop(Opened(open, ps), tail, ps, false)
  {
    AnyChunking(Deliver(open, None), [], ps, tail, chunks);
    DeliverFolds(open, ps);
  }

  // ---------- A user interface that closes its channel ----------

  function First<M>(s: seq<M>, n: nat): seq<M> { if |s| <= n then s else s[..n] }

  lemma {:induction false} DispatchGrows<M>(open: Opener<M>, l: Loop<seq<M>>)
    requires !l.aborted
    ensures l.state <= Dispatch(Deliver(open, None), l).state && !Dispatch(Deliver(open, None), l).aborted
    decreases |l.buffer|
  {
    if HasFrame(l.buffer) {
      var p := FramePayload(l.buffer);
      DispatchGrows(open, Loop(Deliver(open, None)(l.state, p).0, AfterFrame(l.buffer), l.taken + [p], false));
    }
  }

  lemma {:induction false} LoopGrows<M>(open: Opener<M>, l: Loop<seq<M>>, chunks: seq<seq<byte>>)
    requires !l.aborted
    ensures l.state <= ReadLoop(Deliver(open, None), l, chunks).state
    decreases chunks
  {
    if !(chunks == [] || chunks[0] == []) {
      var fed := l.(buffer := l.buffer + chunks[0]);
      DispatchGrows(open, fed);
      LoopGrows(open, Dispatch(Deliver(open, None), fed), chunks[1..]);
    }
  }

  lemma {:induction false} DispatchCloses<M>(open: Opener<M>, n: nat, l: Loop<seq<M>>)
    requires !l.aborted && |l.state| <= n
    ensures var a, b := Dispatch(Deliver(open, Some(n)), l), Dispatch(Deliver(open, None), l);
            if a.aborted then |a.state| == n < |b.state| && a.state <= b.state else a == b && |a.state| <= n
    decreases |l.buffer|
  {
    if HasFrame(l.buffer) {
      var p := FramePayload(l.buffer);
      var (s, v) := Deliver(open, None)(l.state, p);
      var next := Loop(s, AfterFrame(l.buffer), l.taken + [p], false);
      if Deliver(open, Some(n))(l.state, p).1 == Abort {
        DispatchGrows(open, next);
      } else {
        DispatchCloses(open, n, next);
      }
    }
  }

  /** A reader whose user interface closes after n messages has forwarded the first
      n of those it would have forwarded otherwise. */
  lemma {:induction false} ClosesAfter<M>(open: Opener<M>, n: nat, l: Loop<seq<M>>, chunks: seq<seq<byte>>)
    requires !l.aborted && |l.state| <= n
    ensures ReadLoop(Deliver(open, Some(n)), l, chunks).state == First(ReadLoop(Deliver(open, None), l, chunks).state, n)
    decreases chunks
  {
    if !(chunks == [] || chunks[0] == []) {
      var fed := l.(buffer := l.buffer + chunks[0]);
      DispatchCloses(open, n, fed);
      var a, b := Dispatch(Deliver(open, Some(n)), fed), Dispatch(Deliver(open, None), fed);
      DispatchGrows(open, fed);
      hide Dispatch, Deliver;
      if a.aborted {
        LoopGrows(open, b, chunks[1..]);
      } else {
        ClosesAfter(open, n, a, chunks[1..]);
      }
    }
  }

  // ---------- The handshake's exact reads ----------

  /** read_exact of a header and then of a payload: one frame, and not a byte more. */
  function ReadExact(stream: seq<byte>): Option<(seq<byte>, seq<byte>)> {
    if |stream| < 4 then None
    else
      var len := ReadLength(stream);
      if |stream[4..]| < len then None else Some((stream[4..][..len], stream[4..][len..]))
  }

  /** k exact reads from a stream. */
  function ReadExactly(stream: seq<byte>, k: nat): Option<(seq<seq<byte>>, seq<byte>)> {
    if k == 0 then Some(([], stream))
    else
      match ReadExact(stream)
      case None => None
      case Some((p, rest)) =>
        match ReadExactly(rest, k - 1)
        case None => None
        case Some((ps, end)) => Some(([p] + ps, end))
  }

  /** The hand-over from exact reads to the reader task loses nothing: the first k
      payloads go to the handshake and every later one to the reader, for any
      cutting of the remaining bytes. */
  lemma HandOver<M(!new)>(open: Opener<M>, ps: seq<seq<byte>>, k: nat, chunks: seq<seq<byte>>)
    requires AllShort(ps) && k <= |ps| && NonEmptyChunks(chunks)
    requires match ReadExactly(EncodeAll(ps), k) case Some(r) => Flatten(chunks) == r.1 case None => true
    ensures ReadExactly(EncodeAll(ps), k) == Some((ps[..k], EncodeAll(ps[k..])))
    ensures ReadLoop(Deliver(open, None), Start([]), chunks).state == Opened(open, ps[k..])
  {
    ExactReads(ps, k);
    assert EncodeAll(ps[k..]) + [] == EncodeAll(ps[k..]);
    ClientReadsAll(open, ps[k..], [], chunks);
  }

  lemma FirstExactRead(ps: seq<seq<byte>>)
    requires AllShort(ps) && ps != []
    ensures ReadExact(EncodeAll(ps)) == Some((ps[0], EncodeAll(ps[1..])))
  {
    var s := EncodeAll(ps);
    SplitFirst(ps, []);
    assert s + [] == s && EncodeAll(ps[1..]) + [] == EncodeAll(ps[1..]);
    hide EncodeAll;
    assert s[4..][..ReadLength(s)] == FramePayload(s) && s[4..][ReadLength(s)..] == AfterFrame(s);
  }

  lemma TailSplits<T>(s: seq<T>, k: nat)
    requires 0 < k <= |s|
    ensures [s[0]] + s[1..][..k - 1] == s[..k] && s[1..][k - 1..] == s[k..]
  {
  }

  lemma {:induction false} ExactReads(ps: seq<seq<byte>>, k: nat)
    requires AllShort(ps) && k <= |ps|
    ensures ReadExactly(EncodeAll(ps), k) == Some((ps[..k], EncodeAll(ps[k..])))
  {
    if k == 0 {
      assert ps[0..] == ps;
    } else {
      FirstExactRead(ps);
      TailSplits(ps, k);
      assert AllShort(ps[1..]);
      hide EncodeAll, ReadExact, AllShort;
      ExactReads(ps[1..], k - 1);
    }
  }
}
