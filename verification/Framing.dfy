/** Length-prefixed framing, and the reader loop of handle_client in
    src/server/server.rs for an arbitrary handler of payloads. */
module Framing {
  import opened Basics

  // ---------- One frame ----------

  function BigEndian32(n: nat): seq<byte>
    requires n < TWO_32
  {
    var m := n / 256;
    var l := m / 256;
    [l / 256, l % 256, m % 256, n % 256]
  }

  function ReadLength(b: seq<byte>): (n: nat)
    requires |b| >= 4
    ensures n < TWO_32
  {
    (((b[0] as int) * 256 + b[1] as int) * 256 + b[2] as int) * 256 + b[3] as int
  }

  lemma LengthRoundTrip(n: nat, rest: seq<byte>)
    requires n < TWO_32
    ensures ReadLength(BigEndian32(n) + rest) == n
  {
  }

  /** The length comes first, in four bytes, the most significant one first. */
  lemma HeaderWrittenOut(p: seq<byte>)
    ensures |Encode(p)| == 4 + |p| && Encode(p)[4..] == p
    ensures var e := Encode(p);
            16777216 * (e[0] as int) + 65536 * (e[1] as int) + 256 * (e[2] as int) + e[3] as int == |p| % 4294967296
  {
    var n := |p| % TWO_32;
    DigitsAddUp(n);
  }

  lemma DigitsAddUp(n: nat)
    requires n < TWO_32
    ensures |BigEndian32(n)| == 4
    ensures var b := BigEndian32(n);
            16777216 * (b[0] as int) + 65536 * (b[1] as int) + 256 * (b[2] as int) + b[3] as int == n
  {
  }

  lemma LengthWrittenOut(b: seq<byte>)
    requires |b| >= 4
    ensures ReadLength(b) == 16777216 * (b[0] as int) + 65536 * (b[1] as int) + 256 * (b[2] as int) + b[3] as int
  {
  }

  lemma HeaderRoundTrip(b: seq<byte>)
    requires |b| >= 4
    ensures BigEndian32(ReadLength(b)) == b[..4]
  {
    var l := b[0] as int * 256 + b[1] as int;
    var m := l * 256 + b[2] as int;
    LastDigit(b[0] as int, b[1] as int);
    LastDigit(l, b[2] as int);
    LastDigit(m, b[3] as int);
  }

  lemma LastDigit(high: nat, low: nat)
    requires low < 256
    ensures (high * 256 + low) / 256 == high && (high * 256 + low) % 256 == low
  {
  }

  /** send_message: the length is cast to u32, so it is taken modulo 2^32. */
  function Encode(p: seq<byte>): seq<byte> { BigEndian32(|p| % TWO_32) + p }

  function EncodeAll(ps: seq<seq<byte>>): seq<byte> {
    if ps == [] then [] else Encode(ps[0]) + EncodeAll(ps[1..])
  }

  /** The buffer starts with a complete frame. */
  predicate HasFrame(b: seq<byte>) { |b| >= 4 && |b| >= 4 + ReadLength(b) }

  function FramePayload(b: seq<byte>): seq<byte>
    requires HasFrame(b)
  {
    b[4..4 + ReadLength(b)]
  }

  function AfterFrame(b: seq<byte>): seq<byte>
    requires HasFrame(b)
  {
    b[4 + ReadLength(b)..]
  }

  predicate Short(p: seq<byte>) { |p| < TWO_32 }

  predicate AllShort(ps: seq<seq<byte>>) { forall p | p in ps :: Short(p) }

  lemma TakeEncoded(p: seq<byte>, rest: seq<byte>)
    requires Short(p)
    ensures HasFrame(Encode(p) + rest)
    ensures FramePayload(Encode(p) + rest) == p && AfterFrame(Encode(p) + rest) == rest
  {
    EncodeOfShort(p);
    LengthRoundTrip(|p|, p + rest);
    hide BigEndian32, ReadLength, Encode;
    var header := BigEndian32(|p|);
    assert Encode(p) + rest == header + (p + rest);
    FrameAfterHeader(header, p, rest);
  }

  lemma EncodeOfShort(p: seq<byte>)
    requires Short(p)
    ensures |BigEndian32(|p|)| == 4 && Encode(p) == BigEndian32(|p|) + p
  {
  }

  lemma FrameAfterHeader(header: seq<byte>, p: seq<byte>, rest: seq<byte>)
    requires |header| == 4 && ReadLength(header + (p + rest)) == |p|
    ensures var b := header + (p + rest); HasFrame(b) && FramePayload(b) == p && AfterFrame(b) == rest
  {
    hide ReadLength;
  }

  lemma EncodeTaken(b: seq<byte>)
    requires HasFrame(b)
    ensures Short(FramePayload(b)) && Encode(FramePayload(b)) + AfterFrame(b) == b
  {
    hide BigEndian32, ReadLength, Encode;
    HeaderRoundTrip(b);
    var p := FramePayload(b);
    assert |p| == ReadLength(b);
    EncodeOfShort(p);
    assert b == b[..4] + p + AfterFrame(b);
  }

  /** A lone payload survives framing exactly when its length fits in 32 bits. */
  lemma FrameRoundTripIff(p: seq<byte>)
    ensures HasFrame(Encode(p)) && FramePayload(Encode(p)) == p <==> Short(p)
  {
    var n := |p| % TWO_32;
    LengthRoundTrip(n, p);
    if Short(p) {
      TakeEncoded(p, []);
      assert Encode(p) + [] == Encode(p);
    } else {
      assert |FramePayload(Encode(p))| == n < |p|;
    }
  }

  lemma {:induction false} EncodeAllAppend(ps: seq<seq<byte>>, qs: seq<seq<byte>>)
    ensures EncodeAll(ps + qs) == EncodeAll(ps) + EncodeAll(qs)
  {
    hide Encode;
    if ps == [] {
      assert ps + qs == qs;
    } else {
      EncodeAllAppend(ps[1..], qs);
      assert (ps + qs)[1..] == ps[1..] + qs;
      assert EncodeAll(ps) + EncodeAll(qs) == Encode(ps[0]) + (EncodeAll(ps[1..]) + EncodeAll(qs));
    }
  }

  lemma EncodeAllSnoc(ps: seq<seq<byte>>, p: seq<byte>)
    ensures EncodeAll(ps + [p]) == EncodeAll(ps) + Encode(p)
  {
    EncodeAllAppend(ps, [p]);
    assert EncodeAll([p]) == Encode(p) by { assert [p][1..] == []; }
  }

  /** A stream has one reading: complete frames first, then an incomplete tail. */
  lemma {:induction false} UniqueReading(ps: seq<seq<byte>>, a: seq<byte>, qs: seq<seq<byte>>, b: seq<byte>)
    requires AllShort(ps) && AllShort(qs) && !HasFrame(a) && !HasFrame(b)
    requires EncodeAll(ps) + a == EncodeAll(qs) + b
    ensures ps == qs && a == b
  {
    if ps != [] && qs != [] {
      SplitFirst(ps, a);
      SplitFirst(qs, b);
      UniqueReading(ps[1..], a, qs[1..], b);
      assert ps == [ps[0]] + ps[1..] && qs == [qs[0]] + qs[1..];
    } else if ps != [] {
      assert EncodeAll(qs) + b == b;
      SplitFirst(ps, a);
      assert false;
    } else if qs != [] {
      assert EncodeAll(ps) + a == a;
      SplitFirst(qs, b);
      assert false;
    } else {
      assert EncodeAll(ps) + a == a && EncodeAll(qs) + b == b;
    }
  }

  lemma SplitFirst(ps: seq<seq<byte>>, rest: seq<byte>)
    requires ps != [] && AllShort(ps)
    ensures HasFrame(EncodeAll(ps) + rest)
    ensures FramePayload(EncodeAll(ps) + rest) == ps[0]
    ensures AfterFrame(EncodeAll(ps) + rest) == EncodeAll(ps[1..]) + rest
  {
    assert ps[0] in ps;
    TakeEncoded(ps[0], EncodeAll(ps[1..]) + rest);
    hide *;
    EncodeAllFirst(ps, rest);
  }

  lemma EncodeAllFirst(ps: seq<seq<byte>>, rest: seq<byte>)
    requires ps != []
    ensures EncodeAll(ps) + rest == Encode(ps[0]) + (EncodeAll(ps[1..]) + rest)
  {
    hide Encode;
  }

  // ---------- The reader loop ----------

  /** What handling one payload does to the loop: go on, leave the inner loop
      (Disconnect), or end the connection with an error (`?`). */
  datatype Outcome = Continue | Leave | Abort

  /** A handler: new state and outcome for the state and payload it is given. */
  type Handler<!S> = (S, seq<byte>) -> (S, Outcome)

  datatype Loop<S> = Loop(state: S, buffer: seq<byte>, taken: seq<seq<byte>>, aborted: bool)

  /** The inner loop: take complete frames until none is left or the handler stops it. */
  function Dispatch<S>(step: Handler<S>, l: Loop<S>): Loop<S>
    decreases |l.buffer|
  {
    if !HasFrame(l.buffer) then l
    else
      var p := FramePayload(l.buffer);
      var (s, v) := step(l.state, p);
      var next := Loop(s, AfterFrame(l.buffer), l.taken + [p], v == Abort);
      if v == Continue then Dispatch(step, next) else next
  }

  /** The outer loop over the chunks the socket delivers; an empty one is end of stream. */
  function ReadLoop<S>(step: Handler<S>, l: Loop<S>, chunks: seq<seq<byte>>): Loop<S>
    decreases chunks
  {
    if chunks == [] || chunks[0] == [] || l.aborted then l
    else ReadLoop(step, Dispatch(step, l.(buffer := l.buffer + chunks[0])), chunks[1..])
  }

  function Start<S>(s: S): Loop<S> { Loop(s, [], [], false) }

  method HandleClient<S>(step: Handler<S>, s: S, chunks: seq<seq<byte>>) returns (l: Loop<S>)
    ensures l == ReadLoop(step, Start(s), chunks)
  {
    var state, buffer, taken := s, [], [];
    var i := 0;
    while i < |chunks|
      invariant 0 <= i <= |chunks|
      invariant ReadLoop(step, Start(s), chunks) == ReadLoop(step, Loop(state, buffer, taken, false), chunks[i..])
    {
      if chunks[i] == [] {
        break;
      }
      buffer := buffer + chunks[i];
      ghost var entry := Loop(state, buffer, taken, false);
      while |buffer| >= 4
        invariant Dispatch(step, entry) == Dispatch(step, Loop(state, buffer, taken, false))
        decreases |buffer|
      {
        var len := ReadLength(buffer);
        if |buffer| < 4 + len {
          break;
        }
        ghost var here := buffer;
        buffer := buffer[4..];
        var msg := buffer[..len];
        buffer := buffer[len..];
        assert msg == FramePayload(here) && buffer == AfterFrame(here);
        var (next, outcome) := step(state, msg);
        state, taken := next, taken + [msg];
        if outcome == Abort {
          l := Loop(state, buffer, taken, true);
          return;
        }
        if outcome == Leave {
          assert Dispatch(step, entry) == Loop(state, buffer, taken, false);
          break;
        }
      }
      i := i + 1;
    }
    l := Loop(state, buffer, taken, false);
  }

  // ---------- Properties of the reader loop ----------

  /** End of stream and an error end the loop: what would come after is not read. */
  lemma {:induction false} EndOfStreamEnds<S>(step: Handler<S>, l: Loop<S>, chunks: seq<seq<byte>>, i: nat)
    requires i < |chunks| && chunks[i] == []
    ensures ReadLoop(step, l, chunks) == ReadLoop(step, l, chunks[..i])
    ensures l.aborted ==> ReadLoop(step, l, chunks) == l
    decreases i
  {
    if i > 0 && chunks[0] != [] && !l.aborted {
      EndOfStreamEnds(step, Dispatch(step, l.(buffer := l.buffer + chunks[0])), chunks[1..], i - 1);
      assert chunks[..i][1..] == chunks[1..][..i - 1];
    }
  }

  predicate NonEmptyChunks(chunks: seq<seq<byte>>) { forall i | 0 <= i < |chunks| :: chunks[i] != [] }

  lemma {:induction false} DispatchConserves<S>(step: Handler<S>, l: Loop<S>)
    requires AllShort(l.taken)
    ensures var r := Dispatch(step, l);
            AllShort(r.taken) && EncodeAll(r.taken) + r.buffer == EncodeAll(l.taken) + l.buffer
    decreases |l.buffer|
  {
    if HasFrame(l.buffer) {
      var p := FramePayload(l.buffer);
      EncodeTaken(l.buffer);
      EncodeAllSnoc(l.taken, p);
      var (s, v) := step(l.state, p);
      var next := Loop(s, AfterFrame(l.buffer), l.taken + [p], v == Abort);
      assert EncodeAll(next.taken) + next.buffer == EncodeAll(l.taken) + (Encode(p) + AfterFrame(l.buffer));
      if v == Continue {
        DispatchConserves(step, next);
      }
    }
  }

  /** No byte is lost, duplicated or reordered, whatever the handler decides: the
      frames taken, re-encoded, followed by the buffer, are the bytes read so far. */
  lemma {:induction false} LoopConserves<S>(step: Handler<S>, l: Loop<S>, chunks: seq<seq<byte>>) returns (used: nat)
    requires AllShort(l.taken)
    ensures used <= |chunks| && AllShort(ReadLoop(step, l, chunks).taken)
    ensures EncodeAll(ReadLoop(step, l, chunks).taken) + ReadLoop(step, l, chunks).buffer ==
            EncodeAll(l.taken) + l.buffer + Flatten(chunks[..used])
    ensures !ReadLoop(step, l, chunks).aborted && NonEmptyChunks(chunks) ==> used == |chunks|
    decreases chunks
  {
    if chunks == [] || chunks[0] == [] || l.aborted {
      used := 0;
      assert chunks[..0] == [];
    } else {
      hide EncodeAll, Dispatch, AllShort, Flatten, NonEmptyChunks;
      var fed := l.(buffer := l.buffer + chunks[0]);
      DispatchConserves(step, fed);
      var rest := LoopConserves(step, Dispatch(step, fed), chunks[1..]);
      used := rest + 1;
      FlattenNext(chunks, used);
      Regroup(EncodeAll(l.taken), l.buffer, chunks[0], Flatten(chunks[1..][..rest]));
    }
  }

  lemma FlattenNext(chunks: seq<seq<byte>>, n: nat)
    requires 0 < n <= |chunks|
    ensures Flatten(chunks[..n]) == chunks[0] + Flatten(chunks[1..][..n - 1])
    ensures NonEmptyChunks(chunks) ==> NonEmptyChunks(chunks[1..])
  {
    assert chunks[..n][1..] == chunks[1..][..n - 1];
  }

  lemma Regroup<T>(a: seq<T>, b: seq<T>, c: seq<T>, d: seq<T>)
    ensures a + (b + c) + d == a + b + (c + d)
  {
  }

  lemma {:induction false} DispatchExtends<S>(step: Handler<S>, l: Loop<S>)
    ensures l.taken <= Dispatch(step, l).taken
    ensures HasFrame(l.buffer) ==> l.taken + [FramePayload(l.buffer)] <= Dispatch(step, l).taken
    decreases |l.buffer|
  {
    if HasFrame(l.buffer) {
      var p := FramePayload(l.buffer);
      var (s, v) := step(l.state, p);
      if v == Continue {
        DispatchExtends(step, Loop(s, AfterFrame(l.buffer), l.taken + [p], false));
      }
    }
  }

  lemma {:induction false} LoopExtends<S>(step: Handler<S>, l: Loop<S>, chunks: seq<seq<byte>>)
    ensures l.taken <= ReadLoop(step, l, chunks).taken
    decreases chunks
  {
    if !(chunks == [] || chunks[0] == [] || l.aborted) {
      DispatchExtends(step, l.(buffer := l.buffer + chunks[0]));
      LoopExtends(step, Dispatch(step, l.(buffer := l.buffer + chunks[0])), chunks[1..]);
    }
  }

  /** A complete frame left in the buffer by a handler that stopped is handled if
      and only if at least one more byte arrives, although it is already there. */
  lemma LeftoverWaitsIff<S>(step: Handler<S>, l: Loop<S>, chunks: seq<seq<byte>>)
    requires HasFrame(l.buffer) && !l.aborted
    ensures l.taken + [FramePayload(l.buffer)] <= ReadLoop(step, l, chunks).taken <==> chunks != [] && chunks[0] != []
  {
    if chunks != [] && chunks[0] != [] {
      var fed := l.(buffer := l.buffer + chunks[0]);
      PrefixFrame(l.buffer, chunks[0]);
      DispatchExtends(step, fed);
      LoopExtends(step, Dispatch(step, fed), chunks[1..]);
    }
  }

  lemma {:induction false} FlattenPrefix(chunks: seq<seq<byte>>, n: nat)
    requires n <= |chunks|
    ensures Flatten(chunks[..n]) <= Flatten(chunks)
  {
    if n > 0 {
      FlattenPrefix(chunks[1..], n - 1);
      assert chunks[..n][1..] == chunks[1..][..n - 1];
    } else {
      assert chunks[..0] == [];
    }
  }

  lemma {:induction false} TakenIsPrefix(qs: seq<seq<byte>>, b: seq<byte>, ps: seq<seq<byte>>)
    requires AllShort(qs) && AllShort(ps) && EncodeAll(qs) + b == EncodeAll(ps)
    ensures qs <= ps
  {
    if qs != [] {
      SplitFirst(qs, b);
      assert ps != [];
      SplitFirst(ps, []);
      assert EncodeAll(ps) + [] == EncodeAll(ps) && EncodeAll(ps[1..]) + [] == EncodeAll(ps[1..]);
      assert AllShort(qs[1..]) && AllShort(ps[1..]);
      hide EncodeAll, AllShort, HasFrame, FramePayload, AfterFrame;
      TakenIsPrefix(qs[1..], b, ps[1..]);
      assert qs == [qs[0]] + qs[1..] && ps == [ps[0]] + ps[1..];
    }
  }

  /** From any part of an encoded stream, cut in any way, only first payloads are taken. */
  lemma LoopTakesPrefix<S>(step: Handler<S>, s: S, ps: seq<seq<byte>>, chunks: seq<seq<byte>>)
    requires AllShort(ps) && Flatten(chunks) <= EncodeAll(ps)
    ensures ReadLoop(step, Start(s), chunks).taken <= ps
  {
    var l := ReadLoop(step, Start(s), chunks);
    var used := LoopConserves(step, Start(s), chunks);
    FlattenPrefix(chunks, used);
    hide ReadLoop, AllShort, Flatten;
    assert EncodeAll([]) + [] == [];
    hide EncodeAll;
    var read := Flatten(chunks[..used]);
    assert [] + read == read;
    RestOf(EncodeAll(l.taken), l.buffer, read, EncodeAll(ps));
    TakenIsPrefix(l.taken, l.buffer + EncodeAll(ps)[|read|..], ps);
  }

  lemma RestOf<T>(a: seq<T>, b: seq<T>, read: seq<T>, whole: seq<T>)
    requires a + b == read && read <= whole
    ensures a + (b + whole[|read|..]) == whole
  {
  }

  // ---------- Handlers that never stop: the client's reader ----------

  ghost predicate NeverStops<S(!new)>(step: Handler<S>) { forall s, p :: step(s, p).1 == Continue }

  lemma {:induction false} DispatchDrains<S(!new)>(step: Handler<S>, l: Loop<S>)
    requires NeverStops(step)
    ensures !HasFrame(Dispatch(step, l).buffer) && Dispatch(step, l).aborted == (l.aborted && !HasFrame(l.buffer))
    decreases |l.buffer|
  {
    if HasFrame(l.buffer) {
      var p := FramePayload(l.buffer);
      DispatchDrains(step, Loop(step(l.state, p).0, AfterFrame(l.buffer), l.taken + [p], false));
    }
  }

  lemma {:induction false} LoopDrains<S(!new)>(step: Handler<S>, l: Loop<S>, chunks: seq<seq<byte>>)
    requires NeverStops(step) && !HasFrame(l.buffer) && !l.aborted
    ensures !HasFrame(ReadLoop(step, l, chunks).buffer) && !ReadLoop(step, l, chunks).aborted
    decreases chunks
  {
    if !(chunks == [] || chunks[0] == []) {
      var fed := l.(buffer := l.buffer + chunks[0]);
      DispatchDrains(step, fed);
      LoopDrains(step, Dispatch(step, fed), chunks[1..]);
    }
  }

  /** The handler's state after a list of payloads. */
  function Fold<S>(step: Handler<S>, s: S, ps: seq<seq<byte>>): S {
    if ps == [] then s else step(Fold(step, s, ps[..|ps| - 1]), ps[|ps| - 1]).0
  }

  lemma {:induction false} DispatchFolds<S>(step: Handler<S>, s: S, l: Loop<S>)
    requires l.state == Fold(step, s, l.taken)
    ensures Dispatch(step, l).state == Fold(step, s, Dispatch(step, l).taken)
    decreases |l.buffer|
  {
    if HasFrame(l.buffer) {
      var p := FramePayload(l.buffer);
      assert (l.taken + [p])[..|l.taken|] == l.taken;
      var (t, v) := step(l.state, p);
      var next := Loop(t, AfterFrame(l.buffer), l.taken + [p], v == Abort);
      if v == Continue {
        DispatchFolds(step, s, next);
      }
    }
  }

  /** The handler sees exactly the frames taken, in order, each once. */
  lemma {:induction false} LoopFolds<S>(step: Handler<S>, s: S, l: Loop<S>, chunks: seq<seq<byte>>)
    requires l.state == Fold(step, s, l.taken)
    ensures ReadLoop(step, l, chunks).state == Fold(step, s, ReadLoop(step, l, chunks).taken)
    decreases chunks
  {
    if !(chunks == [] || chunks[0] == [] || l.aborted) {
      var fed := l.(buffer := l.buffer + chunks[0]);
      DispatchFolds(step, s, fed);
      LoopFolds(step, s, Dispatch(step, fed), chunks[1..]);
    }
  }

  /** For a handler that never stops, a stream of encoded payloads followed by an
      incomplete tail, cut into chunks in any way, gives back exactly those
      payloads and that tail. */
  lemma AnyChunking<S(!new)>(step: Handler<S>, s: S, ps: seq<seq<byte>>, tail: seq<byte>, chunks: seq<seq<byte>>)
    requires NeverStops(step) && AllShort(ps) && !HasFrame(tail)
    requires NonEmptyChunks(chunks) && Flatten(chunks) == EncodeAll(ps) + tail
    ensures ReadLoop(step, Start(s), chunks) == Loop(Fold(step, s, ps), tail, ps, false)
  {
    var l := Start(s);
    LoopDrains(step, l, chunks);
    LoopFolds(step, s, l, chunks);
    var used := LoopConserves(step, l, chunks);
    var r := ReadLoop(step, l, chunks);
    assert chunks[..used] == chunks;
    assert EncodeAll(l.taken) + l.buffer + Flatten(chunks) == Flatten(chunks);
    UniqueReading(r.taken, r.buffer, ps, tail);
  }

  // ---------- Handlers that may stop: the server's loop ----------

  /** Outcome on payload i when ps are handled in order. */
  function OutcomeOn<S>(step: Handler<S>, s: S, ps: seq<seq<byte>>, i: nat): Outcome
    requires i < |ps|
  {
    step(Fold(step, s, ps[..i]), ps[i]).1
  }

  /** Only the last payload taken can have ended the connection. */
  ghost predicate AbortsLast<S>(step: Handler<S>, s: S, l: Loop<S>) {
    && l.state == Fold(step, s, l.taken)
    && forall i: nat | i < |l.taken| && OutcomeOn(step, s, l.taken, i) == Abort :: l.aborted && i == |l.taken| - 1
  }

  lemma TakenOneMore<S>(step: Handler<S>, s: S, l: Loop<S>, p: seq<byte>, b: seq<byte>)
    requires AbortsLast(step, s, l) && !l.aborted
    ensures var (t, v) := step(l.state, p); AbortsLast(step, s, Loop(t, b, l.taken + [p], v == Abort))
  {
    FoldAppended(step, s, l.taken, p);
    forall i: nat | i < |l.taken|
      ensures OutcomeOn(step, s, l.taken + [p], i) == OutcomeOn(step, s, l.taken, i)
    {
      OutcomeKept(step, s, l.taken, p, i);
    }
    hide Fold, OutcomeOn;
  }

  lemma FoldAppended<S>(step: Handler<S>, s: S, ps: seq<seq<byte>>, p: seq<byte>)
    ensures Fold(step, s, ps + [p]) == step(Fold(step, s, ps), p).0
    ensures OutcomeOn(step, s, ps + [p], |ps|) == step(Fold(step, s, ps), p).1
  {
    assert (ps + [p])[..|ps|] == ps;
  }

  lemma OutcomeKept<S>(step: Handler<S>, s: S, ps: seq<seq<byte>>, p: seq<byte>, i: nat)
    requires i < |ps|
    ensures OutcomeOn(step, s, ps + [p], i) == OutcomeOn(step, s, ps, i)
  {
    assert (ps + [p])[..i] == ps[..i];
    hide Fold;
  }

  lemma {:induction false} DispatchAbortsLast<S>(step: Handler<S>, s: S, l: Loop<S>)
    requires AbortsLast(step, s, l) && !l.aborted
    ensures AbortsLast(step, s, Dispatch(step, l))
    decreases |l.buffer|
  {
    hide AbortsLast;
    if HasFrame(l.buffer) {
      var p := FramePayload(l.buffer);
      TakenOneMore(step, s, l, p, AfterFrame(l.buffer));
      var (t, v) := step(l.state, p);
      if v == Continue {
        DispatchAbortsLast(step, s, Loop(t, AfterFrame(l.buffer), l.taken + [p], false));
      }
    }
  }

  lemma {:induction false} LoopAbortsLast<S>(step: Handler<S>, s: S, l: Loop<S>, chunks: seq<seq<byte>>)
    requires AbortsLast(step, s, l)
    ensures AbortsLast(step, s, ReadLoop(step, l, chunks))
    decreases chunks
  {
    if !(chunks == [] || chunks[0] == [] || l.aborted) {
      var fed := l.(buffer := l.buffer + chunks[0]);
      assert AbortsLast(step, s, fed);
      hide AbortsLast, Dispatch;
      DispatchAbortsLast(step, s, fed);
      LoopAbortsLast(step, s, Dispatch(step, fed), chunks[1..]);
    }
  }

  /** Only the last payload may make the handler stop. */
  ghost predicate StopsOnlyAtEnd<S>(step: Handler<S>, s: S, ps: seq<seq<byte>>) {
    forall i: nat | i + 1 < |ps| :: OutcomeOn(step, s, ps, i) == Continue
  }

  /** Loop state after the first k payloads of ps with b left in the buffer. */
  function After<S>(step: Handler<S>, s: S, ps: seq<seq<byte>>, k: nat, b: seq<byte>): Loop<S>
    requires k <= |ps|
  {
    Loop(Fold(step, s, ps[..k]), b, ps[..k], k > 0 && OutcomeOn(step, s, ps, k - 1) == Abort)
  }

  lemma {:induction false} DispatchWithin<S>(
    step: Handler<S>, s: S, ps: seq<seq<byte>>, k: nat, b: seq<byte>, tail: seq<byte>) returns (j: nat, c: seq<byte>)
    requires AllShort(ps) && StopsOnlyAtEnd(step, s, ps)
    requires k < |ps| && b + tail == EncodeAll(ps[k..])
    ensures k <= j <= |ps| && c + tail == EncodeAll(ps[j..])
    ensures Dispatch(step, After(step, s, ps, k, b)) == After(step, s, ps, j, c)
    ensures j < |ps| ==> !HasFrame(c)
    decreases |ps| - k
  {
    if !HasFrame(b) {
      j, c := k, b;
    } else {
      SplitAt(ps, k);
      PrefixFrame(b, tail);
      TakeOne(step, s, ps, k);
      hide EncodeAll, HasFrame, FramePayload, AfterFrame;
      if OutcomeOn(step, s, ps, k) == Continue && k + 1 < |ps| {
        j, c := DispatchWithin(step, s, ps, k + 1, AfterFrame(b), tail);
      } else {
        j, c := k + 1, AfterFrame(b);
        if k + 1 == |ps| {
          assert ps[k + 1..] == [];
          NothingAfterEnd(c, tail, ps[k + 1..]);
        }
      }
    }
  }

  lemma NothingAfterEnd(c: seq<byte>, tail: seq<byte>, ps: seq<seq<byte>>)
    requires ps == [] && c + tail == EncodeAll(ps)
    ensures c == [] && !HasFrame(c)
  {
    assert |c + tail| == 0;
  }

  lemma SplitAt(ps: seq<seq<byte>>, k: nat)
    requires AllShort(ps) && k < |ps|
    ensures HasFrame(EncodeAll(ps[k..])) && FramePayload(EncodeAll(ps[k..])) == ps[k]
    ensures AfterFrame(EncodeAll(ps[k..])) == EncodeAll(ps[k + 1..])
  {
    assert AllShort(ps[k..]);
    SplitFirst(ps[k..], []);
    assert ps[k..][1..] == ps[k + 1..];
    assert EncodeAll(ps[k..]) + [] == EncodeAll(ps[k..]);
    assert EncodeAll(ps[k + 1..]) + [] == EncodeAll(ps[k + 1..]);
  }

  lemma TakeOne<S>(step: Handler<S>, s: S, ps: seq<seq<byte>>, k: nat)
    requires k < |ps|
    ensures ps[..k] + [ps[k]] == ps[..k + 1]
    ensures Fold(step, s, ps[..k + 1]) == step(Fold(step, s, ps[..k]), ps[k]).0
  {
    assert ps[..k + 1][..k] == ps[..k];
  }

  /** A complete frame in a prefix is the first frame of the whole. */
  lemma PrefixFrame(b: seq<byte>, tail: seq<byte>)
    requires HasFrame(b)
    ensures HasFrame(b + tail)
    ensures FramePayload(b + tail) == FramePayload(b) && AfterFrame(b + tail) == AfterFrame(b) + tail
  {
    assert (b + tail)[..4] == b[..4];
  }

  lemma {:induction false} LoopWithin<S>(
    step: Handler<S>, s: S, ps: seq<seq<byte>>, k: nat, b: seq<byte>, chunks: seq<seq<byte>>)
    requires AllShort(ps) && StopsOnlyAtEnd(step, s, ps) && NonEmptyChunks(chunks)
    requires k <= |ps| && b + Flatten(chunks) == EncodeAll(ps[k..]) && (k < |ps| ==> !HasFrame(b))
    ensures ReadLoop(step, After(step, s, ps, k, b), chunks).taken == ps
    ensures ReadLoop(step, After(step, s, ps, k, b), chunks).buffer == []
    decreases chunks
  {
    if chunks == [] {
      assert b + Flatten(chunks) == b;
      assert k == |ps| by {
        if k < |ps| {
          SplitAt(ps, k);
        }
      }
      assert ps[..k] == ps && ps[k..] == [];
    } else {
      var tail := Flatten(chunks[1..]);
      assert b + Flatten(chunks) == (b + chunks[0]) + tail;
      assert k < |ps| by {
        assert |b + Flatten(chunks)| > 0;
        assert ps[|ps|..] == [];
      }
      hide EncodeAll, HasFrame, Flatten;
      assert !After(step, s, ps, k, b).aborted;
      var j, c := DispatchWithin(step, s, ps, k, b + chunks[0], tail);
      LoopWithin(step, s, ps, j, c, chunks[1..]);
    }
  }

  /** A handler that stops at payload i loses the rest when they arrive together. */
  lemma {:induction false} DispatchStops<S>(step: Handler<S>, s: S, ps: seq<seq<byte>>, k: nat, i: nat)
    requires AllShort(ps) && k <= i < |ps|
    requires forall h: nat | k <= h < i :: OutcomeOn(step, s, ps, h) == Continue
    requires OutcomeOn(step, s, ps, i) != Continue
    ensures Dispatch(step, Loop(Fold(step, s, ps[..k]), EncodeAll(ps[k..]), ps[..k], false)).taken == ps[..i + 1]
    decreases i - k
  {
    SplitAt(ps, k);
    TakeOne(step, s, ps, k);
    hide EncodeAll, HasFrame, FramePayload, AfterFrame;
    assert OutcomeOn(step, s, ps, k) == step(Fold(step, s, ps[..k]), ps[k]).1;
    if k < i {
      assert OutcomeOn(step, s, ps, k) == Continue;
      DispatchStops(step, s, ps, k + 1, i);
    }
  }

  /** The server handles every payload under every cutting of the stream into
      reads if and only if no payload but the last makes it stop. A Disconnect in
      the middle is the exception: it leaves the inner loop, so whether later
      payloads are handled depends on where the reads happen to fall. */
  lemma ServerHandlesAllIff<S>(step: Handler<S>, s: S, ps: seq<seq<byte>>)
    requires AllShort(ps)
    ensures (forall chunks: seq<seq<byte>> | NonEmptyChunks(chunks) && Flatten(chunks) == EncodeAll(ps) ::
               ReadLoop(step, Start(s), chunks).taken == ps)
            <==> StopsOnlyAtEnd(step, s, ps)
  {
    if StopsOnlyAtEnd(step, s, ps) {
      forall chunks: seq<seq<byte>> | NonEmptyChunks(chunks) && Flatten(chunks) == EncodeAll(ps)
        ensures ReadLoop(step, Start(s), chunks).taken == ps
      {
        assert ps[0..] == ps && ps[..0] == [];
        assert [] + Flatten(chunks) == EncodeAll(ps[0..]);
        LoopWithin(step, s, ps, 0, [], chunks);
      }
    } else {
      var i: nat :| i + 1 < |ps| && OutcomeOn(step, s, ps, i) != Continue;
      var chunks := OneReadStops(step, s, ps, i);
    }
  }

  lemma OneReadStops<S>(step: Handler<S>, s: S, ps: seq<seq<byte>>, i: nat) returns (chunks: seq<seq<byte>>)
    requires AllShort(ps) && i + 1 < |ps| && OutcomeOn(step, s, ps, i) != Continue
    ensures NonEmptyChunks(chunks) && Flatten(chunks) == EncodeAll(ps)
    ensures ReadLoop(step, Start(s), chunks).taken != ps
  {
    var m := FirstStop(step, s, ps, i);
    DispatchStops(step, s, ps, 0, m);
    chunks := [EncodeAll(ps)];
    assert chunks[1..] == [];
    assert ps[0..] == ps && ps[..0] == [];
    assert [] + chunks[0] == EncodeAll(ps);
    var r := Dispatch(step, Loop(s, EncodeAll(ps), [], false));
    assert ReadLoop(step, Start(s), chunks) == ReadLoop(step, r, []);
    assert |r.taken| == m + 1;
  }

  lemma {:induction false} FirstStop<S>(step: Handler<S>, s: S, ps: seq<seq<byte>>, i: nat) returns (m: nat)
    requires i < |ps| && OutcomeOn(step, s, ps, i) != Continue
    ensures m <= i && OutcomeOn(step, s, ps, m) != Continue
    ensures forall h: nat | h < m :: OutcomeOn(step, s, ps, h) == Continue
  {
    if j: nat :| j < i && OutcomeOn(step, s, ps, j) != Continue {
      m := FirstStop(step, s, ps, j);
    } else {
      m := i;
    }
  }
}
