/**
 Incremental parsing of a byte stream, for any way of recognising the frame at its front.
 The only demands on the recogniser are that a frame it accepts is there in full and that
 its verdict does not depend on the bytes behind the frame. Under these, chunk boundaries
 are invisible.
 */
module Framing {
  import opened Bytes
  import opened Options

  /** What the first bytes of the stream amount to. */
  datatype Next<+M, +E> = Incomplete | Bad(error: E) | Good(message: M, size: nat)

  type Recogniser<M, E> = seq<Byte> -> Next<M, E>

  ghost predicate Advances<M(!new), E(!new)>(next: Recogniser<M, E>) {
    forall a :: next(a).Good? ==> 0 < next(a).size <= |a|
  }

  ghost predicate Stable<M(!new), E(!new)>(next: Recogniser<M, E>) {
    forall a, b :: !next(a).Incomplete? ==> next(a + b) == next(a)
  }

  datatype StreamResult<+M, +E> = StreamResult(messages: seq<M>, rest: seq<Byte>, error: Option<E>)

  /** One more message in front of a result. */
  function Deliver<M, E>(m: M, r: StreamResult<M, E>): StreamResult<M, E> {
    StreamResult([m] + r.messages, r.rest, r.error)
  }

  /** Takes frames off the front until the stream is incomplete or bad. */
  ghost function Drain<M(!new), E(!new)>(next: Recogniser<M, E>, bytes: seq<Byte>): (r: StreamResult<M, E>)
    requires Advances(next)
    decreases |bytes|
  {
    match next(bytes)
    case Incomplete => StreamResult([], bytes, None)
    case Bad(error) => StreamResult([], bytes, Some(error))
    case Good(m, size) => Deliver(m, Drain(next, bytes[size..]))
  }

  /** Where parsing stands once the bytes `b` have been added to a result: it continues with
      the remainder, but after an error bytes only pile up behind the offending frame. */
  ghost function Resume<M(!new), E(!new)>(next: Recogniser<M, E>, r: StreamResult<M, E>, b: seq<Byte>)
    : StreamResult<M, E>
    requires Advances(next)
  {
    if r.error.Some? then StreamResult(r.messages, r.rest + b, r.error)
    else
      var later := Drain(next, r.rest + b);
      StreamResult(r.messages + later.messages, later.rest, later.error)
  }

  lemma {:induction false} ResumeDelivered<M(!new), E(!new)>(
    next: Recogniser<M, E>, m: M, r: StreamResult<M, E>, b: seq<Byte>)
    requires Advances(next)
    ensures Resume(next, Deliver(m, r), b) == Deliver(m, Resume(next, r, b))
  {
    if r.error.None? {
      var later := Drain(next, r.rest + b);
      assert [m] + r.messages + later.messages == [m] + (r.messages + later.messages);
    }
  }

  lemma {:induction false} ResumeNothing<M(!new), E(!new)>(next: Recogniser<M, E>, a: seq<Byte>, b: seq<Byte>)
    requires Advances(next)
    ensures Resume(next, StreamResult([], a, None), b) == Drain(next, a + b)
  {
    var later := Drain(next, a + b);
    assert [] + later.messages == later.messages;
  }

  lemma {:induction false} DrainAppend<M(!new), E(!new)>(next: Recogniser<M, E>, a: seq<Byte>, b: seq<Byte>)
    requires Advances(next) && Stable(next)
    ensures Drain(next, a + b) == Resume(next, Drain(next, a), b)
    decreases |a|
  {
    match next(a)
    case Incomplete =>
      ResumeNothing(next, a, b);
    case Bad(_) =>
      assert next(a + b) == next(a);
    case Good(m, size) =>
      calc {
        Drain(next, a + b);
        { assert next(a + b) == next(a); SuffixAppend(a, b, size); }
        Deliver(m, Drain(next, a[size..] + b));
        { DrainAppend(next, a[size..], b); }
        Deliver(m, Resume(next, Drain(next, a[size..]), b));
        { ResumeDelivered(next, m, Drain(next, a[size..]), b); }
        Resume(next, Drain(next, a), b);
      }
  }

  lemma SuffixAppend(a: seq<Byte>, b: seq<Byte>, n: nat)
    requires n <= |a|
    ensures (a + b)[n..] == a[n..] + b
  {
  }

  lemma {:induction false} DrainRest<M(!new), E(!new)>(next: Recogniser<M, E>, a: seq<Byte>)
    requires Advances(next)
    ensures Drain(next, Drain(next, a).rest) == StreamResult([], Drain(next, a).rest, Drain(next, a).error)
    decreases |a|
  {
    match next(a)
    case Incomplete =>
    case Bad(_) =>
    case Good(_, size) =>
      DrainRest(next, a[size..]);
  }

  // ---------------------------------------------------------------------------
  // Sessions
  // ---------------------------------------------------------------------------

  /** What a connection has seen so far. */
  datatype Session<+M, +E> = Session(delivered: seq<M>, pending: seq<Byte>, error: Option<E>)

  /** One chunk arrives: it is appended to the input buffer and the parser runs. Only the
      first error counts. */
  ghost function Receive<M(!new), E(!new)>(next: Recogniser<M, E>, s: Session<M, E>, chunk: seq<Byte>)
    : Session<M, E>
    requires Advances(next)
  {
    var r := Drain(next, s.pending + chunk);
    Session(s.delivered + r.messages, r.rest, if s.error.Some? then s.error else r.error)
  }

  ghost function ReceiveAll<M(!new), E(!new)>(next: Recogniser<M, E>, s: Session<M, E>, chunks: seq<seq<Byte>>)
    : Session<M, E>
    requires Advances(next)
    decreases |chunks|
  {
    if chunks == [] then s else ReceiveAll(next, Receive(next, s, chunks[0]), chunks[1..])
  }

  function Concat(chunks: seq<seq<Byte>>): seq<Byte> {
    if chunks == [] then [] else chunks[0] + Concat(chunks[1..])
  }

  /** The same bytes in one piece. */
  ghost function OneShot<M(!new), E(!new)>(next: Recogniser<M, E>, bytes: seq<Byte>): Session<M, E>
    requires Advances(next)
  {
    var r := Drain(next, bytes);
    Session(r.messages, r.rest, r.error)
  }

  lemma {:induction false} ReceiveExtendsOneShot<M(!new), E(!new)>(
    next: Recogniser<M, E>, seen: seq<Byte>, chunk: seq<Byte>)
    requires Advances(next) && Stable(next)
    ensures Receive(next, OneShot(next, seen), chunk) == OneShot(next, seen + chunk)
  {
    DrainAppend(next, seen, chunk);
    DrainRest(next, seen);
    DrainAppend(next, Drain(next, seen).rest, chunk);
  }

  lemma {:induction false} ChunkingFrom<M(!new), E(!new)>(
    next: Recogniser<M, E>, seen: seq<Byte>, chunks: seq<seq<Byte>>)
    requires Advances(next) && Stable(next)
    ensures ReceiveAll(next, OneShot(next, seen), chunks) == OneShot(next, seen + Concat(chunks))
    decreases |chunks|
  {
    if chunks == [] {
      assert seen + Concat(chunks) == seen;
    } else {
      calc {
        ReceiveAll(next, OneShot(next, seen), chunks);
        ReceiveAll(next, Receive(next, OneShot(next, seen), chunks[0]), chunks[1..]);
        { ReceiveExtendsOneShot(next, seen, chunks[0]); }
        ReceiveAll(next, OneShot(next, seen + chunks[0]), chunks[1..]);
        { ChunkingFrom(next, seen + chunks[0], chunks[1..]); }
        OneShot(next, seen + chunks[0] + Concat(chunks[1..]));
        { assert seen + chunks[0] + Concat(chunks[1..]) == seen + Concat(chunks); }
        OneShot(next, seen + Concat(chunks));
      }
    }
  }

  /** Chunk boundaries are invisible: for every byte stream and every way to cut it, the
      messages, the first error and the remainder are those of the uncut stream. */
  lemma {:induction false} ChunkingInvisible<M(!new), E(!new)>(next: Recogniser<M, E>, chunks: seq<seq<Byte>>)
    requires Advances(next) && Stable(next) && next([]).Incomplete?
    ensures ReceiveAll(next, Session([], [], None), chunks) == OneShot(next, Concat(chunks))
  {
    assert OneShot(next, []) == Session([], [], None);
    ChunkingFrom(next, [], chunks);
    assert [] + Concat(chunks) == Concat(chunks);
  }
}
