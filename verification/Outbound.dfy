/**
 The outbound buffer of a connection: `flush_connection` against a socket that may take any
 part of what it is offered, refuse for now, or fail.
 */
module Outbound {
  import opened Bytes

  /** What `send` may answer. */
  datatype SendResult = Took(n: nat) | WouldBlock | Failed

  /** The k-th answer of the socket. */
  type Socket = nat -> SendResult

  datatype Out = Out(buf: bytes, pos: nat, closed: bool, sent: bytes)

  predicate InBounds(o: Out) {
    o.pos <= |o.buf|
  }

  function Unsent(o: Out): bytes
    requires InBounds(o)
  {
    o.buf[o.pos..]
  }

  /** A socket never takes more than it is offered. */
  function Accepted(r: SendResult, offered: nat): int {
    match r
    case Took(n) => if n < offered then n else offered
    case _ => -1
  }

  /** `flush_connection` from its k-th send on. */
  function Flush(o: Out, socket: Socket, k: nat): (r: Out)
    requires InBounds(o)
    ensures InBounds(r)
    decreases |o.buf| - o.pos
  {
    if o.pos == |o.buf| then
      (if o.pos != 0 then o.(buf := [], pos := 0) else o)
    else
      var n := Accepted(socket(k), |o.buf| - o.pos);
      if n > 0 then Flush(o.(pos := o.pos + n, sent := o.sent + o.buf[o.pos..o.pos + n]), socket, k + 1)
      else if socket(k).WouldBlock? then o
      else o.(closed := true)
  }

  function Append(o: Out, data: bytes): Out {
    o.(buf := o.buf + data)
  }

  lemma SentMoves(o: Out, n: nat)
    requires InBounds(o) && o.pos + n <= |o.buf|
    ensures var o' := o.(pos := o.pos + n, sent := o.sent + o.buf[o.pos..o.pos + n]);
            o.sent + Unsent(o) == o'.sent + Unsent(o')
  {
    assert o.buf[o.pos..] == o.buf[o.pos..o.pos + n] + o.buf[o.pos + n..];
    Assoc(o.sent, o.buf[o.pos..o.pos + n], o.buf[o.pos + n..]);
  }

  /** A flush moves bytes from the buffer to the wire and does nothing else to them. */
  lemma {:induction false} FlushConserves(o: Out, socket: Socket, k: nat)
    requires InBounds(o)
    ensures var r := Flush(o, socket, k);
            && r.sent + Unsent(r) == o.sent + Unsent(o)
            && o.sent <= r.sent
    decreases |o.buf| - o.pos
  {
    if o.pos < |o.buf| {
      var n := Accepted(socket(k), |o.buf| - o.pos);
      if n > 0 {
        SentMoves(o, n);
        FlushConserves(o.(pos := o.pos + n, sent := o.sent + o.buf[o.pos..o.pos + n]), socket, k + 1);
      }
    }
  }

  /**
   A flush asks up to send j: every earlier answer took something, and either nothing is left
   to ask for, or answer j is the would-block or the failure that stopped it.
   */
  lemma {:induction false} FlushStops(o: Out, socket: Socket, k: nat) returns (j: nat)
    requires InBounds(o)
    ensures j >= k && forall i :: k <= i < j ==> socket(i).Took? && socket(i).n > 0
    ensures var r := Flush(o, socket, k);
            if Unsent(r) == [] then r == Out([], 0, o.closed, o.sent + Unsent(o))
            else r.buf == o.buf
                 && (if socket(j).WouldBlock? then r.closed == o.closed
                     else r.closed && (socket(j).Failed? || socket(j) == Took(0)))
    decreases |o.buf| - o.pos
  {
    j := k;
    if o.pos < |o.buf| {
      var n := Accepted(socket(k), |o.buf| - o.pos);
      if n > 0 {
        SentMoves(o, n);
        j := FlushStops(o.(pos := o.pos + n, sent := o.sent + o.buf[o.pos..o.pos + n]), socket, k + 1);
      }
    } else {
      AppendNothing(o.sent);
    }
  }

  datatype Event = Appended(data: bytes) | Flushed(socket: Socket)

  function Handle(o: Out, e: Event): (r: Out)
    requires InBounds(o)
    ensures InBounds(r)
  {
    match e
    case Appended(data) => Append(o, data)
    case Flushed(socket) => Flush(o, socket, 0)
  }

  function HandleAll(o: Out, events: seq<Event>): (r: Out)
    requires InBounds(o)
    ensures InBounds(r)
    decreases |events|
  {
    if events == [] then o else HandleAll(Handle(o, events[0]), events[1..])
  }

  function AllAppended(events: seq<Event>): bytes {
    if events == [] then []
    else (if events[0].Appended? then events[0].data else []) + AllAppended(events[1..])
  }

  /**
   Exact delivery: after any mixture of appends and flushes, what the socket took followed by
   what is still buffered is everything ever appended, in order.
   */
  lemma {:induction false} ExactDelivery(o: Out, events: seq<Event>)
    requires InBounds(o)
    ensures var r := HandleAll(o, events);
            && r.sent + Unsent(r) == o.sent + Unsent(o) + AllAppended(events)
            && o.sent <= r.sent
    decreases |events|
  {
    if events == [] {
      AppendNothing(o.sent + Unsent(o));
    } else {
      var o' := Handle(o, events[0]);
      match events[0] {
        case Appended(data) =>
          assert o'.sent + Unsent(o') == (o.sent + Unsent(o)) + data;
        case Flushed(socket) =>
          FlushConserves(o, socket, 0);
          AppendNothing(o.sent + Unsent(o));
      }
      hide Handle;
      var data := if events[0].Appended? then events[0].data else [];
      ExactDelivery(o', events[1..]);
      Assoc(o.sent + Unsent(o), data, AllAppended(events[1..]));
    }
  }

  /** The outbound fields of `Connection`. */
  class Connection {
    var outBuf: bytes
    var outPos: nat
    var closed: bool
    ghost var sent: bytes

    constructor ()
      ensures Value() == Out([], 0, false, [])
    {
      outBuf, outPos, closed, sent := [], 0, false, [];
    }

    ghost function Value(): Out
      reads this
    {
      Out(outBuf, outPos, closed, sent)
    }

    method Enqueue(data: bytes)
      requires InBounds(Value())
      modifies this`outBuf
      ensures InBounds(Value()) && Value() == Append(old(Value()), data)
    {
      outBuf := outBuf + data;
    }

    /** `flush_connection` */
    method FlushConnection(socket: Socket)
      requires InBounds(Value())
      modifies this
      ensures InBounds(Value()) && Value() == Flush(old(Value()), socket, 0)
    {
      var k := 0;
      while true
        invariant InBounds(Value())
        invariant Flush(Value(), socket, k) == Flush(old(Value()), socket, 0)
        decreases |outBuf| - outPos
      {
        var remaining := if outPos < |outBuf| then |outBuf| - outPos else 0;
        if remaining == 0 {
          if outPos != 0 {
            outBuf := [];
            outPos := 0;
          }
          return;
        }
        var n := Accepted(socket(k), remaining);
        if n > 0 {
          sent := sent + outBuf[outPos..outPos + n];
          outPos := outPos + n;
          k := k + 1;
          continue;
        }
        if socket(k).WouldBlock? {
          return;
        }
        closed := true;
        return;
      }
    }
  }
}
