/**
 The queue of connections that wait for an arena: `handle_io` enters them,
 `process_waiting_connections` serves them. What `process_fcgi` and the socket do to a
 connection is left open.
 */
module Waiting {
  import opened Bytes

  datatype Conn = Conn(waiting: bool, closed: bool)

  datatype World = World(conns: map<int, Conn>, queue: seq<int>)

  /** What one `process_fcgi` call makes of a connection, and whether a later flush fails. */
  datatype Outcome = Outcome(waits: bool, closes: bool, flushFails: bool)

  /** `process_fcgi` does nothing on a closed connection. */
  function Process(c: Conn, o: Outcome): Conn {
    if c.closed then c else Conn(o.waits, o.closes)
  }

  function AfterFlush(c: Conn, o: Outcome): Conn {
    c.(closed := c.closed || o.flushFails)
  }

  /** `handle_io` on readable input; `hungUp` covers every way the socket marks the connection closed before. */
  function HandleIo(w: World, fd: int, hungUp: bool, o: Outcome): World {
    if fd !in w.conns then w
    else
      var c := w.conns[fd].(closed := w.conns[fd].closed || hungUp);
      var c' := Process(c, o);
      World(w.conns[fd := AfterFlush(c', o)],
            if !c.waiting && c'.waiting then w.queue + [fd] else w.queue)
  }

  /**
   The world after a pass, how many entries were taken off the queue, which of them were put
   back, and how many connections got what they waited for.
   */
  datatype Pass = Pass(world: World, visited: nat, kept: seq<int>, served: nat)

  /** One turn of the loop on a non-empty queue: whether the front entry was served, or put back. */
  function Turn(w: World, o: Outcome): (World, bool, bool)
    requires w.queue != []
  {
    var fd := w.queue[0];
    var popped := w.(queue := w.queue[1..]);
    if fd !in w.conns || w.conns[fd].closed then (popped, false, false)
    else
      var c' := Process(w.conns[fd], o);
      if w.conns[fd].waiting && !c'.waiting then (popped.(conns := w.conns[fd := AfterFlush(c', o)]), true, false)
      else if c'.waiting then (World(w.conns[fd := c'], popped.queue + [fd]), false, true)
      else (popped.(conns := w.conns[fd := c']), false, false)
  }

  /**
   The loop of `process_waiting_connections`: at most `left` more turns, `budget` more
   connections to serve; `oracle(i)` is what happens at the i-th visit.
   */
  function Serve(w: World, left: nat, budget: int, oracle: nat -> Outcome, visited: nat): Pass
    decreases left
  {
    if left == 0 || budget <= 0 || w.queue == [] then Pass(w, 0, [], 0)
    else
      var (w1, served, kept) := Turn(w, oracle(visited));
      var r := Serve(w1, left - 1, if served then budget - 1 else budget, oracle, visited + 1);
      Pass(r.world, r.visited + 1, if kept then [w.queue[0]] + r.kept else r.kept,
           if served then r.served + 1 else r.served)
  }

  /** One pass, which looks at the length of the queue only once. */
  function ServeWaiting(w: World, available: int, oracle: nat -> Outcome): Pass {
    Serve(w, |w.queue|, available, oracle, 0)
  }

  /** Every open connection that waits is in the queue. */
  ghost predicate NoneLost(w: World) {
    forall fd :: fd in w.conns && w.conns[fd].waiting && !w.conns[fd].closed ==> fd in w.queue
  }

  predicate SubsequenceOf(a: seq<int>, b: seq<int>)
    decreases |b|
  {
    if a == [] then true
    else if b == [] then false
    else if a[0] == b[0] then SubsequenceOf(a[1..], b[1..])
    else SubsequenceOf(a, b[1..])
  }

  lemma {:induction false} SubsequenceSkips(a: seq<int>, x: int, b: seq<int>)
    requires SubsequenceOf(a, b)
    ensures SubsequenceOf(a, [x] + b)
    decreases |b|, 1
  {
    TailOfCons(x, b);
    if a != [] && a[0] == x {
      SubsequenceTail(a, b);
    }
  }

  lemma {:induction false} SubsequenceTail(a: seq<int>, b: seq<int>)
    requires a != [] && SubsequenceOf(a, b)
    ensures SubsequenceOf(a[1..], b)
    decreases |b|, 0
  {
    if a[0] == b[0] {
      SubsequenceSkips(a[1..], b[0], b[1..]);
      assert [b[0]] + b[1..] == b;
    } else {
      SubsequenceTail(a, b[1..]);
      SubsequenceSkips(a[1..], b[0], b[1..]);
      assert [b[0]] + b[1..] == b;
    }
  }

  // ------------------------------------------------------------- the shape of a pass

  ghost predicate Shaped(w: World, left: nat, budget: int, r: Pass) {
    && r.visited <= left <= |w.queue|
    && r.world.queue == w.queue[r.visited..] + r.kept
    && SubsequenceOf(r.kept, w.queue[..r.visited])
    && r.served <= r.visited && r.served <= (if budget > 0 then budget else 0)
    && (r.visited == left || r.served == (if budget > 0 then budget else 0))
  }

  lemma ShapedNothing(w: World, left: nat, budget: int)
    requires left <= |w.queue| && (left == 0 || budget <= 0)
    ensures Shaped(w, left, budget, Pass(w, 0, [], 0))
  {
    AppendNothing(w.queue);
  }

  /** A turn that drops the front entry. */
  lemma ShapedDrop(w: World, w1: World, left: nat, budget: int, r: Pass, served: nat)
    requires w.queue != [] && w1.queue == w.queue[1..] && 0 < left <= |w.queue| && budget > 0
    requires served <= 1 && Shaped(w1, left - 1, budget - served, r)
    ensures Shaped(w, left, budget, r.(visited := r.visited + 1, served := r.served + served))
  {
    hide SubsequenceOf;
    DropTwice(w.queue, 1, r.visited);
    assert w.queue[..r.visited + 1] == [w.queue[0]] + w1.queue[..r.visited];
    SubsequenceSkips(r.kept, w.queue[0], w1.queue[..r.visited]);
  }

  /** A turn that puts the front entry back. */
  lemma ShapedKeep(w: World, w1: World, left: nat, budget: int, r: Pass)
    requires w.queue != [] && w1.queue == w.queue[1..] + [w.queue[0]] && 0 < left <= |w.queue| && budget > 0
    requires Shaped(w1, left - 1, budget, r)
    ensures Shaped(w, left, budget, r.(visited := r.visited + 1, kept := [w.queue[0]] + r.kept))
  {
    var fd, q := w.queue[0], w.queue[1..];
    var v := r.visited;
    KeepText(q, fd, v, r.kept);
    DropTwice(w.queue, 1, v);
    assert w.queue[..v + 1] == [fd] + q[..v];
    TailOfCons(fd, q[..v]);
    TailOfCons(fd, r.kept);
    hide SubsequenceOf;
    KeptFirst(fd, r.kept, q[..v]);
  }

  lemma KeptFirst(x: int, a: seq<int>, b: seq<int>)
    requires SubsequenceOf(a, b)
    ensures SubsequenceOf([x] + a, [x] + b)
  {
    TailOfCons(x, a);
    TailOfCons(x, b);
  }

  lemma KeepText(q: seq<int>, fd: int, v: nat, kept: seq<int>)
    requires v <= |q|
    ensures (q + [fd])[v..] + kept == q[v..] + ([fd] + kept)
    ensures (q + [fd])[..v] == q[..v]
  {
  }

  lemma TurnQueue(w: World, o: Outcome)
    requires w.queue != []
    ensures var (w1, served, kept) := Turn(w, o);
            w1.queue == (if kept then w.queue[1..] + [w.queue[0]] else w.queue[1..]) && !(served && kept)
  {
  }

  /**
   A turn uses up budget exactly when an open connection stops waiting; an entry goes back
   exactly when its connection waits on; and an entry without an open connection just goes.
   */
  lemma TurnMeans(w: World, o: Outcome)
    requires w.queue != []
    ensures var fd := w.queue[0];
            var (w1, served, kept) := Turn(w, o);
            && (served <==> fd in w.conns && !w.conns[fd].closed && w.conns[fd].waiting && !w1.conns[fd].waiting)
            && (kept <==> fd in w.conns && !w.conns[fd].closed && w1.conns[fd].waiting)
            && (fd !in w.conns || w.conns[fd].closed ==> w1.conns == w.conns)
            && (served ==> w1.conns[fd].closed == (o.closes || o.flushFails))
            && (fd in w.conns && !w.conns[fd].closed && !served ==> w1.conns[fd].closed == o.closes)
  {
  }

  lemma ServeTurn(w: World, left: nat, budget: int, oracle: nat -> Outcome, visited: nat)
    requires left > 0 && budget > 0 && w.queue != []
    ensures var (w1, served, kept) := Turn(w, oracle(visited));
            var r := Serve(w1, left - 1, if served then budget - 1 else budget, oracle, visited + 1);
            Serve(w, left, budget, oracle, visited)
              == Pass(r.world, r.visited + 1, if kept then [w.queue[0]] + r.kept else r.kept,
                      if served then r.served + 1 else r.served)
  {
  }

  /**
   A pass takes at most as many entries as the queue had, in order from the front; those
   still waiting go to the back, behind the unvisited ones and in their old relative order;
   it serves at most `budget` connections and stops early only when it has served that many.
   */
  lemma {:induction false} PassShape(w: World, left: nat, budget: int, oracle: nat -> Outcome, visited: nat)
    requires left <= |w.queue|
    ensures Shaped(w, left, budget, Serve(w, left, budget, oracle, visited))
    decreases left
  {
    hide Serve, Shaped, Turn;
    if left == 0 || budget <= 0 {
      ServeNothing(w, left, budget, oracle, visited);
      ShapedNothing(w, left, budget);
    } else {
      var (w1, served, kept) := Turn(w, oracle(visited));
      var r := Serve(w1, left - 1, if served then budget - 1 else budget, oracle, visited + 1);
      ServeTurn(w, left, budget, oracle, visited);
      TurnQueue(w, oracle(visited));
      PassShape(w1, left - 1, if served then budget - 1 else budget, oracle, visited + 1);
      if kept {
        ShapedKeep(w, w1, left, budget, r);
      } else {
        ShapedDrop(w, w1, left, budget, r, if served then 1 else 0);
      }
    }
  }

  lemma TurnLosesNone(w: World, o: Outcome)
    requires NoneLost(w) && w.queue != []
    ensures NoneLost(Turn(w, o).0)
  {
    var w1 := Turn(w, o).0;
    assert w.queue == [w.queue[0]] + w.queue[1..];
    forall fd | fd in w1.conns && w1.conns[fd].waiting && !w1.conns[fd].closed
      ensures fd in w1.queue
    {
      if fd != w.queue[0] {
        assert fd in w.queue;
      }
    }
  }

  lemma {:induction false} PassLosesNone(w: World, left: nat, budget: int, oracle: nat -> Outcome, visited: nat)
    requires NoneLost(w)
    ensures NoneLost(Serve(w, left, budget, oracle, visited).world)
    decreases left
  {
    if left > 0 && budget > 0 && w.queue != [] {
      TurnLosesNone(w, oracle(visited));
      ServeTurn(w, left, budget, oracle, visited);
      var (w1, served, kept) := Turn(w, oracle(visited));
      hide Serve, NoneLost, Turn;
      PassLosesNone(w1, left - 1, if served then budget - 1 else budget, oracle, visited + 1);
    }
  }

  // ---------------------------------------------------------------------- whole runs

  datatype Event =
    | Readable(fd: int, hungUp: bool, outcome: Outcome)
    | Writable(fd: int, hungUp: bool, flushFails: bool)
    | ArenaFreed(available: int, oracle: nat -> Outcome)
    | Accepted(fd: int)
    | Dropped(fd: int)

  function Next(w: World, e: Event): World {
    match e
    case Readable(fd, hungUp, outcome) => HandleIo(w, fd, hungUp, outcome)
    case Writable(fd, hungUp, flushFails) =>
      if fd !in w.conns then w
      else w.(conns := w.conns[fd := w.conns[fd].(closed := w.conns[fd].closed || hungUp || flushFails)])
    case ArenaFreed(available, oracle) => ServeWaiting(w, available, oracle).world
    case Accepted(fd) => if fd in w.conns then w else w.(conns := w.conns[fd := Conn(false, false)])
    case Dropped(fd) => w.(conns := w.conns - {fd})
  }

  function After(w: World, events: seq<Event>): World
    decreases |events|
  {
    if events == [] then w else After(Next(w, events[0]), events[1..])
  }

  lemma NextLosesNone(w: World, e: Event)
    requires NoneLost(w)
    ensures NoneLost(Next(w, e))
  {
    match e
    case ArenaFreed(available, oracle) => PassLosesNone(w, |w.queue|, available, oracle, 0);
    case _ =>
  }

  /** In every reachable state each open connection that waits for an arena is in the queue. */
  lemma {:induction false} NoLostWaiter(w: World, events: seq<Event>)
    requires NoneLost(w)
    ensures NoneLost(After(w, events))
    decreases |events|
  {
    if events != [] {
      NextLosesNone(w, events[0]);
      hide NoneLost, Next;
      NoLostWaiter(Next(w, events[0]), events[1..]);
    }
  }

  // ------------------------------------------------------------------ no entry twice

  predicate Distinct(q: seq<int>) {
    forall i, j :: 0 <= i < j < |q| ==> q[i] != q[j]
  }

  /** The event makes a connection start to wait whose fd is still in the queue from an earlier wait. */
  predicate QueuesAgain(w: World, e: Event) {
    && e.Readable? && e.fd in w.conns && e.fd in w.queue
    && !w.conns[e.fd].closed && !e.hungUp && !w.conns[e.fd].waiting && e.outcome.waits
  }

  lemma TurnKeepsDistinct(w: World, o: Outcome)
    requires w.queue != [] && Distinct(w.queue)
    ensures Distinct(Turn(w, o).0.queue)
  {
    TurnQueue(w, o);
    hide Turn;
    var q := w.queue[1..];
    assert forall i :: 0 <= i < |q| ==> q[i] == w.queue[i + 1];
  }

  lemma {:induction false} PassKeepsDistinct(w: World, left: nat, budget: int, oracle: nat -> Outcome, visited: nat)
    requires Distinct(w.queue)
    ensures Distinct(Serve(w, left, budget, oracle, visited).world.queue)
    decreases left
  {
    if left > 0 && budget > 0 && w.queue != [] {
      ServeTurn(w, left, budget, oracle, visited);
      TurnKeepsDistinct(w, oracle(visited));
      var (w1, served, kept) := Turn(w, oracle(visited));
      hide Serve, Turn, Distinct;
      PassKeepsDistinct(w1, left - 1, if served then budget - 1 else budget, oracle, visited + 1);
    }
  }

  /**
   From a queue without duplicates, an event leaves one exactly if it makes no connection start
   to wait that is still queued: reads of a connection that goes on waiting queue nothing.
   */
  lemma DistinctIff(w: World, e: Event)
    requires Distinct(w.queue)
    ensures Distinct(Next(w, e).queue) <==> !QueuesAgain(w, e)
  {
    match e
    case Readable(fd, hungUp, outcome) =>
      var q := w.queue + [fd];
      if fd in w.queue {
        var i :| 0 <= i < |w.queue| && w.queue[i] == fd;
        assert q[i] == q[|w.queue|];
      } else {
        assert Distinct(q);
      }
    case ArenaFreed(available, oracle) => PassKeepsDistinct(w, |w.queue|, available, oracle, 0);
    case _ =>
  }

  predicate SomeQueuesAgain(w: World, events: seq<Event>)
    decreases |events|
  {
    events != [] && (QueuesAgain(w, events[0]) || SomeQueuesAgain(Next(w, events[0]), events[1..]))
  }

  /** So over a whole run no state has a duplicate if and only if no event queues a connection again. */
  lemma {:induction false} AlwaysDistinctIff(w: World, events: seq<Event>)
    requires Distinct(w.queue)
    ensures (forall n :: 0 <= n <= |events| ==> Distinct(After(w, events[..n]).queue)) <==> !SomeQueuesAgain(w, events)
    decreases |events|
  {
    var none: seq<Event> := [];
    assert events[..0] == none;
    if events != [] {
      var w1 := Next(w, events[0]);
      DistinctIff(w, events[0]);
      hide Next, Distinct, QueuesAgain;
      assert forall n :: 1 <= n <= |events| ==> After(w, events[..n]) == After(w1, events[1..][..n - 1]) by {
        forall n | 1 <= n <= |events|
          ensures After(w, events[..n]) == After(w1, events[1..][..n - 1])
        {
          assert events[..n][1..] == events[1..][..n - 1];
        }
      }
      assert events[1..][..0] == none;
      if Distinct(w1.queue) {
        AlwaysDistinctIff(w1, events[1..]);
        assert forall n :: 0 <= n <= |events| - 1 ==> After(w1, events[1..][..n]) == After(w, events[..n + 1]);
      } else {
        assert After(w, events[..1]) == w1;
      }
    }
  }

  /** A connection that waits, gets its arena from a read of its own, and waits again is queued twice. */
  lemma StaleEntry(fd: int)
    ensures var waits, goesOn := Readable(fd, false, Outcome(true, false, false)), Readable(fd, false, Outcome(false, false, false));
            After(World(map[], []), [Accepted(fd), waits, goesOn, waits]) == World(map[fd := Conn(true, false)], [fd, fd])
  {
    var waits, goesOn := Readable(fd, false, Outcome(true, false, false)), Readable(fd, false, Outcome(false, false, false));
    var es := [Accepted(fd), waits, goesOn, waits];
    var w := Next(World(map[], []), Accepted(fd));
    var w1 := Next(w, waits);
    var w2 := Next(w1, goesOn);
    var w3 := Next(w2, waits);
    assert w == World(map[fd := Conn(false, false)], []);
    assert w1.queue == [fd] && w2.queue == [fd] && w3 == World(map[fd := Conn(true, false)], [fd, fd]);
    assert es[1..] == [waits, goesOn, waits] && es[1..][1..] == [goesOn, waits];
    assert es[1..][1..][1..] == [waits] && es[1..][1..][1..][1..] == [];
    hide Next;
    assert After(w3, es[1..][1..][1..][1..]) == w3;
    assert After(w2, es[1..][1..][1..]) == w3;
    assert After(w1, es[1..][1..]) == w3;
    assert After(w, es[1..]) == w3;
  }

  // ------------------------------------------------------------------------ progress

  /** Where the entry at position p of the queue is after an event; nowhere once a pass has visited it. */
  function Place(w: World, e: Event, p: nat): Option<nat> {
    match e
    case ArenaFreed(available, oracle) =>
      var visited := ServeWaiting(w, available, oracle).visited;
      if p < visited then None else Some(p - visited)
    case _ => Some(p)
  }

  function PlaceAfter(w: World, events: seq<Event>, p: nat): Option<nat>
    decreases |events|
  {
    if events == [] then Some(p)
    else
      match Place(w, events[0], p)
      case None => None
      case Some(q) => PlaceAfter(Next(w, events[0]), events[1..], q)
  }

  /** The arenas an event offers to the queue. */
  function Offer(e: Event): nat {
    if e.ArenaFreed? && e.available > 0 then e.available else 0
  }

  function Offered(events: seq<Event>): nat {
    if events == [] then 0 else Offer(events[0]) + Offered(events[1..])
  }

  lemma EntryMovesUp(w: World, e: Event, p: nat)
    requires p < |w.queue|
    ensures match Place(w, e, p) {
              case None => e.ArenaFreed? && p < ServeWaiting(w, e.available, e.oracle).visited
              case Some(q) =>
                q < |Next(w, e).queue| && Next(w, e).queue[q] == w.queue[p] && q + Offer(e) <= p
            }
  {
    match e
    case ArenaFreed(available, oracle) =>
      PassShape(w, |w.queue|, available, oracle, 0);
      hide Serve, SubsequenceOf;
    case _ =>
  }

  /**
   Every entry is visited: the one at position p moves up by at least the arenas offered to each
   pass, and its turn comes before more than p of them have been, whatever else happens meanwhile.
   */
  lemma {:induction false} EntryIsVisited(w: World, events: seq<Event>, p: nat)
    requires p < |w.queue|
    ensures match PlaceAfter(w, events, p) {
              case None => true
              case Some(q) =>
                && q < |After(w, events).queue| && After(w, events).queue[q] == w.queue[p]
                && q + Offered(events) <= p
            }
    ensures Offered(events) > p ==> PlaceAfter(w, events, p) == None
    decreases |events|
  {
    if events != [] {
      EntryMovesUp(w, events[0], p);
      hide Next, Place, Offer;
      match Place(w, events[0], p)
      case None =>
      case Some(q) => EntryIsVisited(Next(w, events[0]), events[1..], q);
    }
  }

  // ----------------------------------------------------------------- the event loop

  /** `g_conns` and `g_waiting_conns` with the functions that use them. */
  class EventLoop {
    var conns: map<int, Conn>
    var queue: seq<int>

    constructor ()
      ensures Value() == World(map[], []) && NoneLost(Value())
    {
      conns, queue := map[], [];
    }

    ghost function Value(): World
      reads this
    {
      World(conns, queue)
    }

    /** The waiting-queue part of `handle_io` for a readable connection. */
    method OnReadable(fd: int, hungUp: bool, o: Outcome)
      modifies this
      ensures Value() == HandleIo(old(Value()), fd, hungUp, o)
    {
      if fd !in conns {
        return;
      }
      if hungUp {
        conns := conns[fd := conns[fd].(closed := true)];
      }
      var prevWait := conns[fd].waiting;
      conns := conns[fd := Process(conns[fd], o)];
      if !prevWait && conns[fd].waiting {
        queue := queue + [fd];
      }
      conns := conns[fd := AfterFlush(conns[fd], o)];
    }

    /** The body of the loop in `process_waiting_connections`. */
    method ServeFront(o: Outcome) returns (served: bool, back: bool)
      requires queue != []
      modifies this
      ensures (Value(), served, back) == Turn(old(Value()), o)
    {
      served, back := false, false;
      var fd := queue[0];
      queue := queue[1..];
      if fd !in conns || conns[fd].closed {
        return;
      }
      var wasWaiting := conns[fd].waiting;
      var c := Process(conns[fd], o);
      if wasWaiting && !c.waiting {
        served := true;
        c := AfterFlush(c, o);
      } else if c.waiting {
        queue := queue + [fd];
        back := true;
      }
      conns := conns[fd := c];
    }

    /** The loop itself. */
    method ServeQueue(initial: nat, available: int, oracle: nat -> Outcome) returns (visited: nat, ghost r: Pass)
      modifies this
      ensures r == Serve(old(Value()), initial, available, oracle, 0)
      ensures Value() == r.world && visited == r.visited
    {
      hide Serve, Turn, Prepend;
      ghost var goal := Serve(Value(), initial, available, oracle, 0);
      ghost var kept, served := [], 0;
      var budget := available;
      var i := 0;
      PrependNothing(goal, 0, [], 0);
      while i < initial && budget > 0 && queue != []
        invariant 0 <= i <= initial
        invariant goal == Prepend(Serve(Value(), initial - i, budget, oracle, i), i, kept, served)
      {
        ghost var w := Value();
        var ok, back := ServeFront(oracle(i));
        PrependTurn(w, initial - i, budget, oracle, i, kept, served);
        if ok {
          budget := budget - 1;
          served := served + 1;
        }
        kept := kept + if back then [w.queue[0]] else [];
        i := i + 1;
      }
      visited := i;
      ServeNothing(Value(), initial - i, budget, oracle, i);
      PrependNothing(Pass(Value(), 0, [], 0), i, kept, served);
      r := goal;
    }

    /** `process_waiting_connections` */
    method ProcessWaiting(available: int, oracle: nat -> Outcome) returns (visited: nat, ghost kept: seq<int>)
      requires NoneLost(Value())
      modifies this
      ensures NoneLost(Value()) && Value() == ServeWaiting(old(Value()), available, oracle).world
      ensures visited <= |old(queue)| && queue == old(queue)[visited..] + kept
      ensures SubsequenceOf(kept, old(queue)[..visited])
    {
      PassShape(Value(), |queue|, available, oracle, 0);
      PassLosesNone(Value(), |queue|, available, oracle, 0);
      hide Serve, NoneLost, SubsequenceOf;
      ghost var r;
      visited, r := ServeQueue(|queue|, available, oracle);
      kept := r.kept;
    }
  }

  lemma PrependNothing(r: Pass, visited: nat, kept: seq<int>, served: nat)
    ensures Prepend(r, 0, [], 0) == r
    ensures r.visited == 0 && r.kept == [] && r.served == 0 ==>
              Prepend(r, visited, kept, served) == Pass(r.world, visited, kept, served)
  {
    AppendNothing(r.kept);
    AppendNothing(kept);
  }

  lemma PrependTurn(w: World, left: nat, budget: int, oracle: nat -> Outcome, i: nat, kept: seq<int>, served: nat)
    requires left > 0 && budget > 0 && w.queue != []
    ensures var (w1, ok, back) := Turn(w, oracle(i));
            Prepend(Serve(w, left, budget, oracle, i), i, kept, served)
            == Prepend(Serve(w1, left - 1, if ok then budget - 1 else budget, oracle, i + 1), i + 1,
                       kept + (if back then [w.queue[0]] else []), if ok then served + 1 else served)
  {
    hide Serve, Turn;
    ServeTurn(w, left, budget, oracle, i);
    var (w1, ok, back) := Turn(w, oracle(i));
    var r := Serve(w1, left - 1, if ok then budget - 1 else budget, oracle, i + 1);
    Assoc(kept, [w.queue[0]], r.kept);
    AppendNothing(kept);
  }

  /** A pass whose first turns are already behind it. */
  ghost function Prepend(r: Pass, visited: nat, kept: seq<int>, served: nat): Pass {
    Pass(r.world, visited + r.visited, kept + r.kept, served + r.served)
  }

  lemma ServeNothing(w: World, left: nat, budget: int, oracle: nat -> Outcome, visited: nat)
    ensures left == 0 || budget <= 0 || w.queue == [] ==> Serve(w, left, budget, oracle, visited) == Pass(w, 0, [], 0)
  {
  }
}
