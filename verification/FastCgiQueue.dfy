/**
 The waiting queue on top of the record engine: a pass of `process_waiting_connections` calls
 `process_buffer` on real buffers, and all connections draw on one pool of arenas. What a
 visit achieves is decided by the arenas a connection still needs.
 */
module FastCgiQueue {
  import opened Bytes
  import opened FastCgiRecords
  import opened FastCgiSpec
  import opened FastCgiStreams
  import opened FastCgiDeferral
  import Waiting

  // ------------------------------------------------------------------ what is still needed

  /** With n arenas every BEGIN_REQUEST among the records gets one; `known` ids have theirs. */
  predicate Enough(known: set<nat>, recs: seq<Record>, n: nat)
    decreases |recs|
  {
    if recs == [] then true
    else if !Addressed(recs[0]) || recs[0].id in known then Enough(known, recs[1..], n)
    else if n > 0 then Enough(known + {recs[0].id}, recs[1..], n - 1)
    else recs[0].kind != BEGIN_REQUEST && Enough(known, recs[1..], 0)
  }

  function WithArenas(c: Conn, n: nat): Conn {
    c.(pool := Left(n))
  }

  /** A record takes an arena exactly when it addresses an unknown id and one is left. */
  lemma StepTakes(c: Conn, rec: Record, cfg: Config)
    requires c.pool.Left?
    ensures var c1 := Step(c, rec, cfg);
            && c1.pool.Left?
            && if Addressed(rec) && rec.id !in c.requests && c.pool.n > 0
               then c1.requests.Keys == c.requests.Keys + {rec.id} && c1.pool.n == c.pool.n - 1
                    && |c1.requests| == |c.requests| + 1
               else c1.requests.Keys == c.requests.Keys && c1.pool.n == c.pool.n && |c1.requests| == |c.requests|
    ensures Defers(c, rec) <==> Addressed(rec) && rec.id !in c.requests && c.pool.n == 0 && rec.kind == BEGIN_REQUEST
  {
    hide Handle;
    var c1 := Step(c, rec, cfg);
    assert |c1.requests.Keys| == |c1.requests| && |c.requests.Keys| == |c.requests|;
    assert Addressed(rec) && Known(c, rec.id) ==> c1.requests.Keys == c.requests.Keys + {rec.id};
  }

  /** Arenas go from the pool to requests and nowhere else. */
  lemma {:induction false} FoldTakes(c: Conn, recs: seq<Record>, cfg: Config)
    requires c.pool.Left?
    ensures var d := Fold(c, recs, cfg);
            d.pool.Left? && |d.requests| + d.pool.n == |c.requests| + c.pool.n
    decreases |recs|
  {
    if recs != [] {
      StepTakes(c, recs[0], cfg);
      hide Step;
      FoldTakes(Step(c, recs[0], cfg), recs[1..], cfg);
    }
  }

  lemma {:induction false} ReachesAllIff(c: Conn, recs: seq<Record>, cfg: Config)
    requires c.pool.Left?
    ensures Reached(c, recs, cfg) == recs <==> Enough(c.requests.Keys, recs, c.pool.n)
    decreases |recs|
  {
    if recs != [] {
      StepTakes(c, recs[0], cfg);
      hide Step, Defers, Addressed;
      if !Defers(c, recs[0]) {
        var c1 := Step(c, recs[0], cfg);
        ReachesAllIff(c1, recs[1..], cfg);
        TailOfCons(recs[0], Reached(c1, recs[1..], cfg));
      }
    }
  }

  lemma {:induction false} NothingTaken(c: Conn, recs: seq<Record>, cfg: Config)
    requires c.pool == Left(0)
    ensures Fold(c, recs, cfg).requests.Keys == c.requests.Keys
    decreases |recs|
  {
    if recs != [] {
      StepTakes(c, recs[0], cfg);
      hide Step;
      NothingTaken(Step(c, recs[0], cfg), recs[1..], cfg);
    }
  }

  /** What a deferred call has taken counts towards what the retry needs. */
  lemma {:induction false} TakenCounts(c: Conn, recs: seq<Record>, cfg: Config, m: nat)
    requires c.pool.Left? && Reached(c, recs, cfg) != recs
    ensures var taken := Fold(c, Reached(c, recs, cfg), cfg).requests.Keys;
            Enough(taken, recs, m) <==> Enough(c.requests.Keys, recs, c.pool.n + m)
    decreases |recs|
  {
    if c.pool.n == 0 {
      NothingTaken(c, Reached(c, recs, cfg), cfg);
    } else {
      var rec, c1 := recs[0], Step(c, recs[0], cfg);
      StepTakes(c, rec, cfg);
      hide Step, Defers, Addressed;
      var later := Reached(c1, recs[1..], cfg);
      TailOfCons(rec, later);
      assert later == recs[1..] ==> [rec] + later == recs;
      TakenCounts(c1, recs[1..], cfg, m);
      assert Fold(c, [rec] + later, cfg) == Fold(c1, later, cfg);
      if rec.id in c1.requests {
        FoldKeepsRequests(c1, later, cfg, rec.id);
      }
    }
  }

  // ------------------------------------------------------------------------- a visit

  /** A connection with its engine, its unread input and the two flags of the queue. */
  datatype Peer = Peer(conn: Conn, inBuf: bytes, waiting: bool, closed: bool)

  datatype Net = Net(peers: map<int, Peer>, queue: seq<int>, free: nat)

  /** The records a connection has not got to yet. */
  function Unread(p: Peer): seq<Record> {
    Decode(p.inBuf).records
  }

  /** n more arenas let the connection go on. */
  predicate Satisfied(p: Peer, n: nat) {
    Enough(p.conn.requests.Keys, Unread(p), n)
  }

  /** `process_fcgi` on a connection when `free` arenas are left. */
  function Visit(p: Peer, free: nat, cfg: Config): (Peer, nat) {
    if p.closed then (p, free)
    else
      var o := Run(p.inBuf, WithArenas(p.conn, free), cfg);
      (Peer(o.conn.(pool := p.conn.pool), o.rest, o.waiting, o.close), if o.conn.pool.Left? then o.conn.pool.n else 0)
  }

  /**
   What a visit achieves: the connection goes on exactly if the arenas left satisfy it. If they
   do not, it takes every one of them, keeps its input, and each counts towards what it needs.
   No arena is lost.
   */
  lemma VisitAchieves(p: Peer, free: nat, cfg: Config, m: nat)
    requires !p.closed
    ensures var (p', free') := Visit(p, free, cfg);
            && (p'.waiting <==> !Satisfied(p, free))
            && |p'.conn.requests| + free' == |p.conn.requests| + free
            && (p'.waiting ==> free' == 0 && p'.inBuf == p.inBuf && !p'.closed
                               && (Satisfied(p', m) <==> Satisfied(p, free + m)))
  {
    hide Run, Decode, Enough;
    var c := WithArenas(p.conn, free);
    var o := Run(p.inBuf, c, cfg);
    RunAchieves(p.inBuf, c, cfg, m);
    var (p', free') := Visit(p, free, cfg);
    assert p' == Peer(o.conn.(pool := p.conn.pool), o.rest, o.waiting, o.close) && free' == o.conn.pool.n;
    assert p'.conn.requests == o.conn.requests && c.requests == p.conn.requests;
  }

  lemma RunAchieves(buf: bytes, c: Conn, cfg: Config, m: nat)
    requires c.pool.Left?
    ensures var o, recs := Run(buf, c, cfg), Decode(buf).records;
            && (o.waiting <==> !Enough(c.requests.Keys, recs, c.pool.n))
            && o.conn.pool.Left? && |o.conn.requests| + o.conn.pool.n == |c.requests| + c.pool.n
            && (o.waiting ==> o.conn.pool.n == 0 && o.rest == buf && !o.close
                              && (Enough(o.conn.requests.Keys, recs, m) <==> Enough(c.requests.Keys, recs, c.pool.n + m)))
  {
    var recs := Decode(buf).records;
    assert buf[0..] == buf;
    hide Decode, Fold, Reached, Enough, RunFrom;
    RunIsFold(buf, 0, c, cfg);
    ReachesAllIff(c, recs, cfg);
    FoldTakes(c, Reached(c, recs, cfg), cfg);
    if Reached(c, recs, cfg) != recs {
      ReachedStopsAtDeferral(c, recs, cfg);
      TakenCounts(c, recs, cfg, m);
    }
  }

  // -------------------------------------------------------------------------- a pass

  /** One turn of `process_waiting_connections`; `flushFails` is what the socket does after a service. */
  function Turn(n: Net, flushFails: bool, cfg: Config): (Net, bool, bool)
    requires n.queue != []
  {
    var fd := n.queue[0];
    var popped := n.(queue := n.queue[1..]);
    if fd !in n.peers || n.peers[fd].closed then (popped, false, false)
    else
      var (p, free) := Visit(n.peers[fd], n.free, cfg);
      if n.peers[fd].waiting && !p.waiting then
        (popped.(peers := n.peers[fd := p.(closed := p.closed || flushFails)], free := free), true, false)
      else if p.waiting then
        (Net(n.peers[fd := p], popped.queue + [fd], free), false, true)
      else
        (popped.(peers := n.peers[fd := p], free := free), false, false)
  }

  function PassFrom(n: Net, left: nat, budget: int, fails: nat -> bool, visited: nat, cfg: Config): Net
    decreases left
  {
    if left == 0 || budget <= 0 || n.queue == [] then n
    else
      var (n1, served, _) := Turn(n, fails(visited), cfg);
      PassFrom(n1, left - 1, if served then budget - 1 else budget, fails, visited + 1, cfg)
  }

  function Pass(n: Net, fails: nat -> bool, cfg: Config): Net {
    PassFrom(n, |n.queue|, n.free, fails, 0, cfg)
  }

  // --------------------------------------------------- the laws of the queue carry over

  /** What the queue sees of the connections. */
  function AsWorld(n: Net): Waiting.World {
    Waiting.World(map fd | fd in n.peers :: Waiting.Conn(n.peers[fd].waiting, n.peers[fd].closed), n.queue)
  }

  /** What the engine and the socket answer at the front of the queue. */
  function OutcomeOf(n: Net, flushFails: bool, cfg: Config): Waiting.Outcome
    requires n.queue != []
  {
    var fd := n.queue[0];
    if fd !in n.peers then Waiting.Outcome(false, false, flushFails)
    else
      var p := Visit(n.peers[fd], n.free, cfg).0;
      Waiting.Outcome(p.waiting, p.closed, flushFails)
  }

  lemma TurnRefines(n: Net, flushFails: bool, cfg: Config)
    requires n.queue != []
    ensures var (n1, served, kept) := Turn(n, flushFails, cfg);
            (AsWorld(n1), served, kept) == Waiting.Turn(AsWorld(n), OutcomeOf(n, flushFails, cfg))
  {
    hide Run;
    var (n1, served, kept) := Turn(n, flushFails, cfg);
    var (w1, _, _) := Waiting.Turn(AsWorld(n), OutcomeOf(n, flushFails, cfg));
    assert AsWorld(n1).conns == w1.conns;
  }

  /** The answers the engine gives in the course of a pass. */
  function Outcomes(n: Net, left: nat, budget: int, fails: nat -> bool, visited: nat, cfg: Config): seq<Waiting.Outcome>
    decreases left
  {
    if left == 0 || budget <= 0 || n.queue == [] then []
    else
      var (n1, served, _) := Turn(n, fails(visited), cfg);
      [OutcomeOf(n, fails(visited), cfg)]
      + Outcomes(n1, left - 1, if served then budget - 1 else budget, fails, visited + 1, cfg)
  }

  predicate Answers(oracle: nat -> Waiting.Outcome, from: nat, os: seq<Waiting.Outcome>) {
    forall i: nat :: i < |os| ==> oracle(from + i) == os[i]
  }

  lemma AnswersOn(oracle: nat -> Waiting.Outcome, from: nat, o: Waiting.Outcome, later: seq<Waiting.Outcome>)
    requires Answers(oracle, from, [o] + later)
    ensures oracle(from) == o && Answers(oracle, from + 1, later)
  {
    var os := [o] + later;
    assert oracle(from + 0) == os[0];
    forall i: nat | i < |later|
      ensures oracle(from + 1 + i) == later[i]
    {
      assert oracle(from + (i + 1)) == os[i + 1];
    }
  }

  /** A pass over real connections is a pass of the queue with these answers, so all its laws hold. */
  lemma {:induction false} PassRefines(n: Net, left: nat, budget: int, fails: nat -> bool, visited: nat, cfg: Config,
                                       oracle: nat -> Waiting.Outcome)
    requires Answers(oracle, visited, Outcomes(n, left, budget, fails, visited, cfg))
    ensures AsWorld(PassFrom(n, left, budget, fails, visited, cfg))
         == Waiting.Serve(AsWorld(n), left, budget, oracle, visited).world
    decreases left
  {
    if left > 0 && budget > 0 && n.queue != [] {
      var (n1, served, _) := Turn(n, fails(visited), cfg);
      var b := if served then budget - 1 else budget;
      var os := Outcomes(n, left, budget, fails, visited, cfg);
      var later := Outcomes(n1, left - 1, b, fails, visited + 1, cfg);
      TurnRefines(n, fails(visited), cfg);
      hide Turn, OutcomeOf;
      assert os == [OutcomeOf(n, fails(visited), cfg)] + later;
      AnswersOn(oracle, visited, OutcomeOf(n, fails(visited), cfg), later);
      hide Answers;
      PassRefines(n1, left - 1, b, fails, visited + 1, cfg, oracle);
      Waiting.ServeTurn(AsWorld(n), left, budget, oracle, visited);
    }
  }

  // ------------------------------------------------------------------- service and starvation

  /** The connection at the front is served exactly if the arenas left satisfy it; otherwise it takes them all. */
  lemma FrontIsServedIff(n: Net, flushFails: bool, cfg: Config)
    requires n.queue != [] && n.queue[0] in n.peers
    requires !n.peers[n.queue[0]].closed && n.peers[n.queue[0]].waiting
    ensures var (n1, served, kept) := Turn(n, flushFails, cfg);
            && (served <==> Satisfied(n.peers[n.queue[0]], n.free))
            && kept == !served && (kept ==> n1.free == 0)
  {
    VisitAchieves(n.peers[n.queue[0]], n.free, cfg, 0);
    hide Visit, Satisfied;
  }

  /** A connection whose next record is a BEGIN_REQUEST of a new request. */
  predicate AtNewRequest(p: Peer) {
    NextRecord(p.inBuf).Complete? && Defers(WithArenas(p.conn, 0), NextRecord(p.inBuf).record)
  }

  /** a and b wait in this order, both open, b for a new request. */
  predicate Behind(n: Net, a: int, b: int) {
    && a != b && n.queue == [a, b] && a in n.peers && b in n.peers
    && n.peers[a].waiting && !n.peers[a].closed
    && n.peers[b].waiting && !n.peers[b].closed && AtNewRequest(n.peers[b])
  }

  /**
   Arenas that do not satisfy the first connection do nothing for the second: the first takes
   them all and both wait on, in the same order.
   */
  lemma FirstTakesAll(n: Net, a: int, b: int, fails: nat -> bool, cfg: Config, m: nat)
    requires Behind(n, a, b) && n.free > 0 && !Satisfied(n.peers[a], n.free)
    ensures var n' := Pass(n, fails, cfg);
            && Behind(n', a, b) && n'.free == 0 && n'.peers[b] == n.peers[b]
            && (Satisfied(n'.peers[a], m) <==> Satisfied(n.peers[a], n.free + m))
  {
    VisitAchieves(n.peers[a], n.free, cfg, m);
    var n1 := Turn(n, fails(0), cfg).0;
    var p := Visit(n.peers[a], n.free, cfg).0;
    VisitWithout(n.peers[b], cfg);
    hide Visit, Satisfied, AtNewRequest;
    assert n1 == Net(n.peers[a := p], [b, a], 0);
    SecondGetsNothing(n1, b, a, fails(1), cfg);
    hide Turn;
    TwoTurns(n, fails, cfg);
  }

  lemma SecondGetsNothing(n: Net, b: int, a: int, flushFails: bool, cfg: Config)
    requires n.queue == [b, a] && n.free == 0 && b in n.peers && !n.peers[b].closed && n.peers[b].waiting
    requires Visit(n.peers[b], 0, cfg) == (n.peers[b], 0)
    ensures Turn(n, flushFails, cfg).0 == n.(queue := [a, b])
  {
    hide Visit;
    assert n.peers[b := n.peers[b]] == n.peers;
  }

  lemma TwoTurns(n: Net, fails: nat -> bool, cfg: Config)
    requires |n.queue| == 2 && n.free > 0
    requires var (n1, served, _) := Turn(n, fails(0), cfg); !served && n1.queue != []
    ensures Pass(n, fails, cfg) == Turn(Turn(n, fails(0), cfg).0, fails(1), cfg).0
  {
    hide Turn;
    var n1 := Turn(n, fails(0), cfg).0;
    var (n2, served, _) := Turn(n1, fails(1), cfg);
    assert PassFrom(n2, 0, if served then n.free - 1 else n.free, fails, 2, cfg) == n2;
    assert PassFrom(n1, 1, n.free, fails, 1, cfg) == n2;
  }

  lemma VisitWithout(p: Peer, cfg: Config)
    requires !p.closed && p.waiting && AtNewRequest(p)
    ensures Visit(p, 0, cfg) == (p, 0)
  {
    DeferralAtFrontIsNoOp(p.inBuf, WithArenas(p.conn, 0), cfg);
    hide Run;
  }

  /** m passes, each with one arena that became free. */
  function Rounds(n: Net, m: nat, fails: nat -> bool, cfg: Config): Net
    decreases m
  {
    if m == 0 then n else Rounds(Pass(n.(free := n.free + 1), fails, cfg), m - 1, fails, cfg)
  }

  /**
   So a connection can be passed over again and again: as long as the first one needs more than
   m arenas, m passes with a free arena each leave the second exactly as it was.
   */
  lemma {:induction false} PassedOver(n: Net, a: int, b: int, m: nat, fails: nat -> bool, cfg: Config)
    requires Behind(n, a, b) && n.free == 0 && !Satisfied(n.peers[a], m)
    ensures var n' := Rounds(n, m, fails, cfg);
            Behind(n', a, b) && n'.free == 0 && n'.peers[b] == n.peers[b]
    decreases m
  {
    if m > 0 {
      var start := n.(free := 1);
      hide Satisfied, Pass, AtNewRequest;
      NotYetSatisfied(n.peers[a], 1, m);
      FirstTakesAll(start, a, b, fails, cfg, m - 1);
      PassedOver(Pass(start, fails, cfg), a, b, m - 1, fails, cfg);
    }
  }

  lemma NotYetSatisfied(p: Peer, n: nat, m: nat)
    requires n <= m && !Satisfied(p, m)
    ensures !Satisfied(p, n)
  {
    var known := p.conn.requests.Keys;
    if Enough(known, Unread(p), n) {
      MoreSatisfies(known, known, Unread(p), n, m);
    }
  }

  /** More arenas, or more of them handed out already, never hurt. */
  lemma {:induction false} MoreSatisfies(known: set<nat>, known': set<nat>, recs: seq<Record>, n: nat, m: nat)
    requires known <= known' && n <= m && Enough(known, recs, n)
    ensures Enough(known', recs, m)
    decreases |recs|
  {
    if recs != [] {
      var id := recs[0].id;
      hide Addressed;
      if !Addressed(recs[0]) || id in known {
        MoreSatisfies(known, known', recs[1..], n, m);
      } else {
        var k, n1 := if n > 0 then known + {id} else known, if n > 0 then n - 1 else 0;
        if id in known' || m == 0 {
          MoreSatisfies(k, known', recs[1..], n1, m);
        } else {
          MoreSatisfies(k, known' + {id}, recs[1..], n1, m - 1);
        }
      }
    }
  }

  /** The opening records of `count` requests with consecutive ids. */
  function Begins(first: nat, count: nat): seq<Record>
    decreases count
  {
    if count == 0 then [] else [Record(BEGIN_REQUEST, first, [0, 1, 0, 0, 0, 0, 0, 0])] + Begins(first + 1, count - 1)
  }

  /** They need exactly `count` arenas, so a connection can need any number. */
  lemma {:induction false} BeginsNeed(known: set<nat>, first: nat, count: nat, n: nat)
    requires forall k :: k in known ==> k < first
    ensures Enough(known, Begins(first, count), n) <==> count <= n
    decreases count
  {
    if count > 0 {
      var rec := Record(BEGIN_REQUEST, first, [0, 1, 0, 0, 0, 0, 0, 0]);
      TailOfCons(rec, Begins(first + 1, count - 1));
      if n > 0 {
        BeginsNeed(known + {first}, first + 1, count - 1, n - 1);
      }
    }
  }
}
