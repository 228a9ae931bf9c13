/**
 A BEGIN_REQUEST that finds no arena: the call returns and leaves the whole buffer in place,
 so the retry goes over the records before it a second time. What that does in general, and
 exactly when a request does not notice.
 */
module FastCgiDeferral {
  import opened Bytes
  import opened FastCgiRecords
  import opened FastCgiSpec
  import opened FastCgiStreams

  // -------------------------------------------------------------- deferred requests

  /** A BEGIN_REQUEST at the front of the buffer that finds no arena changes nothing but the waiting flag. */
  lemma DeferralAtFrontIsNoOp(buf: bytes, c: Conn, cfg: Config)
    requires NextRecord(buf).Complete? && Defers(c, NextRecord(buf).record)
    ensures Run(buf, c, cfg) == Outcome(c, buf, false, true)
  {
  }

  function Supplied(c: Conn): Conn {
    c.(pool := Ample)
  }

  /**
   What a deferral costs in general: the retry, once arenas are back, applies every record
   the deferred call had reached a second time before it goes on.
   */
  lemma DeferralReplays(buf: bytes, c: Conn, cfg: Config)
    requires Run(buf, c, cfg).waiting
    ensures var d := Decode(buf);
            var reached := Reached(c, d.records, cfg);
            var first := Run(buf, c, cfg);
            && reached < d.records && Defers(first.conn, d.records[|reached|])
            && first == Outcome(Fold(c, reached, cfg), buf, false, true)
            && Run(first.rest, Supplied(first.conn), cfg)
               == Outcome(Fold(Fold(Supplied(Fold(c, reached, cfg)), reached, cfg), d.records[|reached|..], cfg), d.rest, d.bad, false)
  {
    hide HeadAt, RunFrom, Decode, Step, Fold, Reached;
    var d := Decode(buf);
    var reached := Reached(c, d.records, cfg);
    RunIsFold(buf, 0, c, cfg);
    assert buf[0..] == buf;
    ReachedStopsAtDeferral(c, d.records, cfg);
    var c1 := Supplied(Fold(c, reached, cfg));
    RunAmple(buf, c1, cfg);
    assert d.records == reached + d.records[|reached|..];
    FoldAppends(c1, reached, d.records[|reached|..], cfg);
  }

  lemma {:induction false} UnaddressedDoNothing(c: Conn, recs: seq<Record>, cfg: Config)
    requires forall i :: 0 <= i < |recs| ==> !Addressed(recs[i])
    ensures Fold(c, recs, cfg) == c
    decreases |recs|
  {
    if recs != [] {
      UnaddressedDoNothing(c, recs[1..], cfg);
    }
  }

  /** A deferral behind records that address no request is as harmless as one at the front. */
  lemma DeferralBehindSkipped(buf: bytes, c: Conn, cfg: Config)
    requires Run(buf, c, cfg).waiting
    requires var reached := Reached(c, Decode(buf).records, cfg);
             forall i :: 0 <= i < |reached| ==> !Addressed(reached[i])
    ensures var first := Run(buf, c, cfg);
            first.conn == c && Run(first.rest, Supplied(first.conn), cfg) == Run(buf, Supplied(c), cfg)
  {
    hide Run, Decode, Reached, Fold, Addressed;
    DeferralReplays(buf, c, cfg);
    UnaddressedDoNothing(c, Reached(c, Decode(buf).records, cfg), cfg);
  }

  lemma {:induction false} ReachedStopsAtDeferral(c: Conn, recs: seq<Record>, cfg: Config)
    requires Reached(c, recs, cfg) != recs
    ensures var r := Reached(c, recs, cfg);
            r < recs && Defers(Fold(c, r, cfg), recs[|r|])
    decreases |recs|
  {
    hide Step, Defers;
    if !Defers(c, recs[0]) {
      var r := Reached(Step(c, recs[0], cfg), recs[1..], cfg);
      TailOfCons(recs[0], r);
      ReachedStopsAtDeferral(Step(c, recs[0], cfg), recs[1..], cfg);
      assert recs[1..][|r|] == recs[|r| + 1];
    }
  }

  /** One byte of input for request 1, then the opening record of request 2. */
  function InputThenBegin(): (rs: seq<Record>)
    ensures AllFit(rs)
  {
    [Record(STDIN, 1, [65]), Record(BEGIN_REQUEST, 2, [0, 1, 0, 0, 0, 0, 0, 0])]
  }

  /** So a deferral behind other records is observable: here it duplicates the body of request 1. */
  lemma DeferralCanDuplicateBody(cfg: Config, c: Conn)
    requires cfg.maxStdin >= 2 && c == Conn(map[1 := Fresh(1, cfg)], [], [], Left(0))
    ensures var buf := EncodeAll(InputThenBegin());
            var first := Run(buf, c, cfg);
            && first.waiting
            && ViewOf(Run(buf, Supplied(c), cfg).conn, 1).req == Some(Fresh(1, cfg).(body := [65], bodyBytes := 1))
            && ViewOf(Run(first.rest, Supplied(first.conn), cfg).conn, 1).req
               == Some(Fresh(1, cfg).(body := [65, 65], bodyBytes := 2))
  {
    hide HeadAt, RunFrom, Decode, EncodeAll, InputThenBegin, Fold, Reached, Handle, Step;
    var recs := InputThenBegin();
    var buf := EncodeAll(recs);
    DecodeWhole(recs);
    assert buf[0..] == buf;
    RunIsFold(buf, 0, c, cfg);
    InputThenBeginRuns(c, cfg);
    var c1 := Fold(c, Reached(c, recs, cfg), cfg);
    RunAmple(buf, Supplied(c), cfg);
    RunAmple(buf, Supplied(c1), cfg);
    InputThenBeginRuns(Supplied(c), cfg);
    InputThenBeginRuns(Supplied(c1), cfg);
    assert Run(buf, c, cfg) == Outcome(c1, buf, false, true);
    assert [] + [65] == [65] && [65] + [65] == [65, 65];
    assert Supplied(c1).requests[1] == Fresh(1, cfg).(body := [65], bodyBytes := 1);
  }

  lemma InputThenBeginRuns(c: Conn, cfg: Config)
    requires 1 in c.requests && 2 !in c.requests && !c.requests[1].failed && c.requests[1].bodyBytes < cfg.maxStdin
    ensures var recs := InputThenBegin();
            var r := c.requests[1].(body := c.requests[1].body + [65], bodyBytes := c.requests[1].bodyBytes + 1);
            && (!CanTake(c.pool) ==> Reached(c, recs, cfg) != recs
                                     && Fold(c, Reached(c, recs, cfg), cfg).requests == c.requests[1 := r])
            && ViewOf(Fold(c, recs, cfg), 1).req == Some(r)
  {
    var stdin, begin := Record(STDIN, 1, [65]), Record(BEGIN_REQUEST, 2, [0, 1, 0, 0, 0, 0, 0, 0]);
    StdinByte(c, cfg);
    hide Step, Handle;
    TwoRecords(c, stdin, begin, cfg);
    OtherIdUntouched(Step(c, stdin, cfg), begin, 1, cfg);
    if !CanTake(c.pool) {
      ReachedOne(c, stdin, begin, cfg);
    }
  }

  lemma StdinByte(c: Conn, cfg: Config)
    requires 1 in c.requests && !c.requests[1].failed && c.requests[1].bodyBytes < cfg.maxStdin
    ensures var r := c.requests[1];
            var c1 := Step(c, Record(STDIN, 1, [65]), cfg);
            && c1.requests == c.requests[1 := r.(body := r.body + [65], bodyBytes := r.bodyBytes + 1)]
            && c1.pool == c.pool
  {
  }

  lemma OtherIdUntouched(c: Conn, rec: Record, k: nat, cfg: Config)
    requires rec.id != k && k in c.requests
    ensures k in Step(c, rec, cfg).requests && Step(c, rec, cfg).requests[k] == c.requests[k]
  {
    hide Handle;
  }

  lemma ReachedOne(c: Conn, r1: Record, r2: Record, cfg: Config)
    requires !Defers(c, r1) && Defers(Step(c, r1, cfg), r2)
    ensures Reached(c, [r1, r2], cfg) == [r1]
  {
    hide Step, Defers;
    assert [r1, r2][1..] == [r2];
    assert Reached(Step(c, r1, cfg), [r2], cfg) == [];
  }

  lemma TwoRecords(c: Conn, r1: Record, r2: Record, cfg: Config)
    ensures Fold(c, [r1], cfg) == Step(c, r1, cfg)
    ensures Fold(c, [r1, r2], cfg) == Step(Step(c, r1, cfg), r2, cfg)
  {
    hide Step;
    assert [r1, r2][1..] == [r2] && [r2][1..] == [] && [r1][1..] == [];
    assert Fold(Step(c, r1, cfg), [], cfg) == Step(c, r1, cfg);
    assert Fold(Step(Step(c, r1, cfg), r2, cfg), [], cfg) == Step(Step(c, r1, cfg), r2, cfg);
    assert Fold(Step(c, r1, cfg), [r2], cfg) == Step(Step(c, r1, cfg), r2, cfg);
  }

  // ------------------------------------------------------- requests only move forward

  /**
   r' can come after r: flags are not taken back, counters do not fall, input is only added,
   and as long as no byte of a pair was counted only the empty pair was written.
   */
  ghost predicate Follows(r: Req, r': Req) {
    && r'.id == r.id
    && (r.initialized ==> r'.initialized)
    && (r.keepConnection ==> r'.keepConnection)
    && (r.paramsComplete ==> r'.paramsComplete)
    && (r.inputComplete ==> r'.inputComplete)
    && (r.responded ==> r'.responded)
    && (r.aborted ==> r'.aborted)
    && (r.failed ==> r'.failed)
    && r.body <= r'.body && r.bodyBytes <= r'.bodyBytes && r.paramsBytes <= r'.paramsBytes
    && (r.paramsBytes == r'.paramsBytes ==> r'.env == r.env || r'.env == r.env[[] := []])
  }

  lemma FollowsOn(r: Req, r1: Req, r2: Req)
    requires Follows(r, r1) && Follows(r1, r2)
    ensures Follows(r, r2)
  {
  }

  lemma BothFollow(r: Req, r': Req)
    requires Follows(r, r') && Follows(r', r)
    ensures r == r'
  {
  }

  lemma {:induction false} PairsFollow(r: Req, p: bytes, cfg: Config)
    ensures Follows(r, TakePairs(r, p, cfg).req)
    decreases |p|
  {
    if p != [] {
      var (n, p1) := DecodeLength(p);
      var (v, p2) := DecodeLength(p1);
      TakePairsUnfold(r, p, n, p1, v, p2, cfg);
      hide DecodeLength, TakePairs;
      if n + v <= |p2| && r.paramsBytes + n + v <= cfg.maxParams {
        var r1 := r.(env := r.env[p2[..n] := p2[n..n + v]], paramsBytes := r.paramsBytes + n + v);
        PairsFollow(r1, p2[n + v..], cfg);
        assert Follows(r, r1);
        FollowsOn(r, r1, TakePairs(r1, p2[n + v..], cfg).req);
      }
    }
  }

  lemma HandleFollows(r: Req, rec: Record, cfg: Config)
    requires Addressed(rec)
    ensures Follows(r, Handle(r, rec, cfg).req)
  {
    PairsFollow(r, rec.content, cfg);
    FailFollows(r, OVERLOADED);
    FailFollows(r.(aborted := true), REQUEST_COMPLETE);
    FlagsFollow(r, rec);
    hide TakePairs, FailRequest, Follows;
  }

  lemma FailFollows(r: Req, status: byte)
    ensures Follows(r, FailRequest(r, status).req)
    ensures Follows(r.(aborted := false), FailRequest(r, status).req)
  {
  }

  lemma FlagsFollow(r: Req, rec: Record)
    ensures Follows(r, r) && Follows(r, r.(paramsComplete := true)) && Follows(r, r.(inputComplete := true))
    ensures forall keep :: (r.keepConnection ==> keep) ==> Follows(r, r.(initialized := true, keepConnection := keep))
    ensures Follows(r, r.(body := r.body + rec.content, bodyBytes := r.bodyBytes + |rec.content|))
  {
  }

  ghost predicate ViewFollows(v: View, w: View) {
    v.out <= w.out && v.ready <= w.ready && v.req.Some? && w.req.Some? && Follows(v.req.value, w.req.value)
  }

  lemma AloneFollows(v: View, k: nat, rec: Record, cfg: Config)
    requires v.req.Some?
    ensures ViewFollows(v, Alone(v, k, rec, cfg))
  {
    if Addressed(rec) {
      HandleFollows(v.req.value, rec, cfg);
      hide Handle, Follows, IsReady;
    }
  }

  lemma {:induction false} AloneAllFollows(v: View, k: nat, recs: seq<Record>, cfg: Config)
    requires v.req.Some?
    ensures ViewFollows(v, AloneAll(v, k, recs, cfg))
    decreases |recs|
  {
    if recs != [] {
      var v1 := Alone(v, k, recs[0], cfg);
      AloneFollows(v, k, recs[0], cfg);
      hide Alone;
      AloneAllFollows(v1, k, recs[1..], cfg);
      var w := AloneAll(v1, k, recs[1..], cfg);
      FollowsOn(v.req.value, v1.req.value, w.req.value);
    }
  }

  /** A list of records leaves a request as it is only if every one of them does. */
  lemma {:induction false} IdleIff(w: View, k: nat, recs: seq<Record>, cfg: Config)
    requires w.req.Some?
    ensures AloneAll(w, k, recs, cfg) == w <==> forall i :: 0 <= i < |recs| ==> Alone(w, k, recs[i], cfg) == w
    decreases |recs|
  {
    if recs != [] {
      var w1 := Alone(w, k, recs[0], cfg);
      AloneFollows(w, k, recs[0], cfg);
      hide Alone, Follows;
      AloneAllFollows(w1, k, recs[1..], cfg);
      if AloneAll(w, k, recs, cfg) == w {
        BothFollow(w.req.value, w1.req.value);
        assert w1 == w;
      }
      IdleIff(w, k, recs[1..], cfg);
      assert forall i :: 1 <= i < |recs| ==> recs[1..][i - 1] == recs[i];
      assert forall i :: 0 <= i < |recs| - 1 ==> recs[1..][i] == recs[i + 1];
    }
  }

  // ------------------------------------------------------------- what a replay leaves alone

  /**
   The pairs hold nothing left to take: up to the end, or to a pair past the limit of an
   answered request, there are only empty pairs, and the empty name already has no value.
   */
  predicate PairsSpent(p: bytes, r: Req, cfg: Config)
    decreases |p|
  {
    p == []
    || var (n, p1) := DecodeLength(p);
       var (v, p2) := DecodeLength(p1);
       || n + v > |p2|
       || (if r.paramsBytes + n + v > cfg.maxParams then r.responded
           else n + v == 0 && [] in r.env && r.env[[]] == [] && PairsSpent(p2, r, cfg))
  }

  /** A record that was applied already and has nothing left to do to the request. */
  predicate Spent(r: Req, rec: Record, cfg: Config) {
    && !IsReady(r)
    && (|| r.failed
        || rec.content == []
        || rec.kind == BEGIN_REQUEST
        || rec.kind == ABORT_REQUEST
        || (rec.kind == STDIN && r.responded && r.bodyBytes + |rec.content| > cfg.maxStdin)
        || (rec.kind == PARAMS && PairsSpent(rec.content, r, cfg)))
  }

  predicate AllSpent(r: Req, recs: seq<Record>, cfg: Config) {
    forall i :: 0 <= i < |recs| && Addressed(recs[i]) ==> Spent(r, recs[i], cfg)
  }

  lemma EmptyPair(env: map<bytes, bytes>, p: bytes)
    ensures p[..0] == [] && p[0..0] == [] && p[0..] == p
    ensures env[[] := []] == env <==> [] in env && env[[]] == []
  {
    if [] in env && env[[]] == [] {
      assert env[[] := []] == env;
    }
  }

  lemma {:induction false} PairsSpentIff(r: Req, p: bytes, cfg: Config)
    requires !r.failed
    ensures TakePairs(r, p, cfg) == Effect(r, []) <==> PairsSpent(p, r, cfg)
    decreases |p|
  {
    if p != [] {
      var (n, p1) := DecodeLength(p);
      var (v, p2) := DecodeLength(p1);
      TakePairsUnfold(r, p, n, p1, v, p2, cfg);
      hide DecodeLength, TakePairs;
      if n + v <= |p2| && r.paramsBytes + n + v <= cfg.maxParams {
        var r1 := r.(env := r.env[p2[..n] := p2[n..n + v]], paramsBytes := r.paramsBytes + n + v);
        PairsFollow(r1, p2[n + v..], cfg);
        EmptyPair(r.env, p2);
        if n + v == 0 && r1 == r {
          PairsSpentIff(r, p2, cfg);
        }
      }
    }
  }

  /** The flags a record sets are set. */
  predicate Marked(r: Req, rec: Record) {
    && (rec.kind == BEGIN_REQUEST && |rec.content| >= 8 ==>
          r.initialized && (rec.content[2] % 2 == 1 ==> r.keepConnection))
    && (rec.kind == PARAMS && rec.content == [] ==> r.paramsComplete)
    && (rec.kind == STDIN && rec.content == [] ==> r.inputComplete)
    && (rec.kind == ABORT_REQUEST ==> r.aborted && r.responded)
  }

  lemma HandleMarks(r: Req, rec: Record, cfg: Config)
    requires Addressed(rec)
    ensures Marked(Handle(r, rec, cfg).req, rec)
  {
    hide TakePairs;
  }

  /** After a list of records, every flag they set is still set. */
  lemma {:induction false} MarksStay(v: View, k: nat, recs: seq<Record>, cfg: Config, i: nat)
    requires v.req.Some? && i < |recs| && Addressed(recs[i])
    ensures var w := AloneAll(v, k, recs, cfg); w.req.Some? && Marked(w.req.value, recs[i])
    decreases |recs|
  {
    var v1 := Alone(v, k, recs[0], cfg);
    if i == 0 {
      HandleMarks(v.req.value, recs[0], cfg);
      hide Handle;
      AloneAllFollows(v1, k, recs[1..], cfg);
    } else {
      hide Handle;
      assert recs[1..][i - 1] == recs[i];
      MarksStay(v1, k, recs[1..], cfg, i - 1);
    }
  }

  lemma HandleIdle(r: Req, rec: Record, cfg: Config)
    requires Addressed(rec) && Marked(r, rec) && !IsReady(r)
    ensures Handle(r, rec, cfg) == Effect(r, []) <==> Spent(r, rec, cfg)
  {
    hide TakePairs, PairsSpent;
    if !r.failed {
      PairsSpentIff(r, rec.content, cfg);
    }
  }

  lemma AloneIdle(w: View, k: nat, rec: Record, cfg: Config)
    requires w.req.Some? && Addressed(rec) && Marked(w.req.value, rec)
    ensures Alone(w, k, rec, cfg) == w <==> Spent(w.req.value, rec, cfg)
  {
    AppendNothing(w.out);
    AppendNothing(w.ready);
    if !IsReady(w.req.value) {
      HandleIdle(w.req.value, rec, cfg);
    }
    hide Handle;
  }

  /** Going over the same records again changes nothing if and only if all of them are spent. */
  lemma ReplayIff(v: View, k: nat, recs: seq<Record>, cfg: Config)
    requires v.req.Some?
    ensures var w := AloneAll(v, k, recs, cfg);
            w.req.Some? && (AloneAll(w, k, recs, cfg) == w <==> AllSpent(w.req.value, recs, cfg))
  {
    AloneAllFollows(v, k, recs, cfg);
    var w := AloneAll(v, k, recs, cfg);
    IdleIff(w, k, recs, cfg);
    hide AloneAll, Follows, Spent;
    forall i | 0 <= i < |recs| && Addressed(recs[i])
      ensures Alone(w, k, recs[i], cfg) == w <==> Spent(w.req.value, recs[i], cfg)
    {
      MarksStay(v, k, recs, cfg, i);
      AloneIdle(w, k, recs[i], cfg);
    }
    assert forall i :: 0 <= i < |recs| && !Addressed(recs[i]) ==> Alone(w, k, recs[i], cfg) == w;
  }

  // ---------------------------------------------------------- the first pass, seen by a request

  function Opened(v: View, k: nat, cfg: Config): View {
    if v.req.Some? then v else v.(req := Some(Fresh(k, cfg)))
  }

  lemma {:induction false} OpenedFirst(v: View, k: nat, recs: seq<Record>, cfg: Config)
    requires AloneAll(v, k, recs, cfg).req.Some?
    ensures AloneAll(v, k, recs, cfg) == AloneAll(Opened(v, k, cfg), k, recs, cfg)
    decreases |recs|
  {
    if v.req.None? && recs != [] && !Addressed(recs[0]) {
      OpenedFirst(v, k, recs[1..], cfg);
    }
  }

  lemma {:induction false} NoArenaNoRequest(c: Conn, recs: seq<Record>, k: nat, cfg: Config)
    requires WellKeyed(c) && k !in c.requests && !CanTake(c.pool)
    ensures ViewOf(Fold(c, recs, cfg), k) == ViewOf(c, k)
    decreases |recs|
  {
    if recs != [] {
      StepSeenBy(c, recs[0], k, cfg);
      hide Handle, RecordsOf, EventsOf, WellKeyed;
      NoArenaNoRequest(Step(c, recs[0], cfg), recs[1..], k, cfg);
    }
  }

  /** With arenas running out, a request gets all of its records or none of them. */
  lemma {:induction false} AllOrNothing(c: Conn, recs: seq<Record>, k: nat, cfg: Config)
    requires WellKeyed(c)
    ensures var v, w := ViewOf(c, k), ViewOf(Fold(c, recs, cfg), k);
            w == if w.req.None? then v else AloneAll(v, k, RecordsOf(recs, k), cfg)
    decreases |recs|
  {
    if recs != [] {
      var c1 := Step(c, recs[0], cfg);
      StepSeenBy(c, recs[0], k, cfg);
      TailOfCons(recs[0], RecordsOf(recs[1..], k));
      AppendNothing(RecordsOf(recs[1..], k));
      hide Step, ViewOf, WellKeyed, Handle;
      if recs[0].id == k && !Known(c, k) {
        NothingFor(c, recs, k, cfg);
      } else {
        AllOrNothing(c1, recs[1..], k, cfg);
      }
    }
  }

  lemma NothingFor(c: Conn, recs: seq<Record>, k: nat, cfg: Config)
    requires WellKeyed(c) && !Known(c, k)
    ensures ViewOf(Fold(c, recs, cfg), k) == ViewOf(c, k) && ViewOf(c, k).req.None?
  {
    NoArenaNoRequest(c, recs, k, cfg);
  }

  // -------------------------------------------------------------------- the theorems

  /** The records of k the deferred call got to. */
  function Seen(buf: bytes, c: Conn, k: nat, cfg: Config): seq<Record> {
    RecordsOf(Reached(c, Decode(buf).records, cfg), k)
  }

  /** What k sees when the retry has come to the deferred record again. */
  function AfterReplay(buf: bytes, c: Conn, k: nat, cfg: Config): View {
    ViewOf(Fold(Supplied(Run(buf, c, cfg).conn), Reached(c, Decode(buf).records, cfg), cfg), k)
  }

  /** What k sees at that record in one call that has arenas. */
  function Undeferred(buf: bytes, c: Conn, k: nat, cfg: Config): View {
    ViewOf(Fold(Supplied(c), Reached(c, Decode(buf).records, cfg), cfg), k)
  }

  /** Applying records with too few arenas and then again with enough, against once with enough. */
  lemma TwiceIff(c: Conn, recs: seq<Record>, k: nat, cfg: Config)
    requires WellKeyed(c)
    ensures var c1 := Fold(c, recs, cfg);
            ViewOf(Fold(Supplied(c1), recs, cfg), k) == ViewOf(Fold(Supplied(c), recs, cfg), k)
            <==> k !in c1.requests || AllSpent(c1.requests[k], RecordsOf(recs, k), cfg)
  {
    var c1 := Fold(c, recs, cfg);
    var v, w, mine := ViewOf(c, k), ViewOf(c1, k), RecordsOf(recs, k);
    FoldKeepsKeys(c, recs, cfg);
    AllOrNothing(c, recs, k, cfg);
    FoldSeenBy(Supplied(c), recs, k, cfg);
    FoldSeenBy(Supplied(c1), recs, k, cfg);
    assert ViewOf(Supplied(c), k) == v && ViewOf(Supplied(c1), k) == w;
    hide Fold, AloneAll, RecordsOf, EventsOf, AllSpent;
    if w.req.Some? {
      OpenedFirst(v, k, mine, cfg);
      ReplayIff(Opened(v, k, cfg), k, mine, cfg);
    }
  }

  /** Equal views stay equal. */
  lemma SameOnwards(a: Conn, b: Conn, recs: seq<Record>, k: nat, cfg: Config)
    requires a.pool.Ample? && b.pool.Ample? && WellKeyed(a) && WellKeyed(b) && ViewOf(a, k) == ViewOf(b, k)
    ensures ViewOf(Fold(a, recs, cfg), k) == ViewOf(Fold(b, recs, cfg), k)
  {
    hide *;
    FoldSeenBy(a, recs, k, cfg);
    FoldSeenBy(b, recs, k, cfg);
  }

  /**
   Exactly when request k does not notice the replay: at the deferral it has no state, or each
   of its reached records is spent. Then the rest of the retry is the same for it as well.
   */
  lemma DeferralIsHarmless(buf: bytes, c: Conn, k: nat, cfg: Config)
    requires WellKeyed(c) && Run(buf, c, cfg).waiting
    ensures var first := Run(buf, c, cfg);
            var harmless := k !in first.conn.requests || AllSpent(first.conn.requests[k], Seen(buf, c, k, cfg), cfg);
            && (AfterReplay(buf, c, k, cfg) == Undeferred(buf, c, k, cfg) <==> harmless)
            && (harmless ==> ViewOf(Run(first.rest, Supplied(first.conn), cfg).conn, k)
                             == ViewOf(Run(buf, Supplied(c), cfg).conn, k))
  {
    hide Run, Decode, Reached, Fold, ViewOf, AllSpent, RecordsOf, WellKeyed;
    DeferralReplays(buf, c, cfg);
    var reached := Reached(c, Decode(buf).records, cfg);
    TwiceIff(c, reached, k, cfg);
    if AfterReplay(buf, c, k, cfg) == Undeferred(buf, c, k, cfg) {
      RestIsSame(buf, c, reached, k, cfg);
    }
  }

  lemma RestIsSame(buf: bytes, c: Conn, reached: seq<Record>, k: nat, cfg: Config)
    requires WellKeyed(c) && Run(buf, c, cfg).waiting && reached == Reached(c, Decode(buf).records, cfg)
    requires AfterReplay(buf, c, k, cfg) == Undeferred(buf, c, k, cfg)
    ensures var first := Run(buf, c, cfg);
            ViewOf(Run(first.rest, Supplied(first.conn), cfg).conn, k) == ViewOf(Run(buf, Supplied(c), cfg).conn, k)
  {
    hide Run, Decode, Reached, Fold, ViewOf, RecordsOf;
    DeferralReplays(buf, c, cfg);
    var c1 := Fold(c, reached, cfg);
    var a, b := Fold(Supplied(c1), reached, cfg), Fold(Supplied(c), reached, cfg);
    FoldKeepsKeys(c, reached, cfg);
    FoldKeepsKeys(Supplied(c1), reached, cfg);
    FoldKeepsKeys(Supplied(c), reached, cfg);
    FoldKeepsAmple(Supplied(c1), reached, cfg);
    FoldKeepsAmple(Supplied(c), reached, cfg);
    RunAmple(buf, Supplied(c), cfg);
    var all := Decode(buf).records;
    var later := all[|reached|..];
    assert all == reached + later;
    FoldAppends(Supplied(c), reached, later, cfg);
    hide WellKeyed;
    SameOnwards(a, b, later, k, cfg);
  }

  // ------------------------------------------------- told from the counters of the request

  /** Pairs that are spent for an unanswered request are all empty. */
  lemma {:induction false} SpentPairsCountNothing(u: Req, p: bytes, r: Req, cfg: Config)
    requires PairsSpent(p, r, cfg) && !r.responded && u.paramsBytes <= r.paramsBytes
    ensures TakePairs(u, p, cfg).req.paramsBytes == u.paramsBytes
    decreases |p|
  {
    if p != [] {
      var (n, p1) := DecodeLength(p);
      var (v, p2) := DecodeLength(p1);
      TakePairsUnfold(u, p, n, p1, v, p2, cfg);
      hide DecodeLength, TakePairs;
      if n + v <= |p2| {
        EmptyPair(u.env, p2);
        SpentPairsCountNothing(u.(env := u.env[[] := []]), p2, r, cfg);
      }
    }
  }

  lemma {:induction false} SpentCountNothing(u: View, k: nat, recs: seq<Record>, r: Req, cfg: Config)
    requires u.req.Some? && u.req.value.paramsBytes <= r.paramsBytes
    requires AllSpent(r, recs, cfg) && !r.responded && !r.failed
    ensures var w := AloneAll(u, k, recs, cfg);
            && w.req.Some?
            && w.req.value.paramsBytes == u.req.value.paramsBytes && w.req.value.bodyBytes == u.req.value.bodyBytes
    decreases |recs|
  {
    if recs != [] {
      var u1 := Alone(u, k, recs[0], cfg);
      if Addressed(recs[0]) {
        SpentCountsNothing(u.req.value, recs[0], r, cfg);
      }
      hide Handle, Spent;
      SpentCountNothing(u1, k, recs[1..], r, cfg);
    }
  }

  lemma SpentCountsNothing(u: Req, rec: Record, r: Req, cfg: Config)
    requires Addressed(rec) && Spent(r, rec, cfg) && !r.responded && !r.failed && u.paramsBytes <= r.paramsBytes
    ensures var u1 := Handle(u, rec, cfg).req; u1.paramsBytes == u.paramsBytes && u1.bodyBytes == u.bodyBytes
  {
    hide TakePairs, PairsSpent;
    if rec.kind == PARAMS && rec.content != [] {
      var _ := PairsShape(u, rec.content, cfg);
      SpentPairsCountNothing(u, rec.content, r, cfg);
    }
  }

  /** And pairs that were taken without counting a byte or failing are spent from then on. */
  lemma {:induction false} UncountedPairsAreSpent(u: Req, p: bytes, r: Req, cfg: Config)
    requires Follows(TakePairs(u, p, cfg).req, r) && !r.responded && r.paramsBytes == u.paramsBytes
    ensures PairsSpent(p, r, cfg)
    decreases |p|
  {
    if p != [] {
      var (n, p1) := DecodeLength(p);
      var (v, p2) := DecodeLength(p1);
      TakePairsUnfold(u, p, n, p1, v, p2, cfg);
      hide DecodeLength, TakePairs;
      if n + v <= |p2| {
        if u.paramsBytes + n + v > cfg.maxParams {
          assert false;
        }
        var u1 := u.(env := u.env[p2[..n] := p2[n..n + v]], paramsBytes := u.paramsBytes + n + v);
        PairsFollow(u1, p2[n + v..], cfg);
        UncountedPair(u, n + v, p2[..n], p2[n..n + v], TakePairs(u1, p2[n + v..], cfg).req, r);
        hide Follows;
        EmptyPair(u.env, p2);
        UncountedPairsAreSpent(u1, p2, r, cfg);
      }
    }
  }

  lemma UncountedPair(u: Req, size: nat, name: bytes, value: bytes, u2: Req, r: Req)
    requires size == |name| + |value| && r.paramsBytes == u.paramsBytes
    requires Follows(u.(env := u.env[name := value], paramsBytes := u.paramsBytes + size), u2) && Follows(u2, r)
    ensures size == 0 && [] in r.env && r.env[[]] == []
  {
    var u1 := u.(env := u.env[name := value], paramsBytes := u.paramsBytes + size);
    FollowsOn(u1, u2, r);
    assert size == 0 ==> name == [] && value == [];
  }

  lemma UncountedIsSpent(u: Req, rec: Record, r: Req, cfg: Config)
    requires Addressed(rec) && Follows(u, Handle(u, rec, cfg).req) && Follows(Handle(u, rec, cfg).req, r)
    requires !IsReady(r) && !r.responded && !r.failed
    requires r.paramsBytes == u.paramsBytes && r.bodyBytes == u.bodyBytes
    ensures Spent(r, rec, cfg)
  {
    hide TakePairs, PairsSpent;
    if rec.kind == PARAMS && rec.content != [] {
      UncountedPairsAreSpent(u, rec.content, r, cfg);
    }
  }

  lemma {:induction false} UncountedAreSpent(u: View, k: nat, recs: seq<Record>, cfg: Config)
    requires u.req.Some? && AloneAll(u, k, recs, cfg).req.Some?
    requires var u0, r := u.req.value, AloneAll(u, k, recs, cfg).req.value;
             && !IsReady(r) && !r.responded && !r.failed
             && r.paramsBytes == u0.paramsBytes && r.bodyBytes == u0.bodyBytes
    ensures AllSpent(AloneAll(u, k, recs, cfg).req.value, recs, cfg)
    decreases |recs|
  {
    if recs != [] {
      var u1, r := Alone(u, k, recs[0], cfg), AloneAll(u, k, recs, cfg).req.value;
      AloneFollows(u, k, recs[0], cfg);
      AloneAllFollows(u1, k, recs[1..], cfg);
      if Addressed(recs[0]) {
        hide Handle, Spent;
        UncountedIsSpent(u.req.value, recs[0], r, cfg);
      }
      hide Handle, Spent, Alone;
      UncountedAreSpent(u1, k, recs[1..], cfg);
      assert forall i :: 1 <= i < |recs| ==> recs[1..][i - 1] == recs[i];
    }
  }

  ghost predicate SomeAddressed(recs: seq<Record>) {
    exists i :: 0 <= i < |recs| && Addressed(recs[i])
  }

  /** No byte was counted on the way from r to r'. */
  predicate SameCounters(r: Req, r': Req) {
    r.paramsBytes == r'.paramsBytes && r.bodyBytes == r'.bodyBytes
  }

  lemma SpentByCounters(v: View, k: nat, recs: seq<Record>, cfg: Config)
    requires v.req.Some? && AloneAll(v, k, recs, cfg).req.Some?
    requires var r := AloneAll(v, k, recs, cfg).req.value; r.failed || !r.responded
    ensures var r := AloneAll(v, k, recs, cfg).req.value;
            AllSpent(r, recs, cfg)
            <==> !SomeAddressed(recs) || r.failed || (!IsReady(r) && SameCounters(v.req.value, r))
  {
    var r := AloneAll(v, k, recs, cfg).req.value;
    AloneAllFollows(v, k, recs, cfg);
    if !r.failed && SomeAddressed(recs) {
      if AllSpent(r, recs, cfg) {
        SpentCountNothing(v, k, recs, r, cfg);
      }
      if !IsReady(r) && SameCounters(v.req.value, r) {
        UncountedAreSpent(v, k, recs, cfg);
      }
    }
    hide AloneAll, PairsSpent;
  }

  /**
   For a request that is unanswered or failed at the deferral this can be told from its flags
   and counters: the replay goes unnoticed exactly if no record of its own was reached, it is
   failed, or it is not ready and none of its bytes was counted in the deferred call.
   */
  lemma DeferralByCounters(buf: bytes, c: Conn, k: nat, cfg: Config)
    requires WellKeyed(c) && Run(buf, c, cfg).waiting
    requires k in Run(buf, c, cfg).conn.requests
    requires var r := Run(buf, c, cfg).conn.requests[k]; r.failed || !r.responded
    ensures var r := Run(buf, c, cfg).conn.requests[k];
            AfterReplay(buf, c, k, cfg) == Undeferred(buf, c, k, cfg)
            <==> || !SomeAddressed(Seen(buf, c, k, cfg))
                 || r.failed
                 || (!IsReady(r) && SameCounters(if k in c.requests then c.requests[k] else Fresh(k, cfg), r))
  {
    hide Run, Decode, Reached, Fold, AllSpent, RecordsOf, WellKeyed, AloneAll, SomeAddressed, SameCounters, EventsOf, IsReady;
    DeferralReplays(buf, c, cfg);
    DeferralIsHarmless(buf, c, k, cfg);
    var v, mine := ViewOf(c, k), Seen(buf, c, k, cfg);
    AllOrNothing(c, Reached(c, Decode(buf).records, cfg), k, cfg);
    OpenedFirst(v, k, mine, cfg);
    SpentByCounters(Opened(v, k, cfg), k, mine, cfg);
  }
}
