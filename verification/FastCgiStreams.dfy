/**
 Whole streams through the record engine when arenas are available: the result does not
 depend on how the stream is cut into reads, and a request sees only its own records.
 */
module FastCgiStreams {
  import opened Bytes
  import opened FastCgiRecords
  import opened FastCgiSpec

  // ------------------------------------------------------ fragmentation independence

  lemma AmpleStep(c: Conn, rec: Record, cfg: Config)
    requires c.pool.Ample?
    ensures Step(c, rec, cfg).pool.Ample? && !Defers(c, rec)
  {
  }

  lemma {:induction false} FoldAppends(c: Conn, a: seq<Record>, b: seq<Record>, cfg: Config)
    ensures Fold(c, a + b, cfg) == Fold(Fold(c, a, cfg), b, cfg)
    decreases |a|
  {
    if a == [] {
      assert a + b == b;
    } else {
      hide Step;
      ConsAppends(a, b);
      FoldAppends(Step(c, a[0], cfg), a[1..], b, cfg);
    }
  }

  /** Requests never leave the table while records are applied. */
  lemma {:induction false} FoldKeepsRequests(c: Conn, recs: seq<Record>, cfg: Config, k: nat)
    requires k in c.requests
    ensures k in Fold(c, recs, cfg).requests
    decreases |recs|
  {
    if recs != [] {
      assert k in Step(c, recs[0], cfg).requests by { hide Handle; }
      hide Step;
      FoldKeepsRequests(Step(c, recs[0], cfg), recs[1..], cfg, k);
    }
  }

  lemma {:induction false} FoldKeepsAmple(c: Conn, recs: seq<Record>, cfg: Config)
    requires c.pool.Ample?
    ensures Fold(c, recs, cfg).pool.Ample?
    decreases |recs|
  {
    if recs != [] {
      AmpleStep(c, recs[0], cfg);
      FoldKeepsAmple(Step(c, recs[0], cfg), recs[1..], cfg);
    }
  }

  /** The records a call gets to before a BEGIN_REQUEST finds no arena. */
  function Reached(c: Conn, recs: seq<Record>, cfg: Config): (r: seq<Record>)
    ensures r <= recs
    decreases |recs|
  {
    if recs == [] || Defers(c, recs[0]) then []
    else [recs[0]] + Reached(Step(c, recs[0], cfg), recs[1..], cfg)
  }

  /** The offset loop is: decode the stream, apply the records in order, stop at a deferral. */
  lemma {:induction false} RunIsFold(buf: bytes, offset: nat, c: Conn, cfg: Config)
    requires offset <= |buf|
    ensures var d := Decode(buf[offset..]);
            var r := Reached(c, d.records, cfg);
            RunFrom(buf, offset, c, cfg)
              == if r == d.records then Outcome(Fold(c, r, cfg), d.rest, d.bad, false)
                 else Outcome(Fold(c, r, cfg), buf, false, true)
    decreases |buf| - offset
  {
    hide Step, HeadAt, Defers;
    HeadAtIsNext(buf, offset);
    match HeadAt(buf, offset)
    case Incomplete =>
    case BadVersion =>
    case Complete(rec, total) =>
      DropTwice(buf, offset, total);
      var later := Decode(buf[offset + total..]).records;
      TailOfCons(rec, later);
      if !Defers(c, rec) {
        RunIsFold(buf, offset + total, Step(c, rec, cfg), cfg);
        TailOfCons(rec, Reached(Step(c, rec, cfg), later, cfg));
      }
  }

  lemma {:induction false} AmpleReachesAll(c: Conn, recs: seq<Record>, cfg: Config)
    requires c.pool.Ample?
    ensures Reached(c, recs, cfg) == recs
    decreases |recs|
  {
    if recs != [] {
      AmpleStep(c, recs[0], cfg);
      AmpleReachesAll(Step(c, recs[0], cfg), recs[1..], cfg);
    }
  }

  lemma RunAmple(buf: bytes, c: Conn, cfg: Config)
    requires c.pool.Ample?
    ensures var d := Decode(buf);
            Run(buf, c, cfg) == Outcome(Fold(c, d.records, cfg), d.rest, d.bad, false)
  {
    hide Step, HeadAt, RunFrom, Fold, Reached, Decode;
    RunIsFold(buf, 0, c, cfg);
    assert buf[0..] == buf;
    AmpleReachesAll(c, Decode(buf).records, cfg);
  }

  /**
   Processing `a`, appending `b` and processing again gives the same requests, output,
   ready events, leftover bytes and status as one call on `a + b`.
   */
  lemma SplitAnywhere(a: bytes, b: bytes, c: Conn, cfg: Config)
    requires c.pool.Ample?
    ensures var first := Run(a, c, cfg);
            && !first.waiting
            && Run(a + b, c, cfg) == Run(first.rest + b, first.conn, cfg)
  {
    hide Run, Fold, Decode;
    var d := Decode(a);
    RunAmple(a, c, cfg);
    RunAmple(a + b, c, cfg);
    FoldKeepsAmple(c, d.records, cfg);
    RunAmple(d.rest + b, Fold(c, d.records, cfg), cfg);
    DecodeSplits(a, b);
    FoldAppends(c, d.records, Decode(d.rest + b).records, cfg);
  }

  /** Reads arriving one after the other: append the chunk, call `process_buffer`. */
  function Feed(o: Outcome, chunks: seq<bytes>, cfg: Config): Outcome
    decreases |chunks|
  {
    if chunks == [] then o
    else Feed(Run(o.rest + chunks[0], o.conn, cfg), chunks[1..], cfg)
  }

  /** Every way of cutting a stream into reads ends in the same state. */
  lemma {:induction false} AnySplit(pending: bytes, chunks: seq<bytes>, c: Conn, cfg: Config)
    requires c.pool.Ample?
    ensures Feed(Run(pending, c, cfg), chunks, cfg) == Run(pending + Concat(chunks), c, cfg)
    decreases |chunks|
  {
    hide Run;
    if chunks == [] {
      assert pending + [] == pending;
    } else {
      SplitAnywhere(pending, chunks[0], c, cfg);
      Assoc(pending, chunks[0], Concat(chunks[1..]));
      AnySplit(pending + chunks[0], chunks[1..], c, cfg);
    }
  }

  // ---------------------------------------------------------------- demultiplexing

  function RecordsOf(rs: seq<Record>, k: nat): seq<Record> {
    if rs == [] then [] else (if rs[0].id == k then [rs[0]] else []) + RecordsOf(rs[1..], k)
  }

  function EventsOf(rs: seq<Req>, k: nat): seq<Req> {
    if rs == [] then [] else (if rs[0].id == k then [rs[0]] else []) + EventsOf(rs[1..], k)
  }

  /** Everything one request id can observe of a connection. */
  datatype View = View(req: Option<Req>, out: seq<Record>, ready: seq<Req>)

  function ViewOf(c: Conn, k: nat): View {
    View(if k in c.requests then Some(c.requests[k]) else None, RecordsOf(c.out, k), EventsOf(c.ready, k))
  }

  lemma {:induction false} RecordsOfAppends(a: seq<Record>, b: seq<Record>, k: nat)
    ensures RecordsOf(a + b, k) == RecordsOf(a, k) + RecordsOf(b, k)
  {
    if a == [] {
      assert a + b == b;
    } else {
      ConsAppends(a, b);
      RecordsOfAppends(a[1..], b, k);
      Assoc(if a[0].id == k then [a[0]] else [], RecordsOf(a[1..], k), RecordsOf(b, k));
    }
  }

  lemma {:induction false} EventsOfAppends(a: seq<Req>, b: seq<Req>, k: nat)
    ensures EventsOf(a + b, k) == EventsOf(a, k) + EventsOf(b, k)
  {
    if a == [] {
      assert a + b == b;
    } else {
      ConsAppends(a, b);
      EventsOfAppends(a[1..], b, k);
      Assoc(if a[0].id == k then [a[0]] else [], EventsOf(a[1..], k), EventsOf(b, k));
    }
  }

  /** What a single request does with one of its own records. */
  function Alone(v: View, k: nat, rec: Record, cfg: Config): View {
    if !Addressed(rec) then v
    else
      var e := Handle(if v.req.Some? then v.req.value else Fresh(k, cfg), rec, cfg);
      View(Some(e.req), v.out + e.out, v.ready + (if IsReady(e.req) then [e.req] else []))
  }

  function AloneAll(v: View, k: nat, recs: seq<Record>, cfg: Config): View
    decreases |recs|
  {
    if recs == [] then v else AloneAll(Alone(v, k, recs[0], cfg), k, recs[1..], cfg)
  }

  /** A record only touches, and only answers for, the request it is addressed to. */
  lemma HandleKeepsId(r: Req, rec: Record, cfg: Config)
    requires Addressed(rec)
    ensures var e := Handle(r, rec, cfg);
            && e.req.id == r.id
            && forall i :: 0 <= i < |e.out| ==> e.out[i].id == r.id
  {
    hide TakePairs, FailRequest;
    var r' := PairsShape(r, rec.content, cfg);
    FailKeepsId(r', OVERLOADED);
    FailKeepsId(r, OVERLOADED);
    FailKeepsId(r.(aborted := true), REQUEST_COMPLETE);
  }

  lemma FailKeepsId(r: Req, status: byte)
    ensures var e := FailRequest(r, status);
            e.req.id == r.id && forall i :: 0 <= i < |e.out| ==> e.out[i].id == r.id
  {
  }

  lemma {:induction false} RecordsOfUniform(rs: seq<Record>, id: nat, k: nat)
    requires forall i :: 0 <= i < |rs| ==> rs[i].id == id
    ensures RecordsOf(rs, k) == if id == k then rs else []
  {
    if rs != [] {
      RecordsOfUniform(rs[1..], id, k);
    }
  }

  lemma {:induction false} EventsOfUniform(rs: seq<Req>, id: nat, k: nat)
    requires forall i :: 0 <= i < |rs| ==> rs[i].id == id
    ensures EventsOf(rs, k) == if id == k then rs else []
  {
    if rs != [] {
      EventsOfUniform(rs[1..], id, k);
    }
  }

  /** Each record moves its own request exactly as if it were alone and leaves every other view alone. */
  lemma StepSeenBy(c: Conn, rec: Record, k: nat, cfg: Config)
    requires WellKeyed(c)
    ensures WellKeyed(Step(c, rec, cfg))
    ensures ViewOf(Step(c, rec, cfg), k)
         == if rec.id == k && Known(c, k) then Alone(ViewOf(c, k), k, rec, cfg) else ViewOf(c, k)
  {
    if Addressed(rec) && Known(c, rec.id) {
      hide Handle, IsReady, RecordsOf, EventsOf;
      var r := if rec.id in c.requests then c.requests[rec.id] else Fresh(rec.id, cfg);
      var e := Handle(r, rec, cfg);
      var fired := if IsReady(e.req) then [e.req] else [];
      HandleKeepsId(r, rec, cfg);
      var c' := Step(c, rec, cfg);
      assert c'.requests == c.requests[rec.id := e.req] && c'.out == c.out + e.out && c'.ready == c.ready + fired;
      OutputSeenBy(c.out, e.out, rec.id, k);
      EventsSeenBy(c.ready, fired, rec.id, k);
    }
  }

  lemma OutputSeenBy(out: seq<Record>, sent: seq<Record>, id: nat, k: nat)
    requires forall i :: 0 <= i < |sent| ==> sent[i].id == id
    ensures RecordsOf(out + sent, k) == if id == k then RecordsOf(out, k) + sent else RecordsOf(out, k)
  {
    RecordsOfUniform(sent, id, k);
    hide *;
    RecordsOfAppends(out, sent, k);
    AppendNothing(RecordsOf(out, k));
  }

  lemma EventsSeenBy(ready: seq<Req>, fired: seq<Req>, id: nat, k: nat)
    requires forall i :: 0 <= i < |fired| ==> fired[i].id == id
    ensures EventsOf(ready + fired, k) == if id == k then EventsOf(ready, k) + fired else EventsOf(ready, k)
  {
    EventsOfUniform(fired, id, k);
    hide *;
    EventsOfAppends(ready, fired, k);
    AppendNothing(EventsOf(ready, k));
  }

  lemma {:induction false} FoldKeepsKeys(c: Conn, recs: seq<Record>, cfg: Config)
    requires WellKeyed(c)
    ensures WellKeyed(Fold(c, recs, cfg))
    decreases |recs|
  {
    if recs != [] {
      StepSeenBy(c, recs[0], 0, cfg);
      hide Step, WellKeyed;
      FoldKeepsKeys(Step(c, recs[0], cfg), recs[1..], cfg);
    }
  }

  lemma {:induction false} FoldSeenBy(c: Conn, recs: seq<Record>, k: nat, cfg: Config)
    requires c.pool.Ample? && WellKeyed(c)
    ensures ViewOf(Fold(c, recs, cfg), k) == AloneAll(ViewOf(c, k), k, RecordsOf(recs, k), cfg)
    decreases |recs|
  {
    if recs != [] {
      hide Step, Alone, ViewOf, WellKeyed;
      AmpleStep(c, recs[0], cfg);
      StepSeenBy(c, recs[0], k, cfg);
      FoldSeenBy(Step(c, recs[0], cfg), recs[1..], k, cfg);
      TailOfCons(recs[0], RecordsOf(recs[1..], k));
      assert [] + RecordsOf(recs[1..], k) == RecordsOf(recs[1..], k);
    }
  }

  lemma {:induction false} RecordsOfTwice(recs: seq<Record>, k: nat)
    ensures RecordsOf(RecordsOf(recs, k), k) == RecordsOf(recs, k)
  {
    if recs != [] {
      RecordsOfTwice(recs[1..], k);
      TailOfCons(recs[0], RecordsOf(recs[1..], k));
      assert [] + RecordsOf(recs[1..], k) == RecordsOf(recs[1..], k);
    }
  }

  /**
   Non-interference: in any interleaving, request k ends in the state, with the ready
   events and the records, that it gets when only the records carrying id k are processed.
   */
  lemma Demultiplexed(c: Conn, recs: seq<Record>, k: nat, cfg: Config)
    requires c.pool.Ample? && WellKeyed(c)
    ensures ViewOf(Fold(c, recs, cfg), k) == ViewOf(Fold(c, RecordsOf(recs, k), cfg), k)
  {
    hide *;
    FoldSeenBy(c, recs, k, cfg);
    FoldSeenBy(c, RecordsOf(recs, k), k, cfg);
    RecordsOfTwice(recs, k);
  }

  /** The same for the bytes of a stream, in any number of reads. */
  lemma DemultiplexedStream(chunks: seq<bytes>, c: Conn, k: nat, cfg: Config)
    requires c.pool.Ample? && WellKeyed(c)
    ensures var mine := RecordsOf(Decode(Concat(chunks)).records, k);
            ViewOf(Feed(Run([], c, cfg), chunks, cfg).conn, k) == ViewOf(Fold(c, mine, cfg), k)
  {
    var all := Concat(chunks);
    assert [] + all == all;
    hide Run, Fold, Decode, ViewOf, RecordsOf, Concat, Feed;
    AnySplit([], chunks, c, cfg);
    RunAmple(all, c, cfg);
    Demultiplexed(c, Decode(all).records, k, cfg);
  }
}
