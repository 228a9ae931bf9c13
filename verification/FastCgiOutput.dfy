/**
 Output discipline over whole runs: whatever mix of reads, arena shortages, aborts,
 timeouts, responses and releases happens on a connection, the bytes appended to its output
 are whole records, and each instance of a request is answered at most once and by nothing
 afterwards. An id names a new instance after its request was released.
 */
module FastCgiOutput {
  import opened Bytes
  import opened FastCgiRecords
  import opened FastCgiSpec
  import opened FastCgiStreams

  /** What can happen to a connection between two returns to the event loop. */
  datatype Event =
    | Received(chunk: bytes, supply: Pool)
    | HungUp
    | Overdue(ids: seq<nat>)
    | Finished(id: nat, text: bytes)
    | Released(id: nat)

  /** The records of the released instances of each id, oldest first. */
  type Past = map<nat, seq<seq<Record>>>

  datatype Server = Server(conn: Conn, inBuf: bytes, closed: bool, past: Past)

  const START := Server(Conn(map[], [], [], Ample), [], false, map[])

  /** A closed connection still buffers input and expires requests, but processes and answers nothing. */
  function Next(s: Server, e: Event, cfg: Config): Server {
    match e
    case Received(chunk, supply) =>
      if s.closed then s.(inBuf := s.inBuf + chunk)
      else
        var o := Run(s.inBuf + chunk, s.conn.(pool := supply), cfg);
        s.(conn := o.conn, inBuf := o.rest, closed := o.close)
    case HungUp => s.(closed := true)
    case Overdue(ids) => s.(conn := ExpireAll(s.conn, ids))
    case Finished(id, text) => if s.closed then s else s.(conn := Answer(s.conn, id, text))
    case Released(id) =>
      if id in s.conn.requests && Releasable(s.conn.requests[id])
      then s.(conn := Release(s.conn, id),
              past := s.past[id := PastOf(s.past, id) + [Current(s.conn, s.past, id)]])
      else s
  }

  function After(s: Server, events: seq<Event>, cfg: Config): Server
    decreases |events|
  {
    if events == [] then s else After(Next(s, events[0], cfg), events[1..], cfg)
  }

  // ----------------------------------------------------------------------- instances

  function PastOf(past: Past, k: nat): seq<seq<Record>> {
    if k in past then past[k] else []
  }

  /** What the current instance of k has written. */
  function Current(c: Conn, past: Past, k: nat): seq<Record> {
    var all, before := RecordsOf(c.out, k), |Concat(PastOf(past, k))|;
    if before <= |all| then all[before..] else []
  }

  /** The records of k by instance; the last one is current. */
  function Instances(s: Server, k: nat): (parts: seq<seq<Record>>)
    ensures |parts| == |PastOf(s.past, k)| + 1
  {
    PastOf(s.past, k) + [Current(s.conn, s.past, k)]
  }

  /** A complete answer: STDOUT records, then one END_REQUEST in last place. */
  predicate Answered(rs: seq<Record>) {
    && rs != []
    && rs[|rs| - 1].kind == END_REQUEST
    && forall i :: 0 <= i < |rs| - 1 ==> rs[i].kind == STDOUT
  }

  predicate AllAnswered(parts: seq<seq<Record>>) {
    forall i :: 0 <= i < |parts| ==> Answered(parts[i])
  }

  /** Failing and aborting a request answers it. */
  predicate Sound(r: Req) {
    r.failed || r.aborted ==> r.responded
  }

  /** Each released instance of k was answered, and the current one has been exactly if it is marked so. */
  ghost predicate AnsweredOnce(c: Conn, past: Past, k: nat) {
    && AllAnswered(PastOf(past, k))
    && Concat(PastOf(past, k)) <= RecordsOf(c.out, k)
    && (if k in c.requests && c.requests[k].responded then Answered(Current(c, past, k)) else Current(c, past, k) == [])
  }

  ghost predicate Disciplined(c: Conn, past: Past) {
    && WellKeyed(c)
    && (forall k :: k in c.requests ==> k < 0x1_0000 && Sound(c.requests[k]))
    && AllFit(c.out)
    && forall k: nat :: AnsweredOnce(c, past, k)
  }

  // ------------------------------------------------------------------ what each event keeps

  /** How a request and its output may change together. */
  predicate AnswersIfAtAll(r: Req, r': Req, out: seq<Record>) {
    && r'.id == r.id
    && (Sound(r) ==> Sound(r'))
    && (if r'.responded == r.responded then out == []
        else r'.responded && Answered(out) && forall i :: 0 <= i < |out| ==> Fits(out[i]) && out[i].id == r.id)
  }

  lemma FailAnswers(r: Req, status: byte)
    requires r.id < 0x1_0000
    ensures AnswersIfAtAll(r, FailRequest(r, status).req, FailRequest(r, status).out)
    ensures FailRequest(r, status).req.responded
  {
  }

  lemma HandleAnswers(r: Req, rec: Record, cfg: Config)
    requires r.id < 0x1_0000 && Addressed(rec)
    ensures AnswersIfAtAll(r, Handle(r, rec, cfg).req, Handle(r, rec, cfg).out)
  {
    hide TakePairs, FailRequest;
    var r' := PairsShape(r, rec.content, cfg);
    FailAnswers(r', OVERLOADED);
    FailAnswers(r, OVERLOADED);
    FailAnswers(r.(aborted := true), REQUEST_COMPLETE);
  }

  /** Replacing one request by a successor that answers if at all keeps the discipline. */
  lemma ReplaceKeepsDiscipline(c: Conn, past: Past, k: nat, r: Req, r': Req, out: seq<Record>, c': Conn)
    requires Disciplined(c, past) && k < 0x1_0000 && r.id == k && Sound(r)
    requires if k in c.requests then c.requests[k] == r else !r.responded
    requires AnswersIfAtAll(r, r', out)
    requires c'.requests == c.requests[k := r'] && c'.out == c.out + out
    ensures Disciplined(c', past)
  {
    forall j: nat
      ensures AnsweredOnce(c', past, j)
    {
      assert AnsweredOnce(c, past, j);
      hide AnsweredOnce, Answered;
      ReplaceKeepsOne(c, past, k, r, r', out, c', j);
    }
    hide AnsweredOnce, Answered;
  }

  lemma ReplaceKeepsOne(c: Conn, past: Past, k: nat, r: Req, r': Req, out: seq<Record>, c': Conn, j: nat)
    requires AnsweredOnce(c, past, j) && r.id == k
    requires if k in c.requests then c.requests[k] == r else !r.responded
    requires AnswersIfAtAll(r, r', out)
    requires c'.requests == c.requests[k := r'] && c'.out == c.out + out
    ensures AnsweredOnce(c', past, j)
  {
    OutputSeenBy(c.out, out, k, j);
    hide RecordsOf, Answered, AllAnswered, Concat, PastOf, Current;
    AppendNothing(RecordsOf(c.out, j));
    AppendNothing(Current(c, past, j));
    CurrentGrows(c, past, j, if j == k then out else [], c');
  }

  lemma CurrentGrows(c: Conn, past: Past, k: nat, more: seq<Record>, c': Conn)
    requires Concat(PastOf(past, k)) <= RecordsOf(c.out, k)
    requires RecordsOf(c'.out, k) == RecordsOf(c.out, k) + more
    ensures Concat(PastOf(past, k)) <= RecordsOf(c'.out, k)
    ensures Current(c', past, k) == Current(c, past, k) + more
    ensures Current(c, past, k) == [] ==> Current(c', past, k) == more
  {
    hide RecordsOf, Concat, PastOf;
  }

  lemma StepKeepsDiscipline(c: Conn, past: Past, rec: Record, cfg: Config)
    requires Disciplined(c, past) && Fits(rec)
    ensures Disciplined(Step(c, rec, cfg), past)
  {
    if Addressed(rec) && Known(c, rec.id) {
      WellKeyedFrom(c, past);
      hide Handle, Disciplined, AnswersIfAtAll;
      var r := if rec.id in c.requests then c.requests[rec.id] else Fresh(rec.id, cfg);
      HandleAnswers(r, rec, cfg);
      var e := Handle(r, rec, cfg);
      ReplaceKeepsDiscipline(c, past, rec.id, r, e.req, e.out, Step(c, rec, cfg));
    }
  }

  lemma WellKeyedFrom(c: Conn, past: Past)
    requires Disciplined(c, past)
    ensures WellKeyed(c) && AllFit(c.out) && forall k :: k in c.requests ==> k < 0x1_0000 && Sound(c.requests[k])
  {
  }

  lemma {:induction false} FoldKeepsDiscipline(c: Conn, past: Past, recs: seq<Record>, cfg: Config)
    requires Disciplined(c, past) && AllFit(recs)
    ensures Disciplined(Fold(c, recs, cfg), past)
    decreases |recs|
  {
    if recs != [] {
      hide Disciplined, Step;
      StepKeepsDiscipline(c, past, recs[0], cfg);
      FoldKeepsDiscipline(Step(c, recs[0], cfg), past, recs[1..], cfg);
    }
  }

  lemma {:induction false} DecodeFits(buf: bytes)
    ensures AllFit(Decode(buf).records)
    decreases |buf|
  {
    match NextRecord(buf)
    case Complete(_, total) => DecodeFits(buf[total..]);
    case _ =>
  }

  lemma {:induction false} ExpireKeepsDiscipline(c: Conn, past: Past, ks: seq<nat>)
    requires Disciplined(c, past)
    ensures Disciplined(ExpireAll(c, ks), past)
    decreases |ks|
  {
    if ks != [] {
      var k := ks[0];
      WellKeyedFrom(c, past);
      hide Disciplined;
      if k in c.requests && !c.requests[k].responded {
        var r := c.requests[k];
        ReplaceKeepsDiscipline(c, past, k, r, r.(failed := true, responded := true),
                               [EndRequestRecord(k, 0, OVERLOADED)], Expire(c, k));
      }
      ExpireKeepsDiscipline(Expire(c, k), past, ks[1..]);
    }
  }

  lemma AnswerKeepsDiscipline(c: Conn, past: Past, k: nat, text: bytes)
    requires Disciplined(c, past)
    ensures Disciplined(Answer(c, k, text), past)
  {
    WellKeyedFrom(c, past);
    hide Disciplined;
    if k in c.requests && !c.requests[k].responded {
      var r := c.requests[k];
      StdoutRecordsSplit(k, text);
      hide StdoutRecords;
      ReplaceKeepsDiscipline(c, past, k, r, r.(responded := true),
                             StdoutRecords(k, text) + [EndRequestRecord(k, 0, REQUEST_COMPLETE)], Answer(c, k, text));
    }
  }

  /** A released instance joins the past with everything it wrote, and the id starts afresh. */
  lemma ReleaseKeepsDiscipline(c: Conn, past: Past, k: nat)
    requires Disciplined(c, past) && k in c.requests && Releasable(c.requests[k])
    ensures Disciplined(Release(c, k), past[k := PastOf(past, k) + [Current(c, past, k)]])
  {
    var c' := Release(c, k);
    var past' := past[k := PastOf(past, k) + [Current(c, past, k)]];
    assert AnsweredOnce(c, past, k);
    ReleasedInstance(c, past, k, c', past');
    forall j: nat | j != k
      ensures AnsweredOnce(c', past', j)
    {
      assert AnsweredOnce(c, past, j);
      hide AnsweredOnce, Current;
      OtherInstances(c, past, c', past', j);
    }
    hide AnsweredOnce, Current, PastOf;
  }

  lemma OtherInstances(c: Conn, past: Past, c': Conn, past': Past, j: nat)
    requires AnsweredOnce(c, past, j) && c'.out == c.out && PastOf(past', j) == PastOf(past, j)
    requires j in c'.requests <==> j in c.requests
    requires j in c.requests ==> c'.requests[j] == c.requests[j]
    ensures AnsweredOnce(c', past', j)
  {
    hide RecordsOf, Answered, Concat, PastOf, AllAnswered;
  }

  lemma ReleasedInstance(c: Conn, past: Past, k: nat, c': Conn, past': Past)
    requires AnsweredOnce(c, past, k) && k in c.requests && c.requests[k].responded
    requires c' == c.(requests := c.requests - {k})
    requires past' == past[k := PastOf(past, k) + [Current(c, past, k)]]
    ensures AnsweredOnce(c', past', k)
  {
    var all := RecordsOf(c.out, k);
    ConcatSnoc(PastOf(past, k), Current(c, past, k));
    hide RecordsOf, Answered, Concat;
    assert PastOf(past', k) == PastOf(past, k) + [Current(c, past, k)];
    assert Concat(PastOf(past', k)) == all;
    assert all[|all|..] == [];
  }

  lemma SupplyIsNoMatter(c: Conn, past: Past, supply: Pool)
    requires Disciplined(c, past)
    ensures Disciplined(c.(pool := supply), past)
  {
    forall k: nat
      ensures AnsweredOnce(c.(pool := supply), past, k)
    {
      assert AnsweredOnce(c, past, k);
    }
  }

  lemma NextKeepsDiscipline(s: Server, e: Event, cfg: Config)
    requires Disciplined(s.conn, s.past)
    ensures var t := Next(s, e, cfg); Disciplined(t.conn, t.past)
  {
    match e
    case Received(chunk, supply) =>
      var buf := s.inBuf + chunk;
      var c := s.conn.(pool := supply);
      SupplyIsNoMatter(s.conn, s.past, supply);
      hide Disciplined, Decode, Fold, RunFrom, Reached;
      RunIsFold(buf, 0, c, cfg);
      assert buf[0..] == buf;
      DecodeFits(buf);
      FoldKeepsDiscipline(c, s.past, Reached(c, Decode(buf).records, cfg), cfg);
    case HungUp =>
    case Overdue(ids) => ExpireKeepsDiscipline(s.conn, s.past, ids);
    case Finished(id, text) => AnswerKeepsDiscipline(s.conn, s.past, id, text);
    case Released(id) =>
      hide Disciplined;
      if id in s.conn.requests && Releasable(s.conn.requests[id]) {
        ReleaseKeepsDiscipline(s.conn, s.past, id);
      }
  }

  lemma {:induction false} RunKeepsDiscipline(s: Server, events: seq<Event>, cfg: Config)
    requires Disciplined(s.conn, s.past)
    ensures var t := After(s, events, cfg); Disciplined(t.conn, t.past)
    decreases |events|
  {
    if events != [] {
      hide Disciplined, Next;
      NextKeepsDiscipline(s, events[0], cfg);
      RunKeepsDiscipline(Next(s, events[0], cfg), events[1..], cfg);
    }
  }

  lemma StartIsDisciplined()
    ensures Disciplined(START.conn, START.past)
  {
  }

  /** The records of an id are those of its instances, one after the other. */
  lemma InstancesMakeUp(s: Server, k: nat)
    requires AnsweredOnce(s.conn, s.past, k)
    ensures Concat(Instances(s, k)) == RecordsOf(s.conn.out, k)
    ensures AllAnswered(Instances(s, k)[..|Instances(s, k)| - 1])
  {
    ConcatSnoc(PastOf(s.past, k), Current(s.conn, s.past, k));
    hide Concat, RecordsOf, AllAnswered;
    assert Instances(s, k)[..|Instances(s, k)| - 1] == PastOf(s.past, k);
  }

  /**
   For every run from a new connection: the output decodes as exactly the records written,
   with nothing left over; the records of an id are those of its instances in order; each
   instance but the current one has written STDOUT records and one END_REQUEST behind them,
   and so has the current one if it is marked responded, otherwise it has written nothing.
   */
  lemma OutputDiscipline(events: seq<Event>, cfg: Config)
    ensures var s := After(START, events, cfg);
            && AllFit(s.conn.out)
            && Decode(EncodeAll(s.conn.out)) == Decoded(s.conn.out, [], false)
            && forall k: nat ::
                 var parts := Instances(s, k);
                 && Concat(parts) == RecordsOf(s.conn.out, k)
                 && AllAnswered(parts[..|parts| - 1])
                 && (if k in s.conn.requests && s.conn.requests[k].responded
                     then Answered(parts[|parts| - 1]) else parts[|parts| - 1] == [])
  {
    StartIsDisciplined();
    RunKeepsDiscipline(START, events, cfg);
    var s := After(START, events, cfg);
    hide Decode, After, Answered, AllAnswered, Concat, RecordsOf, Current;
    DecodeWhole(s.conn.out);
    forall k: nat
      ensures var parts := Instances(s, k);
              && Concat(parts) == RecordsOf(s.conn.out, k)
              && AllAnswered(parts[..|parts| - 1])
              && (if k in s.conn.requests && s.conn.requests[k].responded
                  then Answered(parts[|parts| - 1]) else parts[|parts| - 1] == [])
    {
      assert AnsweredOnce(s.conn, s.past, k);
      InstancesMakeUp(s, k);
    }
  }
}
