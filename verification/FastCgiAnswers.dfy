/**
 What the web server gets for a request in the end. An answer, once given, is final for every
 later run, also when the request is released and its id used again; a response carries
 exactly its text, and a timeout exactly one refusal.
 */
module FastCgiAnswers {
  import opened Bytes
  import opened FastCgiRecords
  import opened FastCgiSpec
  import opened FastCgiStreams
  import opened FastCgiOutput

  /** The statuses of an END_REQUEST body, section 5.5 of the FastCGI Specification 1.0. */
  function AppStatus(r: Record): int
    requires |r.content| == 8
  {
    Word(r.content[0], r.content[1], r.content[2], r.content[3])
  }

  function Word(b0: int, b1: int, b2: int, b3: int): int {
    ((b0 * 256 + b1) * 256 + b2) * 256 + b3
  }

  /** Both statuses can be read back from the body. */
  lemma EndRequestStatuses(id: nat, appStatus: nat, protocolStatus: byte)
    requires appStatus < 0x1_0000_0000
    ensures var r := EndRequestRecord(id, appStatus, protocolStatus);
            |r.content| == 8 && AppStatus(r) == appStatus && r.content[4] == protocolStatus
  {
    var hi, lo := appStatus / 0x1_0000, appStatus % 0x1_0000;
    assert hi == 256 * (hi / 256) + hi % 256 && lo == 256 * (lo / 256) + lo % 256;
  }

  // ----------------------------------------------------- an answered request stays as it is

  predicate IsAnswered(c: Conn, k: nat) {
    k in c.requests && c.requests[k].responded
  }

  /** Replacing request j by a successor that answers if at all leaves an answered k as it is. */
  lemma ReplaceKeepsAnswer(c: Conn, j: nat, r: Req, r': Req, out: seq<Record>, c': Conn, k: nat)
    requires IsAnswered(c, k) && r.id == j && (j in c.requests ==> c.requests[j] == r)
    requires AnswersIfAtAll(r, r', out)
    requires c'.requests == c.requests[j := r'] && c'.out == c.out + out
    ensures IsAnswered(c', k) && RecordsOf(c'.out, k) == RecordsOf(c.out, k)
  {
    OutputSeenBy(c.out, out, j, k);
    AppendNothing(RecordsOf(c.out, k));
  }

  lemma StepKeepsAnswer(c: Conn, past: Past, rec: Record, cfg: Config, k: nat)
    requires Disciplined(c, past) && Fits(rec) && IsAnswered(c, k)
    ensures IsAnswered(Step(c, rec, cfg), k) && RecordsOf(Step(c, rec, cfg).out, k) == RecordsOf(c.out, k)
  {
    if Addressed(rec) && Known(c, rec.id) {
      WellKeyedFrom(c, past);
      hide Handle, Disciplined, AnswersIfAtAll, RecordsOf, IsAnswered;
      var r := if rec.id in c.requests then c.requests[rec.id] else Fresh(rec.id, cfg);
      HandleAnswers(r, rec, cfg);
      var e := Handle(r, rec, cfg);
      ReplaceKeepsAnswer(c, rec.id, r, e.req, e.out, Step(c, rec, cfg), k);
    }
  }

  lemma {:induction false} FoldKeepsAnswer(c: Conn, past: Past, recs: seq<Record>, cfg: Config, k: nat)
    requires Disciplined(c, past) && AllFit(recs) && IsAnswered(c, k)
    ensures IsAnswered(Fold(c, recs, cfg), k) && RecordsOf(Fold(c, recs, cfg).out, k) == RecordsOf(c.out, k)
    decreases |recs|
  {
    if recs != [] {
      hide Disciplined, Step, IsAnswered, RecordsOf;
      StepKeepsDiscipline(c, past, recs[0], cfg);
      StepKeepsAnswer(c, past, recs[0], cfg, k);
      FoldKeepsAnswer(Step(c, recs[0], cfg), past, recs[1..], cfg, k);
    }
  }

  lemma ReceivedKeepsAnswer(buf: bytes, c: Conn, past: Past, cfg: Config, k: nat)
    requires Disciplined(c, past) && IsAnswered(c, k)
    ensures var o := Run(buf, c, cfg);
            IsAnswered(o.conn, k) && RecordsOf(o.conn.out, k) == RecordsOf(c.out, k)
  {
    hide Disciplined, Decode, Fold, RunFrom, Reached, IsAnswered, RecordsOf;
    RunIsFold(buf, 0, c, cfg);
    assert buf[0..] == buf;
    DecodeFits(buf);
    FoldKeepsAnswer(c, past, Reached(c, Decode(buf).records, cfg), cfg, k);
  }

  /**
   Timeouts, seen by request k: an unanswered request that is listed, once or more often, gets
   exactly one OVERLOADED END_REQUEST and is failed for good; any other is left alone.
   */
  lemma {:induction false} ExpireSeenBy(c: Conn, ks: seq<nat>, k: nat)
    requires WellKeyed(c)
    ensures var v, w := ViewOf(c, k), ViewOf(ExpireAll(c, ks), k);
            if k in ks && v.req.Some? && !v.req.value.responded
            then w == View(Some(v.req.value.(failed := true, responded := true)),
                           v.out + [EndRequestRecord(k, 0, OVERLOADED)], v.ready)
            else w == v
    decreases |ks|
  {
    if ks != [] {
      var c1 := Expire(c, ks[0]);
      assert k in ks <==> k == ks[0] || k in ks[1..];
      OutputSeenBy(c.out, [EndRequestRecord(ks[0], 0, OVERLOADED)], ks[0], k);
      hide RecordsOf, EventsOf;
      ExpireSeenBy(c1, ks[1..], k);
    }
  }

  /** A response, seen by request k: its own text and one END_REQUEST, or nothing. */
  lemma AnswerSeenBy(c: Conn, j: nat, text: bytes, k: nat)
    ensures var v, w := ViewOf(c, k), ViewOf(Answer(c, j, text), k);
            if k == j && v.req.Some? && !v.req.value.responded
            then w == View(Some(v.req.value.(responded := true)),
                           v.out + (StdoutRecords(k, text) + [EndRequestRecord(k, 0, REQUEST_COMPLETE)]), v.ready)
            else w == v
  {
    StdoutRecordsSplit(j, text);
    hide StdoutRecords, EventsOf, RecordsOf;
    OutputSeenBy(c.out, StdoutRecords(j, text) + [EndRequestRecord(j, 0, REQUEST_COMPLETE)], j, k);
  }

  // --------------------------------------------------------------- instances are final

  /** The instances of k that have their answer: the released ones, and the current one if it is answered. */
  function Done(s: Server, k: nat): nat {
    |PastOf(s.past, k)| + if IsAnswered(s.conn, k) then 1 else 0
  }

  lemma NextKeepsAnswer(s: Server, e: Event, cfg: Config, k: nat)
    requires Disciplined(s.conn, s.past) && IsAnswered(s.conn, k) && e != Released(k)
    ensures var t := Next(s, e, cfg);
            IsAnswered(t.conn, k) && RecordsOf(t.conn.out, k) == RecordsOf(s.conn.out, k)
  {
    match e
    case Received(chunk, supply) =>
      SupplyIsNoMatter(s.conn, s.past, supply);
      hide Disciplined, Run, RecordsOf;
      ReceivedKeepsAnswer(s.inBuf + chunk, s.conn.(pool := supply), s.past, cfg, k);
    case HungUp =>
    case Overdue(ids) =>
      WellKeyedFrom(s.conn, s.past);
      hide Disciplined, RecordsOf, EventsOf;
      ExpireSeenBy(s.conn, ids, k);
    case Finished(id, text) =>
      hide Disciplined, RecordsOf, EventsOf;
      AnswerSeenBy(s.conn, id, text, k);
    case Released(id) =>
      hide Disciplined, RecordsOf, Current;
  }

  /** No event changes, drops or reorders an instance that has its answer. */
  lemma NextKeepsInstances(s: Server, e: Event, cfg: Config, k: nat, n: nat)
    requires Disciplined(s.conn, s.past) && n <= Done(s, k)
    ensures var t := Next(s, e, cfg);
            n <= Done(t, k) && Instances(t, k)[..n] == Instances(s, k)[..n]
  {
    var t := Next(s, e, cfg);
    assert e != Released(k) ==> PastOf(t.past, k) == PastOf(s.past, k);
    if e != Released(k) && IsAnswered(s.conn, k) {
      NextKeepsAnswer(s, e, cfg, k);
    }
    hide Disciplined, Run, ExpireAll, Answer, RecordsOf, Concat;
    if n <= |PastOf(s.past, k)| {
      assert PastOf(s.past, k)[..n] == PastOf(t.past, k)[..n];
    }
  }

  /** Whatever happens later, an answered instance keeps exactly the records of its answer. */
  lemma {:induction false} AnswerIsFinal(s: Server, events: seq<Event>, cfg: Config, k: nat, n: nat)
    requires Disciplined(s.conn, s.past) && n <= Done(s, k)
    ensures var t := After(s, events, cfg);
            n <= Done(t, k) && Instances(t, k)[..n] == Instances(s, k)[..n]
    decreases |events|
  {
    if events != [] {
      NextKeepsInstances(s, events[0], cfg, k, n);
      NextKeepsDiscipline(s, events[0], cfg);
      hide Disciplined, Done, Next, Instances;
      AnswerIsFinal(Next(s, events[0], cfg), events[1..], cfg, k, n);
    }
  }

  /** An unanswered request that just got `answer` has it as its instance from then on. */
  lemma AnswerArrives(s: Server, t: Server, k: nat, answer: seq<Record>, later: seq<Event>, cfg: Config)
    requires AnsweredOnce(s.conn, s.past, k) && !IsAnswered(s.conn, k)
    requires Disciplined(t.conn, t.past) && t.past == s.past && IsAnswered(t.conn, k)
    requires RecordsOf(t.conn.out, k) == RecordsOf(s.conn.out, k) + answer
    ensures var i := |PastOf(s.past, k)|;
            var parts := Instances(After(t, later, cfg), k);
            i < |parts| && parts[i] == answer
  {
    var i := |PastOf(s.past, k)|;
    CurrentGrows(s.conn, s.past, k, answer, t.conn);
    assert Instances(t, k)[i] == answer;
    AnswerIsFinal(t, later, cfg, k, i + 1);
    var parts := Instances(After(t, later, cfg), k);
    hide Disciplined, RecordsOf, After, Instances, Current;
    assert parts[i] == parts[..i + 1][i];
  }

  /**
   End to end: a response to an unanswered request of an open connection is, after any further
   run, everything the web server gets for that instance, and reads back as the response text.
   */
  lemma ResponseArrives(s: Server, k: nat, text: bytes, later: seq<Event>, cfg: Config)
    requires Disciplined(s.conn, s.past) && !s.closed && k in s.conn.requests && !s.conn.requests[k].responded
    ensures var i := |PastOf(s.past, k)|;
            var parts := Instances(After(Next(s, Finished(k, text), cfg), later, cfg), k);
            && i < |parts|
            && parts[i] == StdoutRecords(k, text) + [EndRequestRecord(k, 0, REQUEST_COMPLETE)]
            && StdoutOf(parts[i]) == text
  {
    var t := Next(s, Finished(k, text), cfg);
    assert AnsweredOnce(s.conn, s.past, k);
    NextKeepsDiscipline(s, Finished(k, text), cfg);
    AnswerSeenBy(s.conn, k, text, k);
    ResponseReadsBack(k, text);
    hide Disciplined, After, RecordsOf, EventsOf, StdoutRecords, StdoutOf, EndRequestRecord, AnsweredOnce, Instances;
    AnswerArrives(s, t, k, StdoutRecords(k, text) + [EndRequestRecord(k, 0, REQUEST_COMPLETE)], later, cfg);
  }

  lemma ResponseReadsBack(k: nat, text: bytes)
    ensures StdoutOf(StdoutRecords(k, text) + [EndRequestRecord(k, 0, REQUEST_COMPLETE)]) == text
  {
    var end := EndRequestRecord(k, 0, REQUEST_COMPLETE);
    StdoutRecordsSplit(k, text);
    StdoutOfAppends(StdoutRecords(k, text), [end]);
    assert StdoutOf([end]) == [];
    AppendNothing(text);
  }

  /** The same for a timeout: one OVERLOADED END_REQUEST is all there will ever be for that instance. */
  lemma TimeoutArrives(s: Server, ids: seq<nat>, k: nat, later: seq<Event>, cfg: Config)
    requires Disciplined(s.conn, s.past) && k in ids && k in s.conn.requests && !s.conn.requests[k].responded
    ensures var i := |PastOf(s.past, k)|;
            var parts := Instances(After(Next(s, Overdue(ids), cfg), later, cfg), k);
            i < |parts| && parts[i] == [EndRequestRecord(k, 0, OVERLOADED)]
  {
    var t := Next(s, Overdue(ids), cfg);
    assert AnsweredOnce(s.conn, s.past, k);
    NextKeepsDiscipline(s, Overdue(ids), cfg);
    WellKeyedFrom(s.conn, s.past);
    ExpireSeenBy(s.conn, ids, k);
    hide Disciplined, After, RecordsOf, EventsOf, AnsweredOnce, Instances;
    AnswerArrives(s, t, k, [EndRequestRecord(k, 0, OVERLOADED)], later, cfg);
  }

  // ------------------------------------------------------------------ ids used again

  /** An abort for an unknown id opens a request, answers it and leaves it releasable. */
  lemma AbortUnknown(c: Conn, k: nat, cfg: Config)
    requires k < 0x1_0000 && k !in c.requests && c.pool.Ample?
    ensures Run(Plain(Record(ABORT_REQUEST, k, [])), c, cfg)
         == Outcome(c.(requests := c.requests[k := Fresh(k, cfg).(aborted := true, responded := true, failed := true)],
                       out := c.out + [EndRequestRecord(k, 0, REQUEST_COMPLETE)]),
                    [], false, false)
  {
    var abort := Record(ABORT_REQUEST, k, []);
    var c1 := Step(c, abort, cfg);
    AppendNothing(c.ready);
    assert c1.out == c.out + [EndRequestRecord(k, 0, REQUEST_COMPLETE)] && c1.ready == c.ready;
    DecodeWhole([abort]);
    AppendNothing(Plain(abort));
    assert [abort][1..] == [];
    hide Run, Decode, Plain, Step, EndRequestRecord;
    assert EncodeAll([abort]) == Plain(abort) + EncodeAll([]);
    RunAmple(Plain(abort), c, cfg);
    assert Fold(c, [abort], cfg) == Fold(c1, [], cfg) == c1;
  }

  /** So an id gets an END_REQUEST for each of its instances: here one abort, its release, and one late abort. */
  lemma IdIsUsedAgain(k: nat, cfg: Config)
    requires k < 0x1_0000
    ensures var abort := Received(Plain(Record(ABORT_REQUEST, k, [])), Ample);
            var end := EndRequestRecord(k, 0, REQUEST_COMPLETE);
            After(START, [abort, Released(k), abort], cfg).conn.out == [end, end]
  {
    var abort, end := Received(Plain(Record(ABORT_REQUEST, k, [])), Ample), EndRequestRecord(k, 0, REQUEST_COMPLETE);
    ThreeEvents(START, abort, Released(k), abort, cfg);
    AbortArrives(START, k, cfg);
    hide Next, Plain, EndRequestRecord;
    var s1 := Next(START, abort, cfg);
    ReleaseForgets(s1, k, cfg);
    AbortArrives(Next(s1, Released(k), cfg), k, cfg);
  }

  lemma AbortArrives(s: Server, k: nat, cfg: Config)
    requires k < 0x1_0000 && !s.closed && s.inBuf == [] && k !in s.conn.requests
    ensures var t := Next(s, Received(Plain(Record(ABORT_REQUEST, k, [])), Ample), cfg);
            && t.conn.out == s.conn.out + [EndRequestRecord(k, 0, REQUEST_COMPLETE)]
            && k in t.conn.requests && t.conn.requests[k].responded && !t.closed && t.inBuf == []
  {
    AppendNothing(Plain(Record(ABORT_REQUEST, k, [])));
    hide Plain, Run, EndRequestRecord;
    AbortUnknown(s.conn.(pool := Ample), k, cfg);
  }

  lemma ReleaseForgets(s: Server, k: nat, cfg: Config)
    requires k in s.conn.requests && s.conn.requests[k].responded
    ensures var t := Next(s, Released(k), cfg);
            t.conn.out == s.conn.out && k !in t.conn.requests && t.closed == s.closed && t.inBuf == s.inBuf
  {
    hide Current;
  }

  lemma ThreeEvents(s: Server, a: Event, b: Event, c: Event, cfg: Config)
    ensures After(s, [a, b, c], cfg) == Next(Next(Next(s, a, cfg), b, cfg), c, cfg)
  {
    hide Next;
    assert [a, b, c][1..] == [b, c] && [b, c][1..] == [c] && [c][1..] == [];
    assert After(s, [a, b, c], cfg) == After(Next(s, a, cfg), [b, c], cfg);
    assert After(Next(s, a, cfg), [b, c], cfg) == After(Next(Next(s, a, cfg), b, cfg), [c], cfg);
    var t := Next(Next(Next(s, a, cfg), b, cfg), c, cfg);
    assert After(t, [], cfg) == t;
  }
}
