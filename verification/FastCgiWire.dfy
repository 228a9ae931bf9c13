/**
 Engine and socket together: one run in which the engine's events append to the output
 buffer, flushes send any part of it, and a failed send closes the connection.
 */
module FastCgiWire {
  import opened Bytes
  import opened FastCgiRecords
  import opened FastCgiSpec
  import opened FastCgiStreams
  import opened FastCgiOutput
  import Outbound

  datatype Act = Engine(event: Event) | Flush(socket: Outbound.Socket)

  datatype Wire = Wire(server: Server, out: Outbound.Out)

  const UNUSED := Wire(START, Outbound.Out([], 0, false, []))

  ghost predicate InOrder(w: Wire) {
    Disciplined(w.server.conn, w.server.past) && Outbound.InBounds(w.out)
  }

  /** What an event adds to the output. */
  ghost function Added(s: Server, e: Event, cfg: Config): (rs: seq<Record>)
    requires Disciplined(s.conn, s.past)
    ensures Next(s, e, cfg).conn.out == s.conn.out + rs && AllFit(rs)
  {
    NextKeepsDiscipline(s, e, cfg);
    NextOnlyAppends(s, e, cfg);
    Next(s, e, cfg).conn.out[|s.conn.out|..]
  }

  ghost function Happens(w: Wire, a: Act, cfg: Config): (w': Wire)
    requires InOrder(w)
    ensures InOrder(w')
  {
    match a
    case Engine(e) =>
      NextKeepsDiscipline(w.server, e, cfg);
      Wire(Next(w.server, e, cfg), Outbound.Append(w.out, EncodeAll(Added(w.server, e, cfg))))
    case Flush(socket) =>
      var o := Outbound.Flush(w.out, socket, 0);
      Wire(w.server.(closed := w.server.closed || o.closed), o)
  }

  ghost function AllHappen(w: Wire, acts: seq<Act>, cfg: Config): (w': Wire)
    requires InOrder(w)
    ensures InOrder(w')
    decreases |acts|
  {
    if acts == [] then w else AllHappen(Happens(w, acts[0], cfg), acts[1..], cfg)
  }

  // -------------------------------------------------------------- the output only grows

  lemma {:induction false} FoldOnlyAppends(c: Conn, recs: seq<Record>, cfg: Config)
    ensures c.out <= Fold(c, recs, cfg).out
    decreases |recs|
  {
    if recs != [] {
      assert c.out <= Step(c, recs[0], cfg).out by { hide Handle; }
      hide Step;
      FoldOnlyAppends(Step(c, recs[0], cfg), recs[1..], cfg);
    }
  }

  lemma {:induction false} ExpireOnlyAppends(c: Conn, ks: seq<nat>)
    ensures c.out <= ExpireAll(c, ks).out
    decreases |ks|
  {
    if ks != [] {
      assert c.out <= Expire(c, ks[0]).out;
      hide Expire;
      ExpireOnlyAppends(Expire(c, ks[0]), ks[1..]);
    }
  }

  lemma NextOnlyAppends(s: Server, e: Event, cfg: Config)
    ensures s.conn.out <= Next(s, e, cfg).conn.out
  {
    match e
    case Received(chunk, supply) =>
      var buf, c := s.inBuf + chunk, s.conn.(pool := supply);
      hide Decode, Fold, RunFrom, Reached;
      RunIsFold(buf, 0, c, cfg);
      assert buf[0..] == buf;
      FoldOnlyAppends(c, Reached(c, Decode(buf).records, cfg), cfg);
    case HungUp =>
    case Overdue(ids) => ExpireOnlyAppends(s.conn, ids);
    case Finished(id, text) => hide StdoutRecords;
    case Released(id) =>
  }

  // ------------------------------------------------------------------------- the laws

  /** Bytes sent and bytes buffered are the engine's output, and a failed send has closed the connection. */
  ghost predicate Conserved(w: Wire) {
    && InOrder(w)
    && AllFit(w.server.conn.out)
    && w.out.sent + Outbound.Unsent(w.out) == EncodeAll(w.server.conn.out)
    && (w.out.closed ==> w.server.closed)
  }

  lemma NextStaysClosed(s: Server, e: Event, cfg: Config)
    ensures s.closed ==> Next(s, e, cfg).closed
  {
    hide Run, ExpireAll, Answer, Current;
  }

  lemma HappensConserves(w: Wire, a: Act, cfg: Config)
    requires Conserved(w)
    ensures Conserved(Happens(w, a, cfg)) && w.out.sent <= Happens(w, a, cfg).out.sent
  {
    match a
    case Engine(e) =>
      var more := Added(w.server, e, cfg);
      NextStaysClosed(w.server, e, cfg);
      hide Disciplined, EncodeAll, Next;
      EncodeAllAppends(w.server.conn.out, more);
      var data := EncodeAll(more);
      assert Outbound.Unsent(Outbound.Append(w.out, data)) == Outbound.Unsent(w.out) + data;
      Assoc(w.out.sent, Outbound.Unsent(w.out), data);
    case Flush(socket) =>
      hide Disciplined, EncodeAll;
      Outbound.FlushConserves(w.out, socket, 0);
  }

  lemma {:induction false} AllConserve(w: Wire, acts: seq<Act>, cfg: Config)
    requires Conserved(w)
    ensures Conserved(AllHappen(w, acts, cfg)) && w.out.sent <= AllHappen(w, acts, cfg).out.sent
    decreases |acts|
  {
    if acts != [] {
      hide Conserved;
      HappensConserves(w, acts[0], cfg);
      assert InOrder(w) by { ConservedInOrder(w); }
      AllConserve(Happens(w, acts[0], cfg), acts[1..], cfg);
    }
  }

  lemma ConservedInOrder(w: Wire)
    requires Conserved(w)
    ensures InOrder(w)
  {
  }

  /**
   What a web server has received so far of such an output, cut off anywhere, is the first
   of these records and an unfinished rest.
   */
  lemma ReceivedIsPrefix(out: seq<Record>, received: bytes)
    requires AllFit(out) && received <= EncodeAll(out)
    ensures !Decode(received).bad && Decode(received).records <= out
    ensures received == EncodeAll(out) ==> Decode(received) == Decoded(out, [], false)
  {
    var unsent := EncodeAll(out)[|received|..];
    assert received + unsent == EncodeAll(out);
    DecodeWhole(out);
    hide Decode, EncodeAll;
    DecodeSplits(received, unsent);
    BadStaysBad(received, unsent);
  }

  lemma {:induction false} BadStaysBad(a: bytes, b: bytes)
    ensures Decode(a).bad ==> Decode(a + b).bad
    decreases |a|
  {
    NextRecordExtends(a, b);
    match NextRecord(a)
    case Complete(_, total) =>
      assert (a + b)[total..] == a[total..] + b;
      BadStaysBad(a[total..], b);
    case _ =>
  }

  /**
   For every run of a new connection, reads, timeouts, responses, releases and flushes in any
   order and with any send results: the web server has received a prefix of the engine's
   records, and what it has received and what is buffered is exactly the engine's output.
   */
  lemma WireDiscipline(acts: seq<Act>, cfg: Config)
    ensures InOrder(UNUSED)
    ensures var w := AllHappen(UNUSED, acts, cfg);
            && AllFit(w.server.conn.out)
            && w.out.sent + Outbound.Unsent(w.out) == EncodeAll(w.server.conn.out)
            && !Decode(w.out.sent).bad && Decode(w.out.sent).records <= w.server.conn.out
            && (w.out.closed ==> w.server.closed)
  {
    StartIsDisciplined();
    hide Disciplined, Decode;
    assert Conserved(UNUSED);
    AllConserve(UNUSED, acts, cfg);
    var w := AllHappen(UNUSED, acts, cfg);
    hide AllHappen, EncodeAll;
    ReceivedIsPrefix(w.server.conn.out, w.out.sent);
  }

  // ------------------------------------------------------------------ reads in parts

  lemma TwoReads(s: Server, a: bytes, b: bytes, cfg: Config)
    ensures After(s, [Received(a, Ample), Received(b, Ample)], cfg)
         == Next(Next(s, Received(a, Ample), cfg), Received(b, Ample), cfg)
  {
    hide Next;
    var es := [Received(a, Ample), Received(b, Ample)];
    assert es[1..] == [Received(b, Ample)] && es[1..][1..] == [];
    var t := Next(Next(s, es[0], cfg), es[1], cfg);
    assert After(t, es[1..][1..], cfg) == t;
    assert After(Next(s, es[0], cfg), es[1..], cfg) == t;
  }

  /**
   With arenas available, two reads leave an open connection where one read of their bytes does,
   unless the first already holds a record of another version: then the connection is marked
   closed, and the second read is buffered and not looked at.
   */
  lemma ReceivedInParts(s: Server, a: bytes, b: bytes, cfg: Config)
    requires !s.closed
    ensures var t := After(s, [Received(a, Ample), Received(b, Ample)], cfg);
            var first := Next(s, Received(a, Ample), cfg);
            && (first.closed <==> Decode(s.inBuf + a).bad)
            && t == if first.closed then first.(inBuf := first.inBuf + b) else Next(s, Received(a + b, Ample), cfg)
  {
    TwoReads(s, a, b, cfg);
    var c := s.conn.(pool := Ample);
    hide Run, Decode, Fold, After;
    RunAmple(s.inBuf + a, c, cfg);
    FoldKeepsAmple(c, Decode(s.inBuf + a).records, cfg);
    SplitAnywhere(s.inBuf + a, b, c, cfg);
    Assoc(s.inBuf, a, b);
  }

  // -------------------------------------------------------------- closing too early

  /** `should_close_connection`, with the number of active workers. */
  predicate ShouldClose(w: Wire, workers: nat)
    requires Outbound.InBounds(w.out)
  {
    && Outbound.Unsent(w.out) == [] && workers == 0
    && (w.server.closed
        || forall k :: k in w.server.conn.requests ==>
             w.server.conn.requests[k].responded && !w.server.conn.requests[k].keepConnection)
  }

  /** A request that is still there keeps the connection if it is unanswered or asked for it. */
  lemma OneRequestKeeps(w: Wire, k: nat, r: Req)
    requires Outbound.InBounds(w.out) && w.server.conn.requests == map[k := r]
    ensures ShouldClose(w, 0) <==> Outbound.Unsent(w.out) == [] && (w.server.closed || (r.responded && !r.keepConnection))
  {
    assert k in w.server.conn.requests && w.server.conn.requests[k] == r;
  }

  predicate NoneAddressed(recs: seq<Record>) {
    forall i :: 0 <= i < |recs| ==> !Addressed(recs[i])
  }

  /** A call opens no request exactly when there is no arena or nothing that addresses one. */
  lemma {:induction false} OpensNoneIff(c: Conn, recs: seq<Record>, cfg: Config)
    requires c.requests == map[]
    ensures Fold(c, Reached(c, recs, cfg), cfg).requests == map[] <==> !CanTake(c.pool) || NoneAddressed(recs)
    decreases |recs|
  {
    if recs != [] && !Defers(c, recs[0]) {
      var c1 := Step(c, recs[0], cfg);
      var later := Reached(c1, recs[1..], cfg);
      TailOfCons(recs[0], later);
      assert NoneAddressed(recs) <==> !Addressed(recs[0]) && NoneAddressed(recs[1..]);
      hide Handle, Reached, NoneAddressed, Addressed;
      assert Fold(c, [recs[0]] + later, cfg) == Fold(c1, later, cfg);
      if c1.requests == map[] {
        assert c1 == c;
        OpensNoneIff(c1, recs[1..], cfg);
      } else {
        assert recs[0].id in c1.requests;
        FoldKeepsRequests(c1, later, cfg, recs[0].id);
      }
    }
  }

  lemma {:induction false} SomeRecordOfItsId(out: seq<Record>, i: nat)
    requires i < |out|
    ensures RecordsOf(out, out[i].id) != []
  {
    if i > 0 {
      assert out[1..][i - 1] == out[i];
      SomeRecordOfItsId(out[1..], i - 1);
    }
  }

  /** Before any release, nothing was written exactly if no request is answered. */
  lemma WrittenIff(s: Server)
    requires Disciplined(s.conn, s.past) && s.past == map[]
    ensures s.conn.out == [] <==> forall k :: k in s.conn.requests ==> !s.conn.requests[k].responded
  {
    if s.conn.out != [] {
      var k := s.conn.out[0].id;
      SomeRecordOfItsId(s.conn.out, 0);
      assert AnsweredOnce(s.conn, s.past, k);
    }
    forall k | k in s.conn.requests && s.conn.requests[k].responded
      ensures s.conn.out != []
    {
      assert AnsweredOnce(s.conn, s.past, k);
    }
  }

  lemma FirstRead(chunk: bytes, supply: Pool, cfg: Config)
    ensures var s := Next(START, Received(chunk, supply), cfg);
            && (s.conn.requests == map[] <==> !CanTake(supply) || NoneAddressed(Decode(chunk).records))
            && (s.closed ==> Decode(chunk).bad)
            && s.past == map[]
  {
    var c := START.conn.(pool := supply);
    AppendNothing(chunk);
    assert chunk[0..] == chunk;
    hide Decode, Fold, RunFrom, Reached, NoneAddressed;
    RunIsFold(chunk, 0, c, cfg);
    OpensNoneIff(c, Decode(chunk).records, cfg);
  }

  /**
   When a new connection does not outlive its first read, without having got a word: exactly if
   the read completes no record that addresses a request, or there is no arena for one. In the
   second case a BEGIN_REQUEST has been told to wait, and its retry never takes place.
   */
  lemma FirstReadClosesIff(chunk: bytes, supply: Pool, cfg: Config)
    requires !Decode(chunk).bad
    ensures InOrder(UNUSED)
    ensures ShouldClose(Happens(UNUSED, Engine(Received(chunk, supply)), cfg), 0)
            <==> !CanTake(supply) || NoneAddressed(Decode(chunk).records)
  {
    StartIsDisciplined();
    var e := Received(chunk, supply);
    var s := Next(START, e, cfg);
    FirstRead(chunk, supply, cfg);
    NextKeepsDiscipline(START, e, cfg);
    WrittenIff(s);
    hide Decode, Disciplined, Next, NoneAddressed, EncodeAll;
    var added := Added(START, e, cfg);
    assert s.conn.out == added;
    EncodedIsEmptyIff(added);
    assert Outbound.Unsent(Outbound.Append(UNUSED.out, EncodeAll(added))) == EncodeAll(added);
    if s.conn.requests != map[] {
      var k :| k in s.conn.requests;
    }
  }

  lemma EncodedIsEmptyIff(rs: seq<Record>)
    requires AllFit(rs)
    ensures EncodeAll(rs) == [] <==> rs == []
  {
    if rs != [] {
      assert |Plain(rs[0])| >= HEADER_SIZE;
    }
  }

  /** The second case at its smallest: one BEGIN_REQUEST, no arena. It waits, and the connection is closed. */
  lemma WaitingAndClosed(k: nat, cfg: Config)
    requires k < 0x1_0000
    ensures InOrder(UNUSED)
    ensures var begin := Plain(Record(BEGIN_REQUEST, k, [0, 1, 0, 0, 0, 0, 0, 0]));
            && Run(begin, START.conn.(pool := Left(0)), cfg).waiting
            && ShouldClose(Happens(UNUSED, Engine(Received(begin, Left(0))), cfg), 0)
  {
    var rec := Record(BEGIN_REQUEST, k, [0, 1, 0, 0, 0, 0, 0, 0]);
    AppendNothing(Plain(rec));
    NextRecordOfEncode(rec, [], 0, []);
    DecodeWhole([rec]);
    assert EncodeAll([rec]) == Plain(rec) by { assert [rec][1..] == []; }
    hide Plain, Decode, HeadAt;
    FirstReadClosesIff(Plain(rec), Left(0), cfg);
  }

  // --------------------------------------------------------------- the end of an event

  function Releases(ids: seq<nat>): seq<Event> {
    if ids == [] then [] else [Released(ids[0])] + Releases(ids[1..])
  }

  lemma {:induction false} AfterReleases(s: Server, ids: seq<nat>, cfg: Config)
    ensures var t := After(s, Releases(ids), cfg);
            && t.closed == s.closed && t.conn.out == s.conn.out
            && (forall k :: k in t.conn.requests ==> k in s.conn.requests && t.conn.requests[k] == s.conn.requests[k])
            && forall k :: k in s.conn.requests ==>
                 (k in t.conn.requests <==> !(k in ids && Releasable(s.conn.requests[k])))
    decreases |ids|
  {
    if ids != [] {
      var s1 := Next(s, Released(ids[0]), cfg);
      TailOfCons(Released(ids[0]), Releases(ids[1..]));
      assert forall k :: k in ids <==> k == ids[0] || k in ids[1..];
      hide Current, Releasable;
      AfterReleases(s1, ids[1..], cfg);
    }
  }

  /**
   At the end of every event without an active worker, `handle_io` releases the finished
   requests and closes the connection exactly if nothing is unsent and it is marked closed or
   no request is unanswered; whether requests asked to keep the connection plays no part.
   */
  lemma EventClosesIff(w: Wire, ids: seq<nat>, cfg: Config)
    requires InOrder(w) && forall k :: k in w.server.conn.requests ==> k in ids
    ensures ShouldClose(w.(server := After(w.server, Releases(ids), cfg)), 0)
            <==> && Outbound.Unsent(w.out) == []
                 && (w.server.closed || forall k :: k in w.server.conn.requests ==> w.server.conn.requests[k].responded)
  {
    WellKeyedFrom(w.server.conn, w.server.past);
    AfterReleases(w.server, ids, cfg);
    hide After, Releases, Disciplined;
  }
}
