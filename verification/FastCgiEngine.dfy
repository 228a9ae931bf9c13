/**
 `process_buffer` and its helpers in the form the server has them: requests are objects
 updated in place, the connection owns the buffers and the table of requests.
 */
module FastCgiEngine {
  import opened Bytes
  import opened FastCgiRecords
  import opened FastCgiSpec

  class Request {
    const id: nat
    var initialized: bool
    var keepConnection: bool
    var paramsComplete: bool
    var inputComplete: bool
    var responded: bool
    var aborted: bool
    var failed: bool
    var env: map<bytes, bytes>
    var body: bytes
    var paramsBytes: nat
    var bodyBytes: nat

    constructor (id: nat, initialEnv: map<bytes, bytes>)
      ensures this.id == id
      ensures forall cfg: Config :: cfg.initialEnv == initialEnv ==> Value() == Fresh(id, cfg)
    {
      this.id := id;
      initialized, keepConnection, paramsComplete, inputComplete := false, false, false, false;
      responded, aborted, failed := false, false, false;
      env, body, paramsBytes, bodyBytes := initialEnv, [], 0, 0;
    }

    function Value(): (v: Req)
      reads this
      ensures v.id == id
    {
      Req(id, initialized, keepConnection, paramsComplete, inputComplete, responded, aborted, failed,
          env, body, paramsBytes, bodyBytes)
    }

    /** The flag test after each record. */
    predicate Ready()
      reads this
      ensures Ready() == IsReady(Value())
    {
      !failed && !responded && paramsComplete && inputComplete
    }

    /** `fail_request`: END_REQUEST at most once, and the two flags with it. */
    method Fail(out: bytes, status: byte) returns (out': bytes, ghost sent: seq<Record>)
      requires id < 0x1_0000
      modifies this
      ensures Value() == FailRequest(old(Value()), status).req
      ensures sent == FailRequest(old(Value()), status).out
      ensures AllFit(sent) && out' == out + EncodeAll(sent)
    {
      out', sent := out, [];
      if !responded {
        out' := AppendEndRequest(out, id, 0, status);
        sent := [EndRequestRecord(id, 0, status)];
        EncodeOne(sent[0]);
        responded := true;
        failed := true;
      }
    }

    method MarkResponded(fail: bool)
      modifies this
      ensures Value() == old(Value()).(responded := true, failed := old(failed) || fail)
      ensures old(failed) == old(Value()).failed
    {
      failed := failed || fail;
      responded := true;
    }

    predicate IsResponded()
      reads this
      ensures IsResponded() == Value().responded
    {
      responded
    }

    /** The flag test before a request is released. */
    predicate MayGo()
      reads this
      ensures MayGo() == Releasable(Value())
    {
      responded || failed || aborted
    }

    /** The name-value loop of a PARAMS record. */
    method TakeParams(content: bytes, out: bytes, cfg: Config) returns (out': bytes, ghost sent: seq<Record>)
      requires id < 0x1_0000
      modifies this
      ensures Value() == TakePairs(old(Value()), content, cfg).req
      ensures sent == TakePairs(old(Value()), content, cfg).out
      ensures AllFit(sent) && out' == out + EncodeAll(sent)
    {
      hide TakePairs, DecodeLength, EncodeAll;
      out', sent := out, [];
      var p := 0;
      ghost var goal := TakePairs(Value(), content, cfg);
      assert content[p..] == content;
      while p < |content|
        invariant 0 <= p <= |content|
        invariant sent == [] && out' == out
        invariant goal == TakePairs(Value(), content[p..], cfg)
      {
        ghost var p0 := p;
        var nameLen, valueLen;
        nameLen, p := ReadLength(content, p);
        ghost var p1 := p;
        valueLen, p := ReadLength(content, p);
        TakePairsTurn(Value(), content, p0, nameLen, p1, valueLen, p, cfg);
        if p + nameLen + valueLen > |content| {
          break;
        }
        if paramsBytes + nameLen + valueLen > cfg.maxParams {
          out', sent := Fail(out', OVERLOADED);
          return;
        }
        var name := content[p..p + nameLen];
        p := p + nameLen;
        var value := content[p..p + valueLen];
        p := p + valueLen;
        env := env[name := value];
        paramsBytes := paramsBytes + nameLen + valueLen;
      }
      if p >= |content| {
        TakeNoPairs(Value(), content[p..], cfg);
      }
      EncodeNone();
    }

    /** The body of the `switch` for a record addressed to this request. */
    method Apply(rec: Record, out: bytes, cfg: Config) returns (out': bytes, ghost sent: seq<Record>)
      requires id < 0x1_0000 && Addressed(rec)
      modifies this
      ensures Value() == Handle(old(Value()), rec, cfg).req
      ensures sent == Handle(old(Value()), rec, cfg).out
      ensures AllFit(sent) && out' == out + EncodeAll(sent)
    {
      hide EncodeAll, TakePairs, FailRequest;
      EncodeNone();
      out', sent := out, [];
      if rec.kind == BEGIN_REQUEST {
        initialized := true;
        if rec.content[2] % 2 == 1 {
          keepConnection := true;
        }
      } else if rec.kind == PARAMS {
        if rec.content == [] {
          paramsComplete := true;
        } else if !failed {
          out', sent := TakeParams(rec.content, out, cfg);
        }
      } else if rec.kind == STDIN {
        if rec.content == [] {
          inputComplete := true;
        } else if !failed {
          if bodyBytes + |rec.content| > cfg.maxStdin {
            out', sent := Fail(out, OVERLOADED);
          } else {
            body := body + rec.content;
            bodyBytes := bodyBytes + |rec.content|;
          }
        }
      } else {
        aborted := true;
        out', sent := Fail(out, REQUEST_COMPLETE);
      }
    }
  }

  lemma TakeNoPairs(r: Req, p: bytes, cfg: Config)
    requires p == []
    ensures TakePairs(r, p, cfg) == Effect(r, [])
  {
  }

  /** One turn of the name-value loop, on indices into the record content. */
  lemma TakePairsTurn(r: Req, content: bytes, p0: nat, n: nat, p1: nat, v: nat, p: nat, cfg: Config)
    requires p0 < |content| && p1 <= |content| && p <= |content|
    requires DecodeLength(content[p0..]) == (n, content[p1..])
    requires DecodeLength(content[p1..]) == (v, content[p..])
    ensures TakePairs(r, content[p0..], cfg) ==
            if p + n + v > |content| then Effect(r, [])
            else if r.paramsBytes + n + v > cfg.maxParams then FailRequest(r, OVERLOADED)
            else TakePairs(r.(env := r.env[content[p..p + n] := content[p + n..p + n + v]],
                              paramsBytes := r.paramsBytes + n + v),
                           content[p + n + v..], cfg)
  {
    hide TakePairs, DecodeLength;
    TakePairsUnfold(r, content[p0..], n, content[p1..], v, content[p..], cfg);
    if p + n + v <= |content| {
      DropTwice(content, p, n);
      DropTwice(content, p, n + v);
      DropThenSlice(content, p, n, v);
    }
  }

  lemma EncodeOne(r: Record)
    requires Fits(r)
    ensures EncodeAll([r]) == Plain(r)
  {
    assert EncodeAll([r]) == Plain(r) + [];
  }

  /** `decode_length`, which moves its pointer. */
  method ReadLength(content: bytes, p: nat) returns (v: nat, p': nat)
    requires p <= |content|
    ensures p <= p' <= |content| && (p < |content| ==> p < p')
    ensures DecodeLength(content[p..]) == (v, content[p'..])
  {
    if p >= |content| {
      return 0, p;
    }
    var b := content[p];
    if b < 128 {
      DropTwice(content, p, 1);
      return b, p + 1;
    }
    if |content| - p < 4 {
      assert content[|content|..] == [];
      return 0, |content|;
    }
    DropTwice(content, p, 4);
    v := LongLength(b, content[p + 1], content[p + 2], content[p + 3]);
    p' := p + 4;
  }

  class Connection {
    var inBuf: bytes
    var outBuf: bytes
    var requests: map<nat, Request>
    var pool: Pool
    var ready: seq<Req>
    ghost var sent: seq<Record>
    ghost var table: map<nat, Req>

    /**
     Requests sit in the table under their own id, `table` mirrors their values, and the
     output buffer holds whole records.
     */
    ghost predicate Valid()
      reads this, requests.Values
    {
      TableValid() && OutputValid()
    }

    ghost predicate TableValid()
      reads this`table, this`requests, requests.Values
    {
      && table.Keys == requests.Keys
      && forall k :: k in requests ==> k < 0x1_0000 && requests[k].id == k && requests[k].Value() == table[k]
    }

    ghost predicate OutputValid()
      reads this`outBuf, this`sent
    {
      AllFit(sent) && outBuf == EncodeAll(sent)
    }

    ghost function Value(): Conn
      reads this
    {
      Conn(table, sent, ready, pool)
    }

    constructor (pool: Pool)
      ensures Valid() && inBuf == [] && requests == map[]
      ensures Value() == Conn(map[], [], [], pool)
    {
      inBuf, outBuf, requests, this.pool, ready, sent, table := [], [], map[], pool, [], [], map[];
    }

    /** `current_req`: the request of this id, allocated when it is not in the table yet. */
    method CurrentRequest(id: nat, cfg: Config) returns (r: Request?)
      requires Valid() && id < 0x1_0000
      modifies this`requests, this`pool, this`table
      ensures Valid()
      ensures r == null <==> !Known(old(Value()), id)
      ensures r == null ==> Value() == old(Value()) && requests == old(requests)
      ensures r != null ==> id in requests && requests[id] == r && id in table
      ensures r != null ==>
        Value() == if id in old(table) then old(Value())
                   else old(Value()).(requests := old(table)[id := Fresh(id, cfg)], pool := Take(old(pool)))
      ensures forall x :: x in requests.Values ==> x in old(requests.Values) || fresh(x)
    {
      hide OutputValid, Request.Value;
      if id in requests {
        r := requests[id];
      } else if CanTake(pool) {
        pool := Take(pool);
        r := new Request(id, cfg.initialEnv);
        requests := requests[id := r];
        table := table[id := Fresh(id, cfg)];
      } else {
        r := null;
      }
    }

    /** Runs the `switch` on the request at hand. */
    method ApplyTo(r: Request, rec: Record, cfg: Config)
      requires Valid() && Fits(rec) && Addressed(rec)
      requires rec.id in requests && requests[rec.id] == r && rec.id in table
      modifies this`outBuf, this`sent, this`table, r
      ensures Valid()
      ensures table == old(table)[rec.id := Handle(old(table)[rec.id], rec, cfg).req]
      ensures sent == old(sent) + Handle(old(table)[rec.id], rec, cfg).out
      ensures r.Value() == table[rec.id]
    {
      hide EncodeAll, AllFit, Handle, Request.Value, Addressed;
      assert forall k :: k in requests && k != rec.id ==> requests[k] != r;
      assert r.Value() == table[rec.id];
      var out;
      ghost var s;
      out, s := r.Apply(rec, outBuf, cfg);
      EncodeAllAppends(sent, s);
      outBuf, sent, table := out, sent + s, table[rec.id := r.Value()];
    }

    /** One turn of the loop on a complete record; false means that the call must return to wait for an arena. */
    method HandleRecord(rec: Record, cfg: Config) returns (go: bool)
      requires Valid() && Fits(rec)
      modifies this`outBuf, this`requests, this`pool, this`ready, this`sent, this`table, requests.Values
      ensures Valid()
      ensures go == !Defers(old(Value()), rec)
      ensures !go ==> Value() == old(Value())
      ensures Value() == Step(old(Value()), rec, cfg)
      ensures forall r :: r in requests.Values ==> r in old(requests.Values) || fresh(r)
    {
      hide TableValid, OutputValid, Handle, Request.Value, IsReady;
      if !Addressed(rec) {
        return true;
      }
      var r := CurrentRequest(rec.id, cfg);
      if r == null {
        return rec.kind != BEGIN_REQUEST;
      }
      assert r in requests.Values;
      ApplyTo(r, rec, cfg);
      if r.Ready() {
        ready := ready + [r.Value()];   // on_request_ready(*rptr)
      } else {
        assert ready + [] == ready;
      }
      assert table == Deliver(old(Value()), rec, cfg).requests;
      return true;
    }

    /** `process_buffer`. */
    method ProcessBuffer(cfg: Config) returns (close: bool, waiting: bool)
      requires Valid()
      modifies this, requests.Values
      ensures Valid()
      ensures Outcome(Value(), inBuf, close, waiting) == Run(old(inBuf), old(Value()), cfg)
      ensures forall r :: r in requests.Values ==> r in old(requests.Values) || fresh(r)
    {
      hide TableValid, OutputValid, Step, Request.Value, Defers, HeadAt;
      var offset := 0;
      close, waiting := false, false;
      while true
        invariant offset <= |inBuf| && inBuf == old(inBuf)
        invariant Valid() && !close && !waiting
        invariant RunFrom(inBuf, offset, Value(), cfg) == Run(old(inBuf), old(Value()), cfg)
        invariant forall r :: r in requests.Values ==> r in old(requests.Values) || fresh(r)
        decreases |inBuf| - offset
      {
        var h := HeadAt(inBuf, offset);
        if h.Incomplete? {
          break;
        }
        if h.BadVersion? {
          close := true;
          break;
        }
        var go := HandleRecord(h.record, cfg);
        if !go {
          waiting := true;
          return;
        }
        offset := offset + h.total;
      }
      inBuf := inBuf[offset..];
    }

    /** Marks one request as answered and appends the records that answer it. */
    method Settle(r: Request, ghost k: nat, out: bytes, ghost s: seq<Record>, fail: bool)
      requires Valid() && k in requests && requests[k] == r && k in table
      requires AllFit(s) && out == outBuf + EncodeAll(s)
      modifies this`outBuf, this`sent, this`table, r
      ensures Valid()
      ensures table == old(table)[k := old(table)[k].(responded := true, failed := old(table)[k].failed || fail)]
      ensures sent == old(sent) + s
    {
      hide EncodeAll, AllFit, Request.Value;
      assert forall j :: j in requests && j != k ==> requests[j] != r;
      r.MarkResponded(fail);
      EncodeAllAppends(sent, s);
      outBuf, sent, table := out, sent + s, table[k := r.Value()];
    }

    /** The timeout branch for one overdue id. */
    method ExpireOne(k: nat)
      requires Valid()
      modifies this`outBuf, this`sent, this`table, requests.Values
      ensures Valid()
      ensures Value() == Expire(old(Value()), k)
    {
      hide EncodeAll, Request.Value;
      if k in requests {
        var r := requests[k];
        assert r in requests.Values && r.Value() == table[k];
        if !r.IsResponded() {
          var out := AppendEndRequest(outBuf, k, 0, OVERLOADED);
          EncodeOne(EndRequestRecord(k, 0, OVERLOADED));
          Settle(r, k, out, [EndRequestRecord(k, 0, OVERLOADED)], true);
        }
      }
    }

    /** The timeout part of `housekeeping_close_idle`: `overdue` lists the late requests in iteration order. */
    method ExpireOverdue(overdue: seq<nat>)
      requires Valid()
      modifies this`outBuf, this`sent, this`table, requests.Values
      ensures Valid()
      ensures Value() == ExpireAll(old(Value()), overdue)
    {
      hide TableValid, OutputValid, Expire;
      for i := 0 to |overdue|
        invariant Valid()
        invariant ExpireAll(old(Value()), overdue) == ExpireAll(Value(), overdue[i..])
        invariant requests == old(requests)
      {
        DropTwice(overdue, i, 1);
        ExpireOne(overdue[i]);
      }
    }

    /** One turn of the releasing loop of `handle_io`, for a request without an active worker. */
    method ReleaseOne(k: nat)
      requires Valid()
      modifies this`requests, this`table
      ensures Valid()
      ensures Value() == Release(old(Value()), k)
      ensures forall r :: r in requests.Values ==> r in old(requests.Values)
    {
      hide OutputValid, Request.Value;
      if k in requests {
        assert requests[k].Value() == table[k];
        if requests[k].MayGo() {
          requests := requests - {k};
          table := table - {k};
        }
      }
    }

    /** The loop: `idle` lists the requests without an active worker in iteration order. */
    method ReleaseFinished(idle: seq<nat>)
      requires Valid()
      modifies this`requests, this`table
      ensures Valid()
      ensures Value() == ReleaseAll(old(Value()), idle)
    {
      hide TableValid, OutputValid, Release;
      for i := 0 to |idle|
        invariant Valid()
        invariant ReleaseAll(old(Value()), idle) == ReleaseAll(Value(), idle[i..])
      {
        DropTwice(idle, i, 1);
        ReleaseOne(idle[i]);
      }
    }

    /** `process_pending_output` and `on_request_ready` for one pending request and its response text. */
    method Respond(r: Request, text: bytes)
      requires Valid() && r in requests.Values
      modifies this`outBuf, this`sent, this`table, r
      ensures Valid()
      ensures Value() == Answer(old(Value()), r.id, text)
    {
      hide EncodeAll, StdoutRecords, Request.Value;
      assert r.id in requests && requests[r.id] == r && r.Value() == table[r.id];
      if r.IsResponded() {
        return;
      }
      var local := AppendStdoutText([], r.id, text);
      local := AppendEndRequest(local, r.id, 0, REQUEST_COMPLETE);
      ghost var body, end := StdoutRecords(r.id, text), EndRequestRecord(r.id, 0, REQUEST_COMPLETE);
      EncodeAllAppends(body, [end]);
      EncodeOne(end);
      assert [] + EncodeAll(body) == EncodeAll(body);
      Settle(r, r.id, outBuf + local, body + [end], false);
    }
  }
}
