/**
 The record engine on literal bytes. Record types, statuses and the version are written out as
 sections 3.3, 5 and 8 of the FastCGI Specification 1.0 number them: 1 begins a request, 2
 aborts it, 3 ends it, 4 carries its parameters, 5 its input and 6 its output.
 */
module FastCgiBytes {
  import opened Bytes
  import opened FastCgiRecords
  import opened FastCgiSpec
  import opened FastCgiStreams
  import opened FastCgiOutput
  import opened FastCgiAdmission

  /** A record on the wire, without padding. */
  function Wire(kind: byte, id: nat, content: bytes): bytes
    requires id < 0x1_0000 && |content| < 0x1_0000
  {
    [1, kind, id / 256, id % 256, |content| / 256, |content| % 256, 0, 0] + content
  }

  lemma WireIsPlain(kind: byte, id: nat, content: bytes)
    requires id < 0x1_0000 && |content| < 0x1_0000
    ensures Wire(kind, id, content) == Plain(Record(kind, id, content))
  {
    AppendNothing(Wire(kind, id, content));
  }

  /** One record alone in the buffer is applied and leaves nothing behind. */
  lemma OneRecord(kind: byte, id: nat, content: bytes, c: Conn, cfg: Config)
    requires id < 0x1_0000 && |content| < 0x1_0000 && Known(c, id)
    ensures Run(Wire(kind, id, content), c, cfg) == Outcome(Step(c, Record(kind, id, content), cfg), [], false, false)
  {
    var rec := Record(kind, id, content);
    var buf := Wire(kind, id, content);
    WireIsPlain(kind, id, content);
    AppendNothing(buf);
    NextRecordOfEncode(rec, [], 0, []);
    assert !Defers(c, rec);
    hide HeadAt, Wire, Encode, Step, Defers;
    assert buf[|buf|..] == [];
    EndOfBuffer(buf, Step(c, rec, cfg), cfg);
  }

  lemma EndOfBuffer(buf: bytes, c: Conn, cfg: Config)
    ensures RunFrom(buf, |buf|, c, cfg) == Outcome(c, buf[|buf|..], false, false)
  {
  }

  /** What a record does to a connection when it only changes its own request. */
  function Changed(c: Conn, k: nat, r: Req): Conn {
    c.(requests := c.requests[k := r],
       ready := c.ready + (if !r.failed && !r.responded && r.paramsComplete && r.inputComplete then [r] else []))
  }

  /** What it does when it answers the request with a status. */
  function Ended(c: Conn, k: nat, r: Req, status: byte): Conn {
    if r.responded then Changed(c, k, r)
    else c.(requests := c.requests[k := r.(responded := true, failed := true)],
            out := c.out + [EndRequestRecord(k, 0, status)])
  }

  /** Type 1: the third byte of the body has the keep-connection flag in its lowest bit. */
  lemma BeginBytes(c: Conn, k: nat, content: bytes, cfg: Config)
    requires WellKeyed(c) && k < 0x1_0000 && k in c.requests && |content| < 0x1_0000
    ensures var r := c.requests[k];
            Run(Wire(1, k, content), c, cfg)
            == Outcome(if |content| < 8 then c
                       else Changed(c, k, r.(initialized := true, keepConnection := r.keepConnection || content[2] % 2 == 1)),
                       [], false, false)
  {
    OneRecord(1, k, content, c, cfg);
    AppendNothing(c.out);
  }

  /** Type 2: an abort is answered with status 0. */
  lemma AbortBytes(c: Conn, k: nat, content: bytes, cfg: Config)
    requires WellKeyed(c) && k < 0x1_0000 && k in c.requests && |content| < 0x1_0000
    ensures var r := c.requests[k].(aborted := true);
            Run(Wire(2, k, content), c, cfg)
            == Outcome(Ended(c, k, r, 0), [], false, false)
  {
    OneRecord(2, k, content, c, cfg);
    AppendNothing(c.out);
    AppendNothing(c.ready);
  }

  /** Type 4: an empty record ends the parameters. */
  lemma ParamsEndBytes(c: Conn, k: nat, cfg: Config)
    requires WellKeyed(c) && k < 0x1_0000 && k in c.requests
    ensures Run(Wire(4, k, []), c, cfg)
         == Outcome(Changed(c, k, c.requests[k].(paramsComplete := true)), [], false, false)
  {
    OneRecord(4, k, [], c, cfg);
    AppendNothing(c.out);
  }

  /** Type 4 with one short pair: taken, or the request is ended with status 2 when it does not fit; a failed request takes nothing. */
  lemma ShortPairBytes(c: Conn, k: nat, name: bytes, value: bytes, cfg: Config)
    requires WellKeyed(c) && k < 0x1_0000 && k in c.requests && |name| < 128 && |value| < 128
    ensures var r := c.requests[k];
            var size := r.paramsBytes + |name| + |value|;
            Run(Wire(4, k, [|name|, |value|] + (name + value)), c, cfg)
            == Outcome(if r.failed then c
                       else if size > cfg.maxParams then Ended(c, k, r, 2)
                       else Changed(c, k, r.(env := r.env[name := value], paramsBytes := size)),
                       [], false, false)
  {
    var content := [|name|, |value|] + (name + value);
    OneRecord(4, k, content, c, cfg);
    ShortPair(c.requests[k], name, value, cfg);
    AppendNothing(c.out);
    AppendNothing(c.ready);
    hide TakePairs, Run, Wire;
  }

  lemma ShortPair(r: Req, name: bytes, value: bytes, cfg: Config)
    requires |name| < 128 && |value| < 128
    ensures TakePairs(r, [|name|, |value|] + (name + value), cfg)
         == if r.paramsBytes + |name| + |value| > cfg.maxParams then FailRequest(r, 2)
            else Effect(r.(env := r.env[name := value], paramsBytes := r.paramsBytes + |name| + |value|), [])
  {
    assert OVERLOADED == 2;
    hide *;
    var q := ShortLengths(name, value);
    PairAlone(r, [|name|, |value|] + (name + value), q, name, value, cfg);
  }

  lemma PairAlone(r: Req, p: bytes, q: bytes, name: bytes, value: bytes, cfg: Config)
    requires p != [] && DecodeLength(p) == (|name|, q) && DecodeLength(q) == (|value|, name + value)
    ensures TakePairs(r, p, cfg)
         == if r.paramsBytes + |name| + |value| > cfg.maxParams then FailRequest(r, OVERLOADED)
            else Effect(r.(env := r.env[name := value], paramsBytes := r.paramsBytes + |name| + |value|), [])
  {
    hide *;
    var none: bytes := [];
    AppendNothing(name + value);
    TakeDecodedPair(r, p, q, name, value, none, cfg);
    TakeNothing(r.(env := r.env[name := value], paramsBytes := r.paramsBytes + |name| + |value|), cfg);
  }

  lemma ShortLengths(name: bytes, value: bytes) returns (q: bytes)
    requires |name| < 128 && |value| < 128
    ensures DecodeLength([|name|, |value|] + (name + value)) == (|name|, q) && DecodeLength(q) == (|value|, name + value)
  {
    q := [|value|] + (name + value);
    assert [|name|, |value|] + (name + value) == [|name|] + q;
    TailOfCons(|name|, q);
    TailOfCons(|value|, name + value);
  }

  lemma TakeNothing(r: Req, cfg: Config)
    ensures TakePairs(r, [], cfg) == Effect(r, [])
  {
  }

  /** Lengths that are cut off are read as 0, and nothing is left behind them. */
  lemma CutOffLengths(p: bytes)
    requires p == [] || (p[0] >= 128 && |p| < 4)
    ensures DecodeLength(p) == (0, [])
  {
  }

  /** Type 5: input is appended, or the request is ended with status 2 when it is too much; an empty record ends it. */
  lemma InputBytes(c: Conn, k: nat, data: bytes, cfg: Config)
    requires WellKeyed(c) && k < 0x1_0000 && k in c.requests && |data| < 0x1_0000
    ensures var r := c.requests[k];
            Run(Wire(5, k, data), c, cfg)
            == Outcome(if data == [] then Changed(c, k, r.(inputComplete := true))
                       else if r.failed then c
                       else if r.bodyBytes + |data| > cfg.maxStdin then Ended(c, k, r, 2)
                       else Changed(c, k, r.(body := r.body + data, bodyBytes := r.bodyBytes + |data|)),
                       [], false, false)
  {
    OneRecord(5, k, data, c, cfg);
    AppendNothing(c.out);
    AppendNothing(c.ready);
    hide Run, Wire;
  }

  /** Every other type is skipped. */
  lemma OtherBytes(c: Conn, kind: byte, k: nat, content: bytes, cfg: Config)
    requires k < 0x1_0000 && k in c.requests && |content| < 0x1_0000 && kind !in {1, 2, 4, 5}
    ensures Run(Wire(kind, k, content), c, cfg) == Outcome(c, [], false, false)
  {
    OneRecord(kind, k, content, c, cfg);
  }

  /** A request that is not known yet is opened first, with the initial environment and nothing else. */
  lemma OpensBytes(c: Conn, kind: byte, k: nat, content: bytes, cfg: Config)
    requires k < 0x1_0000 && k !in c.requests && |content| < 0x1_0000 && c.pool.Ample?
    requires kind in {2, 4, 5} || (kind == 1 && |content| >= 8)
    ensures var r := Req(k, false, false, false, false, false, false, false, cfg.initialEnv, [], 0, 0);
            Run(Wire(kind, k, content), c, cfg) == Run(Wire(kind, k, content), c.(requests := c.requests[k := r]), cfg)
  {
    var r := Req(k, false, false, false, false, false, false, false, cfg.initialEnv, [], 0, 0);
    var c' := c.(requests := c.requests[k := r]);
    var rec := Record(kind, k, content);
    assert r == Fresh(k, cfg);
    hide Run, Wire, Handle;
    OneRecord(kind, k, content, c, cfg);
    OneRecord(kind, k, content, c', cfg);
    assert c.requests[k := Handle(r, rec, cfg).req] == c'.requests[k := Handle(r, rec, cfg).req];
  }

  // ----------------------------------------------------------------------- the version

  /**
   Going from record to record by their lengths, some record of the stream has a complete header
   that does not start with 1.
   */
  predicate BadBoundary(buf: bytes)
    decreases |buf|
  {
    && |buf| >= 8
    && (buf[0] != 1 || (var total := 8 + Length16(buf[4], buf[5]) + buf[6];
                        total <= |buf| && BadBoundary(buf[total..])))
  }

  function Length16(hi: int, lo: int): int {
    hi * 256 + lo
  }

  lemma {:induction false} BadIffBoundary(buf: bytes)
    ensures Decode(buf).bad <==> BadBoundary(buf)
    decreases |buf|
  {
    match NextRecord(buf)
    case Complete(_, total) => BadIffBoundary(buf[total..]);
    case _ =>
  }

  /** The call closes exactly when such a record is come to, that is unless an earlier one has to wait. */
  lemma ClosesIffBoundary(buf: bytes, c: Conn, cfg: Config)
    ensures var o := Run(buf, c, cfg); o.close <==> BadBoundary(buf) && !o.waiting
  {
    BadIffBoundary(buf);
    assert buf[0..] == buf;
    hide Decode, RunFrom, Fold, Reached, BadBoundary;
    RunIsFold(buf, 0, c, cfg);
  }

  // --------------------------------------------------------------------------- replies

  /** An END_REQUEST on the wire: type 3, eight bytes, application status 0. */
  lemma EndRequestBytes(k: nat, status: byte)
    requires k < 0x1_0000
    ensures Plain(EndRequestRecord(k, 0, status))
         == [1, 3, k / 256, k % 256, 0, 8, 0, 0] + [0, 0, 0, 0, status, 0, 0, 0]
  {
  }

  /** A response on the wire: the text in a record of type 6, an empty one, and END_REQUEST with status 0. */
  lemma ResponseBytes(c: Conn, k: nat, text: bytes)
    requires WellKeyed(c) && AllFit(c.out)
    requires k < 0x1_0000 && k in c.requests && !c.requests[k].responded && 0 < |text| < 0x1_0000
    ensures var d := Answer(c, k, text);
            && AllFit(d.out)
            && EncodeAll(d.out) == EncodeAll(c.out)
               + (Wire(6, k, text) + (Wire(6, k, []) + Wire(3, k, [0, 0, 0, 0, 0, 0, 0, 0])))
            && d.requests == c.requests[k := c.requests[k].(responded := true)]
  {
    var full, empty, end := Record(6, k, text), Record(6, k, []), EndRequestRecord(k, 0, 0);
    OneChunk(k, text);
    EndRecord(k, 0);
    WireIsPlain(6, k, text);
    WireIsPlain(6, k, []);
    WireIsPlain(3, k, [0, 0, 0, 0, 0, 0, 0, 0]);
    hide Encode, EncodeAll, StdoutRecords, EndRequestRecord, Wire;
    EncodeThree(full, empty, end);
    EncodeAllAppends(c.out, [full, empty, end]);
  }

  lemma OneChunk(k: nat, text: bytes)
    requires 0 < |text| < 0x1_0000
    ensures StdoutRecords(k, text) + [EndRequestRecord(k, 0, 0)]
         == [Record(6, k, text), Record(6, k, []), EndRequestRecord(k, 0, 0)]
  {
    var none: bytes := [];
    assert text[..|text|] == text && text[|text|..] == none;
    assert StdoutRecords(k, none) == [Record(6, k, [])];
    hide EndRequestRecord;
  }

  lemma EndRecord(k: nat, status: byte)
    ensures EndRequestRecord(k, 0, status) == Record(3, k, [0, 0, 0, 0, status, 0, 0, 0])
  {
  }

  lemma EncodeThree(a: Record, b: Record, c: Record)
    requires Fits(a) && Fits(b) && Fits(c)
    ensures EncodeAll([a, b, c]) == Plain(a) + (Plain(b) + Plain(c))
  {
    hide Encode;
    EncodeSingle(c);
    EncodeCons(b, [c]);
    EncodeCons(a, [b, c]);
    assert [b] + [c] == [b, c] && [a] + [b, c] == [a, b, c];
  }

  lemma EncodeSingle(r: Record)
    requires Fits(r)
    ensures EncodeAll([r]) == Plain(r)
  {
    hide Encode;
    var one: seq<Record> := [r];
    assert one[1..] == [];
    EncodeNone();
    AppendNothing(Plain(r));
  }

  lemma EncodeCons(r: Record, rs: seq<Record>)
    requires Fits(r) && AllFit(rs)
    ensures AllFit([r] + rs) && EncodeAll([r] + rs) == Plain(r) + EncodeAll(rs)
  {
    hide Encode;
    TailOfCons(r, rs);
  }

  /** A timeout on the wire: END_REQUEST with status 2. */
  lemma TimeoutBytes(c: Conn, k: nat)
    requires AllFit(c.out) && k < 0x1_0000 && k in c.requests && !c.requests[k].responded
    ensures var d := Expire(c, k);
            && AllFit(d.out)
            && EncodeAll(d.out) == EncodeAll(c.out) + Wire(3, k, [0, 0, 0, 0, 2, 0, 0, 0])
            && d.requests == c.requests[k := c.requests[k].(failed := true, responded := true)]
  {
    var end := EndRequestRecord(k, 0, 2);
    EndRecord(k, 2);
    WireIsPlain(3, k, [0, 0, 0, 0, 2, 0, 0, 0]);
    hide Encode, EncodeAll, EndRequestRecord, Wire;
    EncodeSingle(end);
    EncodeAllAppends(c.out, [end]);
  }
}
