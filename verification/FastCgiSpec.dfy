/**
 What `process_buffer` does to a connection, as functions: the effect of one record
 on one request, of one record on the connection, and of a whole buffer.
 */
module FastCgiSpec {
  import opened Bytes
  import opened FastCgiRecords

  datatype Config = Config(maxParams: nat, maxStdin: nat, initialEnv: map<bytes, bytes>)

  /** The parts of a `Request` the record engine reads or writes. */
  datatype Req = Req(
    id: nat,
    initialized: bool,
    keepConnection: bool,
    paramsComplete: bool,
    inputComplete: bool,
    responded: bool,
    aborted: bool,
    failed: bool,
    env: map<bytes, bytes>,
    body: bytes,
    paramsBytes: nat,
    bodyBytes: nat)

  function Fresh(id: nat, cfg: Config): Req {
    Req(id, false, false, false, false, false, false, false, cfg.initialEnv, [], 0, 0)
  }

  /** Arenas `allocate_request` can still obtain: enough for anything, or a known number. */
  datatype Pool = Ample | Left(n: nat)

  predicate CanTake(p: Pool) {
    p.Ample? || p.n > 0
  }

  function Take(p: Pool): Pool
    requires CanTake(p)
  {
    if p.Ample? then p else Left(p.n - 1)
  }

  // ------------------------------------------------------- one record, one request

  /** The request afterwards and the records appended to the output buffer. */
  datatype Effect = Effect(req: Req, out: seq<Record>)

  function FailRequest(r: Req, status: byte): Effect {
    if r.responded then Effect(r, [])
    else Effect(r.(responded := true, failed := true), [EndRequestRecord(r.id, 0, status)])
  }

  /** The four-byte length form of section 3.4. */
  function LongLength(b0: int, b1: int, b2: int, b3: int): int {
    (b0 - 128) * 0x100_0000 + b1 * 0x1_0000 + b2 * 256 + b3
  }

  /** `decode_length`: the value read from the front of `p`, and the bytes after it. */
  function DecodeLength(p: bytes): (r: (nat, bytes))
    ensures |r.1| <= |p| && (p != [] ==> |r.1| < |p|)
  {
    if p == [] then (0, [])
    else if p[0] < 128 then (p[0], p[1..])
    else if |p| < 4 then (0, [])
    else (LongLength(p[0], p[1], p[2], p[3]), p[4..])
  }

  /** The name-value loop of a PARAMS record over its unread content `p`. */
  function TakePairs(r: Req, p: bytes, cfg: Config): Effect
    decreases |p|
  {
    if p == [] then
      Effect(r, [])
    else
      var (nameLen, p1) := DecodeLength(p);
      var (valueLen, p2) := DecodeLength(p1);
      if nameLen + valueLen > |p2| then
        Effect(r, [])
      else if r.paramsBytes + nameLen + valueLen > cfg.maxParams then
        FailRequest(r, OVERLOADED)
      else
        TakePairs(r.(env := r.env[p2[..nameLen] := p2[nameLen..nameLen + valueLen]],
                     paramsBytes := r.paramsBytes + nameLen + valueLen),
                  p2[nameLen + valueLen..], cfg)
  }

  lemma TakePairsUnfold(r: Req, q0: bytes, n: nat, q1: bytes, v: nat, q: bytes, cfg: Config)
    requires q0 != [] && DecodeLength(q0) == (n, q1) && DecodeLength(q1) == (v, q)
    ensures TakePairs(r, q0, cfg) ==
            if n + v > |q| then Effect(r, [])
            else if r.paramsBytes + n + v > cfg.maxParams then FailRequest(r, OVERLOADED)
            else TakePairs(r.(env := r.env[q[..n] := q[n..n + v]], paramsBytes := r.paramsBytes + n + v), q[n + v..], cfg)
  {
    hide DecodeLength;
  }

  /** The loop changes the environment and its byte count, and fails the request at most once. */
  lemma {:induction false} PairsShape(r: Req, p: bytes, cfg: Config) returns (r': Req)
    ensures r' == r.(env := r'.env, paramsBytes := r'.paramsBytes)
    ensures TakePairs(r, p, cfg) == Effect(r', []) || TakePairs(r, p, cfg) == FailRequest(r', OVERLOADED)
    decreases |p|
  {
    r' := r;
    if p != [] {
      var (n, p1) := DecodeLength(p);
      var (v, p2) := DecodeLength(p1);
      hide DecodeLength, FailRequest;
      TakePairsUnfold(r, p, n, p1, v, p2, cfg);
      if n + v <= |p2| && r.paramsBytes + n + v <= cfg.maxParams {
        r' := PairsShape(r.(env := r.env[p2[..n] := p2[n..n + v]], paramsBytes := r.paramsBytes + n + v), p2[n + v..], cfg);
      }
    }
  }

  /** Record types that look their request up; everything else is skipped. */
  predicate Addressed(rec: Record) {
    || (rec.kind == BEGIN_REQUEST && |rec.content| >= 8)
    || rec.kind == PARAMS
    || rec.kind == STDIN
    || rec.kind == ABORT_REQUEST
  }

  function Handle(r: Req, rec: Record, cfg: Config): Effect
    requires Addressed(rec)
  {
    if rec.kind == BEGIN_REQUEST then
      Effect(r.(initialized := true, keepConnection := r.keepConnection || rec.content[2] % 2 == 1), [])
    else if rec.kind == PARAMS then
      if rec.content == [] then Effect(r.(paramsComplete := true), [])
      else if r.failed then Effect(r, [])
      else TakePairs(r, rec.content, cfg)
    else if rec.kind == STDIN then
      if rec.content == [] then Effect(r.(inputComplete := true), [])
      else if r.failed then Effect(r, [])
      else if r.bodyBytes + |rec.content| > cfg.maxStdin then FailRequest(r, OVERLOADED)
      else Effect(r.(body := r.body + rec.content, bodyBytes := r.bodyBytes + |rec.content|), [])
    else
      FailRequest(r.(aborted := true), REQUEST_COMPLETE)
  }

  /** The test that decides whether `on_request_ready` is called after a record. */
  predicate IsReady(r: Req) {
    !r.failed && !r.responded && r.paramsComplete && r.inputComplete
  }

  // ---------------------------------------------------------- whole connection

  /**
   The requests by id, every record ever appended to the output buffer, the requests
   handed to `on_request_ready` as they were at that moment, and the arena supply.
   */
  datatype Conn = Conn(requests: map<nat, Req>, out: seq<Record>, ready: seq<Req>, pool: Pool)

  predicate WellKeyed(c: Conn) {
    forall k :: k in c.requests ==> c.requests[k].id == k
  }

  predicate Known(c: Conn, id: nat) {
    id in c.requests || CanTake(c.pool)
  }

  /** A record delivered to its request, which is allocated first when it is unknown. */
  function Deliver(c: Conn, rec: Record, cfg: Config): Conn
    requires Addressed(rec) && Known(c, rec.id)
  {
    var found := rec.id in c.requests;
    var e := Handle(if found then c.requests[rec.id] else Fresh(rec.id, cfg), rec, cfg);
    Conn(c.requests[rec.id := e.req],
         c.out + e.out,
         c.ready + (if IsReady(e.req) then [e.req] else []),
         if found then c.pool else Take(c.pool))
  }

  /** A BEGIN_REQUEST without an arena makes the call return early. */
  predicate Defers(c: Conn, rec: Record) {
    rec.kind == BEGIN_REQUEST && |rec.content| >= 8 && !Known(c, rec.id)
  }

  function Step(c: Conn, rec: Record, cfg: Config): Conn {
    if Addressed(rec) && Known(c, rec.id) then Deliver(c, rec, cfg) else c
  }

  datatype Outcome = Outcome(conn: Conn, rest: bytes, close: bool, waiting: bool)

  /**
   The loop from `offset` on. The early return of a deferred BEGIN_REQUEST leaves the
   whole buffer in place, also the records already processed in this call.
   */
  function RunFrom(buf: bytes, offset: nat, c: Conn, cfg: Config): Outcome
    requires offset <= |buf|
    decreases |buf| - offset
  {
    match HeadAt(buf, offset)
    case Incomplete => Outcome(c, buf[offset..], false, false)
    case BadVersion => Outcome(c, buf[offset..], true, false)
    case Complete(rec, total) =>
      if Defers(c, rec) then Outcome(c, buf, false, true)
      else RunFrom(buf, offset + total, Step(c, rec, cfg), cfg)
  }

  function Run(buf: bytes, c: Conn, cfg: Config): Outcome {
    RunFrom(buf, 0, c, cfg)
  }

  /** Records applied one after the other. */
  function Fold(c: Conn, recs: seq<Record>, cfg: Config): Conn
    decreases |recs|
  {
    if recs == [] then c else Fold(Step(c, recs[0], cfg), recs[1..], cfg)
  }

  // ------------------------------------------------- the other writers of the output

  /** The timeout branch of `housekeeping_close_idle` for one overdue request. */
  function Expire(c: Conn, k: nat): Conn {
    if k !in c.requests || c.requests[k].responded then c
    else c.(requests := c.requests[k := c.requests[k].(failed := true, responded := true)],
            out := c.out + [EndRequestRecord(k, 0, OVERLOADED)])
  }

  function ExpireAll(c: Conn, ks: seq<nat>): Conn
    decreases |ks|
  {
    if ks == [] then c else ExpireAll(Expire(c, ks[0]), ks[1..])
  }

  /** The response of a finished request: its text as STDOUT records, then END_REQUEST. */
  function Answer(c: Conn, k: nat, text: bytes): Conn {
    if k !in c.requests || c.requests[k].responded then c
    else c.(requests := c.requests[k := c.requests[k].(responded := true)],
            out := c.out + (StdoutRecords(k, text) + [EndRequestRecord(k, 0, REQUEST_COMPLETE)]))
  }

  // ------------------------------------------------------------------------ release

  /** `handle_io` releases requests in this state unless a worker still has them. */
  predicate Releasable(r: Req) {
    r.responded || r.failed || r.aborted
  }

  function Release(c: Conn, k: nat): Conn {
    if k in c.requests && Releasable(c.requests[k]) then c.(requests := c.requests - {k}) else c
  }

  function ReleaseAll(c: Conn, ks: seq<nat>): Conn
    decreases |ks|
  {
    if ks == [] then c else ReleaseAll(Release(c, ks[0]), ks[1..])
  }
}
