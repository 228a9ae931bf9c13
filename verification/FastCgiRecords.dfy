/**
 FastCGI records on the wire: the header layout of section 3.3 of the FastCGI
 Specification 1.0, the record writers, and the decoder that both
 `process_buffer` and the STDOUT aggregation loop use.
 */
module FastCgiRecords {
  import opened Bytes

  const VERSION_1: byte := 1
  const HEADER_SIZE := 8

  const BEGIN_REQUEST: byte := 1
  const ABORT_REQUEST: byte := 2
  const END_REQUEST: byte := 3
  const PARAMS: byte := 4
  const STDIN: byte := 5
  const STDOUT: byte := 6

  const REQUEST_COMPLETE: byte := 0
  const OVERLOADED: byte := 2

  const MAX_CONTENT := 0xFFFF

  datatype Record = Record(kind: byte, id: nat, content: bytes)

  /** The fields fit their 16-bit slots. */
  predicate Fits(r: Record) {
    r.id < 0x1_0000 && |r.content| <= MAX_CONTENT
  }

  predicate AllFit(rs: seq<Record>) {
    forall i :: 0 <= i < |rs| ==> Fits(rs[i])
  }

  /** A record as any peer may write it: padding and the reserved byte are free. */
  function Encode(r: Record, padding: bytes, reserved: byte): bytes
    requires Fits(r) && |padding| < 256
  {
    [VERSION_1, r.kind] + U16(r.id) + U16(|r.content|) + [|padding|, reserved] + r.content + padding
  }

  /** A record as this server writes it. */
  function Plain(r: Record): bytes
    requires Fits(r)
  {
    Encode(r, [], 0)
  }

  function EncodeAll(rs: seq<Record>): bytes
    requires AllFit(rs)
  {
    if rs == [] then [] else Plain(rs[0]) + EncodeAll(rs[1..])
  }

  datatype Head =
    | Incomplete
    | BadVersion
    | Complete(record: Record, total: nat)

  /** What the header at offset `p` announces, as the loops read it. */
  function HeadAt(buf: bytes, p: nat): (h: Head)
    requires p <= |buf|
    ensures h.Complete? ==> HEADER_SIZE <= h.total <= |buf| - p && Fits(h.record)
  {
    if |buf| - p < HEADER_SIZE then
      Incomplete
    else if buf[p] != VERSION_1 then
      BadVersion
    else
      var len := FromU16(buf[p + 4], buf[p + 5]);
      var total := HEADER_SIZE + len + buf[p + 6];
      if |buf| - p < total then
        Incomplete
      else
        Complete(Record(buf[p + 1], FromU16(buf[p + 2], buf[p + 3]), buf[p + HEADER_SIZE..p + HEADER_SIZE + len]), total)
  }

  function NextRecord(buf: bytes): (h: Head)
    ensures h.Complete? ==> HEADER_SIZE <= h.total <= |buf| && Fits(h.record)
  {
    HeadAt(buf, 0)
  }

  lemma HeadAtIsNext(buf: bytes, p: nat)
    requires p <= |buf|
    ensures HeadAt(buf, p) == NextRecord(buf[p..])
  {
    var h := HeadAt(buf, p);
    if h.Complete? {
      assert buf[p..][HEADER_SIZE..HEADER_SIZE + |h.record.content|] == h.record.content;
    }
  }

  /** The complete records of a stream, the bytes left over, and whether the stream went bad. */
  datatype Decoded = Decoded(records: seq<Record>, rest: bytes, bad: bool)

  function Decode(buf: bytes): Decoded
    decreases |buf|
  {
    match NextRecord(buf)
    case Incomplete => Decoded([], buf, false)
    case BadVersion => Decoded([], buf, true)
    case Complete(record, total) =>
      var d := Decode(buf[total..]);
      d.(records := [record] + d.records)
  }

  function Prepend(rs: seq<Record>, d: Decoded): Decoded {
    d.(records := rs + d.records)
  }

  // ---------------------------------------------------------------- codec laws

  lemma NextRecordOfEncode(r: Record, padding: bytes, reserved: byte, rest: bytes)
    requires Fits(r) && |padding| < 256
    ensures NextRecord(Encode(r, padding, reserved) + rest) == Complete(r, |Encode(r, padding, reserved)|)
  {
    var e := Encode(r, padding, reserved);
    var buf := e + rest;
    assert e[..8] == [VERSION_1, r.kind, r.id / 256, r.id % 256, |r.content| / 256, |r.content| % 256, |padding|, reserved];
    assert forall i :: 0 <= i < 8 ==> buf[i] == e[..8][i];
    assert e == e[..8] + r.content + padding;
    assert buf[8..8 + |r.content|] == r.content;
  }

  /** More input never changes what was already decided about the front of the buffer. */
  lemma NextRecordExtends(a: bytes, b: bytes)
    ensures !NextRecord(a).Incomplete? ==> NextRecord(a + b) == NextRecord(a)
  {
    match NextRecord(a)
    case Complete(record, total) =>
      assert (a + b)[HEADER_SIZE..HEADER_SIZE + |record.content|] == a[HEADER_SIZE..HEADER_SIZE + |record.content|];
    case _ =>
  }

  /** Decoding is independent of where the stream is cut, bad streams included. */
  lemma {:induction false} DecodeSplits(a: bytes, b: bytes)
    ensures var d := Decode(a);
            var e := Decode(d.rest + b);
            Decode(a + b) == Decoded(d.records + e.records, e.rest, e.bad)
    decreases |a|
  {
    NextRecordExtends(a, b);
    match NextRecord(a)
    case Complete(record, total) =>
      assert (a + b)[total..] == a[total..] + b;
      DecodeSplits(a[total..], b);
      var d := Decode(a[total..]);
      var e := Decode(d.rest + b);
      assert [record] + (d.records + e.records) == ([record] + d.records) + e.records;
    case _ =>
      var e := Decode(a + b);
      assert [] + e.records == e.records;
  }

  lemma DecodeStep(e: bytes, r: Record, tail: bytes)
    requires NextRecord(e + tail) == Complete(r, |e|)
    ensures Decode(e + tail) == Prepend([r], Decode(tail))
  {
    assert (e + tail)[|e|..] == tail;
  }

  /** Everything `append_record` wrote decodes to exactly the records written, with nothing left over. */
  lemma {:induction false} DecodeEncodeAll(rs: seq<Record>, rest: bytes)
    requires AllFit(rs)
    ensures Decode(EncodeAll(rs) + rest) == Prepend(rs, Decode(rest))
  {
    if rs == [] {
      assert EncodeAll(rs) + rest == rest;
      assert Prepend(rs, Decode(rest)) == Decode(rest);
    } else {
      var tail := EncodeAll(rs[1..]) + rest;
      assert EncodeAll(rs) + rest == Plain(rs[0]) + tail;
      NextRecordOfEncode(rs[0], [], 0, tail);
      DecodeStep(Plain(rs[0]), rs[0], tail);
      DecodeEncodeAll(rs[1..], rest);
      ConsAppends(rs, Decode(rest).records);
    }
  }

  lemma DecodeWhole(rs: seq<Record>)
    requires AllFit(rs)
    ensures Decode(EncodeAll(rs)) == Decoded(rs, [], false)
  {
    DecodeEncodeAll(rs, []);
    assert EncodeAll(rs) + [] == EncodeAll(rs);
    assert rs + [] == rs;
  }

  lemma EncodeNone()
    ensures EncodeAll([]) == []
  {
  }

  lemma {:induction false} EncodeAllAppends(a: seq<Record>, b: seq<Record>)
    requires AllFit(a) && AllFit(b)
    ensures AllFit(a + b) && EncodeAll(a + b) == EncodeAll(a) + EncodeAll(b)
  {
    if a == [] {
      assert a + b == b;
    } else {
      hide Encode, Fits;
      ConsAppends(a, b);
      EncodeAllAppends(a[1..], b);
      Assoc(Plain(a[0]), EncodeAll(a[1..]), EncodeAll(b));
    }
  }

  // ------------------------------------------------------------------- writers

  /** The STDOUT records `append_stdout_text` splits a body into. */
  function StdoutRecords(id: nat, body: bytes): seq<Record>
    decreases |body|
  {
    if body == [] then
      [Record(STDOUT, id, [])]
    else
      var n := if |body| > MAX_CONTENT then MAX_CONTENT else |body|;
      [Record(STDOUT, id, body[..n])] + StdoutRecords(id, body[n..])
  }

  function EndRequestRecord(id: nat, appStatus: nat, protocolStatus: byte): Record
    requires appStatus < 0x1_0000_0000
  {
    Record(END_REQUEST, id, U16(appStatus / 0x1_0000) + U16(appStatus % 0x1_0000) + [protocolStatus, 0, 0, 0])
  }

  method AppendRecord(out: bytes, kind: byte, id: nat, data: bytes) returns (r: bytes)
    requires id < 0x1_0000 && |data| <= MAX_CONTENT
    ensures r == out + Plain(Record(kind, id, data))
  {
    r := out + [VERSION_1, kind] + U16(id) + U16(|data|) + [0, 0];
    r := r + data;
  }

  /** `append_stdout_text` emits exactly the records of `StdoutRecords`. */
  method AppendStdoutText(out: bytes, id: nat, body: bytes) returns (r: bytes)
    requires id < 0x1_0000
    ensures AllFit(StdoutRecords(id, body))
    ensures r == out + EncodeAll(StdoutRecords(id, body))
  {
    StdoutRecordsSplit(id, body);
    r := out;
    var remaining := |body|;
    var offset := 0;
    assert body[offset..] == body;
    while remaining > 0
      invariant 0 <= offset <= |body| && offset + remaining == |body|
      invariant AllFit(StdoutRecords(id, body[offset..]))
      invariant out + EncodeAll(StdoutRecords(id, body)) == r + EncodeAll(StdoutRecords(id, body[offset..]))
    {
      var chunk := if remaining > MAX_CONTENT then MAX_CONTENT else remaining;
      ghost var before := r;
      r := AppendRecord(r, STDOUT, id, body[offset..offset + chunk]);
      DropTwice(body, offset, chunk);
      StdoutChunk(id, body[offset..], chunk);
      Assoc(before, Plain(Record(STDOUT, id, body[offset..offset + chunk])), EncodeAll(StdoutRecords(id, body[offset + chunk..])));
      offset := offset + chunk;
      remaining := remaining - chunk;
    }
    assert body[offset..] == [];
    r := AppendRecord(r, STDOUT, id, []);
    assert EncodeAll([Record(STDOUT, id, [])]) == Plain(Record(STDOUT, id, [])) + EncodeAll([]);
  }

  lemma StdoutChunk(id: nat, body: bytes, chunk: nat)
    requires id < 0x1_0000 && body != [] && chunk == if |body| > MAX_CONTENT then MAX_CONTENT else |body|
    requires AllFit(StdoutRecords(id, body))
    ensures AllFit(StdoutRecords(id, body[chunk..]))
    ensures EncodeAll(StdoutRecords(id, body))
         == Plain(Record(STDOUT, id, body[..chunk])) + EncodeAll(StdoutRecords(id, body[chunk..]))
  {
    assert StdoutRecords(id, body)[1..] == StdoutRecords(id, body[chunk..]);
  }

  method AppendEndRequest(out: bytes, id: nat, appStatus: nat, protocolStatus: byte) returns (r: bytes)
    requires id < 0x1_0000 && appStatus < 0x1_0000_0000
    ensures r == out + Plain(EndRequestRecord(id, appStatus, protocolStatus))
  {
    var b := U16(appStatus / 0x1_0000) + U16(appStatus % 0x1_0000) + [protocolStatus, 0, 0, 0];
    r := AppendRecord(out, END_REQUEST, id, b);
  }

  // --------------------------------------------------- STDOUT split and aggregate

  /** Concatenated contents of the STDOUT records of a list. */
  function StdoutOf(rs: seq<Record>): bytes {
    if rs == [] then []
    else (if rs[0].kind == STDOUT then rs[0].content else []) + StdoutOf(rs[1..])
  }

  /** The split: non-empty STDOUT records, then one empty terminator, whose contents concatenate back to the body. */
  lemma {:induction false} StdoutRecordsSplit(id: nat, body: bytes)
    ensures var rs := StdoutRecords(id, body);
            && (forall i :: 0 <= i < |rs| ==> rs[i].kind == STDOUT && rs[i].id == id && |rs[i].content| <= MAX_CONTENT)
            && (forall i :: 0 <= i < |rs| - 1 ==> rs[i].content != [])
            && rs != [] && rs[|rs| - 1].content == []
            && StdoutOf(rs) == body
    decreases |body|
  {
    if body == [] {
      assert StdoutOf([Record(STDOUT, id, [])][1..]) == [];
    } else {
      var n := if |body| > MAX_CONTENT then MAX_CONTENT else |body|;
      StdoutRecordsSplit(id, body[n..]);
      hide StdoutOf;
      StdoutOfCons(Record(STDOUT, id, body[..n]), StdoutRecords(id, body[n..]));
      CutAndJoin(body, n);
    }
  }

  lemma CutAndJoin(s: bytes, n: nat)
    requires n <= |s|
    ensures s[..n] + s[n..] == s
  {
  }

  lemma StdoutOfCons(r: Record, rs: seq<Record>)
    ensures StdoutOf([r] + rs) == (if r.kind == STDOUT then r.content else []) + StdoutOf(rs)
  {
    TailOfCons(r, rs);
  }

  /** A body of n bytes takes ceil(n / 65535) records besides the terminator. */
  lemma {:induction false} StdoutRecordsCount(id: nat, body: bytes)
    ensures |StdoutRecords(id, body)| == (|body| + MAX_CONTENT - 1) / MAX_CONTENT + 1
    decreases |body|
  {
    if body != [] {
      var n := if |body| > MAX_CONTENT then MAX_CONTENT else |body|;
      StdoutRecordsCount(id, body[n..]);
    }
  }

  lemma {:induction false} StdoutOfAppends(a: seq<Record>, b: seq<Record>)
    ensures StdoutOf(a + b) == StdoutOf(a) + StdoutOf(b)
  {
    if a == [] {
      assert a + b == b;
    } else {
      assert (a + b)[1..] == a[1..] + b;
      StdoutOfAppends(a[1..], b);
    }
  }

  lemma StdoutOfStep(buf: bytes, p: nat)
    requires p <= |buf|
    ensures match HeadAt(buf, p) {
              case Complete(r, total) =>
                StdoutOf(Decode(buf[p..]).records)
                == (if r.kind == STDOUT then r.content else []) + StdoutOf(Decode(buf[p + total..]).records)
              case _ => StdoutOf(Decode(buf[p..]).records) == []
            }
  {
    HeadAtIsNext(buf, p);
    match HeadAt(buf, p)
    case Complete(r, total) =>
      DropTwice(buf, p, total);
      TailOfCons(r, Decode(buf[p + total..]).records);
    case _ =>
  }

  /** The loop in `schedule_http` that turns a response back into its payload. */
  method Aggregate(response: bytes) returns (body: bytes)
    ensures body == StdoutOf(Decode(response).records)
  {
    hide Decode, StdoutOf, HeadAt;
    body := [];
    var p := 0;
    assert response[p..] == response;
    while true
      invariant 0 <= p <= |response|
      invariant StdoutOf(Decode(response).records) == body + StdoutOf(Decode(response[p..]).records)
      decreases |response| - p
    {
      StdoutOfStep(response, p);
      var h := HeadAt(response, p);
      if !h.Complete? {
        break;
      }
      ghost var before := body;
      if h.record.kind == STDOUT && |h.record.content| > 0 {
        body := body + h.record.content;
      }
      p := p + h.total;
      Assoc(before, h.record.content, StdoutOf(Decode(response[p..]).records));
    }
  }

  /** Split then aggregate is the identity on bodies of every length. */
  method SplitThenAggregate(id: nat, body: bytes, appStatus: nat, protocolStatus: byte) returns (r: bytes)
    requires id < 0x1_0000 && appStatus < 0x1_0000_0000
    ensures r == body
  {
    var out := AppendStdoutText([], id, body);
    out := AppendEndRequest(out, id, appStatus, protocolStatus);
    StdoutAggregates(id, body, appStatus, protocolStatus);
    assert [] + EncodeAll(StdoutRecords(id, body)) == EncodeAll(StdoutRecords(id, body));
    r := Aggregate(out);
  }

  lemma StdoutAggregates(id: nat, body: bytes, appStatus: nat, protocolStatus: byte)
    requires id < 0x1_0000 && appStatus < 0x1_0000_0000
    ensures AllFit(StdoutRecords(id, body))
    ensures StdoutOf(Decode(EncodeAll(StdoutRecords(id, body)) + Plain(EndRequestRecord(id, appStatus, protocolStatus))).records) == body
  {
    StdoutRecordsSplit(id, body);
    var rs, end := StdoutRecords(id, body), EndRequestRecord(id, appStatus, protocolStatus);
    StdoutThenOther(rs, end);
  }

  lemma StdoutThenOther(rs: seq<Record>, r: Record)
    requires AllFit(rs) && Fits(r) && r.kind != STDOUT
    ensures StdoutOf(Decode(EncodeAll(rs) + Plain(r)).records) == StdoutOf(rs)
  {
    hide Decode, HeadAt, Encode;
    EncodeAllAppends(rs, [r]);
    assert EncodeAll([r]) == Plain(r) + [] == Plain(r);
    DecodeWhole(rs + [r]);
    StdoutOfAppends(rs, [r]);
    assert StdoutOf([r]) == [];
  }
}
