/**
 Admission: a request whose PARAMS and STDIN streams are complete is either handed over
 exactly once with everything it sent, or refused exactly once, depending on the limits.
 Sections 3.4, 5.2 and 5.3 of the FastCGI Specification 1.0.
 */
module FastCgiAdmission {
  import opened Bytes
  import opened FastCgiRecords
  import opened FastCgiSpec
  import opened FastCgiStreams

  // ------------------------------------------------------------- name-value pairs

  /** A pair as the web server writes it; short lengths may use either length form. */
  datatype Pair = Pair(name: bytes, value: bytes, longName: bool, longValue: bool)

  predicate LengthFits(n: nat, long: bool) {
    n < 0x8000_0000 && (n >= 128 ==> long)
  }

  predicate PairFits(p: Pair) {
    LengthFits(|p.name|, p.longName) && LengthFits(|p.value|, p.longValue)
  }

  predicate PairsFit(ps: seq<Pair>) {
    forall i :: 0 <= i < |ps| ==> PairFits(ps[i])
  }

  function EncodeLength(n: nat, long: bool): (e: bytes)
    requires LengthFits(n, long)
    ensures e != []
  {
    if long then [128 + n / 0x100_0000, n / 0x1_0000 % 256, n / 256 % 256, n % 256] else [n]
  }

  function EncodePair(p: Pair): bytes
    requires PairFits(p)
  {
    EncodeLength(|p.name|, p.longName) + (EncodeLength(|p.value|, p.longValue) + (p.name + p.value))
  }

  function EncodePairs(ps: seq<Pair>): bytes
    requires PairsFit(ps)
  {
    if ps == [] then [] else EncodePair(ps[0]) + EncodePairs(ps[1..])
  }

  function PairBytes(ps: seq<Pair>): nat {
    if ps == [] then 0 else |ps[0].name| + |ps[0].value| + PairBytes(ps[1..])
  }

  /** The environment after the pairs, a later pair replacing an earlier one of the same name. */
  function EnvAfter(env: map<bytes, bytes>, ps: seq<Pair>): map<bytes, bytes>
    decreases |ps|
  {
    if ps == [] then env else EnvAfter(env[ps[0].name := ps[0].value], ps[1..])
  }

  lemma DecodeLengthOfEncode(n: nat, long: bool, rest: bytes)
    requires LengthFits(n, long)
    ensures DecodeLength(EncodeLength(n, long) + rest) == (n, rest)
  {
    var e := EncodeLength(n, long);
    assert (e + rest)[|e|..] == rest;
    if long {
      FourBytes(n);
    }
  }

  lemma FourBytes(n: nat)
    requires n < 0x8000_0000
    ensures LongLength(128 + n / 0x100_0000, n / 0x1_0000 % 256, n / 256 % 256, n % 256) == n
  {
    var a, b, c := n / 256, n / 0x1_0000, n / 0x100_0000;
    assert n == 256 * a + n % 256 && a / 256 == b && a == 256 * b + a % 256 && b / 256 == c && b == 256 * c + b % 256;
  }

  /** One encoded pair in front of more content is one turn of the loop. */
  lemma TakeOnePair(r: Req, p: Pair, rest: bytes, cfg: Config)
    requires PairFits(p)
    ensures TakePairs(r, EncodePair(p) + rest, cfg)
         == if r.paramsBytes + |p.name| + |p.value| > cfg.maxParams then FailRequest(r, OVERLOADED)
            else TakePairs(r.(env := r.env[p.name := p.value],
                              paramsBytes := r.paramsBytes + |p.name| + |p.value|), rest, cfg)
  {
    hide EncodeLength, DecodeLength, TakePairs, FailRequest;
    var n, v := EncodeLength(|p.name|, p.longName), EncodeLength(|p.value|, p.longValue);
    var tail := (p.name + p.value) + rest;
    PairIsTwoLengths(n, v, p.name + p.value, rest);
    DecodeLengthOfEncode(|p.name|, p.longName, v + tail);
    DecodeLengthOfEncode(|p.value|, p.longValue, tail);
    TakeDecodedPair(r, n + (v + tail), v + tail, p.name, p.value, rest, cfg);
  }

  lemma TakeDecodedPair(r: Req, q0: bytes, q1: bytes, name: bytes, value: bytes, rest: bytes, cfg: Config)
    requires q0 != [] && DecodeLength(q0) == (|name|, q1) && DecodeLength(q1) == (|value|, (name + value) + rest)
    ensures TakePairs(r, q0, cfg)
         == if r.paramsBytes + |name| + |value| > cfg.maxParams then FailRequest(r, OVERLOADED)
            else TakePairs(r.(env := r.env[name := value], paramsBytes := r.paramsBytes + |name| + |value|), rest, cfg)
  {
    hide *;
    SplitPair(name, value, rest);
    TakePairsUnfold(r, q0, |name|, q1, |value|, (name + value) + rest, cfg);
  }

  lemma PairIsTwoLengths(n: bytes, v: bytes, nv: bytes, rest: bytes)
    ensures (n + (v + nv)) + rest == n + (v + (nv + rest))
  {
  }

  lemma SplitPair(a: bytes, b: bytes, rest: bytes)
    ensures var t := (a + b) + rest;
            t[..|a|] == a && t[|a|..|a| + |b|] == b && t[|a| + |b|..] == rest
  {
  }

  predicate IsRefusal(e: Effect, id: nat) {
    e.out == [EndRequestRecord(id, 0, OVERLOADED)] && e.req.failed && e.req.responded
  }

  lemma FailIsRefusal(r: Req)
    requires !r.responded
    ensures IsRefusal(FailRequest(r, OVERLOADED), r.id)
  {
  }

  lemma PairsUnfold(env: map<bytes, bytes>, ps: seq<Pair>)
    requires ps != [] && PairsFit(ps)
    ensures PairFits(ps[0]) && PairsFit(ps[1..])
    ensures EncodePairs(ps) == EncodePair(ps[0]) + EncodePairs(ps[1..])
    ensures PairBytes(ps) == |ps[0].name| + |ps[0].value| + PairBytes(ps[1..])
    ensures EnvAfter(env, ps) == EnvAfter(env[ps[0].name := ps[0].value], ps[1..])
  {
    hide EncodePair;
  }

  function WithPair(r: Req, p: Pair): Req {
    r.(env := r.env[p.name := p.value], paramsBytes := r.paramsBytes + |p.name| + |p.value|)
  }

  lemma {:induction false} FittingPairs(r: Req, ps: seq<Pair>, cfg: Config)
    requires PairsFit(ps)
    requires r.paramsBytes + PairBytes(ps) <= cfg.maxParams
    ensures TakePairs(r, EncodePairs(ps), cfg)
         == Effect(r.(env := EnvAfter(r.env, ps), paramsBytes := r.paramsBytes + PairBytes(ps)), [])
    decreases |ps|
  {
    hide EncodePair, EncodePairs, DecodeLength, TakePairs, PairBytes, EnvAfter, FailRequest, PairFits, PairsFit;
    if ps == [] {
      NoPairs(r, ps, cfg);
    } else {
      PairsUnfold(r.env, ps);
      TakeOnePair(r, ps[0], EncodePairs(ps[1..]), cfg);
      FittingPairs(WithPair(r, ps[0]), ps[1..], cfg);
    }
  }

  lemma NoPairs(r: Req, ps: seq<Pair>, cfg: Config)
    requires ps == []
    ensures TakePairs(r, EncodePairs(ps), cfg) == Effect(r, []) && PairBytes(ps) == 0 && EnvAfter(r.env, ps) == r.env
  {
  }

  lemma {:induction false} ExceedingPairs(r: Req, ps: seq<Pair>, cfg: Config)
    requires PairsFit(ps)
    requires !r.responded && r.paramsBytes <= cfg.maxParams < r.paramsBytes + PairBytes(ps)
    ensures IsRefusal(TakePairs(r, EncodePairs(ps), cfg), r.id)
    decreases |ps|
  {
    hide EncodePair, EncodePairs, DecodeLength, TakePairs, PairBytes, EnvAfter, FailRequest, PairFits, PairsFit, IsRefusal;
    if ps == [] {
      NoPairs(r, ps, cfg);
      assert false;
    }
    FailIsRefusal(r);
    PairsUnfold(r.env, ps);
    TakeOnePair(r, ps[0], EncodePairs(ps[1..]), cfg);
    if r.paramsBytes + |ps[0].name| + |ps[0].value| <= cfg.maxParams {
      ExceedingPairs(WithPair(r, ps[0]), ps[1..], cfg);
    }
  }

  /** A record of whole pairs is taken entirely, or refused at the first pair past the limit. */
  lemma TakeWholePairs(r: Req, ps: seq<Pair>, cfg: Config)
    requires PairsFit(ps)
    requires !r.responded
    ensures var e := TakePairs(r, EncodePairs(ps), cfg);
            if r.paramsBytes + PairBytes(ps) <= cfg.maxParams
            then e == Effect(r.(env := EnvAfter(r.env, ps), paramsBytes := r.paramsBytes + PairBytes(ps)), [])
            else r.paramsBytes <= cfg.maxParams ==> IsRefusal(e, r.id)
  {
    hide *;
    if r.paramsBytes + PairBytes(ps) <= cfg.maxParams {
      FittingPairs(r, ps, cfg);
    } else if r.paramsBytes <= cfg.maxParams {
      ExceedingPairs(r, ps, cfg);
    }
  }

  // ------------------------------------------------------------- a request's script

  /** What a web server sends for one request. */
  datatype Item = Begin(flags: byte) | Params(pairs: seq<Pair>) | EndParams | Data(data: bytes) | EndData

  predicate ItemFits(it: Item) {
    match it
    case Params(ps) =>
      ps != [] && PairsFit(ps) && |EncodePairs(ps)| <= MAX_CONTENT
    case Data(d) => 0 < |d| <= MAX_CONTENT
    case _ => true
  }

  function ToRecord(it: Item, k: nat): Record
    requires ItemFits(it)
  {
    match it
    case Begin(flags) => Record(BEGIN_REQUEST, k, [0, 1, flags, 0, 0, 0, 0, 0])
    case Params(ps) => Record(PARAMS, k, EncodePairs(ps))
    case EndParams => Record(PARAMS, k, [])
    case Data(d) => Record(STDIN, k, d)
    case EndData => Record(STDIN, k, [])
  }

  /**
   Both streams in any interleaving, each closed by exactly one terminator, and nothing
   after the second terminator.
   */
  predicate Script(items: seq<Item>, paramsOpen: bool, dataOpen: bool)
    decreases |items|
  {
    if items == [] then !paramsOpen && !dataOpen
    else
      && (paramsOpen || dataOpen)
      && ItemFits(items[0])
      && match items[0] {
           case Begin(_) => Script(items[1..], paramsOpen, dataOpen)
           case Params(_) => paramsOpen && Script(items[1..], paramsOpen, dataOpen)
           case EndParams => paramsOpen && Script(items[1..], false, dataOpen)
           case Data(_) => dataOpen && Script(items[1..], paramsOpen, dataOpen)
           case EndData => dataOpen && Script(items[1..], paramsOpen, false)
         }
  }

  function ToRecords(items: seq<Item>, k: nat): seq<Record>
    requires forall i :: 0 <= i < |items| ==> ItemFits(items[i])
  {
    if items == [] then [] else [ToRecord(items[0], k)] + ToRecords(items[1..], k)
  }

  lemma {:induction false} ScriptFits(items: seq<Item>, paramsOpen: bool, dataOpen: bool)
    requires Script(items, paramsOpen, dataOpen)
    ensures forall i :: 0 <= i < |items| ==> ItemFits(items[i])
    decreases |items|
  {
    if items != [] {
      ScriptFits(items[1..], paramsOpen && !items[0].EndParams?, dataOpen && !items[0].EndData?);
    }
  }

  function AllPairs(items: seq<Item>): seq<Pair> {
    if items == [] then [] else (if items[0].Params? then items[0].pairs else []) + AllPairs(items[1..])
  }

  function AllData(items: seq<Item>): bytes {
    if items == [] then [] else (if items[0].Data? then items[0].data else []) + AllData(items[1..])
  }

  /** Some BEGIN_REQUEST asked to keep the connection open. */
  predicate AsksToKeep(items: seq<Item>) {
    items != [] && ((items[0].Begin? && items[0].flags % 2 == 1) || AsksToKeep(items[1..]))
  }

  predicate HasBegin(items: seq<Item>) {
    items != [] && (items[0].Begin? || HasBegin(items[1..]))
  }

  lemma {:induction false} PairsAppend(env: map<bytes, bytes>, a: seq<Pair>, b: seq<Pair>)
    ensures PairBytes(a + b) == PairBytes(a) + PairBytes(b)
    ensures EnvAfter(env, a + b) == EnvAfter(EnvAfter(env, a), b)
    decreases |a|
  {
    if a == [] {
      assert a + b == b;
    } else {
      ConsAppends(a, b);
      PairsAppend(env[a[0].name := a[0].value], a[1..], b);
    }
  }

  // -------------------------------------------------------------------- the theorem

  /** A refused request takes no further part. */
  lemma {:induction false} RefusedStaysRefused(v: View, k: nat, items: seq<Item>, cfg: Config)
    requires forall i :: 0 <= i < |items| ==> ItemFits(items[i])
    requires v.req.Some? && v.req.value.failed && v.req.value.responded
    ensures var w := AloneAll(v, k, ToRecords(items, k), cfg);
            w.out == v.out && w.ready == v.ready
    decreases |items|
  {
    if items != [] {
      var rec := ToRecord(items[0], k);
      TailOfCons(rec, ToRecords(items[1..], k));
      hide TakePairs, EncodePairs;
      var w := Alone(v, k, rec, cfg);
      assert w.out == v.out && w.ready == v.ready && w.req.Some? && w.req.value.failed && w.req.value.responded;
      RefusedStaysRefused(w, k, items[1..], cfg);
    }
  }

  ghost predicate Pending(v: View, k: nat, paramsOpen: bool, dataOpen: bool, cfg: Config) {
    && v.req.Some?
    && var r := v.req.value;
    && r.id == k && !r.failed && !r.responded
    && r.paramsComplete == !paramsOpen && r.inputComplete == !dataOpen
    && r.paramsBytes <= cfg.maxParams && r.bodyBytes <= cfg.maxStdin
  }

  /** What is left to send fits what is left of the limits. */
  predicate WithinLimits(r: Req, items: seq<Item>, cfg: Config) {
    && r.paramsBytes + PairBytes(AllPairs(items)) <= cfg.maxParams
    && r.bodyBytes + |AllData(items)| <= cfg.maxStdin
  }

  /** r' is r with everything the items carry taken in. */
  ghost predicate Took(r: Req, items: seq<Item>, r': Req) {
    && r'.env == EnvAfter(r.env, AllPairs(items))
    && r'.body == r.body + AllData(items)
    && r'.paramsBytes == r.paramsBytes + PairBytes(AllPairs(items))
    && r'.bodyBytes == r.bodyBytes + |AllData(items)|
    && r'.keepConnection == (r.keepConnection || AsksToKeep(items))
    && r'.initialized == (r.initialized || HasBegin(items))
  }

  ghost predicate Admitted(v: View, w: View, items: seq<Item>)
    requires v.req.Some?
  {
    && w.out == v.out && w.req.Some?
    && w.ready == v.ready + [w.req.value]
    && Took(v.req.value, items, w.req.value)
  }

  ghost predicate Refused(v: View, w: View, k: nat) {
    w.ready == v.ready && w.out == v.out + [EndRequestRecord(k, 0, OVERLOADED)]
  }

  /** What one item makes of a pending request: it stays pending, is admitted by the last item, or is refused. */
  ghost predicate ItemDone(v: View, w: View, k: nat, it: Item, paramsOpen: bool, dataOpen: bool, cfg: Config)
    requires v.req.Some?
  {
    && w.req.Some?
    && var r, r' := v.req.value, w.req.value;
       if WithinLimits(r, [it], cfg) then
         && var po, dopen := paramsOpen && !it.EndParams?, dataOpen && !it.EndData?;
         && Pending(w, k, po, dopen, cfg)
         && w.out == v.out && w.ready == v.ready + (if po || dopen then [] else [r'])
         && Took(r, [it], r')
       else
         Refused(v, w, k) && r'.failed && r'.responded
  }

  lemma OneItem(v: View, k: nat, it: Item, paramsOpen: bool, dataOpen: bool, cfg: Config) returns (w: View)
    requires Pending(v, k, paramsOpen, dataOpen, cfg) && ItemFits(it)
    requires paramsOpen || dataOpen
    requires (it.Params? || it.EndParams? ==> paramsOpen) && (it.Data? || it.EndData? ==> dataOpen)
    ensures w == Alone(v, k, ToRecord(it, k), cfg) && ItemDone(v, w, k, it, paramsOpen, dataOpen, cfg)
  {
    w := Alone(v, k, ToRecord(it, k), cfg);
    if it.Params? {
      ParamsItem(v, k, it, dataOpen, cfg);
    } else {
      OtherItem(v, k, it, paramsOpen, dataOpen, cfg);
    }
    hide ItemDone, Alone, Pending;
  }

  lemma ParamsItem(v: View, k: nat, it: Item, dataOpen: bool, cfg: Config)
    requires Pending(v, k, true, dataOpen, cfg) && ItemFits(it) && it.Params?
    ensures ItemDone(v, Alone(v, k, ToRecord(it, k), cfg), k, it, true, dataOpen, cfg)
  {
    SingleItem(it);
    NonEmptyPairs(it.pairs);
    TakeWholePairs(v.req.value, it.pairs, cfg);
    AppendNothing(v.out);
    AppendNothing(v.ready);
    AppendNothing(v.req.value.body);
    hide TakePairs, EncodePairs, HasBegin, AsksToKeep, AllPairs, AllData, EnvAfter, PairBytes;
  }

  lemma OtherItem(v: View, k: nat, it: Item, paramsOpen: bool, dataOpen: bool, cfg: Config)
    requires Pending(v, k, paramsOpen, dataOpen, cfg) && ItemFits(it) && !it.Params?
    requires paramsOpen || dataOpen
    requires (it.EndParams? ==> paramsOpen) && (it.Data? || it.EndData? ==> dataOpen)
    ensures ItemDone(v, Alone(v, k, ToRecord(it, k), cfg), k, it, paramsOpen, dataOpen, cfg)
  {
    SingleItem(it);
    AppendNothing(v.out);
    AppendNothing(v.ready);
    AppendNothing(v.req.value.body);
    assert EnvAfter(v.req.value.env, []) == v.req.value.env && PairBytes([]) == 0;
    hide TakePairs, EncodePairs, HasBegin, AsksToKeep, AllPairs, AllData, EnvAfter, PairBytes;
  }

  lemma NonEmptyPairs(ps: seq<Pair>)
    requires ps != [] && PairsFit(ps)
    ensures EncodePairs(ps) != []
  {
    assert EncodePair(ps[0]) != [];
  }

  lemma ItemsSplit(items: seq<Item>)
    requires items != []
    ensures AllPairs(items) == AllPairs([items[0]]) + AllPairs(items[1..])
    ensures AllData(items) == AllData([items[0]]) + AllData(items[1..])
    ensures AsksToKeep(items) == (AsksToKeep([items[0]]) || AsksToKeep(items[1..]))
    ensures HasBegin(items) == (HasBegin([items[0]]) || HasBegin(items[1..]))
  {
    SingleItem(items[0]);
  }

  lemma SingleItem(it: Item)
    ensures AllPairs([it]) == if it.Params? then it.pairs else []
    ensures AllData([it]) == if it.Data? then it.data else []
    ensures AsksToKeep([it]) == (it.Begin? && it.flags % 2 == 1)
    ensures HasBegin([it]) == it.Begin?
  {
    var one: seq<Item> := [it];
    var none: seq<Item> := [];
    assert one[1..] == none;
    assert AllPairs(none) == [] && AllData(none) == [] && !AsksToKeep(none) && !HasBegin(none);
    AppendNothing(if it.Params? then it.pairs else []);
    AppendNothing(if it.Data? then it.data else []);
  }

  lemma WithinLimitsSplits(r: Req, r': Req, items: seq<Item>, cfg: Config)
    requires items != []
    requires r'.paramsBytes == r.paramsBytes + PairBytes(AllPairs([items[0]]))
    requires r'.bodyBytes == r.bodyBytes + |AllData([items[0]])|
    ensures WithinLimits(r, items, cfg) <==> WithinLimits(r, [items[0]], cfg) && WithinLimits(r', items[1..], cfg)
  {
    ItemsSplit(items);
    PairsAppend(map[], AllPairs([items[0]]), AllPairs(items[1..]));
    hide AllPairs, AllData, PairBytes;
  }

  lemma TookSplits(r: Req, items: seq<Item>, r1: Req, r2: Req)
    requires items != [] && Took(r, [items[0]], r1) && Took(r1, items[1..], r2)
    ensures Took(r, items, r2)
  {
    ItemsSplit(items);
    PairsAppend(r.env, AllPairs([items[0]]), AllPairs(items[1..]));
    hide AllPairs, AllData, PairBytes, EnvAfter, AsksToKeep, HasBegin;
    Assoc(r.body, AllData([items[0]]), AllData(items[1..]));
  }

  lemma ScriptUnfolds(items: seq<Item>, paramsOpen: bool, dataOpen: bool)
    requires Script(items, paramsOpen, dataOpen) && (paramsOpen || dataOpen)
    ensures items != [] && ItemFits(items[0])
    ensures var it := items[0];
            var po, dopen := paramsOpen && !it.EndParams?, dataOpen && !it.EndData?;
            && (it.Params? || it.EndParams? ==> paramsOpen) && (it.Data? || it.EndData? ==> dataOpen)
            && Script(items[1..], po, dopen) && (!po && !dopen ==> items == [it])
  {
  }

  lemma RecordsUnfold(v: View, k: nat, items: seq<Item>, cfg: Config)
    requires items != [] && forall i :: 0 <= i < |items| ==> ItemFits(items[i])
    ensures AloneAll(v, k, ToRecords(items, k), cfg)
         == AloneAll(Alone(v, k, ToRecord(items[0], k), cfg), k, ToRecords(items[1..], k), cfg)
    ensures |items| == 1 ==> AloneAll(v, k, ToRecords(items, k), cfg) == Alone(v, k, ToRecord(items[0], k), cfg)
  {
    hide ToRecord, Alone, ItemFits;
    TailOfCons(ToRecord(items[0], k), ToRecords(items[1..], k));
  }

  lemma {:induction false} Play(v: View, k: nat, items: seq<Item>, paramsOpen: bool, dataOpen: bool, cfg: Config)
    requires Pending(v, k, paramsOpen, dataOpen, cfg) && Script(items, paramsOpen, dataOpen)
    requires paramsOpen || dataOpen
    requires forall i :: 0 <= i < |items| ==> ItemFits(items[i])
    ensures var w := AloneAll(v, k, ToRecords(items, k), cfg);
            if WithinLimits(v.req.value, items, cfg) then Admitted(v, w, items) else Refused(v, w, k)
    decreases |items|
  {
    hide Script, ToRecord, ToRecords, Alone, AloneAll, ItemFits, WithinLimits, EnvAfter, PairBytes, AllPairs, AllData, AsksToKeep, HasBegin;
    ScriptUnfolds(items, paramsOpen, dataOpen);
    RecordsUnfold(v, k, items, cfg);
    var it, r := items[0], v.req.value;
    var po, dopen := paramsOpen && !it.EndParams?, dataOpen && !it.EndData?;
    var w := OneItem(v, k, it, paramsOpen, dataOpen, cfg);
    if !WithinLimits(r, [it], cfg) {
      var sum := r.(paramsBytes := r.paramsBytes + PairBytes(AllPairs([it])), bodyBytes := r.bodyBytes + |AllData([it])|);
      WithinLimitsSplits(r, sum, items, cfg);
      RefusedStaysRefused(w, k, items[1..], cfg);
    } else if po || dopen {
      WithinLimitsSplits(r, w.req.value, items, cfg);
      Play(w, k, items[1..], po, dopen, cfg);
      if WithinLimits(r, items, cfg) {
        hide Pending, Took;
        TookSplits(r, items, w.req.value, AloneAll(w, k, ToRecords(items[1..], k), cfg).req.value);
      }
    }
  }

  lemma FirstRecordAllocates(v: View, k: nat, recs: seq<Record>, cfg: Config)
    requires v.req.None? && recs != [] && Addressed(recs[0])
    ensures AloneAll(v, k, recs, cfg) == AloneAll(v.(req := Some(Fresh(k, cfg))), k, recs, cfg)
  {
    hide Handle;
  }

  /**
   The dichotomy, for a new request k multiplexed with any other traffic: within both limits
   it becomes ready exactly once, with the last-wins environment and the concatenated
   input; otherwise it never becomes ready and gets exactly one OVERLOADED END_REQUEST.
   */
  lemma Admission(c: Conn, recs: seq<Record>, k: nat, items: seq<Item>, cfg: Config)
    requires c.pool.Ample? && WellKeyed(c)
    requires ViewOf(c, k) == View(None, [], [])
    requires Script(items, true, true) && (forall i :: 0 <= i < |items| ==> ItemFits(items[i]))
    requires RecordsOf(recs, k) == ToRecords(items, k)
    ensures var w := ViewOf(Fold(c, recs, cfg), k);
            if PairBytes(AllPairs(items)) <= cfg.maxParams && |AllData(items)| <= cfg.maxStdin then
              && w.out == []
              && |w.ready| == 1
              && w.req == Some(w.ready[0])
              && w.ready[0].env == EnvAfter(cfg.initialEnv, AllPairs(items))
              && w.ready[0].body == AllData(items)
              && w.ready[0].paramsBytes == PairBytes(AllPairs(items)) && w.ready[0].bodyBytes == |AllData(items)|
              && w.ready[0].keepConnection == AsksToKeep(items)
            else
              w.ready == [] && w.out == [EndRequestRecord(k, 0, OVERLOADED)]
  {
    FoldSeenBy(c, recs, k, cfg);
    var v := View(Some(Fresh(k, cfg)), [], []);
    assert ToRecords(items, k)[0] == ToRecord(items[0], k);
    FirstRecordAllocates(ViewOf(c, k), k, ToRecords(items, k), cfg);
    hide Script, ToRecords, ItemFits, Fold, AloneAll, ViewOf, EnvAfter, PairBytes, AllPairs, AllData, AsksToKeep, HasBegin;
    Play(v, k, items, true, true, cfg);
    assert [] + AllData(items) == AllData(items);
  }

  // ----------------------------------------------------------------------- afterwards

  /** Once a request is answered, no record makes it ready again or makes it say anything more. */
  lemma {:induction false} AnsweredIsSilent(v: View, k: nat, recs: seq<Record>, cfg: Config)
    requires v.req.Some? && v.req.value.responded
    ensures var w := AloneAll(v, k, recs, cfg);
            w.out == v.out && w.ready == v.ready && w.req.Some? && w.req.value.responded
    decreases |recs|
  {
    if recs != [] {
      AnsweredHandle(v.req.value, recs[0], cfg);
      AppendNothing(v.out);
      AppendNothing(v.ready);
      hide Handle;
      AnsweredIsSilent(Alone(v, k, recs[0], cfg), k, recs[1..], cfg);
    }
  }

  lemma AnsweredHandle(r: Req, rec: Record, cfg: Config)
    requires r.responded
    ensures Addressed(rec) ==> Handle(r, rec, cfg).out == [] && Handle(r, rec, cfg).req.responded
  {
    hide TakePairs;
    var _ := PairsShape(r, rec.content, cfg);
  }

  /** Some pair of the content, whole and after all before it, needs more than the room left. */
  predicate PairsExceed(p: bytes, room: int)
    decreases |p|
  {
    p != []
    && var (n, p1) := DecodeLength(p);
       var (v, p2) := DecodeLength(p1);
       n + v <= |p2| && (n + v > room || PairsExceed(p2[n + v..], room - n - v))
  }

  /** That is when the name-value loop refuses an unanswered request. */
  lemma {:induction false} RefusedIffPairsExceed(r: Req, p: bytes, cfg: Config)
    requires !r.failed && !r.responded
    ensures TakePairs(r, p, cfg).req.failed <==> PairsExceed(p, cfg.maxParams - r.paramsBytes)
    decreases |p|
  {
    if p != [] {
      var (n, p1) := DecodeLength(p);
      var (v, p2) := DecodeLength(p1);
      TakePairsUnfold(r, p, n, p1, v, p2, cfg);
      hide DecodeLength, TakePairs;
      if n + v <= |p2| && r.paramsBytes + n + v <= cfg.maxParams {
        RefusedIffPairsExceed(r.(env := r.env[p2[..n] := p2[n..n + v]], paramsBytes := r.paramsBytes + n + v), p2[n + v..], cfg);
      }
    }
  }

  /** A record that ends a ready request instead of announcing it again. */
  predicate Ends(r: Req, rec: Record, cfg: Config) {
    || rec.kind == ABORT_REQUEST
    || (rec.kind == STDIN && rec.content != [] && r.bodyBytes + |rec.content| > cfg.maxStdin)
    || (rec.kind == PARAMS && PairsExceed(rec.content, cfg.maxParams - r.paramsBytes))
  }

  /** Nothing addressed to a ready request follows, or the first such record ends it. */
  predicate QuietAfter(r: Req, recs: seq<Record>, cfg: Config) {
    recs == [] || (if Addressed(recs[0]) then Ends(r, recs[0], cfg) else QuietAfter(r, recs[1..], cfg))
  }

  lemma ReadyHandle(r: Req, rec: Record, cfg: Config)
    requires IsReady(r) && Addressed(rec)
    ensures var r' := Handle(r, rec, cfg).req;
            if Ends(r, rec, cfg) then r'.responded else IsReady(r')
  {
    hide TakePairs;
    var _ := PairsShape(r, rec.content, cfg);
    RefusedIffPairsExceed(r, rec.content, cfg);
  }

  /** Ready events are never taken back. */
  lemma {:induction false} ReadyGrows(v: View, k: nat, recs: seq<Record>, cfg: Config)
    ensures v.ready <= AloneAll(v, k, recs, cfg).ready
    decreases |recs|
  {
    if recs != [] {
      hide Handle;
      ReadyGrows(Alone(v, k, recs[0], cfg), k, recs[1..], cfg);
    }
  }

  /**
   A request that is ready but not answered yet is announced again by any further record of
   its own: it is handed over only once if and only if the stream stays quiet.
   */
  lemma {:induction false} ReadyOnceIff(v: View, k: nat, recs: seq<Record>, cfg: Config)
    requires v.req.Some? && IsReady(v.req.value)
    ensures AloneAll(v, k, recs, cfg).ready == v.ready <==> QuietAfter(v.req.value, recs, cfg)
    decreases |recs|
  {
    if recs != [] {
      var w := Alone(v, k, recs[0], cfg);
      if !Addressed(recs[0]) {
        ReadyOnceIff(v, k, recs[1..], cfg);
      } else {
        ReadyHandle(v.req.value, recs[0], cfg);
        AppendNothing(v.ready);
        hide Handle, Ends, Addressed;
        if Ends(v.req.value, recs[0], cfg) {
          AnsweredIsSilent(w, k, recs[1..], cfg);
        } else {
          ReadyGrows(w, k, recs[1..], cfg);
        }
      }
    }
  }

  /**
   An ABORT_REQUEST on an unanswered request is answered at once and for good: one END_REQUEST
   with status REQUEST_COMPLETE, and neither a ready event nor a record after it, whatever
   else arrives for this or any other request.
   */
  lemma AbortIsFinal(c: Conn, before: seq<Record>, k: nat, content: bytes, after: seq<Record>, cfg: Config)
    requires c.pool.Ample? && WellKeyed(c)
    requires var v := ViewOf(Fold(c, before, cfg), k); v.req.Some? ==> !v.req.value.responded
    ensures var v := ViewOf(Fold(c, before, cfg), k);
            var w := ViewOf(Fold(c, before + ([Record(ABORT_REQUEST, k, content)] + after), cfg), k);
            && w.ready == v.ready
            && w.out == v.out + [EndRequestRecord(k, 0, REQUEST_COMPLETE)]
            && w.req.Some? && w.req.value.aborted
  {
    var abort := Record(ABORT_REQUEST, k, content);
    var c1 := Fold(c, before, cfg);
    FoldAppends(c, before, [abort] + after, cfg);
    FoldKeepsAmple(c, before, cfg);
    FoldKeepsKeys(c, before, cfg);
    RecordsOfAppends([abort], after, k);
    assert RecordsOf([abort], k) == [abort] by { assert RecordsOf([abort][1..], k) == []; }
    FoldSeenBy(c1, [abort] + after, k, cfg);
    var v := ViewOf(c1, k);
    AbortedView(v, k, abort, cfg);
    hide ViewOf, Fold, RecordsOf, Alone;
    TailOfCons(abort, RecordsOf(after, k));
    AnsweredIsSilent(Alone(v, k, abort, cfg), k, RecordsOf(after, k), cfg);
    AbortedStays(Alone(v, k, abort, cfg), k, RecordsOf(after, k), cfg);
  }

  lemma AbortedView(v: View, k: nat, abort: Record, cfg: Config)
    requires v.req.Some? ==> v.req.value.id == k && !v.req.value.responded
    requires abort.kind == ABORT_REQUEST
    ensures var w := Alone(v, k, abort, cfg);
            && w.ready == v.ready && w.out == v.out + [EndRequestRecord(k, 0, REQUEST_COMPLETE)]
            && w.req.Some? && w.req.value.responded && w.req.value.aborted
  {
    AppendNothing(v.ready);
  }

  lemma {:induction false} AbortedStays(v: View, k: nat, recs: seq<Record>, cfg: Config)
    requires v.req.Some? && v.req.value.aborted
    ensures AloneAll(v, k, recs, cfg).req.Some? && AloneAll(v, k, recs, cfg).req.value.aborted
    decreases |recs|
  {
    if recs != [] {
      hide TakePairs;
      var _ := PairsShape(v.req.value, recs[0].content, cfg);
      AbortedStays(Alone(v, k, recs[0], cfg), k, recs[1..], cfg);
    }
  }
}
