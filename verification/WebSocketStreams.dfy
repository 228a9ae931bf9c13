/**
 The frame codec, independence of how the byte stream is cut into reads, and reassembly of
 fragmented messages with control frames between the fragments.
 */
module WebSocketStreams {
  import opened Bytes
  import opened WebSocketSpec

  // ------------------------------------------------------------------------- codec

  lemma LowBit(q: nat, a: nat, b: nat)
    ensures var r := (a % 2 + b % 2) % 2;
            (2 * q + r) / 2 == q && (2 * q + r) % 2 == r && (r + b % 2) % 2 == a % 2
  {
  }

  lemma {:induction false} XorTwice(a: nat, b: nat, n: nat)
    requires a < Pow2(n)
    ensures XorBits(XorBits(a, b, n), b, n) == a
  {
    if n > 0 {
      hide XorBits, Pow2;
      var x := XorBits(a, b, n);
      HalfFits(a, n);
      XorUnfold(a, b, n);
      XorUnfold(x, b, n);
      LowBit(XorBits(a / 2, b / 2, n - 1), a, b);
      XorTwice(a / 2, b / 2, n - 1);
    }
  }

  lemma HalfFits(a: nat, n: nat)
    requires n > 0 && a < Pow2(n)
    ensures a / 2 < Pow2(n - 1)
  {
  }

  lemma XorUnfold(a: nat, b: nat, n: nat)
    requires n > 0
    ensures XorBits(a, b, n) == 2 * XorBits(a / 2, b / 2, n - 1) + (a % 2 + b % 2) % 2
  {
  }

  /** Masking is its own inverse. */
  lemma MaskTwice(p: bytes, mask: bytes)
    requires |mask| == 4
    ensures Masked(Masked(p, mask), mask) == p
  {
    forall k | 0 <= k < |p|
      ensures Masked(Masked(p, mask), mask)[k] == p[k]
    {
      EightBits();
      XorTwice(p[k], mask[k % 4], 8);
    }
  }

  function Pow256(k: nat): (p: nat)
    ensures p > 0
  {
    if k == 0 then 1 else 256 * Pow256(k - 1)
  }

  lemma {:induction false} BigEndianRoundTrip(n: nat, k: nat)
    requires n < Pow256(k)
    ensures FromBigEndian(BigEndian(n, k)) == n
  {
    if k > 0 {
      BigEndianRoundTrip(n / 256, k - 1);
      assert BigEndian(n, k)[..k - 1] == BigEndian(n / 256, k - 1);
    }
  }

  lemma Powers()
    ensures Pow256(2) == 0x1_0000 && Pow256(8) == 2 * MAX_PAYLOAD
  {
    assert Pow256(4) == 0x1_0000_0000;
    assert Pow256(6) == 0x1_0000_0000_0000;
  }

  /** The length field says what was written, whatever form was used. */
  lemma LengthFieldRoundTrip(b0: byte, masked: bool, form: Form, n: nat, tail: bytes)
    requires FormFits(form, n)
    ensures var b1 := (if masked then 128 else 0) + Length7(form, n);
            var ext := ExtendedLength(form, n);
            LengthField([b0, b1] + (ext + tail)) == Some((2 + |ext|, n))
  {
    ExtendedRoundTrip(form, n);
    var b1 := (if masked then 128 else 0) + Length7(form, n);
    var ext := ExtendedLength(form, n);
    hide ExtendedLength, FromBigEndian, LengthField;
    LengthFieldOf(b0, b1, ext, tail, n);
  }

  lemma ExtendedRoundTrip(form: Form, n: nat)
    requires FormFits(form, n)
    ensures match form {
              case Short => ExtendedLength(form, n) == []
              case Medium => |ExtendedLength(form, n)| == 2 && FromBigEndian(ExtendedLength(form, n)) == n
              case Long => |ExtendedLength(form, n)| == 8 && FromBigEndian(ExtendedLength(form, n)) == n
            }
  {
    Powers();
    hide BigEndian, FromBigEndian, Pow256;
    match form
    case Short =>
    case Medium => BigEndianRoundTrip(n, 2);
    case Long => BigEndianRoundTrip(n, 8);
  }

  lemma LengthFieldOf(b0: byte, b1: byte, ext: bytes, tail: bytes, n: nat)
    requires match b1 % 128 {
               case 126 => |ext| == 2 && FromBigEndian(ext) == n
               case 127 => |ext| == 8 && FromBigEndian(ext) == n
               case m => ext == [] && m == n
             }
    ensures LengthField([b0, b1] + (ext + tail)) == Some((2 + |ext|, n))
  {
    hide FromBigEndian;
    ExtendedSlice(b0, b1, ext, tail);
  }

  lemma ExtendedSlice(b0: byte, b1: byte, ext: bytes, tail: bytes)
    ensures var buf := [b0, b1] + (ext + tail);
            buf[1] == b1 && buf[2..2 + |ext|] == ext
  {
  }

  /** Every legal encoding of a frame parses back to the frame, leaving exactly what follows it. */
  lemma ParseOfEncode(f: Frame, w: Wire, rest: bytes)
    requires Writable(f, w)
    ensures ParseFrame(Encode(f, w) + rest) == Got(f, |Encode(f, w)|)
  {
    var n := |f.payload|;
    var ext, mask, data := ExtendedLength(w.form, n), MaskBytes(w), PayloadOnWire(f, w);
    var b0 := (if f.fin then 128 else 0) + w.rsv * 16 + f.opcode;
    var b1 := (if w.mask.Some? then 128 else 0) + Length7(w.form, n);
    LengthFieldRoundTrip(b0, w.mask.Some?, w.form, n, (mask + data) + rest);
    if w.mask.Some? {
      MaskTwice(f.payload, w.mask.value);
    }
    assert |data| == n && |mask| == if w.mask.Some? then 4 else 0;
    assert (b0 >= 128) == f.fin && b0 % 16 == f.opcode && (b1 >= 128) == w.mask.Some?;
    hide ExtendedLength, Masked, LengthField, Length7, ParseFrame;
    FrameText(b0, b1, ext, mask, data, rest);
    ParseParts(Encode(f, w) + rest, 2 + |ext|, n, mask, data);
  }

  lemma ParseParts(buf: bytes, h: nat, n: nat, mask: bytes, data: bytes)
    requires |buf| >= 2 && LengthField(buf) == Some((h, n)) && |buf| >= h + |mask| + n
    requires |mask| == (if buf[1] >= 128 then 4 else 0)
    requires buf[h..h + |mask|] == mask && buf[h + |mask|..h + |mask| + n] == data
    ensures ParseFrame(buf)
         == Got(Frame(buf[0] >= 128, buf[0] % 16, if buf[1] >= 128 then Masked(data, mask) else data), h + |mask| + n)
  {
    hide LengthField, Masked;
  }

  lemma FrameText(b0: byte, b1: byte, ext: bytes, mask: bytes, data: bytes, rest: bytes)
    ensures var e := [b0, b1] + (ext + (mask + data));
            var buf := e + rest;
            var h := 2 + |ext|;
            && buf == [b0, b1] + (ext + ((mask + data) + rest))
            && buf[0] == b0 && buf[1] == b1
            && buf[h..h + |mask|] == mask
            && buf[h + |mask|..h + |mask| + |data|] == data
  {
  }

  lemma BuildFrameIsEncode(opcode: byte, payload: bytes)
    requires |payload| < MAX_PAYLOAD
    ensures BuildFrame(opcode, payload)
         == Encode(Frame(true, opcode % 16, payload), Wire(0, ServerForm(|payload|), None))
  {
    hide ExtendedLength;
    AppendNothing(payload);
  }

  /** What the server writes comes back unchanged, with exactly the bytes behind it left over. */
  lemma BuildFrameRoundTrip(opcode: byte, payload: bytes, rest: bytes)
    requires |payload| < MAX_PAYLOAD
    ensures ParseFrame(BuildFrame(opcode, payload) + rest)
         == Got(Frame(true, opcode % 16, payload), |BuildFrame(opcode, payload)|)
    ensures (BuildFrame(opcode, payload) + rest)[|BuildFrame(opcode, payload)|..] == rest
  {
    hide BuildFrame, Encode, ParseFrame;
    BuildFrameIsEncode(opcode, payload);
    ParseOfEncode(Frame(true, opcode % 16, payload), Wire(0, ServerForm(|payload|), None), rest);
  }

  /** No legal length form for the same payload is shorter than the one the server picks. */
  lemma ShortestForm(opcode: byte, payload: bytes, rsv: nat, form: Form)
    requires |payload| < MAX_PAYLOAD && rsv < 8 && FormFits(form, |payload|)
    ensures |BuildFrame(opcode, payload)| <= |Encode(Frame(true, opcode % 16, payload), Wire(rsv, form, None))|
    ensures |BuildFrame(opcode, payload)| == |Encode(Frame(true, opcode % 16, payload), Wire(rsv, form, None))|
            <==> form == ServerForm(|payload|)
  {
  }

  // ---------------------------------------------------------------- stream splitting

  lemma ParseExtends(a: bytes, b: bytes)
    ensures ParseFrame(a).Got? ==> ParseFrame(a + b) == ParseFrame(a)
  {
    if ParseFrame(a).Got? {
      GotParts(a);
      LengthFieldExtends(a, b);
      hide LengthField, Masked, ParseFrame;
      var (h, n) := LengthField(a).value;
      var m := if a[1] >= 128 then 4 else 0;
      SliceOfPrefix(a, b, h + m, h + m + n);
      SliceOfPrefix(a, b, h, h + m);
      ParseParts(a, h, n, a[h..h + m], a[h + m..h + m + n]);
      ParseParts(a + b, h, n, a[h..h + m], a[h + m..h + m + n]);
    }
  }

  lemma GotParts(buf: bytes)
    requires ParseFrame(buf).Got?
    ensures |buf| >= 2 && LengthField(buf).Some?
    ensures var (h, n) := LengthField(buf).value;
            |buf| >= h + (if buf[1] >= 128 then 4 else 0) + n
  {
    hide LengthField, Masked;
  }

  lemma LengthFieldExtends(a: bytes, b: bytes)
    requires |a| >= 2 && LengthField(a).Some?
    ensures LengthField(a + b) == LengthField(a)
  {
    var h := LengthField(a).value.0;
    SliceOfPrefix(a, b, 2, h);
  }

  /** Two passes of the frame loop, over `a` and then with `b` appended, end where one pass over both does. */
  lemma {:induction false} LoopSplits(a: bytes, b: bytes, c: State)
    ensures var first := Run(a, c);
            Run(a + b, c) == Run(first.rest + b, first.state)
    decreases |a|
  {
    ParseExtends(a, b);
    hide ParseFrame, React;
    match ParseFrame(a)
    case NeedMore =>
    case Got(f, total) =>
      assert (a + b)[total..] == a[total..] + b;
      LoopSplits(a[total..], b, React(c, f));
  }

  // -------------------------------------------------------------- frames on the wire

  datatype Sent = Sent(frame: Frame, wire: Wire)

  predicate AllWritable(ss: seq<Sent>) {
    forall i :: 0 <= i < |ss| ==> Writable(ss[i].frame, ss[i].wire)
  }

  function EncodeAll(ss: seq<Sent>): bytes
    requires AllWritable(ss)
  {
    if ss == [] then [] else Encode(ss[0].frame, ss[0].wire) + EncodeAll(ss[1..])
  }

  function FramesOf(ss: seq<Sent>): seq<Frame> {
    if ss == [] then [] else [ss[0].frame] + FramesOf(ss[1..])
  }

  lemma {:induction false} RunOfFrames(ss: seq<Sent>, c: State)
    requires AllWritable(ss)
    ensures Run(EncodeAll(ss), c) == Result(ReactAll(c, FramesOf(ss)), [])
    decreases |ss|
  {
    if ss != [] {
      var e, tail := Encode(ss[0].frame, ss[0].wire), EncodeAll(ss[1..]);
      ParseOfEncode(ss[0].frame, ss[0].wire, tail);
      assert (e + tail)[|e|..] == tail;
      TailOfCons(ss[0].frame, FramesOf(ss[1..]));
      hide ParseFrame, React, Encode;
      RunOfFrames(ss[1..], React(c, ss[0].frame));
    }
  }

  lemma {:induction false} ReactAllAppends(c: State, a: seq<Frame>, b: seq<Frame>)
    ensures ReactAll(c, a + b) == ReactAll(ReactAll(c, a), b)
    decreases |a|
  {
    if a == [] {
      AppendNothing(b);
    } else {
      hide React;
      ConsAppends(a, b);
      ReactAllAppends(React(c, a[0]), a[1..], b);
    }
  }

  // -------------------------------------------------------------------- reassembly

  datatype Control = Ping(data: bytes) | PongOf(data: bytes)

  /** A fragment and the control frames that travel in front of it. */
  datatype Fragment = Fragment(before: seq<Control>, data: bytes)

  datatype Outgoing = Outgoing(text: bool, fragments: seq<Fragment>)

  function OpcodeOf(m: Outgoing): nat {
    if m.text then TEXT else BINARY
  }

  function ControlFrames(cs: seq<Control>): seq<Frame> {
    if cs == [] then []
    else [Frame(true, if cs[0].Ping? then PING else PONG, cs[0].data)] + ControlFrames(cs[1..])
  }

  /** Section 5.4: the first fragment carries the opcode, the others opcode 0, the last one FIN. */
  function FragmentFrames(fs: seq<Fragment>, opcode: nat): seq<Frame>
    decreases |fs|
  {
    if fs == [] then []
    else ControlFrames(fs[0].before) + ([Frame(|fs| == 1, opcode, fs[0].data)] + FragmentFrames(fs[1..], CONTINUATION))
  }

  function MessageFrames(ms: seq<Outgoing>): seq<Frame> {
    if ms == [] then [] else FragmentFrames(ms[0].fragments, OpcodeOf(ms[0])) + MessageFrames(ms[1..])
  }

  function FragmentData(fs: seq<Fragment>): bytes {
    if fs == [] then [] else fs[0].data + FragmentData(fs[1..])
  }

  function Delivered(ms: seq<Outgoing>): seq<Message> {
    if ms == [] then [] else [Message(OpcodeOf(ms[0]), FragmentData(ms[0].fragments))] + Delivered(ms[1..])
  }

  function Pongs(cs: seq<Control>): bytes {
    if cs == [] then [] else (if cs[0].Ping? then BuildFrame(PONG, cs[0].data) else []) + Pongs(cs[1..])
  }

  function FragmentPongs(fs: seq<Fragment>): bytes {
    if fs == [] then [] else Pongs(fs[0].before) + FragmentPongs(fs[1..])
  }

  function AllPongs(ms: seq<Outgoing>): bytes {
    if ms == [] then [] else FragmentPongs(ms[0].fragments) + AllPongs(ms[1..])
  }

  /** Control frames only ever add pongs. */
  lemma {:induction false} ControlsOnlyPong(c: State, cs: seq<Control>)
    ensures ReactAll(c, ControlFrames(cs)) == c.(out := c.out + Pongs(cs))
    decreases |cs|
  {
    if cs == [] {
      AppendNothing(c.out);
    } else {
      hide BuildFrame;
      var f := Frame(true, if cs[0].Ping? then PING else PONG, cs[0].data);
      TailOfCons(f, ControlFrames(cs[1..]));
      var p := if cs[0].Ping? then BuildFrame(PONG, cs[0].data) else [];
      AppendNothing(c.out);
      Assoc(c.out, p, Pongs(cs[1..]));
      ControlsOnlyPong(React(c, f), cs[1..]);
    }
  }

  lemma OneFragment(c: State, cs: seq<Control>, f: Frame, more: seq<Frame>)
    ensures ReactAll(c, ControlFrames(cs) + ([f] + more)) == ReactAll(React(c.(out := c.out + Pongs(cs)), f), more)
  {
    hide React, Pongs, ControlFrames;
    ReactAllAppends(c, ControlFrames(cs), [f] + more);
    ControlsOnlyPong(c, cs);
    TailOfCons(f, more);
  }

  /** Continuation frames complete the message under assembly. */
  lemma {:induction false} Continued(c: State, fs: seq<Fragment>)
    requires c.assembling && fs != []
    ensures ReactAll(c, FragmentFrames(fs, CONTINUATION))
         == c.(assembling := false, assembleData := [], out := c.out + FragmentPongs(fs),
               messages := c.messages + [Message(c.assembleOpcode, c.assembleData + FragmentData(fs))])
    decreases |fs|
  {
    var f := Frame(|fs| == 1, CONTINUATION, fs[0].data);
    OneFragment(c, fs[0].before, f, FragmentFrames(fs[1..], CONTINUATION));
    Assoc(c.out, Pongs(fs[0].before), FragmentPongs(fs[1..]));
    Assoc(c.assembleData, fs[0].data, FragmentData(fs[1..]));
    hide Pongs, ControlFrames;
    var c1 := React(c.(out := c.out + Pongs(fs[0].before)), f);
    if |fs| == 1 {
      NoFragments(fs[1..], c1);
      AppendNothing(fs[0].data);
      AppendNothing(Pongs(fs[0].before));
    } else {
      Continued(c1, fs[1..]);
    }
  }

  lemma NoFragments(fs: seq<Fragment>, c: State)
    requires fs == []
    ensures FragmentData(fs) == [] && FragmentPongs(fs) == []
    ensures ReactAll(c, FragmentFrames(fs, CONTINUATION)) == c
  {
  }

  /** One message, fragmented in any way, is delivered once and whole. */
  lemma OneMessage(c: State, m: Outgoing)
    requires !c.assembling && m.fragments != []
    ensures var r := ReactAll(c, FragmentFrames(m.fragments, OpcodeOf(m)));
            && !r.assembling && r.closed == c.closed
            && r.out == c.out + FragmentPongs(m.fragments)
            && r.messages == c.messages + [Message(OpcodeOf(m), FragmentData(m.fragments))]
  {
    var fs := m.fragments;
    var f := Frame(|fs| == 1, OpcodeOf(m), fs[0].data);
    OneFragment(c, fs[0].before, f, FragmentFrames(fs[1..], CONTINUATION));
    Assoc(c.out, Pongs(fs[0].before), FragmentPongs(fs[1..]));
    hide Pongs, ControlFrames;
    var c1 := React(c.(out := c.out + Pongs(fs[0].before)), f);
    if |fs| == 1 {
      NoFragments(fs[1..], c1);
      AppendNothing(fs[0].data);
      AppendNothing(Pongs(fs[0].before));
    } else {
      Continued(c1, fs[1..]);
    }
  }

  lemma {:induction false} AllMessages(c: State, ms: seq<Outgoing>)
    requires !c.assembling && forall i :: 0 <= i < |ms| ==> ms[i].fragments != []
    ensures var r := ReactAll(c, MessageFrames(ms));
            && !r.assembling && r.closed == c.closed
            && r.out == c.out + AllPongs(ms)
            && r.messages == c.messages + Delivered(ms)
    decreases |ms|
  {
    if ms == [] {
      AppendNothing(c.out);
      AppendNothing(c.messages);
    } else {
      hide React, FragmentFrames, FragmentPongs, FragmentData;
      var first := FragmentFrames(ms[0].fragments, OpcodeOf(ms[0]));
      ReactAllAppends(c, first, MessageFrames(ms[1..]));
      OneMessage(c, ms[0]);
      AllMessages(ReactAll(c, first), ms[1..]);
      Assoc(c.out, FragmentPongs(ms[0].fragments), AllPongs(ms[1..]));
      Assoc(c.messages, [Message(OpcodeOf(ms[0]), FragmentData(ms[0].fragments))], Delivered(ms[1..]));
    }
  }

  /**
   Reassembly end to end, for a client that is not closed (a closed one reads nothing): messages fragmented at will, pings and pongs between the fragments
   and behind the last one, every frame with its own mask and length form, the bytes cut into
   reads at will. The server schedules exactly the messages sent, in order, and echoes every
   ping in order; no byte is left over.
   */
  lemma Reassembly(ms: seq<Outgoing>, trailing: seq<Control>, sent: seq<Sent>, chunks: seq<bytes>, c: State)
    requires !c.assembling && forall i :: 0 <= i < |ms| ==> ms[i].fragments != []
    requires AllWritable(sent) && FramesOf(sent) == MessageFrames(ms) + ControlFrames(trailing)
    requires Concat(chunks) == EncodeAll(sent)
    ensures var r := Feed(Run([], c), chunks);
            if c.closed then r.state == c
            else
              && r.rest == []
              && r.state.messages == c.messages + Delivered(ms)
              && r.state.out == c.out + (AllPongs(ms) + Pongs(trailing))
              && !r.state.closed && !r.state.assembling
  {
    RunOfNothing(c);
    hide *;
    if c.closed {
      FeedClosed(Run([], c), chunks);
      return;
    }
    AppendNothing(EncodeAll(sent));
    RunOfFrames(sent, c);
    ReactAllAppends(c, MessageFrames(ms), ControlFrames(trailing));
    AllMessages(c, ms);
    ControlsOnlyPong(ReactAll(c, MessageFrames(ms)), trailing);
    Assoc(c.out, AllPongs(ms), Pongs(trailing));
    NeverEnded([], chunks, c);
  }

  lemma RunOfNothing(c: State)
    ensures Run([], c) == Result(c, [])
  {
  }

  lemma FeedClosed(r: Result, chunks: seq<bytes>)
    requires r.state.closed
    ensures Feed(r, chunks) == r
  {
  }

  // --------------------------------------------------------------- protocol violations

  /** Whether a message is open behind a frame. */
  function OpenAfter(open: bool, f: Frame): bool {
    if f.opcode == TEXT || f.opcode == BINARY then !f.fin
    else if f.opcode == CONTINUATION then open && !f.fin
    else open
  }

  /** A close frame, or a continuation with no message to continue. */
  predicate EndsSession(open: bool, f: Frame) {
    f.opcode == CLOSE || (f.opcode == CONTINUATION && !open)
  }

  predicate SomeEndsSession(open: bool, fs: seq<Frame>)
    decreases |fs|
  {
    fs != [] && (EndsSession(open, fs[0]) || SomeEndsSession(OpenAfter(open, fs[0]), fs[1..]))
  }

  /** The connection is marked for closing exactly by close frames and orphan continuations, for good. */
  lemma {:induction false} ClosedIff(c: State, fs: seq<Frame>)
    ensures ReactAll(c, fs).closed <==> c.closed || SomeEndsSession(c.assembling, fs)
    decreases |fs|
  {
    if fs != [] {
      assert React(c, fs[0]).assembling == OpenAfter(c.assembling, fs[0]);
      assert React(c, fs[0]).closed == (c.closed || EndsSession(c.assembling, fs[0]));
      hide React, OpenAfter, EndsSession;
      ClosedIff(React(c, fs[0]), fs[1..]);
    }
  }

  // --------------------------------------------------------------------- whole reads

  /** The complete frames of a buffer. */
  function Frames(buf: bytes): seq<Frame>
    decreases |buf|
  {
    match ParseFrame(buf)
    case NeedMore => []
    case Got(f, total) => [f] + Frames(buf[total..])
  }

  lemma {:induction false} RunIsReactAll(buf: bytes, c: State)
    ensures Run(buf, c).state == ReactAll(c, Frames(buf))
    decreases |buf|
  {
    hide ParseFrame, React;
    match ParseFrame(buf)
    case NeedMore =>
    case Got(f, total) =>
      TailOfCons(f, Frames(buf[total..]));
      RunIsReactAll(buf[total..], React(c, f));
  }

  /** Reads arriving one after the other; a client that is closed after a read is erased and gets no other. */
  function Feed(r: Result, chunks: seq<bytes>): Result
    decreases |chunks|
  {
    if chunks == [] || r.state.closed then r else Feed(Run(r.rest + chunks[0], r.state), chunks[1..])
  }

  /** The bytes hold a frame that ends the session. */
  predicate Ended(c: State, buf: bytes) {
    c.closed || SomeEndsSession(c.assembling, Frames(buf))
  }

  /** How many of the reads take place: all, or those up to the one that completes such a frame. */
  function Served(pending: bytes, chunks: seq<bytes>, c: State): (n: nat)
    ensures n <= |chunks|
    decreases |chunks|
  {
    if chunks == [] || Ended(c, pending) then 0 else 1 + Served(pending + chunks[0], chunks[1..], c)
  }

  lemma ClosedIsEnded(buf: bytes, c: State)
    ensures Run(buf, c).state.closed <==> Ended(c, buf)
  {
    RunIsReactAll(buf, c);
    ClosedIff(c, Frames(buf));
    hide Run, ReactAll, Frames, SomeEndsSession;
  }

  /** However the stream is cut, the client ends up where one read of the bytes served to it would take it. */
  lemma {:induction false} AnySplit(pending: bytes, chunks: seq<bytes>, c: State)
    ensures var n := Served(pending, chunks, c);
            && Feed(Run(pending, c), chunks) == Run(pending + Concat(chunks[..n]), c)
            && (n < |chunks| ==> Ended(c, pending + Concat(chunks[..n])))
    decreases |chunks|
  {
    ClosedIsEnded(pending, c);
    AppendNothing(pending);
    hide Run, Ended;
    if chunks != [] && !Ended(c, pending) {
      LoopSplits(pending, chunks[0], c);
      AnySplit(pending + chunks[0], chunks[1..], c);
      var n := Served(pending + chunks[0], chunks[1..], c);
      assert chunks[..n + 1] == [chunks[0]] + chunks[1..][..n];
      TailOfCons(chunks[0], chunks[1..][..n]);
      Assoc(pending, chunks[0], Concat(chunks[1..][..n]));
    }
  }

  /** What the client does not get to see: everything behind the read that ended the session. */
  function Late(pending: bytes, chunks: seq<bytes>, c: State): bytes {
    Concat(chunks[Served(pending, chunks, c)..])
  }

  /** One read of everything goes on from there with the bytes that came late. */
  lemma OneReadGoesOn(pending: bytes, chunks: seq<bytes>, c: State)
    ensures var r := Feed(Run(pending, c), chunks);
            Run(pending + Concat(chunks), c) == Run(r.rest + Late(pending, chunks, c), r.state)
  {
    hide Run, Feed, Served, Ended;
    var n := Served(pending, chunks, c);
    AnySplit(pending, chunks, c);
    ConcatSplits(chunks, n);
    Assoc(pending, Concat(chunks[..n]), Concat(chunks[n..]));
    LoopSplits(pending + Concat(chunks[..n]), Concat(chunks[n..]), c);
  }

  /** Without late bytes, in particular when nothing ends the session, the cut does not matter at all. */
  lemma NothingLate(pending: bytes, chunks: seq<bytes>, c: State)
    requires Late(pending, chunks, c) == []
    ensures Feed(Run(pending, c), chunks) == Run(pending + Concat(chunks), c)
  {
    hide Run, Feed, Served, Ended, Concat;
    var n := Served(pending, chunks, c);
    AnySplit(pending, chunks, c);
    ConcatSplits(chunks, n);
    AppendNothing(Concat(chunks[..n]));
  }

  lemma NeverEnded(pending: bytes, chunks: seq<bytes>, c: State)
    requires !Run(pending + Concat(chunks), c).state.closed
    ensures Feed(Run(pending, c), chunks) == Run(pending + Concat(chunks), c)
  {
    var r := Feed(Run(pending, c), chunks);
    var more := r.rest + Late(pending, chunks, c);
    OneReadGoesOn(pending, chunks, c);
    AnySplit(pending, chunks, c);
    var n := Served(pending, chunks, c);
    ClosedIsEnded(pending + Concat(chunks[..n]), c);
    ClosedIsEnded(more, r.state);
    hide Run, Feed, Served, Concat, Frames, SomeEndsSession;
    if n == |chunks| {
      assert chunks[n..] == [];
      NothingLate(pending, chunks, c);
    }
  }

  // ------------------------------------------------------------ what comes too late

  /** A frame that makes the server say or schedule something. */
  predicate Loud(open: bool, f: Frame) {
    f.opcode == PING || (f.fin && (f.opcode == TEXT || f.opcode == BINARY || (f.opcode == CONTINUATION && open)))
  }

  predicate SomeLoud(open: bool, fs: seq<Frame>)
    decreases |fs|
  {
    fs != [] && (Loud(open, fs[0]) || SomeLoud(OpenAfter(open, fs[0]), fs[1..]))
  }

  lemma ReactLoud(c: State, f: Frame)
    ensures var d := React(c, f);
            && c.messages <= d.messages && c.out <= d.out
            && (c.messages == d.messages && c.out == d.out <==> !Loud(c.assembling, f))
            && d.assembling == OpenAfter(c.assembling, f)
  {
    assert BuildFrame(PONG, f.payload) != [];
    hide BuildFrame;
  }

  /** Messages and pongs only grow, and stay the same exactly when no frame is loud. */
  lemma {:induction false} LoudIff(c: State, fs: seq<Frame>)
    ensures var d := ReactAll(c, fs);
            && c.messages <= d.messages && c.out <= d.out
            && (c.messages == d.messages && c.out == d.out <==> !SomeLoud(c.assembling, fs))
    decreases |fs|
  {
    if fs != [] {
      ReactLoud(c, fs[0]);
      hide React, Loud, OpenAfter;
      LoudIff(React(c, fs[0]), fs[1..]);
    }
  }

  /** Whether a message is open behind some frames. */
  function OpenBehind(open: bool, fs: seq<Frame>): bool
    decreases |fs|
  {
    if fs == [] then open else OpenBehind(OpenAfter(open, fs[0]), fs[1..])
  }

  lemma {:induction false} AssemblingIsOpen(c: State, fs: seq<Frame>)
    ensures ReactAll(c, fs).assembling == OpenBehind(c.assembling, fs)
    decreases |fs|
  {
    if fs != [] {
      ReactLoud(c, fs[0]);
      hide React, OpenAfter;
      AssemblingIsOpen(React(c, fs[0]), fs[1..]);
    }
  }

  /** The frames of a longer stream start with those of a shorter one; what the loop left over makes the others. */
  lemma {:induction false} FramesSplit(a: bytes, b: bytes, c: State)
    ensures Frames(a + b) == Frames(a) + Frames(Run(a, c).rest + b)
    decreases |a|
  {
    ParseExtends(a, b);
    hide ParseFrame, React;
    match ParseFrame(a)
    case NeedMore => AppendNothing(Frames(a + b));
    case Got(f, total) =>
      assert (a + b)[total..] == a[total..] + b;
      FramesSplit(a[total..], b, React(c, f));
      Assoc([f], Frames(a[total..]), Frames(Run(a[total..], React(c, f)).rest + b));
  }

  /** The bytes of the reads that take place. */
  function InTime(pending: bytes, chunks: seq<bytes>, c: State): bytes {
    pending + Concat(chunks[..Served(pending, chunks, c)])
  }

  /**
   Cutting the stream can only lose messages and pongs at its end: what the client schedules
   and answers is a prefix of what one read of everything would. The frames of the bytes in
   time are the first of all frames, and nothing is lost exactly if none of the others is loud.
   */
  lemma LossIff(pending: bytes, chunks: seq<bytes>, c: State)
    ensures var r := Feed(Run(pending, c), chunks).state;
            var one := Run(pending + Concat(chunks), c).state;
            var seen, all := Frames(InTime(pending, chunks, c)), Frames(pending + Concat(chunks));
            && seen <= all
            && r.messages <= one.messages && r.out <= one.out
            && (r.messages == one.messages && r.out == one.out
                <==> !SomeLoud(OpenBehind(c.assembling, seen), all[|seen|..]))
  {
    var r := Feed(Run(pending, c), chunks);
    var a, b := InTime(pending, chunks, c), Late(pending, chunks, c);
    var n := Served(pending, chunks, c);
    AnySplit(pending, chunks, c);
    OneReadGoesOn(pending, chunks, c);
    ConcatSplits(chunks, n);
    Assoc(pending, Concat(chunks[..n]), Concat(chunks[n..]));
    FramesSplit(a, b, c);
    RunIsReactAll(a, c);
    AssemblingIsOpen(c, Frames(a));
    RunIsReactAll(r.rest + b, r.state);
    LoudIff(r.state, Frames(r.rest + b));
    hide Run, Feed, ReactAll, Frames, SomeLoud, Concat, Served, Ended, OpenBehind;
    assert (Frames(a) + Frames(r.rest + b))[|Frames(a)|..] == Frames(r.rest + b);
  }

  /**
   A frame that ends the session and a message behind it: in one read the message is still
   scheduled, in a read of its own it is not.
   */
  lemma EndThenMessage(e: Sent, m: Sent, c: State)
    requires Writable(e.frame, e.wire) && Writable(m.frame, m.wire)
    requires !c.closed && EndsSession(c.assembling, e.frame)
    requires m.frame.fin && (m.frame.opcode == TEXT || m.frame.opcode == BINARY)
    ensures var a, b := Encode(e.frame, e.wire), Encode(m.frame, m.wire);
            && Feed(Run([], c), [a, b]).state.messages == c.messages
            && Feed(Run([], c), [a + b]).state.messages == c.messages + [Message(m.frame.opcode, m.frame.payload)]
  {
    var a, b := Encode(e.frame, e.wire), Encode(m.frame, m.wire);
    var c1 := React(c, e.frame);
    assert c1.closed && c1.messages == c.messages;
    assert React(c1, m.frame).messages == c.messages + [Message(m.frame.opcode, m.frame.payload)];
    RunOfNothing(c);
    RunOfOne(e, c);
    RunOfOne(m, c1);
    hide Run, React, Encode;
    LoopSplits(a, b, c);
    var two: seq<bytes>, one: seq<bytes> := [a, b], [a + b];
    assert two[1..] == [b] && one[1..] == [];
    AppendNothing(a);
    AppendNothing(b);
    AppendNothing(a + b);
    FeedClosed(Run(a, c), [b]);
    assert Feed(Run(a + b, c), []) == Run(a + b, c);
  }

  /** Late bytes alone do not make a difference: a pong behind the end leaves no trace in either case. */
  lemma EndThenPong(e: Sent, m: Sent, c: State)
    requires Writable(e.frame, e.wire) && Writable(m.frame, m.wire)
    requires !c.closed && EndsSession(c.assembling, e.frame) && m.frame.opcode == PONG
    ensures var a, b := Encode(e.frame, e.wire), Encode(m.frame, m.wire);
            Late([], [a, b], c) == b && Feed(Run([], c), [a, b]) == Run(a + b, c)
  {
    var a, b := Encode(e.frame, e.wire), Encode(m.frame, m.wire);
    var c1 := React(c, e.frame);
    assert c1.closed && React(c1, m.frame) == c1;
    RunOfNothing(c);
    RunOfOne(e, c);
    RunOfOne(m, c1);
    ClosedIsEnded([], c);
    ClosedIsEnded(a, c);
    hide Run, React, Encode, Ended;
    LoopSplits(a, b, c);
    AppendNothing(a);
    AppendNothing(b);
    TwoReads(a, b, c);
  }

  /** A first read that ends the session, and one behind it. */
  lemma TwoReads(a: bytes, b: bytes, c: State)
    requires !c.closed && !Ended(c, []) && Run(a, c).state.closed && Ended(c, a)
    ensures Feed(Run([], c), [a, b]) == Run(a, c) && Late([], [a, b], c) == b
  {
    RunOfNothing(c);
    hide Run, Ended;
    var two: seq<bytes> := [a, b];
    assert two[1..] == [b] && [] + a == a;
    FeedClosed(Run(a, c), [b]);
    assert Served(a, [b], c) == 0;
    assert Concat([b]) == b + Concat([]) == b;
  }

  lemma RunOfOne(s: Sent, c: State)
    requires Writable(s.frame, s.wire)
    ensures Run(Encode(s.frame, s.wire), c) == Result(React(c, s.frame), [])
  {
    hide React, Encode, Run, Writable;
    RunOfFrames([s], c);
    assert [s][1..] == [];
    AppendNothing(Encode(s.frame, s.wire));
    assert FramesOf([s]) == [s.frame] && [s.frame][1..] == [];
    assert ReactAll(React(c, s.frame), []) == React(c, s.frame);
  }

  /** The bytes 88 00 and 81 01 41: a close frame and the message "A". */
  lemma CloseThenText(c: State)
    requires !c.closed
    ensures Feed(Run([], c), [[136, 0], [129, 1, 65]]).state.messages == c.messages
    ensures Feed(Run([], c), [[136, 0, 129, 1, 65]]).state.messages == c.messages + [Message(TEXT, [65])]
  {
    var e := Sent(Frame(true, CLOSE, []), Wire(0, Short, None));
    var m := Sent(Frame(true, TEXT, [65]), Wire(0, Short, None));
    assert Encode(e.frame, e.wire) == [136, 0] && Encode(m.frame, m.wire) == [129, 1, 65];
    assert [136, 0] + [129, 1, 65] == [136, 0, 129, 1, 65];
    hide Run, Feed, Encode;
    EndThenMessage(e, m, c);
  }

  /**
   A new data frame in the middle of a fragmented message: the server drops the unfinished
   message without a trace and goes on, where section 5.4 of RFC 6455 forbids interleaving.
   */
  lemma UnfinishedMessageIsDropped(c: State, m: Outgoing, fs: seq<Fragment>)
    requires c.assembling && m.fragments != [] && fs == m.fragments
    ensures var r := ReactAll(c, FragmentFrames(fs, OpcodeOf(m)));
            && r.closed == c.closed && !r.assembling
            && r.messages == c.messages + [Message(OpcodeOf(m), FragmentData(fs))]
  {
    var idle := c.(assembling := false, assembleData := []);
    var f := Frame(|fs| == 1, OpcodeOf(m), fs[0].data);
    var more := FragmentFrames(fs[1..], CONTINUATION);
    OneFragment(c, fs[0].before, f, more);
    OneFragment(idle, fs[0].before, f, more);
    assert React(c.(out := c.out + Pongs(fs[0].before)), f) == React(idle.(out := c.out + Pongs(fs[0].before)), f);
    hide React, ReactAll, Pongs, ControlFrames;
    OneMessage(idle, m);
  }

  function Count(b: bool): nat {
    if b then 1 else 0
  }

  predicate IsData(f: Frame) {
    f.opcode == TEXT || f.opcode == BINARY
  }

  /** The messages that frames start. */
  function Started(fs: seq<Frame>): nat {
    if fs == [] then 0 else Count(IsData(fs[0])) + Started(fs[1..])
  }

  /** The data frames that come while a message is open. */
  function Replaced(open: bool, fs: seq<Frame>): nat
    decreases |fs|
  {
    if fs == [] then 0 else Count(open && IsData(fs[0])) + Replaced(OpenAfter(open, fs[0]), fs[1..])
  }

  /**
   For every sequence of frames: each message started is scheduled, still open, or replaced.
   So messages are lost exactly when a data frame comes while one is open.
   */
  lemma {:induction false} MessagesAddUp(c: State, fs: seq<Frame>)
    ensures var d := ReactAll(c, fs);
            |d.messages| + Count(d.assembling) + Replaced(c.assembling, fs)
            == |c.messages| + Count(c.assembling) + Started(fs)
    decreases |fs|
  {
    if fs != [] {
      var c1 := React(c, fs[0]);
      assert c1.assembling == OpenAfter(c.assembling, fs[0]);
      assert |c1.messages| + Count(c1.assembling) + Count(c.assembling && IsData(fs[0]))
          == |c.messages| + Count(c.assembling) + Count(IsData(fs[0]));
      hide React, OpenAfter, IsData, Count;
      MessagesAddUp(c1, fs[1..]);
    }
  }
}
