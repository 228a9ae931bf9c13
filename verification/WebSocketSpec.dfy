/**
 WebSocket frames: the base framing of section 5.2 of RFC 6455, masking (5.3) and the
 per-frame reaction of the server (5.4, 5.5), as functions.
 */
module WebSocketSpec {
  import opened Bytes

  const CONTINUATION := 0
  const TEXT := 1
  const BINARY := 2
  const CLOSE := 8
  const PING := 9
  const PONG := 10

  const MAX_PAYLOAD := 0x8000_0000_0000_0000

  // ------------------------------------------------------------- numbers and masks

  /** Exclusive or of the n low bits. */
  function XorBits(a: nat, b: nat, n: nat): (r: nat)
    ensures r < Pow2(n)
  {
    if n == 0 then 0 else 2 * XorBits(a / 2, b / 2, n - 1) + (a % 2 + b % 2) % 2
  }

  lemma EightBits()
    ensures Pow2(8) == 256
  {
    assert Pow2(4) == 16;
  }

  function Xor(a: byte, b: byte): byte {
    EightBits();
    XorBits(a, b, 8)
  }

  function Masked(p: bytes, mask: bytes): bytes
    requires |mask| == 4
  {
    seq(|p|, k requires 0 <= k < |p| => Xor(p[k], mask[k % 4]))
  }

  /** The k low bytes of n, most significant first. */
  function BigEndian(n: nat, k: nat): (s: bytes)
    ensures |s| == k
  {
    if k == 0 then [] else BigEndian(n / 256, k - 1) + [n % 256]
  }

  function FromBigEndian(s: bytes): nat {
    if s == [] then 0 else FromBigEndian(s[..|s| - 1]) * 256 + s[|s| - 1]
  }

  // ------------------------------------------------------------------------ frames

  datatype Frame = Frame(fin: bool, opcode: nat, payload: bytes)

  datatype Form = Short | Medium | Long

  /** How a peer may write a frame: reserved bits, length form and mask are free. */
  datatype Wire = Wire(rsv: nat, form: Form, mask: Option<bytes>)

  predicate FormFits(form: Form, n: nat) {
    match form
    case Short => n < 126
    case Medium => n <= 0xFFFF
    case Long => n < MAX_PAYLOAD
  }

  predicate Writable(f: Frame, w: Wire) {
    && f.opcode < 16 && w.rsv < 8
    && FormFits(w.form, |f.payload|)
    && (w.mask.Some? ==> |w.mask.value| == 4)
  }

  /** Value of the seven-bit length field. */
  function Length7(form: Form, n: nat): nat
    requires form.Short? ==> n < 126
  {
    match form
    case Short => n
    case Medium => 126
    case Long => 127
  }

  function ExtendedLength(form: Form, n: nat): bytes {
    match form
    case Short => []
    case Medium => BigEndian(n, 2)
    case Long => BigEndian(n, 8)
  }

  function MaskBytes(w: Wire): bytes {
    if w.mask.Some? then w.mask.value else []
  }

  function PayloadOnWire(f: Frame, w: Wire): bytes
    requires Writable(f, w)
  {
    if w.mask.Some? then Masked(f.payload, w.mask.value) else f.payload
  }

  function Encode(f: Frame, w: Wire): bytes
    requires Writable(f, w)
  {
    [(if f.fin then 128 else 0) + w.rsv * 16 + f.opcode,
     (if w.mask.Some? then 128 else 0) + Length7(w.form, |f.payload|)]
    + (ExtendedLength(w.form, |f.payload|) + (MaskBytes(w) + PayloadOnWire(f, w)))
  }

  /** The length form `build_ws_frame` picks. */
  function ServerForm(n: nat): Form {
    if n < 126 then Short else if n <= 0xFFFF then Medium else Long
  }

  /** `build_ws_frame` */
  function BuildFrame(opcode: byte, payload: bytes): bytes {
    var form := ServerForm(|payload|);
    [128 + opcode % 16, Length7(form, |payload|)] + (ExtendedLength(form, |payload|) + payload)
  }

  // ------------------------------------------------------------------------ parsing

  datatype Next = NeedMore | Got(frame: Frame, total: nat)

  /** Header length and payload length, once the length field is in the buffer. */
  function LengthField(buf: bytes): (r: Option<(nat, nat)>)
    requires |buf| >= 2
    ensures r.Some? ==> 2 <= r.value.0 <= |buf|
  {
    var n := buf[1] % 128;
    if n == 126 then
      if |buf| < 4 then None else Some((4, FromBigEndian(buf[2..4])))
    else if n == 127 then
      if |buf| < 10 then None else Some((10, FromBigEndian(buf[2..10])))
    else Some((2, n))
  }

  /** One turn of the frame loop up to the payload. */
  function ParseFrame(buf: bytes): (r: Next)
    ensures r.Got? ==> 2 <= r.total <= |buf|
  {
    if |buf| < 2 then NeedMore
    else
      match LengthField(buf)
      case None => NeedMore
      case Some((header, len)) =>
        var maskLen := if buf[1] >= 128 then 4 else 0;
        var total := header + maskLen + len;
        if |buf| < total then NeedMore
        else
          var data := buf[header + maskLen..total];
          Got(Frame(buf[0] >= 128, buf[0] % 16,
                    if buf[1] >= 128 then Masked(data, buf[header..header + 4]) else data), total)
  }

  // ---------------------------------------------------------------- server reaction

  datatype Message = Message(opcode: nat, data: bytes)

  /** The parts of `Client` the frame loop updates, and the messages it schedules. */
  datatype State = State(
    assembling: bool,
    assembleOpcode: nat,
    assembleData: bytes,
    closed: bool,
    out: bytes,
    messages: seq<Message>)

  function React(c: State, f: Frame): State {
    if f.opcode == CLOSE then c.(closed := true)
    else if f.opcode == PING then c.(out := c.out + BuildFrame(PONG, f.payload))
    else if f.opcode == PONG then c
    else if f.opcode == TEXT || f.opcode == BINARY then
      var c := if c.assembling then c.(assembleData := [], assembling := false) else c;
      if f.fin then c.(messages := c.messages + [Message(f.opcode, f.payload)])
      else c.(assembling := true, assembleOpcode := f.opcode, assembleData := f.payload)
    else if f.opcode == CONTINUATION then
      if !c.assembling then c.(closed := true)
      else
        var data := c.assembleData + f.payload;
        if f.fin then
          c.(assembling := false, assembleData := [], messages := c.messages + [Message(c.assembleOpcode, data)])
        else c.(assembleData := data)
    else c
  }

  function ReactAll(c: State, fs: seq<Frame>): State
    decreases |fs|
  {
    if fs == [] then c else ReactAll(React(c, fs[0]), fs[1..])
  }

  datatype Result = Result(state: State, rest: bytes)

  /** The frame loop on a buffer. */
  function Run(buf: bytes, c: State): Result
    decreases |buf|
  {
    match ParseFrame(buf)
    case NeedMore => Result(c, buf)
    case Got(f, total) => Run(buf[total..], React(c, f))
  }
}
