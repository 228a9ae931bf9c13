/**
 The frame loop on literal bytes. Opcodes and length codes are written out as section 5.2 of
 RFC 6455 gives them: 0 continues a message, 1 and 2 start a text and a binary one, 8 closes,
 9 is a ping and 10 a pong; a length of 126 or 127 announces two or eight more bytes.
 */
module WebSocketBytes {
  import opened Bytes
  import opened WebSocketSpec
  import opened WebSocketStreams

  // -------------------------------------------------------------------- masks, bit by bit

  predicate BitOf(x: nat, j: nat)
    decreases j
  {
    if j == 0 then x % 2 == 1 else BitOf(x / 2, j - 1)
  }

  lemma {:induction false} XorBit(a: nat, b: nat, n: nat, j: nat)
    requires j < n
    ensures BitOf(XorBits(a, b, n), j) <==> BitOf(a, j) != BitOf(b, j)
    decreases n
  {
    var x := XorBits(a, b, n);
    XorUnfold(a, b, n);
    LowBit(XorBits(a / 2, b / 2, n - 1), a, b);
    hide XorBits;
    if j > 0 {
      XorBit(a / 2, b / 2, n - 1, j - 1);
    }
  }

  /** Bit j of byte i of a masked payload is flipped exactly if bit j of mask byte i mod 4 is set. */
  lemma MaskBits(p: bytes, mask: bytes, i: nat, j: nat)
    requires |mask| == 4 && i < |p| && j < 8
    ensures |Masked(p, mask)| == |p|
    ensures BitOf(Masked(p, mask)[i], j) <==> BitOf(p[i], j) != BitOf(mask[i % 4], j)
  {
    XorBit(p[i], mask[i % 4], 8, j);
  }

  // ------------------------------------------------------------------------- one frame

  function Two(a: int, b: int): int {
    a * 256 + b
  }

  function Eight(s: bytes): int
    requires |s| == 8
  {
    Two(Two(Two(Two(Two(Two(Two(s[0], s[1]), s[2]), s[3]), s[4]), s[5]), s[6]), s[7])
  }

  /** The second byte and the bytes behind it announce n bytes of payload. */
  predicate Announces(b1: byte, ext: bytes, n: nat) {
    if b1 % 128 == 126 then |ext| == 2 && n == Two(ext[0], ext[1])
    else if b1 % 128 == 127 then |ext| == 8 && n == Eight(ext)
    else ext == [] && n == b1 % 128
  }

  predicate MaskFits(b1: byte, mask: bytes) {
    |mask| == if b1 >= 128 then 4 else 0
  }

  /** The payload as the client meant it. */
  function Payload(b1: byte, mask: bytes, data: bytes): bytes
    requires MaskFits(b1, mask)
  {
    if b1 >= 128 then Masked(data, mask) else data
  }

  function OnWire(b0: byte, b1: byte, ext: bytes, mask: bytes, data: bytes): bytes {
    [b0, b1] + (ext + (mask + data))
  }

  lemma BigEndianTwo(s: bytes)
    requires |s| == 2
    ensures FromBigEndian(s) == Two(s[0], s[1])
  {
    assert s[..1][..0] == [];
    assert FromBigEndian(s[..1]) == s[0];
  }

  lemma BigEndianEight(s: bytes)
    requires |s| == 8
    ensures FromBigEndian(s) == Eight(s)
  {
    BigEndianTwo(s[..2]);
    BigEndianMore(s, 3);
    BigEndianMore(s, 4);
    BigEndianMore(s, 5);
    BigEndianMore(s, 6);
    BigEndianMore(s, 7);
    BigEndianMore(s, 8);
    hide FromBigEndian;
    assert s[..8] == s;
  }

  lemma BigEndianMore(s: bytes, k: nat)
    requires 0 < k <= |s|
    ensures FromBigEndian(s[..k]) == Two(FromBigEndian(s[..k - 1]), s[k - 1])
  {
    assert s[..k][..k - 1] == s[..k - 1];
  }

  lemma AnnouncedLength(b0: byte, b1: byte, ext: bytes, tail: bytes, n: nat)
    requires Announces(b1, ext, n)
    ensures LengthField([b0, b1] + (ext + tail)) == Some((2 + |ext|, n))
  {
    if |ext| == 2 {
      BigEndianTwo(ext);
    } else if |ext| == 8 {
      BigEndianEight(ext);
    }
    hide FromBigEndian, LengthField, Two;
    LengthFieldOf(b0, b1, ext, tail, n);
  }

  /** A frame alone in the buffer: its first byte has FIN in its highest bit and the opcode in its low four. */
  lemma OneFrame(b0: byte, b1: byte, ext: bytes, mask: bytes, data: bytes, c: State)
    requires Announces(b1, ext, |data|) && MaskFits(b1, mask)
    ensures Run(OnWire(b0, b1, ext, mask, data), c)
         == Result(React(c, Frame(b0 >= 128, b0 % 16, Payload(b1, mask, data))), [])
  {
    var buf := OnWire(b0, b1, ext, mask, data);
    FrameParses(b0, b1, ext, mask, data);
    hide ParseFrame, React, OnWire, Announces, Payload;
    assert buf[|buf|..] == [];
    RunOfNothing(React(c, Frame(b0 >= 128, b0 % 16, Payload(b1, mask, data))));
  }

  lemma FrameParses(b0: byte, b1: byte, ext: bytes, mask: bytes, data: bytes)
    requires Announces(b1, ext, |data|) && MaskFits(b1, mask)
    ensures var buf := OnWire(b0, b1, ext, mask, data);
            ParseFrame(buf) == Got(Frame(b0 >= 128, b0 % 16, Payload(b1, mask, data)), |buf|)
  {
    hide Announces, LengthField, ParseFrame, Masked;
    var buf := OnWire(b0, b1, ext, mask, data);
    FrameSlices(b0, b1, ext, mask, data);
    AnnouncedLength(b0, b1, ext, mask + data, |data|);
    ParseParts(buf, 2 + |ext|, |data|, mask, data);
  }

  lemma FrameSlices(b0: byte, b1: byte, ext: bytes, mask: bytes, data: bytes)
    ensures var buf := OnWire(b0, b1, ext, mask, data);
            var h := 2 + |ext|;
            && |buf| == h + |mask| + |data| && buf[0] == b0 && buf[1] == b1
            && buf[h..h + |mask|] == mask && buf[h + |mask|..h + |mask| + |data|] == data
  {
    var none: bytes := [];
    FrameText(b0, b1, ext, mask, data, none);
    AppendNothing(OnWire(b0, b1, ext, mask, data));
  }

  // ---------------------------------------------------------------------- what it does

  /** Whole messages: opcode 1 or 2 with FIN, 0x81 and 0x82 when the reserved bits are clear. */
  lemma MessageBytes(b0: byte, b1: byte, ext: bytes, mask: bytes, data: bytes, c: State)
    requires Announces(b1, ext, |data|) && MaskFits(b1, mask) && b0 >= 128 && (b0 % 16 == 1 || b0 % 16 == 2)
    ensures Run(OnWire(b0, b1, ext, mask, data), c)
         == Result(c.(assembling := false, assembleData := if c.assembling then [] else c.assembleData,
                      messages := c.messages + [Message(b0 % 16, Payload(b1, mask, data))]), [])
  {
    OneFrame(b0, b1, ext, mask, data, c);
  }

  /** First fragments: opcode 1 or 2 without FIN. */
  lemma FirstFragmentBytes(b0: byte, b1: byte, ext: bytes, mask: bytes, data: bytes, c: State)
    requires Announces(b1, ext, |data|) && MaskFits(b1, mask) && (b0 % 16 == 1 || b0 % 16 == 2) && b0 < 128
    ensures Run(OnWire(b0, b1, ext, mask, data), c)
         == Result(c.(assembling := true, assembleOpcode := b0 % 16, assembleData := Payload(b1, mask, data)), [])
  {
    OneFrame(b0, b1, ext, mask, data, c);
  }

  /** Continuations: opcode 0, the last one with FIN; without a message to continue they close. */
  lemma ContinuationBytes(b0: byte, b1: byte, ext: bytes, mask: bytes, data: bytes, c: State)
    requires Announces(b1, ext, |data|) && MaskFits(b1, mask) && b0 % 16 == 0
    ensures var all := c.assembleData + Payload(b1, mask, data);
            Run(OnWire(b0, b1, ext, mask, data), c)
            == Result(if !c.assembling then c.(closed := true)
                      else if b0 < 128 then c.(assembleData := all)
                      else c.(assembling := false, assembleData := [],
                              messages := c.messages + [Message(c.assembleOpcode, all)]), [])
  {
    OneFrame(b0, b1, ext, mask, data, c);
  }

  /** Close frames: opcode 8. */
  lemma CloseBytes(b0: byte, b1: byte, ext: bytes, mask: bytes, data: bytes, c: State)
    requires Announces(b1, ext, |data|) && MaskFits(b1, mask) && b0 % 16 == 8
    ensures Run(OnWire(b0, b1, ext, mask, data), c) == Result(c.(closed := true), [])
  {
    OneFrame(b0, b1, ext, mask, data, c);
  }

  /** Pongs, opcode 10, and the reserved opcodes change nothing. */
  lemma IgnoredBytes(b0: byte, b1: byte, ext: bytes, mask: bytes, data: bytes, c: State)
    requires Announces(b1, ext, |data|) && MaskFits(b1, mask) && b0 % 16 !in {0, 1, 2, 8, 9}
    ensures Run(OnWire(b0, b1, ext, mask, data), c) == Result(c, [])
  {
    OneFrame(b0, b1, ext, mask, data, c);
  }

  /** A frame from the server: first byte 0x80 and the opcode, no mask, the shortest length form. */
  lemma ServerFrameBytes(opcode: byte, payload: bytes) returns (ext: bytes)
    requires opcode < 16 && |payload| < 0x8000_0000_0000_0000
    ensures var code := if |payload| < 126 then |payload| else if |payload| <= 0xFFFF then 126 else 127;
            && Announces(code, ext, |payload|)
            && BuildFrame(opcode, payload) == OnWire(128 + opcode, code, ext, [], payload)
  {
    var n := |payload|;
    Powers();
    var none: bytes := [];
    AppendNothing(payload);
    if n < 126 {
      ext := [];
    } else if n <= 0xFFFF {
      ext := BigEndian(n, 2);
      BigEndianRoundTrip(n, 2);
      BigEndianTwo(ext);
    } else {
      ext := BigEndian(n, 8);
      BigEndianRoundTrip(n, 8);
      BigEndianEight(ext);
    }
    hide BigEndian, FromBigEndian, Pow256, Two;
  }

  /** Pings, opcode 9, are answered with a frame of opcode 10 that has their payload. */
  lemma PingBytes(b0: byte, b1: byte, ext: bytes, mask: bytes, data: bytes, c: State) returns (ext': bytes)
    requires Announces(b1, ext, |data|) && MaskFits(b1, mask) && b0 % 16 == 9 && |data| < 0x8000_0000_0000_0000
    ensures var p := Payload(b1, mask, data);
            var code := if |p| < 126 then |p| else if |p| <= 0xFFFF then 126 else 127;
            && |p| == |data| && Announces(code, ext', |p|)
            && Run(OnWire(b0, b1, ext, mask, data), c)
               == Result(c.(out := c.out + OnWire(138, code, ext', [], p)), [])
  {
    OneFrame(b0, b1, ext, mask, data, c);
    var p := Payload(b1, mask, data);
    ext' := ServerFrameBytes(10, p);
    hide BuildFrame, Announces, Run;
  }

  /** A binary message in two fragments: 0x02, then 0x80. */
  lemma FragmentedBytes(b0: byte, b1: byte, ext: bytes, mask: bytes, data: bytes,
                        b1': byte, ext': bytes, mask': bytes, data': bytes, c: State)
    requires Announces(b1, ext, |data|) && MaskFits(b1, mask) && Announces(b1', ext', |data'|) && MaskFits(b1', mask')
    requires b0 == 1 || b0 == 2
    ensures var r := Run(OnWire(b0, b1, ext, mask, data) + OnWire(128, b1', ext', mask', data'), c);
            && r.rest == [] && !r.state.assembling
            && r.state.messages == c.messages + [Message(b0, Payload(b1, mask, data) + Payload(b1', mask', data'))]
  {
    hide OnWire, Run, Announces, Payload;
    var first, second := OnWire(b0, b1, ext, mask, data), OnWire(128, b1', ext', mask', data');
    LoopSplits(first, second, c);
    FirstFragmentBytes(b0, b1, ext, mask, data, c);
    AppendNothing(second);
    ContinuationBytes(128, b1', ext', mask', data', Run(first, c).state);
  }
}
