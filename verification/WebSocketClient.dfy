/** The frame loop of `ws::serve` on a client object, and `build_ws_frame`. */
module WebSocketClient {
  import opened Bytes
  import opened WebSocketSpec
  import WebSocketStreams

  /** `htons` / `htobe64`: bytes pushed from the least significant end. */
  method PutBigEndian(n: nat, k: nat) returns (s: bytes)
    ensures s == BigEndian(n, k)
  {
    s := [];
    var left := n;
    for i := 0 to k
      invariant BigEndian(n, k) == BigEndian(left, k - i) + s
    {
      Assoc(BigEndian(left / 256, k - i - 1), [left % 256], s);
      s := [left % 256] + s;
      left := left / 256;
    }
    AppendNothing(s);
  }

  method BuildWsFrame(opcode: byte, payload: bytes) returns (out: bytes)
    ensures out == BuildFrame(opcode, payload)
  {
    hide BigEndian;
    out := [128 + opcode % 16];
    var len := |payload|;
    if len < 126 {
      out := out + [len];
    } else if len <= 0xFFFF {
      out := out + [126];
      var p := PutBigEndian(len, 2);
      out := out + p;
    } else {
      out := out + [127];
      var p := PutBigEndian(len, 8);
      out := out + p;
    }
    out := out + payload;
    var form := ServerForm(len);
    assert out == [128 + opcode % 16, Length7(form, len)] + ExtendedLength(form, len) + payload;
    Assoc([128 + opcode % 16, Length7(form, len)], ExtendedLength(form, len), payload);
  }

  /** The byte-wise length loop: payload_len = (payload_len << 8) | byte. */
  method GetBigEndian(s: bytes) returns (n: nat)
    ensures n == FromBigEndian(s)
  {
    n := 0;
    for k := 0 to |s|
      invariant n == FromBigEndian(s[..k])
    {
      assert s[..k + 1][..k] == s[..k];
      n := n * 256 + s[k];
    }
    assert s[..|s|] == s;
  }

  /** The masking loop, in place. */
  method Unmask(payload: array<byte>, mask: bytes)
    requires |mask| == 4
    modifies payload
    ensures payload[..] == Masked(old(payload[..]), mask)
  {
    for k := 0 to payload.Length
      invariant forall j :: 0 <= j < k ==> payload[j] == Xor(old(payload[j]), mask[j % 4])
      invariant forall j :: k <= j < payload.Length ==> payload[j] == old(payload[j])
    {
      payload[k] := Xor(payload[k], mask[k % 4]);
    }
  }

  class Client {
    var inBuf: bytes
    var outBuf: bytes
    var closed: bool
    var assembling: bool
    var assembleOpcode: nat
    var assembleData: bytes
    /** What `schedule_message` was called with, in order. */
    var scheduled: seq<Message>

    constructor ()
      ensures inBuf == [] && Value() == State(false, 0, [], false, [], [])
    {
      inBuf, outBuf, closed, assembling, assembleOpcode, assembleData, scheduled := [], [], false, false, 0, [], [];
    }

    ghost function Value(): State
      reads this
    {
      State(assembling, assembleOpcode, assembleData, closed, outBuf, scheduled)
    }

    /** The opcode dispatch for one complete frame. */
    method Dispatch(fin: bool, opcode: nat, payload: bytes)
      modifies this`outBuf, this`closed, this`assembling, this`assembleOpcode, this`assembleData, this`scheduled
      ensures Value() == React(old(Value()), Frame(fin, opcode, payload))
    {
      if opcode == CLOSE {
        closed := true;
      } else if opcode == PING {
        var pong := BuildWsFrame(PONG, payload);
        outBuf := outBuf + pong;
      } else if opcode == PONG {
      } else if opcode == TEXT || opcode == BINARY {
        if assembling {
          assembleData := [];
          assembling := false;
        }
        if fin {
          scheduled := scheduled + [Message(opcode, payload)];
        } else {
          assembling := true;
          assembleOpcode := opcode;
          assembleData := payload;
        }
      } else if opcode == CONTINUATION {
        if !assembling {
          closed := true;
        } else {
          assembleData := assembleData + payload;
          if fin {
            var complete := assembleData;
            assembleData := [];
            assembling := false;
            scheduled := scheduled + [Message(assembleOpcode, complete)];
          }
        }
      }
    }

    /** The top of the loop: the frame at the front of the buffer, if it is complete. */
    method NextFrame() returns (f: Option<Frame>, total: nat)
      ensures match ParseFrame(inBuf) {
                case NeedMore => f.None?
                case Got(frame, n) => f == Some(frame) && total == n
              }
    {
      hide FromBigEndian, Masked;
      if |inBuf| < 2 {
        return None, 0;
      }
      var b0, b1 := inBuf[0], inBuf[1];
      var masked := b1 >= 128;
      var payloadLen, headerLen: nat := b1 % 128, 2;
      if payloadLen == 126 {
        if |inBuf| < 4 {
          return None, 0;
        }
        payloadLen := GetBigEndian(inBuf[2..4]);
        headerLen := 4;
      } else if payloadLen == 127 {
        if |inBuf| < 10 {
          return None, 0;
        }
        payloadLen := GetBigEndian(inBuf[2..10]);
        headerLen := 10;
      }
      var maskLen := if masked then 4 else 0;
      total := headerLen + maskLen + payloadLen;
      if |inBuf| < total {
        return None, 0;
      }
      var data := inBuf[headerLen + maskLen..total];
      if masked {
        var payload := new byte[|data|](k requires 0 <= k < |data| => data[k]);
        assert payload[..] == data;
        Unmask(payload, inBuf[headerLen..headerLen + 4]);
        data := payload[..];
      }
      f := Some(Frame(b0 >= 128, b0 % 16, data));
    }

    /** The frame loop. */
    method ProcessFrames()
      modifies this
      ensures Result(Value(), inBuf) == Run(old(inBuf), old(Value()))
    {
      hide ParseFrame, React;
      while true
        invariant Run(inBuf, Value()) == Run(old(inBuf), old(Value()))
        decreases |inBuf|
      {
        var f, total := NextFrame();
        if f.None? {
          break;
        }
        Dispatch(f.value.fin, f.value.opcode, f.value.payload);
        inBuf := inBuf[total..];
      }
    }

    /** The reads of a connection after its handshake: `serve` erases a client that a read leaves closed. */
    method ReadAll(chunks: seq<bytes>)
      modifies this
      ensures Result(Value(), inBuf) == WebSocketStreams.Feed(Result(old(Value()), old(inBuf)), chunks)
    {
      hide Run;
      var i := 0;
      assert chunks[0..] == chunks;
      while i < |chunks| && !closed
        invariant 0 <= i <= |chunks|
        invariant WebSocketStreams.Feed(Result(Value(), inBuf), chunks[i..])
               == WebSocketStreams.Feed(Result(old(Value()), old(inBuf)), chunks)
      {
        DropTwice(chunks, i, 1);
        inBuf := inBuf + chunks[i];
        ProcessFrames();
        i := i + 1;
      }
    }
  }
}
