/** Byte strings and the few helpers every protocol of the server shares. */
module Bytes {

  type byte = x: int | 0 <= x < 256

  type bytes = seq<byte>

  const LF: byte := 10
  const SPACE: byte := 32
  const QUOTE: byte := 34
  const PLUS: byte := 43
  const MINUS: byte := 45
  const COLON: byte := 58

  datatype Option<+T> = None | Some(value: T)

  /** Big-endian 16-bit field, as `htons` lays it out. */
  function U16(n: nat): bytes
    requires n < 0x1_0000
  {
    [n / 256, n % 256]
  }

  function FromU16(hi: byte, lo: byte): nat {
    hi * 256 + lo
  }

  /** The bytes of a text in ASCII. */
  function Text(s: string): bytes {
    seq(|s|, i requires 0 <= i < |s| => s[i] as int % 256)
  }

  function Pow2(n: nat): (p: nat)
    ensures p > 0
  {
    if n == 0 then 1 else 2 * Pow2(n - 1)
  }

  /** The value of a hex digit in either letter case, or -1. */
  function HexVal(c: byte): int {
    if 48 <= c <= 57 then c - 48
    else if 97 <= c <= 102 then 10 + (c - 97)
    else if 65 <= c <= 70 then 10 + (c - 65)
    else -1
  }

  function HexLetter(d: int, upper: bool): byte
    requires 0 <= d < 16
  {
    if d < 10 then 48 + d else if upper then 55 + d else 87 + d
  }

  /** Concatenation of a list of parts. */
  function Concat<T>(chunks: seq<seq<T>>): seq<T> {
    if chunks == [] then [] else chunks[0] + Concat(chunks[1..])
  }

  lemma ConsAppends<T>(s: seq<T>, t: seq<T>)
    requires s != []
    ensures [s[0]] + (s[1..] + t) == s + t
    ensures (s + t)[1..] == s[1..] + t
  {
  }

  lemma TailOfCons<T>(x: T, s: seq<T>)
    ensures ([x] + s)[1..] == s
  {
  }

  lemma AppendNothing<T>(s: seq<T>)
    ensures s + [] == s == [] + s
  {
  }

  lemma Assoc<T>(a: seq<T>, b: seq<T>, c: seq<T>)
    ensures (a + b) + c == a + (b + c)
  {
  }

  lemma SliceOfPrefix<T>(a: seq<T>, b: seq<T>, i: nat, j: nat)
    requires i <= j <= |a|
    ensures (a + b)[i..j] == a[i..j]
  {
  }

  lemma DropThenSlice<T>(s: seq<T>, i: nat, j: nat, k: nat)
    requires i + j + k <= |s|
    ensures s[i..][j..j + k] == s[i + j..i + j + k]
  {
  }

  /** Dropping a prefix in two steps. */
  lemma DropTwice<T>(s: seq<T>, i: nat, j: nat)
    requires i + j <= |s|
    ensures s[i..][j..] == s[i + j..]
    ensures s[i..][..j] == s[i..i + j]
  {
  }

  lemma {:induction false} ConcatSnoc<T>(parts: seq<seq<T>>, last: seq<T>)
    ensures Concat(parts + [last]) == Concat(parts) + last
  {
    if parts == [] {
      assert parts + [last] == [last] && [last][1..] == parts;
      AppendNothing(last);
    } else {
      ConsAppends(parts, [last]);
      ConcatSnoc(parts[1..], last);
      Assoc(parts[0], Concat(parts[1..]), last);
    }
  }

  lemma {:induction false} ConcatSplits<T>(chunks: seq<seq<T>>, n: nat)
    requires n <= |chunks|
    ensures Concat(chunks) == Concat(chunks[..n]) + Concat(chunks[n..])
    decreases n
  {
    if n > 0 {
      ConcatSplits(chunks[1..], n - 1);
      assert chunks[1..][..n - 1] == chunks[..n][1..] && chunks[1..][n - 1..] == chunks[n..];
      Assoc(chunks[0], Concat(chunks[..n][1..]), Concat(chunks[n..]));
    } else {
      assert chunks[..0] == [] && chunks[0..] == chunks;
    }
  }
}
