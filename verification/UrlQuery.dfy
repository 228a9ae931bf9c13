/**
 Percent-encoding and query strings: `url_encode`, `url_decode`, `build_query` and the
 index-based `parse_query_string`.
 */
module UrlQuery {
  import opened Bytes

  const PERCENT: byte := 37
  const AMP: byte := 38
  const EQUALS: byte := 61

  // ------------------------------------------------------------------ percent coding

  predicate Unreserved(c: byte) {
    65 <= c <= 90 || 97 <= c <= 122 || 48 <= c <= 57 || c == 45 || c == 95 || c == 46 || c == 126
  }

  function EncodeByte(c: byte): bytes {
    if Unreserved(c) then [c] else [PERCENT, HexLetter(c / 16, true), HexLetter(c % 16, true)]
  }

  function UrlEncode(s: bytes): bytes {
    if s == [] then [] else EncodeByte(s[0]) + UrlEncode(s[1..])
  }

  /** A percent sign and two hex digits at the front. */
  predicate IsEscape(s: bytes) {
    |s| >= 3 && s[0] == PERCENT && HexVal(s[1]) >= 0 && HexVal(s[2]) >= 0
  }

  function UrlDecode(s: bytes): bytes {
    if s == [] then []
    else if s[0] == PLUS then [SPACE] + UrlDecode(s[1..])
    else if IsEscape(s) then [HexVal(s[1]) * 16 + HexVal(s[2])] + UrlDecode(s[3..])
    else [s[0]] + UrlDecode(s[1..])
  }

  lemma DecodeOne(c: byte, rest: bytes)
    ensures UrlDecode(EncodeByte(c) + rest) == [c] + UrlDecode(rest)
  {
    var s := EncodeByte(c) + rest;
    if Unreserved(c) {
      assert s[1..] == rest;
    } else {
      assert s[3..] == rest;
      assert HexVal(HexLetter(c / 16, true)) == c / 16 && HexVal(HexLetter(c % 16, true)) == c % 16;
    }
  }

  /** Letters, digits and - _ . ~ stand for themselves. */
  predicate Literal(c: byte) {
    || 'A' as int <= c <= 'Z' as int
    || 'a' as int <= c <= 'z' as int
    || '0' as int <= c <= '9' as int
    || c == '-' as int || c == '_' as int || c == '.' as int || c == '~' as int
  }

  function UpperDigit(d: int): byte
    requires 0 <= d < 16
  {
    if d < 10 then '0' as int + d else 'A' as int + d - 10
  }

  /** Every other byte becomes a percent sign and two upper-case hex digits. */
  lemma EncodedBytes(c: byte, s: bytes)
    ensures UrlEncode([]) == []
    ensures UrlEncode([c] + s)
         == (if Literal(c) then [c] else ['%' as int, UpperDigit(c / 16), UpperDigit(c % 16)]) + UrlEncode(s)
  {
    EncodeUnfold(c, s);
    EncodedByte(c);
    hide UrlEncode, EncodeByte;
  }

  lemma EncodedByte(c: byte)
    ensures EncodeByte(c) == if Literal(c) then [c] else ['%' as int, UpperDigit(c / 16), UpperDigit(c % 16)]
  {
  }

  lemma EncodeUnfold(c: byte, s: bytes)
    ensures UrlEncode([c] + s) == EncodeByte(c) + UrlEncode(s) && UrlEncode([]) == []
  {
    TailOfCons(c, s);
  }

  /** Decoding reads + as a blank and leaves other bytes alone, except for the percent sign. */
  lemma DecodedBytes(c: byte, s: bytes)
    requires c != 37
    ensures UrlDecode([c] + s) == [if c == 43 then 32 else c] + UrlDecode(s)
  {
    hide HexVal, UrlDecode;
    DecodeUnfold([c] + s);
    TailOfCons(c, s);
  }

  /** The byte two hex digits stand for. */
  function FromHex(hi: byte, lo: byte): byte
    requires HexVal(hi) >= 0 && HexVal(lo) >= 0
  {
    HexVal(hi) * 16 + HexVal(lo)
  }

  /** Escapes count in either case; a percent sign without two hex digits stands for itself. */
  lemma DecodedEscapes(s: bytes)
    ensures UrlDecode([37] + s) ==
            if |s| >= 2 && HexVal(s[0]) >= 0 && HexVal(s[1]) >= 0 then [FromHex(s[0], s[1])] + UrlDecode(s[2..])
            else [37] + UrlDecode(s)
  {
    var t := [37] + s;
    DecodeUnfold(t);
    hide HexVal, UrlDecode, FromHex;
    TailOfCons(37, s);
    if |s| >= 2 {
      assert t[3..] == s[2..] && t[1] == s[0] && t[2] == s[1];
    }
  }

  lemma DecodeUnfold(s: bytes)
    requires s != []
    ensures UrlDecode(s) ==
            if s[0] == PLUS then [SPACE] + UrlDecode(s[1..])
            else if IsEscape(s) then [FromHex(s[1], s[2])] + UrlDecode(s[3..])
            else [s[0]] + UrlDecode(s[1..])
  {
  }

  /** Decoding inverts encoding on every byte string. */
  lemma {:induction false} DecodeOfEncode(s: bytes)
    ensures UrlDecode(UrlEncode(s)) == s
  {
    if s != [] {
      hide UrlDecode, EncodeByte;
      DecodeOne(s[0], UrlEncode(s[1..]));
      DecodeOfEncode(s[1..]);
    } else {
      assert UrlDecode([]) == [];
    }
  }

  /** The encoder escapes everything that has a meaning in a query string. */
  lemma {:induction false} EncodedIsPlain(s: bytes)
    ensures AMP !in UrlEncode(s) && EQUALS !in UrlEncode(s) && PLUS !in UrlEncode(s)
  {
    if s != [] {
      EncodedIsPlain(s[1..]);
    }
  }

  // -------------------------------------------------------------------- splitting

  /** Index of the first occurrence, or the length. */
  function IndexOf(s: bytes, ch: byte): (i: nat)
    ensures i <= |s|
  {
    if s == [] || s[0] == ch then 0 else 1 + IndexOf(s[1..], ch)
  }

  predicate IsFirst(s: bytes, ch: byte, i: nat) {
    i <= |s| && (i < |s| ==> s[i] == ch) && forall j :: 0 <= j < i ==> s[j] != ch
  }

  lemma {:induction false} IndexOfIsFirst(s: bytes, ch: byte)
    ensures IsFirst(s, ch, IndexOf(s, ch))
  {
    if s != [] && s[0] != ch {
      IndexOfIsFirst(s[1..], ch);
      var i := IndexOf(s[1..], ch);
      assert forall j :: 1 <= j <= i ==> s[j] == s[1..][j - 1];
    }
  }

  lemma FirstIsIndexOf(s: bytes, ch: byte, i: nat)
    requires IsFirst(s, ch, i)
    ensures IndexOf(s, ch) == i
  {
    IndexOfIsFirst(s, ch);
    hide IndexOf;
  }

  function SplitOn(s: bytes, ch: byte): (parts: seq<bytes>)
    ensures parts != []
    decreases |s|
  {
    var i := IndexOf(s, ch);
    if i == |s| then [s] else [s[..i]] + SplitOn(s[i + 1..], ch)
  }

  function Join(parts: seq<bytes>, ch: byte): bytes
    requires parts != []
  {
    if |parts| == 1 then parts[0] else parts[0] + ([ch] + Join(parts[1..], ch))
  }

  /** Splitting cuts at every separator and nowhere else. */
  lemma {:induction false} SplitThenJoin(s: bytes, ch: byte)
    ensures Join(SplitOn(s, ch), ch) == s
    ensures forall i :: 0 <= i < |SplitOn(s, ch)| ==> ch !in SplitOn(s, ch)[i]
    decreases |s|
  {
    var i := IndexOf(s, ch);
    IndexOfIsFirst(s, ch);
    if i < |s| {
      SplitThenJoin(s[i + 1..], ch);
      TailOfCons(s[..i], SplitOn(s[i + 1..], ch));
      assert s == s[..i] + ([ch] + s[i + 1..]);
    }
  }

  lemma IndexAfterPlain(a: bytes, ch: byte, rest: bytes)
    requires ch !in a
    ensures IndexOf(a + ([ch] + rest), ch) == |a| && IndexOf(a, ch) == |a|
  {
    var s := a + ([ch] + rest);
    assert s[|a|] == ch;
    assert forall j :: 0 <= j < |a| ==> s[j] == a[j] && a[j] in a;
    hide IndexOf;
    FirstIsIndexOf(s, ch, |a|);
    FirstIsIndexOf(a, ch, |a|);
  }

  /** Text without the separator behind one more separator is one more part. */
  lemma {:induction false} SplitSnoc(s: bytes, ch: byte, t: bytes)
    requires ch !in t
    ensures SplitOn(s + ([ch] + t), ch) == SplitOn(s, ch) + [t]
    ensures SplitOn(t, ch) == [t]
    decreases |s|
  {
    hide IndexOf;
    var i := IndexOf(s, ch);
    var all := s + ([ch] + t);
    IndexOfIsFirst(s, ch);
    IndexAfterPlain(t, ch, []);
    if i == |s| {
      assert forall x :: x in s ==> x != ch;
      IndexAfterPlain(s, ch, t);
      assert all[..|s|] == s && all[|s| + 1..] == t;
    } else {
      assert all[i] == ch && forall j :: 0 <= j < i ==> all[j] == s[j];
      FirstIsIndexOf(all, ch, i);
      assert all[..i] == s[..i] && all[i + 1..] == s[i + 1..] + ([ch] + t);
      SplitSnoc(s[i + 1..], ch, t);
      Assoc([s[..i]], SplitOn(s[i + 1..], ch), [t]);
    }
  }

  // ------------------------------------------------------------------ query strings

  type Params = map<bytes, bytes>

  function Put(m: Params, key: bytes, value: bytes): Params {
    if key == [] then m else m[key := value]
  }

  /** One segment of a query string: key=value, or a key alone with an empty value. */
  function Assign(m: Params, segment: bytes): Params {
    var eq := IndexOf(segment, EQUALS);
    if eq == |segment| then Put(m, UrlDecode(segment), [])
    else Put(m, UrlDecode(segment[..eq]), UrlDecode(segment[eq + 1..]))
  }

  function AssignAll(m: Params, segments: seq<bytes>): Params
    decreases |segments|
  {
    if segments == [] then m else AssignAll(Assign(m, segments[0]), segments[1..])
  }

  /** What a query string means: split on '&', then on the first '=', later keys winning. */
  function ParseQuery(m: Params, input: bytes): Params {
    AssignAll(m, SplitOn(input, AMP))
  }

  /** `std::string::find` from a position; the length stands for npos. */
  method Find(s: bytes, ch: byte, start: nat) returns (i: nat)
    requires start <= |s|
    ensures i == start + IndexOf(s[start..], ch) && (i < |s| ==> s[i] == ch)
  {
    i := start;
    while i < |s| && s[i] != ch
      invariant start <= i <= |s|
      invariant start + IndexOf(s[start..], ch) == i + IndexOf(s[i..], ch)
    {
      DropTwice(s, i, 1);
      i := i + 1;
    }
  }

  /** `url_encode` */
  method Encode(s: bytes) returns (out: bytes)
    ensures out == UrlEncode(s)
  {
    out := [];
    assert s[0..] == s;
    AppendNothing(UrlEncode(s));
    for i := 0 to |s|
      invariant UrlEncode(s) == out + UrlEncode(s[i..])
    {
      DropTwice(s, i, 1);
      Assoc(out, EncodeByte(s[i]), UrlEncode(s[i + 1..]));
      if Unreserved(s[i]) {
        out := out + [s[i]];
      } else {
        out := out + [PERCENT, HexLetter(s[i] / 16, true), HexLetter(s[i] % 16, true)];
      }
    }
    AppendNothing(out);
  }

  /** `url_decode`, whose index jumps over escapes. */
  method Decode(s: bytes) returns (out: bytes)
    ensures out == UrlDecode(s)
  {
    out := [];
    assert s[0..] == s;
    AppendNothing(UrlDecode(s));
    var i := 0;
    while i < |s|
      invariant 0 <= i <= |s|
      invariant UrlDecode(s) == out + UrlDecode(s[i..])
    {
      DecodeStep(s, i, out);
      var c := s[i];
      if c == PLUS {
        out := out + [SPACE];
        i := i + 1;
        continue;
      }
      if c == PERCENT && i + 2 < |s| {
        var h1, h2 := HexVal(s[i + 1]), HexVal(s[i + 2]);
        if h1 >= 0 && h2 >= 0 {
          out := out + [h1 * 16 + h2];
          i := i + 3;
          continue;
        }
      }
      out := out + [c];
      i := i + 1;
    }
    AppendNothing(out);
  }

  lemma DecodeStep(s: bytes, i: nat, out: bytes)
    requires i < |s|
    ensures out + UrlDecode(s[i..]) ==
            if s[i] == PLUS then (out + [SPACE]) + UrlDecode(s[i + 1..])
            else if s[i] == PERCENT && i + 2 < |s| && HexVal(s[i + 1]) >= 0 && HexVal(s[i + 2]) >= 0
              then (out + [HexVal(s[i + 1]) * 16 + HexVal(s[i + 2])]) + UrlDecode(s[i + 3..])
            else (out + [s[i]]) + UrlDecode(s[i + 1..])
  {
    DropTwice(s, i, 1);
    if i + 2 < |s| {
      DropTwice(s, i, 3);
    }
    hide HexVal;
  }

  /** `parse_query_string` finds both separators by index in the whole input. */
  method ParseQueryString(input: bytes, initial: Params) returns (out: Params)
    ensures out == ParseQuery(initial, input)
  {
    hide UrlDecode, Put, IndexOf, SplitOn, AssignAll;
    out := initial;
    var start := 0;
    assert input[0..] == input;
    while start <= |input|
      invariant 0 <= start <= |input|
      invariant AssignAll(out, SplitOn(input[start..], AMP)) == ParseQuery(initial, input)
      decreases |input| - start
    {
      var amp := Find(input, AMP, start);
      var eq := Find(input, EQUALS, start);
      ghost var before := out;
      if eq == |input| || eq > amp {
        if amp > start {
          var key := Decode(input[start..amp]);
          out := Put(out, key, []);
        }
      } else {
        var key := Decode(input[start..eq]);
        var val := Decode(input[eq + 1..amp]);
        out := Put(out, key, val);
      }
      SegmentAt(input, start, amp, eq, before);
      if amp == |input| {
        break;
      }
      start := amp + 1;
    }
  }

  /** The segment the indices delimit is the one the split gives. */
  lemma SegmentAt(input: bytes, start: nat, amp: nat, eq: nat, m: Params)
    requires start <= |input|
    requires amp == start + IndexOf(input[start..], AMP) && eq == start + IndexOf(input[start..], EQUALS)
    ensures var m1 :=
              if eq >= amp then (if amp > start then Put(m, UrlDecode(input[start..amp]), []) else m)
              else Put(m, UrlDecode(input[start..eq]), UrlDecode(input[eq + 1..amp]));
            AssignAll(m, SplitOn(input[start..], AMP))
            == if amp == |input| then m1 else AssignAll(m1, SplitOn(input[amp + 1..], AMP))
  {
    var rest, seg := input[start..], input[start..amp];
    AssignAt(input, start, amp, eq, m);
    SplitAt(input, start, amp);
    hide Assign, IndexOf, SplitOn, UrlDecode, Put;
    if amp == |input| {
      OneSegment(m, seg);
    } else {
      TailOfCons(seg, SplitOn(input[amp + 1..], AMP));
    }
  }

  lemma SplitAt(input: bytes, start: nat, amp: nat)
    requires start <= |input| && amp == start + IndexOf(input[start..], AMP)
    ensures SplitOn(input[start..], AMP)
         == if amp == |input| then [input[start..amp]] else [input[start..amp]] + SplitOn(input[amp + 1..], AMP)
  {
    hide IndexOf;
    DropTwice(input, start, amp - start);
    if amp < |input| {
      DropTwice(input, start, amp + 1 - start);
    } else {
      assert input[start..|input|] == input[start..];
    }
  }

  lemma AssignAt(input: bytes, start: nat, amp: nat, eq: nat, m: Params)
    requires start <= |input|
    requires amp == start + IndexOf(input[start..], AMP) && eq == start + IndexOf(input[start..], EQUALS)
    ensures Assign(m, input[start..amp]) ==
            if eq >= amp then (if amp > start then Put(m, UrlDecode(input[start..amp]), []) else m)
            else Put(m, UrlDecode(input[start..eq]), UrlDecode(input[eq + 1..amp]))
  {
    hide IndexOf, UrlDecode, Put, Assign;
    var rest, n, e := input[start..], amp - start, eq - start;
    DropTwice(input, start, n);
    AssignPrefix(rest, n, m);
    if e < n {
      DropTwice(input, start, e);
      DropThenSlice(input, start, e + 1, n - e - 1);
    }
  }

  lemma AssignPrefix(rest: bytes, n: nat, m: Params)
    requires n == IndexOf(rest, AMP)
    ensures var e := IndexOf(rest, EQUALS);
            Assign(m, rest[..n]) ==
            if e >= n then (if n > 0 then Put(m, UrlDecode(rest[..n]), []) else m)
            else Put(m, UrlDecode(rest[..e]), UrlDecode(rest[e + 1..n]))
  {
    var e := IndexOf(rest, EQUALS);
    IndexOfIsFirst(rest, AMP);
    IndexOfIsFirst(rest, EQUALS);
    EqualsInSegment(rest, n);
    EmptySegment(m);
    hide IndexOf, UrlDecode, Put;
    if e < n {
      PrefixSlices(rest, e, n);
    } else if n == 0 {
      assert rest[..n] == [];
    }
  }

  lemma PrefixSlices(s: bytes, e: nat, n: nat)
    requires e < n <= |s|
    ensures s[..n][..e] == s[..e] && s[..n][e + 1..] == s[e + 1..n]
  {
  }

  lemma EmptySegment(m: Params)
    ensures Assign(m, []) == m
  {
  }

  lemma OneSegment(m: Params, seg: bytes)
    ensures AssignAll(m, [seg]) == Assign(m, seg)
  {
    hide Assign;
    assert [seg][1..] == [];
    assert AssignAll(Assign(m, seg), []) == Assign(m, seg);
  }

  /** Searching the whole rest for '=' finds the one in the segment, if there is one. */
  lemma EqualsInSegment(rest: bytes, n: nat)
    requires n <= |rest|
    ensures var e := IndexOf(rest, EQUALS);
            IndexOf(rest[..n], EQUALS) == if e < n then e else n
  {
    var e := IndexOf(rest, EQUALS);
    IndexOfIsFirst(rest, EQUALS);
    FirstIsIndexOf(rest[..n], EQUALS, if e < n then e else n);
  }

  // -------------------------------------------------------------------- round trip

  datatype Pair = Pair(key: bytes, value: bytes)

  /** The map that a list of pairs describes, later ones winning. */
  function MapOf(ps: seq<Pair>): Params {
    if ps == [] then map[]
    else var p := ps[|ps| - 1]; MapOf(ps[..|ps| - 1])[p.key := p.value]
  }

  function PairText(p: Pair): bytes {
    UrlEncode(p.key) + ([EQUALS] + UrlEncode(p.value))
  }

  /** `build_query` over the pairs in iteration order. */
  function BuildQuery(ps: seq<Pair>): bytes {
    if ps == [] then []
    else if |ps| == 1 then PairText(ps[0])
    else BuildQuery(ps[..|ps| - 1]) + ([AMP] + PairText(ps[|ps| - 1]))
  }

  method Build(ps: seq<Pair>) returns (out: bytes)
    ensures out == BuildQuery(ps)
  {
    out := [];
    var first := true;
    for i := 0 to |ps|
      invariant first == (i == 0)
      invariant out == BuildQuery(ps[..i])
    {
      hide UrlEncode, BuildQuery;
      ghost var was := out;
      if !first {
        out := out + [AMP];
      } else {
        first := false;
      }
      var key := Encode(ps[i].key);
      out := out + key;
      out := out + [EQUALS];
      var value := Encode(ps[i].value);
      out := out + value;
      PairAppended(was, if i == 0 then [] else [AMP], key, value);
      BuildSnoc(ps, i);
    }
    assert ps[..|ps|] == ps;
  }

  lemma BuildSnoc(ps: seq<Pair>, i: nat)
    requires i < |ps|
    ensures BuildQuery(ps[..i + 1]) == BuildQuery(ps[..i]) + ((if i == 0 then [] else [AMP]) + PairText(ps[i]))
    ensures i == 0 ==> BuildQuery(ps[..i]) == []
  {
    hide PairText;
    var qs := ps[..i + 1];
    assert qs[..i] == ps[..i] && qs[i] == ps[i];
    if i == 0 {
      AppendNothing(PairText(ps[0]));
    }
  }

  lemma PairAppended(was: bytes, amp: bytes, k: bytes, v: bytes)
    ensures (was + amp) + k + [EQUALS] + v == was + (amp + (k + ([EQUALS] + v)))
  {
  }

  lemma AssignPair(m: Params, p: Pair)
    ensures Assign(m, PairText(p)) == Put(m, p.key, p.value)
    ensures AMP !in PairText(p)
  {
    var k, v := UrlEncode(p.key), UrlEncode(p.value);
    EncodedIsPlain(p.key);
    EncodedIsPlain(p.value);
    DecodeOfEncode(p.key);
    DecodeOfEncode(p.value);
    hide UrlEncode, UrlDecode, IndexOf;
    IndexAfterPlain(k, EQUALS, v);
    var s := PairText(p);
    assert s[..|k|] == k && s[|k| + 1..] == v;
  }

  /** Keys and values are joined by = and pairs by &. */
  lemma QueryText(p: Pair, q: Pair)
    ensures BuildQuery([]) == []
    ensures BuildQuery([p]) == UrlEncode(p.key) + (Text("=") + UrlEncode(p.value))
    ensures BuildQuery([p, q]) == BuildQuery([p]) + (Text("&") + BuildQuery([q]))
  {
    hide UrlEncode;
    var two := [p, q];
    assert two[..1] == [p];
    assert Text("=") == [EQUALS] && Text("&") == [AMP];
  }

  lemma {:induction false} AssignAllSnoc(m: Params, segments: seq<bytes>, t: bytes)
    ensures AssignAll(m, segments + [t]) == Assign(AssignAll(m, segments), t)
    decreases |segments|
  {
    if segments == [] {
      AppendNothing([t]);
      OneSegment(m, t);
    } else {
      hide Assign;
      ConsAppends(segments, [t]);
      AssignAllSnoc(Assign(m, segments[0]), segments[1..], t);
    }
  }

  lemma PutDropsEmptyKey(m: Params, p: Pair)
    ensures Put(m - {[]}, p.key, p.value) == m[p.key := p.value] - {[]}
  {
  }

  /**
   Parsing what `build_query` wrote for a map, in any iteration order, gives the map back
   without its empty key.
   */
  lemma {:induction false} QueryRoundTrip(ps: seq<Pair>)
    ensures ParseQuery(map[], BuildQuery(ps)) == MapOf(ps) - {[]}
    decreases |ps|
  {
    var none: Params := map[];
    if ps == [] {
      assert none - {[]} == none;
      assert SplitOn([], AMP) == [[]];
      OneSegment(none, []);
    } else {
      var n := |ps| - 1;
      var p, before := ps[n], ps[..n];
      var m := MapOf(before);
      AssignPair(m - {[]}, p);
      PutDropsEmptyKey(m, p);
      QueryRoundTrip(before);
      hide SplitOn, PairText, Assign, AssignAll, Put;
      SplitSnoc(BuildQuery(before), AMP, PairText(p));
      if n == 0 {
        assert m - {[]} == none;
        OneSegment(none, PairText(p));
      } else {
        AssignAllSnoc(none, SplitOn(BuildQuery(before), AMP), PairText(p));
      }
    }
  }

  /** The list visits every entry of the map exactly once. */
  ghost predicate Enumerates(ps: seq<Pair>, m: Params) {
    && (forall i, j :: 0 <= i < j < |ps| ==> ps[i].key != ps[j].key)
    && (forall i :: 0 <= i < |ps| ==> ps[i].key in m && m[ps[i].key] == ps[i].value)
    && forall k :: k in m ==> exists i :: 0 <= i < |ps| && ps[i].key == k
  }

  lemma {:induction false} EnumerationIsMap(ps: seq<Pair>, m: Params)
    requires Enumerates(ps, m)
    ensures MapOf(ps) == m
    decreases |ps|
  {
    if ps != [] {
      var n := |ps| - 1;
      EnumeratesBefore(ps, m);
      hide Enumerates;
      EnumerationIsMap(ps[..n], m - {ps[n].key});
    }
  }

  lemma EnumeratesBefore(ps: seq<Pair>, m: Params)
    requires ps != [] && Enumerates(ps, m)
    ensures var n := |ps| - 1;
            Enumerates(ps[..n], m - {ps[n].key}) && (m - {ps[n].key})[ps[n].key := ps[n].value] == m
  {
    var n := |ps| - 1;
    var before := ps[..n];
    forall x | x in m - {ps[n].key}
      ensures exists i :: 0 <= i < |before| && before[i].key == x
    {
      var i :| 0 <= i < |ps| && ps[i].key == x;
      assert before[i].key == x;
    }
  }

  /** The same for a map and any order in which its hash table iterates. */
  lemma MapRoundTrip(m: Params, ps: seq<Pair>)
    requires Enumerates(ps, m)
    ensures ParseQuery(map[], BuildQuery(ps)) == m - {[]}
  {
    QueryRoundTrip(ps);
    EnumerationIsMap(ps, m);
  }
}
