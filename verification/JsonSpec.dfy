/**
 JSON values, the printer `to_json` and the parser `parse_json` as functions.
 The parser functions work on the unread suffix of the text; a failure carries the suffix
 at which the cursor stood.
 */
module JsonSpec {
  import opened Bytes

  const COMMA: byte := 44
  const DOT: byte := 46
  const SLASH: byte := 47
  const ZERO: byte := 48
  const LBRACKET: byte := 91
  const BACKSLASH: byte := 92
  const RBRACKET: byte := 93
  const LOWER_E: byte := 101
  const LBRACE: byte := 123
  const RBRACE: byte := 125

  const TRUE_TEXT: bytes := [116, 114, 117, 101]
  const FALSE_TEXT: bytes := [102, 97, 108, 115, 101]
  const NULL_TEXT: bytes := [110, 117, 108, 108]

  // ------------------------------------------------------------------------ values

  /** A value; an object is a finite map. */
  datatype Json =
    | Null
    | Bool(b: bool)
    | Number(num: real)
    | String(s: bytes)
    | Array(items: seq<Json>)
    | Object(fields: map<bytes, Json>)

  /**
   A value as it sits in memory: an object's members come in the order in which its hash
   table happens to iterate. Numbers are doubles holding integers.
   */
  datatype Stored =
    | SNull
    | SBool(b: bool)
    | SNumber(num: int)
    | SString(s: bytes)
    | SArray(items: seq<Stored>)
    | SObject(members: seq<Member>)

  datatype Member = Member(key: bytes, value: Stored)

  /** The value a stored value stands for, whatever its iteration order. */
  function Meaning(v: Stored): Json {
    match v
    case SNull => Null
    case SBool(b) => Bool(b)
    case SNumber(n) => Number(n as real)
    case SString(s) => String(s)
    case SArray(items) => Array(Meanings(items))
    case SObject(members) => Object(Fields(members))
  }

  function Meanings(items: seq<Stored>): seq<Json> {
    if items == [] then [] else [Meaning(items[0])] + Meanings(items[1..])
  }

  function Fields(members: seq<Member>): map<bytes, Json> {
    if members == [] then map[] else Fields(members[1..])[members[0].key := Meaning(members[0].value)]
  }

  // ----------------------------------------------------------------------- printer

  function Digit(d: int): byte
    requires 0 <= d < 16
  {
    HexLetter(d, false)
  }

  function Digits(n: nat): bytes {
    if n < 10 then [Digit(n)] else Digits(n / 10) + [Digit(n % 10)]
  }

  function Pow10(e: nat): (p: nat)
    ensures p > 0
  {
    if e == 0 then 1 else 10 * Pow10(e - 1)
  }

  /** Nearest integer to a / b, ties to even. */
  function RoundedQuotient(a: nat, b: nat): nat
    requires b > 0
  {
    var q, r := a / b, a % b;
    if 2 * r > b || (2 * r == b && q % 2 == 1) then q + 1 else q
  }

  function StripZeros(n: nat): nat {
    if n > 0 && n % 10 == 0 then StripZeros(n / 10) else n
  }

  /** Default stream formatting at six significant digits, from a million on: d.ddddde+xx. */
  function Scientific(n: nat): bytes
    requires n >= 1_000_000
  {
    var e := |Digits(n)| - 1;
    var m := RoundedQuotient(n, Pow10(if e > 5 then e - 5 else 0));
    var (m, e) := if m >= 1_000_000 then (m / 10, e + 1) else (m, e);
    var shown := Digits(StripZeros(m));
    [shown[0]] + (if |shown| > 1 then [DOT] + shown[1..] else [])
    + [LOWER_E, PLUS] + (if e < 10 then [ZERO] else []) + Digits(e)
  }

  function NumberText(n: int): bytes {
    var a := if n < 0 then -n else n;
    (if n < 0 then [MINUS] else []) + (if a < 1_000_000 then Digits(a) else Scientific(a))
  }

  function EscapeByte(c: byte): bytes {
    if c == QUOTE then [BACKSLASH, QUOTE]
    else if c == BACKSLASH then [BACKSLASH, BACKSLASH]
    else if c == 8 then [BACKSLASH, 98]
    else if c == 12 then [BACKSLASH, 102]
    else if c == 10 then [BACKSLASH, 110]
    else if c == 13 then [BACKSLASH, 114]
    else if c == 9 then [BACKSLASH, 116]
    else if c < 0x20 then [BACKSLASH, 117, ZERO, ZERO, Digit(c / 16), Digit(c % 16)]
    else [c]
  }

  function EscapeAll(s: bytes): bytes {
    if s == [] then [] else EscapeByte(s[0]) + EscapeAll(s[1..])
  }

  function Quoted(s: bytes): bytes {
    [QUOTE] + EscapeAll(s) + [QUOTE]
  }

  function Spaces(n: nat): bytes {
    if n == 0 then [] else [SPACE] + Spaces(n - 1)
  }

  datatype Style = Style(pretty: bool, indent: nat)

  function Indent(st: Style, depth: nat): bytes {
    if st.pretty then Spaces(depth * st.indent) else []
  }

  function LineEnd(st: Style): bytes {
    if st.pretty then [LF] else []
  }

  function Print(v: Stored, st: Style, depth: nat): bytes
    decreases v
  {
    match v
    case SNull => NULL_TEXT
    case SBool(b) => if b then TRUE_TEXT else FALSE_TEXT
    case SNumber(n) => NumberText(n)
    case SString(s) => Quoted(s)
    case SArray(items) =>
      [LBRACKET] + (if items == [] then [] else LineEnd(st) + PrintItems(items, st, depth) + Indent(st, depth)) + [RBRACKET]
    case SObject(members) =>
      [LBRACE] + (if members == [] then [] else LineEnd(st) + PrintMembers(members, st, depth) + Indent(st, depth)) + [RBRACE]
  }

  /** What ends a line of an array or object: a comma unless it is the last, and a newline when pretty. */
  function Separator(last: bool, st: Style): bytes {
    (if last then [] else [COMMA]) + LineEnd(st)
  }

  function PrintItems(items: seq<Stored>, st: Style, depth: nat): bytes
    decreases items
  {
    if items == [] then []
    else Indent(st, depth + 1) + (Print(items[0], st, depth + 1)
         + (Separator(|items| == 1, st) + PrintItems(items[1..], st, depth)))
  }

  function PrintMembers(members: seq<Member>, st: Style, depth: nat): bytes
    decreases members
  {
    if members == [] then []
    else Indent(st, depth + 1) + (Quoted(members[0].key) + ([COLON] + ((if st.pretty then [SPACE] else [])
         + (Print(members[0].value, st, depth + 1)
         + (Separator(|members| == 1, st) + PrintMembers(members[1..], st, depth))))))
  }

  // ------------------------------------------------------------------------ parser

  datatype Parsed<+T> = Ok(value: T, rest: bytes) | Bad(rest: bytes)

  predicate IsSpace(c: byte) {
    c == 32 || 9 <= c <= 13
  }

  function SkipWs(s: bytes): (t: bytes)
    ensures |t| <= |s|
    ensures t != [] ==> !IsSpace(t[0])
  {
    if s != [] && IsSpace(s[0]) then SkipWs(s[1..]) else s
  }

  function Match(s: bytes, ch: byte): (r: Parsed<()>)
    ensures |r.rest| <= |s| && (r.Ok? ==> |r.rest| < |s|)
  {
    var t := SkipWs(s);
    if t != [] && t[0] == ch then Ok((), t[1..]) else Bad(t)
  }

  /** The four digits of a \u escape; on a bad digit the cursor stands behind it. */
  function HexDigits(s: bytes, count: nat, v: nat): (r: Parsed<nat>)
    requires count <= |s|
    ensures |r.rest| <= |s|
    decreases count
  {
    if count == 0 then Ok(v, s)
    else if HexVal(s[0]) < 0 then Bad(s[1..])
    else HexDigits(s[1..], count - 1, v * 16 + HexVal(s[0]))
  }

  function Utf8(v: nat): bytes {
    if v <= 0x7F then [v]
    else if v <= 0x7FF then [0xC0 + v / 64, 0x80 + v % 64]
    else if v <= 0xFFFF then [0xE0 + v / 4096, 0x80 + v / 64 % 64, 0x80 + v % 64]
    else []
  }

  /** The byte a one-letter escape stands for. */
  function Unescaped(e: byte): Option<byte> {
    if e == QUOTE || e == BACKSLASH || e == SLASH then Some(e)
    else if e == 98 then Some(8)
    else if e == 102 then Some(12)
    else if e == 110 then Some(10)
    else if e == 114 then Some(13)
    else if e == 116 then Some(9)
    else None
  }

  /** What a backslash introduces, on the bytes behind it. */
  function ParseEscape(s: bytes): (r: Parsed<bytes>)
    ensures |r.rest| <= |s|
  {
    if s == [] then Bad(s)
    else if Unescaped(s[0]).Some? then Ok([Unescaped(s[0]).value], s[1..])
    else if s[0] != 117 || |s| < 5 then Bad(s[1..])
    else
      match HexDigits(s[1..], 4, 0)
      case Ok(v, rest) => Ok(Utf8(v), rest)
      case Bad(rest) => Bad(rest)
  }

  function ParseChars(s: bytes, out: bytes): (r: Parsed<bytes>)
    ensures |r.rest| <= |s| && (r.Ok? ==> |r.rest| < |s|)
    decreases |s|
  {
    if s == [] then Bad(s)
    else if s[0] == QUOTE then Ok(out, s[1..])
    else if s[0] == BACKSLASH then
      match ParseEscape(s[1..])
      case Ok(chars, rest) => ParseChars(rest, out + chars)
      case Bad(rest) => Bad(rest)
    else ParseChars(s[1..], out + [s[0]])
  }

  function ParseString(s: bytes): (r: Parsed<bytes>)
    ensures |r.rest| <= |s| && (r.Ok? ==> |r.rest| < |s|)
  {
    var t := SkipWs(s);
    if t == [] || t[0] != QUOTE then Bad(t) else ParseChars(t[1..], [])
  }

  predicate IsDigit(c: byte) {
    48 <= c <= 57
  }

  /** Number of bytes the digit loop of `parse_number` consumes. */
  function Span(s: bytes, dot: bool): (n: nat)
    ensures n <= |s|
  {
    if s == [] then 0
    else if IsDigit(s[0]) then 1 + Span(s[1..], dot)
    else if s[0] == DOT && !dot then 1 + Span(s[1..], true)
    else 0
  }

  function DigitCount(s: bytes): nat {
    if s == [] then 0 else (if IsDigit(s[0]) then 1 else 0) + DigitCount(s[1..])
  }

  /** The digits of a numeral read as one integer, a decimal point being skipped. */
  function Numeral(s: bytes): nat
    requires forall i :: 0 <= i < |s| ==> IsDigit(s[i]) || s[i] == DOT
  {
    if s == [] then 0
    else if s[|s| - 1] == DOT then Numeral(s[..|s| - 1])
    else assert IsDigit(s[|s| - 1]); 10 * Numeral(s[..|s| - 1]) + (s[|s| - 1] - ZERO)
  }

  /** Digits behind the decimal point. */
  function Decimals(s: bytes): nat {
    if s == [] then 0 else if s[0] == DOT then DigitCount(s[1..]) else Decimals(s[1..])
  }

  predicate HasSign(s: bytes) {
    s != [] && (s[0] == MINUS || s[0] == PLUS)
  }

  lemma {:induction false} SpanIsNumeral(s: bytes, dot: bool)
    ensures forall i :: 0 <= i < Span(s, dot) ==> IsDigit(s[i]) || s[i] == DOT
  {
    if s != [] {
      SpanIsNumeral(s[1..], dot);
      SpanIsNumeral(s[1..], true);
    }
  }

  /** The value of a numeral such as 12.5; rounding to a double is not modelled. */
  function NumeralValue(body: bytes): real
    requires forall i :: 0 <= i < |body| ==> IsDigit(body[i]) || body[i] == DOT
  {
    Numeral(body) as real / Pow10(Decimals(body)) as real
  }

  /** `parse_number`; a numeral without a digit makes `std::stod` throw. */
  function ParseNumber(s: bytes): (r: Parsed<real>)
    ensures |r.rest| <= |s| && (r.Ok? ==> |r.rest| < |s|)
  {
    var t := SkipWs(s);
    var u := if HasSign(t) then t[1..] else t;
    var n := Span(u, false);
    SpanIsNumeral(u, false);
    if DigitCount(u[..n]) == 0 then Bad(u[n..])
    else Ok((if HasSign(t) && t[0] == MINUS then -NumeralValue(u[..n]) else NumeralValue(u[..n])), u[n..])
  }

  function ParseValue(s: bytes): (r: Parsed<Json>)
    ensures |r.rest| <= |s| && (r.Ok? ==> |r.rest| < |s|)
    decreases |s|, 3
  {
    var t := SkipWs(s);
    if t == [] then Bad(t)
    else if t[0] == QUOTE then
      match ParseString(t)
      case Ok(str, rest) => Ok(String(str), rest)
      case Bad(rest) => Bad(rest)
    else if t[0] == LBRACE then ParseObject(t)
    else if t[0] == LBRACKET then ParseArray(t)
    else if TRUE_TEXT <= t then Ok(Bool(true), t[4..])
    else if FALSE_TEXT <= t then Ok(Bool(false), t[5..])
    else if NULL_TEXT <= t then Ok(Null, t[4..])
    else
      match ParseNumber(t)
      case Ok(num, rest) => Ok(Number(num), rest)
      case Bad(rest) => Bad(rest)
  }

  function ParseArray(s: bytes): (r: Parsed<Json>)
    ensures |r.rest| <= |s| && (r.Ok? ==> |r.rest| < |s|)
    decreases |s|, 2
  {
    var open := Match(s, LBRACKET);
    if open.Bad? then Bad(open.rest)
    else
      var empty := Match(SkipWs(open.rest), RBRACKET);
      if empty.Ok? then Ok(Array([]), empty.rest) else ParseItems(empty.rest, [])
  }

  function ParseItems(s: bytes, items: seq<Json>): (r: Parsed<Json>)
    ensures |r.rest| <= |s| && (r.Ok? ==> |r.rest| < |s|)
    decreases |s|, 4
  {
    match ParseValue(s)
    case Bad(rest) => Bad(rest)
    case Ok(elem, rest) =>
      var close := Match(SkipWs(rest), RBRACKET);
      if close.Ok? then Ok(Array(items + [elem]), close.rest)
      else
        var comma := Match(close.rest, COMMA);
        if comma.Bad? then Bad(comma.rest) else ParseItems(comma.rest, items + [elem])
  }

  function ParseObject(s: bytes): (r: Parsed<Json>)
    ensures |r.rest| <= |s| && (r.Ok? ==> |r.rest| < |s|)
    decreases |s|, 2
  {
    var open := Match(s, LBRACE);
    if open.Bad? then Bad(open.rest)
    else
      var empty := Match(SkipWs(open.rest), RBRACE);
      if empty.Ok? then Ok(Object(map[]), empty.rest) else ParseMembers(empty.rest, map[])
  }

  /** `emplace`: a key that is already present keeps its value. */
  function Emplace(m: map<bytes, Json>, key: bytes, value: Json): map<bytes, Json> {
    if key in m then m else m[key := value]
  }

  function ParseMembers(s: bytes, fields: map<bytes, Json>): (r: Parsed<Json>)
    ensures |r.rest| <= |s| && (r.Ok? ==> |r.rest| < |s|)
    decreases |s|, 4
  {
    match ParseString(s)
    case Bad(rest) => Bad(rest)
    case Ok(key, rest) =>
      var colon := Match(rest, COLON);
      if colon.Bad? then Bad(colon.rest)
      else
        match ParseValue(colon.rest)
        case Bad(rest) => Bad(rest)
        case Ok(value, rest) =>
          var close := Match(SkipWs(rest), RBRACE);
          if close.Ok? then Ok(Object(Emplace(fields, key, value)), close.rest)
          else
            var comma := Match(close.rest, COMMA);
            if comma.Bad? then Bad(comma.rest) else ParseMembers(comma.rest, Emplace(fields, key, value))
  }

  /** `parse_json`: one value and nothing but white space behind it. */
  function ParseJson(text: bytes): (r: Parsed<Json>) {
    match ParseValue(text)
    case Bad(rest) => Bad(rest)
    case Ok(v, rest) => if SkipWs(rest) == [] then Ok(v, []) else Bad(SkipWs(rest))
  }
}
