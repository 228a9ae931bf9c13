/**
 `parse_json` inverts `to_json` on every value whose numbers are below a million in
 magnitude, at any nesting, in both styles and for every iteration order; and it rejects
 the text of every other value.
 */
module JsonRoundTrip {
  import opened Bytes
  import opened JsonSpec

  // ------------------------------------------------------------------- white space

  predicate AllSpace(s: bytes) {
    forall i :: 0 <= i < |s| ==> IsSpace(s[i])
  }

  lemma {:induction false} SkipsSpace(ws: bytes, s: bytes)
    requires AllSpace(ws)
    ensures SkipWs(ws + s) == SkipWs(s)
  {
    if ws == [] {
      AppendNothing(s);
    } else {
      ConsAppends(ws, s);
      SkipsSpace(ws[1..], s);
    }
  }

  /** The first byte is there and is not white space. */
  predicate Solid(s: bytes) {
    s != [] && !IsSpace(s[0])
  }

  lemma {:induction false} SpacesAreSpace(n: nat)
    ensures AllSpace(Spaces(n))
  {
    if n > 0 {
      SpacesAreSpace(n - 1);
    }
  }

  lemma LayoutIsSpace(st: Style, depth: nat)
    ensures AllSpace(Indent(st, depth)) && AllSpace(LineEnd(st))
  {
    if st.pretty {
      SpacesAreSpace(depth * st.indent);
    }
  }

  // ----------------------------------------------------------------------- strings

  lemma ControlEscape(c: byte, rest: bytes)
    requires c < 0x20
    ensures HexDigits([ZERO, ZERO, Digit(c / 16), Digit(c % 16)] + rest, 4, 0) == Ok(c, rest)
  {
    var s := [ZERO, ZERO, Digit(c / 16), Digit(c % 16)] + rest;
    assert s[1..] == [ZERO, Digit(c / 16), Digit(c % 16)] + rest;
    assert s[1..][1..] == [Digit(c / 16), Digit(c % 16)] + rest;
    assert s[1..][1..][1..] == [Digit(c % 16)] + rest;
    assert s[1..][1..][1..][1..] == rest;
    assert HexDigits(s, 4, 0) == HexDigits(s[1..], 3, 0);
    assert HexDigits(s[1..], 3, 0) == HexDigits(s[1..][1..], 2, 0);
    assert HexDigits(s[1..][1..], 2, 0) == HexDigits(s[1..][1..][1..], 1, c / 16);
    assert HexDigits(s[1..][1..][1..], 1, c / 16) == HexDigits(rest, 0, c);
  }

  lemma EscapeIsRead(c: byte, rest: bytes)
    requires EscapeByte(c) != [c]
    ensures EscapeByte(c)[0] == BACKSLASH && ParseEscape(EscapeByte(c)[1..] + rest) == Ok([c], rest)
  {
    var s := EscapeByte(c)[1..] + rest;
    if c < 0x20 && !(8 <= c <= 10 || 12 <= c <= 13) {
      hide HexDigits;
      assert s[1..] == [ZERO, ZERO, Digit(c / 16), Digit(c % 16)] + rest;
      ControlEscape(c, rest);
    } else {
      assert s[1..] == rest;
    }
  }

  /** Each byte survives escaping and unescaping. */
  lemma OneByte(c: byte, rest: bytes, out: bytes)
    ensures ParseChars(EscapeByte(c) + rest, out) == ParseChars(rest, out + [c])
  {
    var s := EscapeByte(c) + rest;
    if EscapeByte(c) == [c] {
      assert s[1..] == rest;
    } else {
      EscapeIsRead(c, rest);
      hide EscapeByte, ParseEscape;
      assert s[1..] == EscapeByte(c)[1..] + rest;
    }
  }

  lemma MoveOver(out: bytes, s: bytes)
    requires s != []
    ensures out + s == (out + [s[0]]) + s[1..]
  {
  }

  lemma {:induction false} AllBytes(s: bytes, rest: bytes, out: bytes)
    ensures ParseChars(EscapeAll(s) + ([QUOTE] + rest), out) == Ok(out + s, rest)
    decreases |s|
  {
    if s == [] {
      assert EscapeAll(s) + ([QUOTE] + rest) == [QUOTE] + rest;
      TailOfCons(QUOTE, rest);
      AppendNothing(out);
    } else {
      hide ParseChars, EscapeByte;
      Assoc(EscapeByte(s[0]), EscapeAll(s[1..]), [QUOTE] + rest);
      OneByte(s[0], EscapeAll(s[1..]) + ([QUOTE] + rest), out);
      AllBytes(s[1..], rest, out + [s[0]]);
      hide EscapeAll;
      MoveOver(out, s);
    }
  }

  /** `parse_string` inverts `json_escape` on every byte string. */
  lemma StringRoundTrip(s: bytes, rest: bytes)
    ensures ParseString(Quoted(s) + rest) == Ok(s, rest)
  {
    hide EscapeAll, ParseChars;
    QuotedText(EscapeAll(s), rest);
    OpenQuote(EscapeAll(s) + ([QUOTE] + rest));
    AllBytes(s, rest, []);
    AppendNothing(s);
  }

  lemma QuotedText(inner: bytes, rest: bytes)
    ensures ([QUOTE] + inner + [QUOTE]) + rest == [QUOTE] + (inner + ([QUOTE] + rest))
  {
  }

  lemma OpenQuote(t: bytes)
    ensures ParseString([QUOTE] + t) == ParseChars(t, [])
  {
    hide ParseChars;
    TailOfCons(QUOTE, t);
  }

  // ----------------------------------------------------------------------- numbers

  /** What follows a printed number never continues it. */
  predicate EndsNumber(rest: bytes) {
    rest == [] || (!IsDigit(rest[0]) && rest[0] != DOT)
  }

  predicate AllDigits(s: bytes) {
    forall i :: 0 <= i < |s| ==> IsDigit(s[i])
  }

  lemma {:induction false} DigitsAreDigits(n: nat)
    ensures AllDigits(Digits(n)) && |Digits(n)| > 0
    ensures Numeral(Digits(n)) == n
  {
    if n < 10 {
      assert Digits(n)[..0] == [];
    } else {
      DigitsAreDigits(n / 10);
      assert Digits(n)[..|Digits(n)| - 1] == Digits(n / 10);
    }
  }

  lemma {:induction false} DigitRun(s: bytes, rest: bytes, dot: bool)
    requires AllDigits(s)
    ensures Span(s + rest, dot) == |s| + Span(rest, dot)
    ensures DigitCount(s) == |s| && Decimals(s) == 0
  {
    if s == [] {
      AppendNothing(rest);
    } else {
      ConsAppends(s, rest);
      DigitRun(s[1..], rest, dot);
    }
  }

  lemma NumberRoundTrip(n: int, rest: bytes)
    requires -1_000_000 < n < 1_000_000 && EndsNumber(rest)
    ensures ParseNumber(NumberText(n) + rest) == Ok(n as real, rest)
    ensures Solid(NumberText(n)) && (IsDigit(NumberText(n)[0]) || NumberText(n)[0] == MINUS)
  {
    var a := if n < 0 then -n else n;
    var d := Digits(a);
    DigitsAreDigits(a);
    DigitRun(d, rest, false);
    assert IsDigit(d[0]);
    hide Digits, Numeral, DigitCount, Decimals;
    assert Span(rest, false) == 0;
    hide Span;
    assert NumeralValue(d) == a as real;
    SignedText(n < 0, d, rest);
    hide NumeralValue, IsDigit;
    var t := (if n < 0 then [MINUS] else []) + d + rest;
    assert NumberText(n) + rest == t;
    assert NumberText(n)[0] == if n < 0 then MINUS else d[0];
  }

  lemma SignedText(negative: bool, d: bytes, rest: bytes)
    requires d != [] && IsDigit(d[0])
    ensures var t := (if negative then [MINUS] else []) + d + rest;
            && SkipWs(t) == t && HasSign(t) == negative && (negative ==> t[0] == MINUS)
            && var u := if negative then t[1..] else t;
               u == d + rest && u[..|d|] == d && u[|d|..] == rest
    ensures !IsSpace(d[0]) && !IsSpace(MINUS)
  {
    if negative {
      assert [MINUS] + d + rest == [MINUS] + (d + rest);
      TailOfCons(MINUS, d + rest);
    } else {
      AppendNothing(d);
    }
  }

  // ------------------------------------------------------------- the whole grammar

  /** Every number in the value prints without an exponent. */
  predicate PlainNumbers(v: Stored) {
    match v
    case SNumber(n) => -1_000_000 < n < 1_000_000
    case SArray(items) => PlainItems(items)
    case SObject(members) => PlainMembers(members)
    case _ => true
  }

  predicate PlainItems(items: seq<Stored>) {
    items == [] || (PlainNumbers(items[0]) && PlainItems(items[1..]))
  }

  predicate PlainMembers(members: seq<Member>) {
    members == [] || (PlainNumbers(members[0].value) && PlainMembers(members[1..]))
  }

  /** `parse_value` skips white space before it looks. */
  lemma ValueSkipsSpace(ws: bytes, s: bytes)
    requires AllSpace(ws)
    ensures ParseValue(ws + s) == ParseValue(SkipWs(s))
    ensures ParseString(ws + s) == ParseString(SkipWs(s))
  {
    SkipsSpace(ws, s);
    SkipWsTwice(s);
  }

  lemma SkipWsTwice(s: bytes)
    ensures SkipWs(SkipWs(s)) == SkipWs(s)
  {
  }

  /** Matching a byte behind white space. */
  lemma MatchBehind(ws: bytes, c: byte, rest: bytes, ch: byte)
    requires AllSpace(ws) && !IsSpace(c)
    ensures Match(SkipWs(ws + ([c] + rest)), ch) == Match(ws + ([c] + rest), ch)
         == if c == ch then Ok((), rest) else Bad([c] + rest)
  {
    SkipsSpace(ws, [c] + rest);
    SkipWsTwice(ws + ([c] + rest));
    assert SkipWs([c] + rest) == [c] + rest;
    TailOfCons(c, rest);
  }

  /** The parse failed, or stopped in front of an exponent, which nothing accepts. */
  predicate Stuck<T>(r: Parsed<T>) {
    r.Bad? || (r.rest != [] && r.rest[0] == LOWER_E)
  }

  // Numbers from a million on: `parse_number` reads the mantissa and stops at the `e`.

  lemma MantissaStops(head: bytes, decimals: bytes, tail: bytes)
    requires |head| == 1 && AllDigits(head) && AllDigits(decimals)
    ensures var text := head + ((if decimals == [] then [] else [DOT] + decimals) + ([LOWER_E] + tail));
            var n := Span(text, false);
            n < |text| && text[n] == LOWER_E && DigitCount(text[..n]) > 0
  {
    var point := if decimals == [] then [] else [DOT] + decimals;
    var text := head + (point + ([LOWER_E] + tail));
    DigitRun(head, point + ([LOWER_E] + tail), false);
    assert Span([LOWER_E] + tail, true) == 0;
    if decimals == [] {
      AppendNothing([LOWER_E] + tail);
    } else {
      var more := decimals + ([LOWER_E] + tail);
      assert point + ([LOWER_E] + tail) == [DOT] + more;
      TailOfCons(DOT, more);
      DigitRun(decimals, [LOWER_E] + tail, true);
    }
    var n := Span(text, false);
    assert n == 1 + |point| && text[n] == LOWER_E;
    assert text[..n][0] == head[0] && IsDigit(head[0]);
  }

  lemma ExponentStops(n: int, rest: bytes)
    requires n <= -1_000_000 || 1_000_000 <= n
    ensures Stuck(ParseNumber(NumberText(n) + rest))
    ensures Solid(NumberText(n)) && (IsDigit(NumberText(n)[0]) || NumberText(n)[0] == MINUS)
  {
    hide Scientific, Span, DigitCount, Digits;
    var a := if n < 0 then -n else n;
    var text := Scientific(a) + rest;
    ScientificStops(a, rest);
    var t := NumberText(n) + rest;
    if n < 0 {
      assert t == [MINUS] + text;
      TailOfCons(MINUS, text);
    } else {
      AppendNothing(Scientific(a));
    }
    assert SkipWs(t) == t;
  }

  lemma ScientificStops(a: nat, rest: bytes)
    requires a >= 1_000_000
    ensures var text := Scientific(a) + rest;
            var n := Span(text, false);
            n < |text| && text[n] == LOWER_E && DigitCount(text[..n]) > 0
    ensures Scientific(a) != [] && IsDigit(Scientific(a)[0])
  {
    hide Scientific, Span, DigitCount;
    var shown, tail := ScientificShape(a);
    DigitsAreDigits(shown);
    var head, decimals := Digits(shown)[..1], Digits(shown)[1..];
    hide Digits;
    MantissaStops(head, decimals, tail + rest);
    ScientificTextShape(Scientific(a), head, if decimals == [] then [] else [DOT] + decimals, tail, rest);
  }

  lemma ScientificTextShape(sci: bytes, head: bytes, point: bytes, tail: bytes, rest: bytes)
    requires sci == head + (point + ([LOWER_E] + tail))
    ensures sci + rest == head + (point + ([LOWER_E] + (tail + rest)))
  {
  }

  lemma ScientificShape(a: nat) returns (shown: nat, tail: bytes)
    requires a >= 1_000_000
    ensures |Digits(shown)| > 0
    ensures var point := if |Digits(shown)| > 1 then [DOT] + Digits(shown)[1..] else [];
            Scientific(a) == Digits(shown)[..1] + (point + ([LOWER_E] + tail))
  {
    var e := |Digits(a)| - 1;
    var m := RoundedQuotient(a, Pow10(if e > 5 then e - 5 else 0));
    var (m', e') := if m >= 1_000_000 then (m / 10, e + 1) else (m, e);
    shown := StripZeros(m');
    tail := [PLUS] + (if e' < 10 then [ZERO] else []) + Digits(e');
    DigitsAreDigits(shown);
    assert [Digits(shown)[0]] == Digits(shown)[..1];
    assert [LOWER_E, PLUS] == [LOWER_E] + [PLUS];
    hide Digits, RoundedQuotient, StripZeros, Pow10;
    var point := if |Digits(shown)| > 1 then [DOT] + Digits(shown)[1..] else [];
    assert Scientific(a) == ((Digits(shown)[..1] + point + [LOWER_E, PLUS]) + (if e' < 10 then [ZERO] else [])) + Digits(e');
    Regroup(Digits(shown)[..1], point, if e' < 10 then [ZERO] else [], Digits(e'));
  }

  lemma Regroup(head: bytes, point: bytes, zero: bytes, e: bytes)
    ensures head + point + [LOWER_E, PLUS] + zero + e == head + (point + ([LOWER_E] + ([PLUS] + zero + e)))
  {
  }

  // One element or member at a time.

  lemma ItemsLast(y: bytes, m: Json, ws: bytes, rest: bytes, items: seq<Json>)
    requires ParseValue(y) == Ok(m, ws + ([RBRACKET] + rest)) && AllSpace(ws)
    ensures ParseItems(y, items) == Ok(Array(items + [m]), rest)
  {
    hide ParseValue, SkipWs, Match;
    MatchBehind(ws, RBRACKET, rest, RBRACKET);
  }

  lemma ItemsMore(y: bytes, m: Json, more: bytes, items: seq<Json>)
    requires ParseValue(y) == Ok(m, [COMMA] + more)
    ensures ParseItems(y, items) == ParseItems(more, items + [m])
  {
    hide ParseValue, SkipWs, Match;
    AppendNothing([COMMA] + more);
    MatchBehind([], COMMA, more, RBRACKET);
    MatchBehind([], COMMA, more, COMMA);
  }

  lemma ItemsStuck(y: bytes, items: seq<Json>)
    requires Stuck(ParseValue(y))
    ensures ParseItems(y, items).Bad?
  {
    hide ParseValue, SkipWs, Match;
    var r := ParseValue(y);
    if r.Ok? {
      var more := r.rest[1..];
      assert r.rest == [] + ([LOWER_E] + more);
      MatchBehind([], LOWER_E, more, RBRACKET);
      AppendNothing([LOWER_E] + more);
      MatchBehind([], LOWER_E, more, COMMA);
    }
  }

  lemma MemberStart(key: bytes, gap: bytes, y: bytes)
    requires AllSpace(gap) && Solid(y)
    ensures var s := Quoted(key) + ([COLON] + (gap + y));
            && ParseString(s) == Ok(key, [COLON] + (gap + y))
            && Match([COLON] + (gap + y), COLON) == Ok((), gap + y)
            && ParseValue(gap + y) == ParseValue(y)
  {
    StringRoundTrip(key, [COLON] + (gap + y));
    MatchBehind([], COLON, gap + y, COLON);
    AppendNothing([COLON] + (gap + y));
    ValueSkipsSpace(gap, y);
    assert SkipWs(y) == y;
  }

  lemma MembersLast(key: bytes, gap: bytes, y: bytes, m: Json, ws: bytes, rest: bytes, fields: map<bytes, Json>)
    requires AllSpace(gap) && Solid(y) && ParseValue(y) == Ok(m, ws + ([RBRACE] + rest)) && AllSpace(ws)
    ensures ParseMembers(Quoted(key) + ([COLON] + (gap + y)), fields) == Ok(Object(Emplace(fields, key, m)), rest)
  {
    hide ParseValue, ParseString, SkipWs, Match, Quoted, Emplace;
    MemberStart(key, gap, y);
    MatchBehind(ws, RBRACE, rest, RBRACE);
  }

  lemma MembersMore(key: bytes, gap: bytes, y: bytes, m: Json, more: bytes, fields: map<bytes, Json>)
    requires AllSpace(gap) && Solid(y) && ParseValue(y) == Ok(m, [COMMA] + more)
    ensures ParseMembers(Quoted(key) + ([COLON] + (gap + y)), fields) == ParseMembers(more, Emplace(fields, key, m))
  {
    hide ParseValue, ParseString, SkipWs, Match, Quoted, Emplace;
    MemberStart(key, gap, y);
    AppendNothing([COMMA] + more);
    MatchBehind([], COMMA, more, RBRACE);
    MatchBehind([], COMMA, more, COMMA);
  }

  lemma MembersStuck(key: bytes, gap: bytes, y: bytes, fields: map<bytes, Json>)
    requires AllSpace(gap) && Solid(y) && Stuck(ParseValue(y))
    ensures ParseMembers(Quoted(key) + ([COLON] + (gap + y)), fields).Bad?
  {
    hide ParseValue, ParseString, SkipWs, Match, Quoted, Emplace;
    MemberStart(key, gap, y);
    var r := ParseValue(y);
    if r.Ok? {
      var more := r.rest[1..];
      assert r.rest == [] + ([LOWER_E] + more);
      MatchBehind([], LOWER_E, more, RBRACE);
      AppendNothing([LOWER_E] + more);
      MatchBehind([], LOWER_E, more, COMMA);
    }
  }

  /** A printed value starts with a byte that is neither white space nor a closing bracket. */
  lemma PrintStart(v: Stored, st: Style, depth: nat)
    ensures Solid(Print(v, st, depth)) && Print(v, st, depth)[0] !in {RBRACKET, RBRACE}
  {
    match v
    case SNumber(n) =>
      if -1_000_000 < n < 1_000_000 {
        NumberRoundTrip(n, []);
      } else {
        ExponentStops(n, []);
      }
    case _ =>
  }

  lemma SpaceThenByteFollows(ws: bytes, c: byte, rest: bytes)
    requires AllSpace(ws) && c in {RBRACKET, RBRACE, COMMA}
    ensures EndsNumber(ws + ([c] + rest))
  {
    if ws != [] {
      assert (ws + ([c] + rest))[0] == ws[0] && IsSpace(ws[0]);
    }
  }

  function Closing(c: byte, st: Style, depth: nat, rest: bytes): bytes {
    Indent(st, depth) + ([c] + rest)
  }

  lemma LiteralRoundTrip(rest: bytes)
    ensures ParseValue(NULL_TEXT + rest) == Ok(Null, rest)
    ensures ParseValue(TRUE_TEXT + rest) == Ok(Bool(true), rest)
    ensures ParseValue(FALSE_TEXT + rest) == Ok(Bool(false), rest)
  {
    hide ParseString, ParseNumber, ParseObject, ParseArray;
    var n, t, f := NULL_TEXT + rest, TRUE_TEXT + rest, FALSE_TEXT + rest;
    assert SkipWs(n) == n && SkipWs(t) == t && SkipWs(f) == f;
    assert n[4..] == rest && t[4..] == rest && f[5..] == rest;
    assert n[0] == 110 && t[0] == 116 && f[0] == 102;
  }

  /** The main theorem for one value in front of arbitrary text. */
  lemma {:induction false} ValueRoundTrip(v: Stored, st: Style, depth: nat, rest: bytes)
    requires EndsNumber(rest)
    ensures var r := ParseValue(Print(v, st, depth) + rest);
            if PlainNumbers(v) then r == Ok(Meaning(v), rest) else Stuck(r)
    decreases v, 1
  {
    var t := Print(v, st, depth) + rest;
    PrintStart(v, st, depth);
    assert SkipWs(t) == t;
    match v
    case SNull => LiteralRoundTrip(rest);
    case SBool(b) => LiteralRoundTrip(rest);
    case SNumber(n) =>
      if PlainNumbers(v) {
        NumberRoundTrip(n, rest);
      } else {
        ExponentStops(n, rest);
      }
      hide ParseNumber, NumberText;
      assert t[0] == NumberText(n)[0];
    case SString(s) => StringRoundTrip(s, rest);
    case SArray(items) => ArrayRoundTrip(items, st, depth, rest);
    case SObject(members) => ObjectRoundTrip(members, st, depth, rest);
  }

  lemma {:induction false} ArrayRoundTrip(items: seq<Stored>, st: Style, depth: nat, rest: bytes)
    ensures var r := ParseArray(Print(SArray(items), st, depth) + rest);
            if PlainItems(items) then r == Ok(Array(Meanings(items)), rest) else Stuck(r)
    decreases items, 2
  {
    hide ParseItems, Match, SkipWs, Indent, LineEnd, PrintItems;
    var close := Closing(RBRACKET, st, depth, rest);
    LayoutIsSpace(st, depth);
    if items == [] {
      var t := [RBRACKET] + rest;
      assert Print(SArray(items), st, depth) + rest == [LBRACKET] + t;
      AppendNothing([LBRACKET] + t);
      MatchBehind([], LBRACKET, t, LBRACKET);
      AppendNothing(t);
      MatchBehind([], RBRACKET, rest, RBRACKET);
    } else {
      var x := PrintItems(items, st, depth) + close;
      var t := LineEnd(st) + x;
      OpenText(LBRACKET, LineEnd(st), PrintItems(items, st, depth), Indent(st, depth), RBRACKET, rest);
      assert Print(SArray(items), st, depth) + rest == [LBRACKET] + t;
      AppendNothing([LBRACKET] + t);
      MatchBehind([], LBRACKET, t, LBRACKET);
      SkipsSpace(LineEnd(st), x);
      SkipWsTwice(x);
      ItemsStart(items, st, depth, close);
      ItemsRoundTrip(items, st, depth, rest, []);
      AppendNothing(Meanings(items));
    }
  }

  lemma OpenText(open: byte, nl: bytes, body: bytes, ind: bytes, close: byte, rest: bytes)
    ensures ([open] + (nl + body + ind) + [close]) + rest == [open] + (nl + (body + (ind + ([close] + rest))))
  {
  }

  /** The list text starts with its first element once white space is skipped. */
  lemma ItemsStart(items: seq<Stored>, st: Style, depth: nat, close: bytes)
    requires items != []
    ensures var y := Print(items[0], st, depth + 1)
                     + (Separator(|items| == 1, st) + (PrintItems(items[1..], st, depth) + close));
            var x := PrintItems(items, st, depth) + close;
            && SkipWs(x) == y && Solid(y)
            && Match(SkipWs(x), RBRACKET) == Bad(y)
  {
    var p, sep, more := Print(items[0], st, depth + 1), Separator(|items| == 1, st), PrintItems(items[1..], st, depth);
    var y := p + (sep + (more + close));
    PrintStart(items[0], st, depth + 1);
    LayoutIsSpace(st, depth + 1);
    ListText(Indent(st, depth + 1), p, sep, more, close);
    hide Print, Separator, Indent, PrintItems;
    assert PrintItems(items, st, depth) == Indent(st, depth + 1) + (p + (sep + more)) by { PrintItemsUnfold(items, st, depth); }
    SkipsSpace(Indent(st, depth + 1), y);
    assert y[0] == p[0];
    assert SkipWs(y) == y;
  }

  lemma PrintItemsUnfold(items: seq<Stored>, st: Style, depth: nat)
    requires items != []
    ensures PrintItems(items, st, depth)
         == Indent(st, depth + 1) + (Print(items[0], st, depth + 1)
            + (Separator(|items| == 1, st) + PrintItems(items[1..], st, depth)))
  {
  }

  lemma ListText(ind: bytes, p: bytes, sep: bytes, more: bytes, close: bytes)
    ensures (ind + (p + (sep + more))) + close == ind + (p + (sep + (more + close)))
  {
  }

  lemma {:induction false} ItemsRoundTrip(items: seq<Stored>, st: Style, depth: nat, rest: bytes, done: seq<Json>)
    requires items != []
    ensures var r := ParseItems(SkipWs(PrintItems(items, st, depth) + Closing(RBRACKET, st, depth, rest)), done);
            if PlainItems(items) then r == Ok(Array(done + Meanings(items)), rest) else r.Bad?
    decreases items, 1
  {
    hide *;
    var tail := PrintItems(items[1..], st, depth) + Closing(RBRACKET, st, depth, rest);
    var after := Separator(|items| == 1, st) + tail;
    var y := Print(items[0], st, depth + 1) + after;
    var m := Meaning(items[0]);
    ItemsStart(items, st, depth, Closing(RBRACKET, st, depth, rest));
    ItemAdded(items);
    AfterItem(items, st, depth, rest);
    ValueRoundTrip(items[0], st, depth + 1, after);
    if !PlainNumbers(items[0]) {
      ItemsStuck(y, done);
    } else if |items| == 1 {
      ItemsLast(y, m, LineEnd(st) + Indent(st, depth), rest, done);
    } else {
      ItemsMore(y, m, LineEnd(st) + tail, done);
      ItemsSkipSpace(LineEnd(st), tail, done + [m]);
      ItemsRoundTrip(items[1..], st, depth, rest, done + [m]);
      Assoc(done, [m], Meanings(items[1..]));
    }
  }

  lemma ItemAdded(items: seq<Stored>)
    requires items != []
    ensures Meanings(items) == [Meaning(items[0])] + Meanings(items[1..])
    ensures PlainItems(items) == (PlainNumbers(items[0]) && PlainItems(items[1..]))
    ensures |items| == 1 ==> Meanings(items) == [Meaning(items[0])] && PlainItems(items) == PlainNumbers(items[0])
  {
    hide Meaning, PlainNumbers;
  }

  /** The text behind an element: white space and the bracket, or a comma and the remaining elements. */
  lemma AfterItem(items: seq<Stored>, st: Style, depth: nat, rest: bytes)
    requires items != []
    ensures AllSpace(LineEnd(st)) && AllSpace(LineEnd(st) + Indent(st, depth))
    ensures var tail := PrintItems(items[1..], st, depth) + Closing(RBRACKET, st, depth, rest);
            var after := Separator(|items| == 1, st) + tail;
            && EndsNumber(after)
            && after == if |items| == 1 then (LineEnd(st) + Indent(st, depth)) + ([RBRACKET] + rest)
                        else [COMMA] + (LineEnd(st) + tail)
  {
    LayoutIsSpace(st, depth);
    NoItems(st, depth);
    hide PrintItems, Indent, LineEnd;
    var tail := PrintItems(items[1..], st, depth) + Closing(RBRACKET, st, depth, rest);
    assert |items| == 1 ==> items[1..] == [];
    AfterOne(|items| == 1, st, Indent(st, depth), RBRACKET, rest, tail);
  }

  lemma AfterOne(last: bool, st: Style, ind: bytes, c: byte, rest: bytes, tail: bytes)
    requires AllSpace(ind) && AllSpace(LineEnd(st)) && c in {RBRACKET, RBRACE}
    requires last ==> tail == [] + (ind + ([c] + rest))
    ensures var after := Separator(last, st) + tail;
            && EndsNumber(after)
            && after == if last then (LineEnd(st) + ind) + ([c] + rest) else [COMMA] + (LineEnd(st) + tail)
  {
    hide LineEnd;
    var nl := LineEnd(st);
    if last {
      assert Separator(last, st) + tail == (nl + ind) + ([c] + rest);
      SpaceThenByteFollows(nl + ind, c, rest);
    } else {
      assert Separator(last, st) + tail == [COMMA] + (nl + tail);
    }
  }

  lemma NoItems(st: Style, depth: nat)
    ensures PrintItems([], st, depth) == [] && PrintMembers([], st, depth) == []
  {
  }

  lemma ItemsSkipSpace(ws: bytes, s: bytes, items: seq<Json>)
    requires AllSpace(ws)
    ensures ParseItems(ws + s, items) == ParseItems(SkipWs(s), items)
  {
    ValueSkipsSpace(ws, s);
    hide ParseValue;
  }

  // Objects, along the same lines; a member that repeats a key would lose to the first.

  function Gap(st: Style): bytes {
    if st.pretty then [SPACE] else []
  }

  lemma {:induction false} ObjectRoundTrip(members: seq<Member>, st: Style, depth: nat, rest: bytes)
    ensures var r := ParseObject(Print(SObject(members), st, depth) + rest);
            if PlainMembers(members) then r == Ok(Object(Fields(members)), rest) else Stuck(r)
    decreases members, 2
  {
    hide ParseMembers, Match, SkipWs, Indent, LineEnd, PrintMembers;
    var close := Closing(RBRACE, st, depth, rest);
    LayoutIsSpace(st, depth);
    if members == [] {
      var t := [RBRACE] + rest;
      assert Print(SObject(members), st, depth) + rest == [LBRACE] + t;
      AppendNothing([LBRACE] + t);
      MatchBehind([], LBRACE, t, LBRACE);
      AppendNothing(t);
      MatchBehind([], RBRACE, rest, RBRACE);
    } else {
      var x := PrintMembers(members, st, depth) + close;
      var t := LineEnd(st) + x;
      OpenText(LBRACE, LineEnd(st), PrintMembers(members, st, depth), Indent(st, depth), RBRACE, rest);
      assert Print(SObject(members), st, depth) + rest == [LBRACE] + t;
      AppendNothing([LBRACE] + t);
      MatchBehind([], LBRACE, t, LBRACE);
      SkipsSpace(LineEnd(st), x);
      SkipWsTwice(x);
      MembersStart(members, st, depth, close);
      MembersRoundTrip(members, st, depth, rest, map[]);
      assert Fields(members) + map[] == Fields(members);
    }
  }

  function MemberText(members: seq<Member>, st: Style, depth: nat, close: bytes): bytes
    requires members != []
  {
    Quoted(members[0].key) + ([COLON] + (Gap(st) + (Print(members[0].value, st, depth + 1)
    + (Separator(|members| == 1, st) + (PrintMembers(members[1..], st, depth) + close)))))
  }

  lemma MembersStart(members: seq<Member>, st: Style, depth: nat, close: bytes)
    requires members != []
    ensures var y := MemberText(members, st, depth, close);
            var x := PrintMembers(members, st, depth) + close;
            && SkipWs(x) == y && Solid(y)
            && Match(SkipWs(x), RBRACE) == Bad(y)
  {
    var q, gap, p := Quoted(members[0].key), Gap(st), Print(members[0].value, st, depth + 1);
    var sep, more := Separator(|members| == 1, st), PrintMembers(members[1..], st, depth);
    var y := MemberText(members, st, depth, close);
    LayoutIsSpace(st, depth + 1);
    PrintMembersUnfold(members, st, depth);
    assert q[0] == QUOTE;
    hide Print, Separator, Indent, PrintMembers, Quoted, Gap;
    MemberListText(Indent(st, depth + 1), q, gap, p, sep, more, close);
    SkipsSpace(Indent(st, depth + 1), y);
    assert y[0] == q[0];
    assert SkipWs(y) == y;
  }

  lemma PrintMembersUnfold(members: seq<Member>, st: Style, depth: nat)
    requires members != []
    ensures PrintMembers(members, st, depth)
         == Indent(st, depth + 1) + (Quoted(members[0].key) + ([COLON] + (Gap(st)
            + (Print(members[0].value, st, depth + 1)
            + (Separator(|members| == 1, st) + PrintMembers(members[1..], st, depth))))))
  {
  }

  lemma MemberListText(ind: bytes, q: bytes, gap: bytes, p: bytes, sep: bytes, more: bytes, close: bytes)
    ensures (ind + (q + ([COLON] + (gap + (p + (sep + more)))))) + close
         == ind + (q + ([COLON] + (gap + (p + (sep + (more + close))))))
  {
  }

  lemma {:induction false} MembersRoundTrip(members: seq<Member>, st: Style, depth: nat, rest: bytes, done: map<bytes, Json>)
    requires members != []
    ensures var r := ParseMembers(SkipWs(PrintMembers(members, st, depth) + Closing(RBRACE, st, depth, rest)), done);
            if PlainMembers(members) then r == Ok(Object(Fields(members) + done), rest) else r.Bad?
    decreases members, 1
  {
    hide *;
    var tail := PrintMembers(members[1..], st, depth) + Closing(RBRACE, st, depth, rest);
    var after := Separator(|members| == 1, st) + tail;
    var key, v := members[0].key, members[0].value;
    var y := Print(v, st, depth + 1) + after;
    var m := Meaning(v);
    var added := Emplace(done, key, m);
    MembersStart(members, st, depth, Closing(RBRACE, st, depth, rest));
    MemberTextShape(members, st, depth, Closing(RBRACE, st, depth, rest));
    MemberAdded(members, done);
    AfterMember(members, st, depth, rest);
    ValueRoundTrip(v, st, depth + 1, after);
    if !PlainNumbers(v) {
      MembersStuck(key, Gap(st), y, done);
    } else if |members| == 1 {
      MembersLast(key, Gap(st), y, m, LineEnd(st) + Indent(st, depth), rest, done);
    } else {
      MembersMore(key, Gap(st), y, m, LineEnd(st) + tail, done);
      MembersSkipSpace(LineEnd(st), tail, added);
      MembersRoundTrip(members[1..], st, depth, rest, added);
    }
  }

  lemma MemberTextShape(members: seq<Member>, st: Style, depth: nat, close: bytes)
    requires members != []
    ensures var y := Print(members[0].value, st, depth + 1)
                     + (Separator(|members| == 1, st) + (PrintMembers(members[1..], st, depth) + close));
            && MemberText(members, st, depth, close) == Quoted(members[0].key) + ([COLON] + (Gap(st) + y))
            && AllSpace(Gap(st)) && Solid(y)
  {
    PrintStart(members[0].value, st, depth + 1);
    hide Print, PrintMembers, Separator, Quoted;
  }

  lemma AfterMember(members: seq<Member>, st: Style, depth: nat, rest: bytes)
    requires members != []
    ensures AllSpace(LineEnd(st)) && AllSpace(LineEnd(st) + Indent(st, depth))
    ensures var tail := PrintMembers(members[1..], st, depth) + Closing(RBRACE, st, depth, rest);
            var after := Separator(|members| == 1, st) + tail;
            && EndsNumber(after)
            && after == if |members| == 1 then (LineEnd(st) + Indent(st, depth)) + ([RBRACE] + rest)
                        else [COMMA] + (LineEnd(st) + tail)
  {
    LayoutIsSpace(st, depth);
    NoItems(st, depth);
    hide PrintMembers, Indent, LineEnd;
    var tail := PrintMembers(members[1..], st, depth) + Closing(RBRACE, st, depth, rest);
    assert |members| == 1 ==> members[1..] == [];
    AfterOne(|members| == 1, st, Indent(st, depth), RBRACE, rest, tail);
  }

  lemma MemberAdded(members: seq<Member>, done: map<bytes, Json>)
    requires members != []
    ensures var added := Emplace(done, members[0].key, Meaning(members[0].value));
            && Fields(members) + done == Fields(members[1..]) + added
            && (|members| == 1 ==> Fields(members) + done == added)
    ensures PlainMembers(members) == (PlainNumbers(members[0].value) && PlainMembers(members[1..]))
    ensures |members| == 1 ==> PlainMembers(members) == PlainNumbers(members[0].value)
  {
    hide Meaning, PlainNumbers;
  }

  lemma MembersSkipSpace(ws: bytes, s: bytes, fields: map<bytes, Json>)
    requires AllSpace(ws)
    ensures ParseMembers(ws + s, fields) == ParseMembers(SkipWs(s), fields)
  {
    ValueSkipsSpace(ws, s);
    hide ParseValue, ParseString;
  }

  /** With distinct keys the fields are the members, in whatever order they come. */
  lemma {:induction false} FieldsAreMembers(members: seq<Member>)
    requires forall i, j :: 0 <= i < j < |members| ==> members[i].key != members[j].key
    ensures forall i :: 0 <= i < |members| ==>
              members[i].key in Fields(members) && Fields(members)[members[i].key] == Meaning(members[i].value)
    ensures forall k :: k in Fields(members) ==> exists i :: 0 <= i < |members| && members[i].key == k
    decreases |members|
  {
    if members != [] {
      hide Meaning;
      var rest := members[1..];
      FieldsAreMembers(rest);
      forall i | 0 <= i < |members|
        ensures members[i].key in Fields(members) && Fields(members)[members[i].key] == Meaning(members[i].value)
      {
        if i > 0 {
          assert rest[i - 1] == members[i];
        }
      }
      forall k | k in Fields(members)
        ensures exists i :: 0 <= i < |members| && members[i].key == k
      {
        if k == members[0].key {
          assert members[0].key == k;
        } else {
          var i :| 0 <= i < |rest| && rest[i].key == k;
          assert members[i + 1].key == k;
        }
      }
    }
  }

  // ------------------------------------------------------------------ the theorems

  function ToJson(v: Stored, pretty: bool, indent: nat): bytes {
    Print(v, Style(pretty, indent), 0)
  }

  /**
   `parse_json(to_json(v, pretty, indent))` succeeds exactly when every number in v is below
   a million in magnitude, and then it returns the value of v.
   */
  lemma RoundTrip(v: Stored, pretty: bool, indent: nat)
    ensures ParseJson(ToJson(v, pretty, indent)).Ok? <==> PlainNumbers(v)
    ensures PlainNumbers(v) ==> ParseJson(ToJson(v, pretty, indent)) == Ok(Meaning(v), [])
  {
    var text := ToJson(v, pretty, indent);
    AppendNothing(text);
    ValueRoundTrip(v, Style(pretty, indent), 0, []);
    hide ParseValue, Print, Meaning, PlainNumbers;
  }

  /** The text is never empty, so an empty file cannot stand for a value. */
  lemma TextIsNotEmpty(v: Stored, pretty: bool, indent: nat)
    ensures ToJson(v, pretty, indent) != []
  {
    PrintStart(v, Style(pretty, indent), 0);
  }

  /** A million is the first integer whose text does not come back: it prints as 1e+06. */
  lemma MillionIsLost()
    ensures ParseJson(ToJson(SNumber(1_000_000), false, 0)).Bad?
    ensures ParseJson(ToJson(SNumber(999_999), false, 0)) == Ok(Number(999_999.0), [])
  {
    RoundTrip(SNumber(1_000_000), false, 0);
    RoundTrip(SNumber(999_999), false, 0);
  }

  /** Behind a value only white space is accepted. */
  lemma TrailingText(v: Stored, pretty: bool, indent: nat, rest: bytes)
    requires PlainNumbers(v) && EndsNumber(rest)
    ensures ParseJson(ToJson(v, pretty, indent) + rest)
         == if SkipWs(rest) == [] then Ok(Meaning(v), []) else Bad(SkipWs(rest))
  {
    ValueRoundTrip(v, Style(pretty, indent), 0, rest);
    hide ParseValue, Print, Meaning, PlainNumbers;
  }

  // ---------------------------------------------------------------- unicode escapes

  function Shift6(hi: int, lo: int): int {
    hi * 64 + lo
  }

  /** Reads the one to three bytes of a UTF-8 sequence back into a code point. */
  function FromUtf8(s: bytes): int {
    if |s| == 1 && s[0] < 0x80 then s[0]
    else if |s| == 2 && 0xC0 <= s[0] < 0xE0 && 0x80 <= s[1] < 0xC0 then Shift6(s[0] - 0xC0, s[1] - 0x80)
    else if |s| == 3 && 0xE0 <= s[0] < 0xF0 && 0x80 <= s[1] < 0xC0 && 0x80 <= s[2] < 0xC0 then
      Shift6(Shift6(s[0] - 0xE0, s[1] - 0x80), s[2] - 0x80)
    else -1
  }

  /** A \u escape in either letter case becomes the shortest UTF-8 form of its code point. */
  lemma UnicodeEscape(a: nat, b: nat, c: nat, d: nat, upper: bool, rest: bytes)
    requires a < 16 && b < 16 && c < 16 && d < 16
    ensures var v := a * 4096 + b * 256 + c * 16 + d;
            var text := [117, HexLetter(a, upper), HexLetter(b, upper), HexLetter(c, upper), HexLetter(d, upper)] + rest;
            && ParseEscape(text) == Ok(Utf8(v), rest)
            && FromUtf8(Utf8(v)) == v
            && |Utf8(v)| == if v < 0x80 then 1 else if v < 0x800 then 2 else 3
  {
    HexValues(a, upper);
    HexValues(b, upper);
    HexValues(c, upper);
    HexValues(d, upper);
    Utf8RoundTrip(a * 4096 + b * 256 + c * 16 + d);
    hide *;
    EscapeOfHex(HexLetter(a, upper), HexLetter(b, upper), HexLetter(c, upper), HexLetter(d, upper), rest);
  }

  lemma EscapeOfHex(h0: byte, h1: byte, h2: byte, h3: byte, rest: bytes)
    requires HexVal(h0) >= 0 && HexVal(h1) >= 0 && HexVal(h2) >= 0 && HexVal(h3) >= 0
    ensures ParseEscape([117, h0, h1, h2, h3] + rest)
         == Ok(Utf8(HexVal(h0) * 4096 + HexVal(h1) * 256 + HexVal(h2) * 16 + HexVal(h3)), rest)
  {
    FourHex(h0, h1, h2, h3, rest);
    hide HexVal, HexDigits, Utf8;
    assert ([117, h0, h1, h2, h3] + rest)[1..] == [h0, h1, h2, h3] + rest;
  }

  lemma FourHex(h0: byte, h1: byte, h2: byte, h3: byte, rest: bytes)
    requires HexVal(h0) >= 0 && HexVal(h1) >= 0 && HexVal(h2) >= 0 && HexVal(h3) >= 0
    ensures HexDigits([h0, h1, h2, h3] + rest, 4, 0)
         == Ok(HexVal(h0) * 4096 + HexVal(h1) * 256 + HexVal(h2) * 16 + HexVal(h3), rest)
  {
    var v := HexVal(h0) * 4096 + HexVal(h1) * 256 + HexVal(h2) * 16 + HexVal(h3);
    assert HexDigits(rest, 0, v) == Ok(v, rest);
    hide HexVal, HexDigits;
    HexRun(h0, [h1, h2, h3] + rest, 3, 0);
    HexRun(h1, [h2, h3] + rest, 2, HexVal(h0));
    HexRun(h2, [h3] + rest, 1, HexVal(h0) * 16 + HexVal(h1));
    HexRun(h3, rest, 0, (HexVal(h0) * 16 + HexVal(h1)) * 16 + HexVal(h2));
    assert [h0, h1, h2, h3] + rest == [h0] + ([h1, h2, h3] + rest);
    assert [h1, h2, h3] + rest == [h1] + ([h2, h3] + rest);
    assert [h2, h3] + rest == [h2] + ([h3] + rest);
  }

  lemma HexValues(d: nat, upper: bool)
    requires d < 16
    ensures HexVal(HexLetter(d, upper)) == d
  {
  }

  lemma HexRun(h: byte, more: bytes, count: nat, v: nat)
    requires count <= |more| && HexVal(h) >= 0
    ensures HexDigits([h] + more, count + 1, v) == HexDigits(more, count, v * 16 + HexVal(h))
  {
    TailOfCons(h, more);
  }

  lemma Utf8RoundTrip(v: nat)
    requires v < 0x1_0000
    ensures FromUtf8(Utf8(v)) == v
    ensures |Utf8(v)| == if v < 0x80 then 1 else if v < 0x800 then 2 else 3
  {
    assert v == 64 * (v / 64) + v % 64 && v / 64 / 64 == v / 4096 && v / 64 == 64 * (v / 4096) + v / 64 % 64;
  }
}
