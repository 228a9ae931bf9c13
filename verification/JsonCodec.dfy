/**
 The JSON parser and printer in the form the server has them: a cursor that the parser
 methods advance, and an output string that the printer methods append to.
 */
module JsonCodec {
  import opened Bytes
  import opened JsonSpec
  import JsonRoundTrip

  class JsonCursor {
    const s: bytes
    var i: nat

    constructor (text: bytes)
      ensures s == text && Valid() && Rest() == text
    {
      s, i := text, 0;
    }

    ghost predicate Valid()
      reads this
    {
      i <= |s|
    }

    /** The unread part of the text. */
    ghost function Rest(): bytes
      requires Valid()
      reads this
    {
      s[i..]
    }

    /** The outcome of a method is that of the parser function on the text it started from. */
    ghost predicate Agrees<T(!new)>(r: Parsed<T>, ok: bool, out: T)
      requires Valid()
      reads this
    {
      ok == r.Ok? && Rest() == r.rest && (ok ==> out == r.value)
    }

    lemma Advance(n: nat)
      requires Valid() && i + n <= |s|
      ensures s[i + n..] == Rest()[n..]
    {
      DropTwice(s, i, n);
    }

    method SkipSpace()
      requires Valid()
      modifies this
      ensures Valid() && i >= old(i) && Rest() == SkipWs(old(Rest()))
    {
      while i < |s| && IsSpace(s[i])
        invariant Valid() && i >= old(i)
        invariant SkipWs(Rest()) == SkipWs(old(Rest()))
      {
        Advance(1);
        i := i + 1;
      }
    }

    /** `match` */
    method TryMatch(ch: byte) returns (ok: bool)
      requires Valid()
      modifies this
      ensures Valid() && i >= old(i) && (ok ==> i > old(i))
      ensures Agrees(Match(old(Rest()), ch), ok, ())
    {
      SkipSpace();
      if i < |s| && s[i] == ch {
        Advance(1);
        i := i + 1;
        return true;
      }
      return false;
    }

    /** The digits of a \u escape. */
    method ReadHex() returns (ok: bool, v: nat)
      requires Valid() && i + 4 <= |s|
      modifies this
      ensures Valid() && i >= old(i)
      ensures Agrees(HexDigits(old(Rest()), 4, 0), ok, v)
    {
      hide HexVal, HexDigits;
      v := 0;
      for k := 0 to 4
        invariant Valid() && i == old(i) + k
        invariant HexDigits(Rest(), 4 - k, v) == HexDigits(old(Rest()), 4, 0)
      {
        HexDigitsStep(Rest(), 4 - k, v);
        var h := s[i];
        Advance(1);
        i := i + 1;
        var d := HexVal(h);
        if d < 0 {
          return false, v;
        }
        v := v * 16 + d;
      }
      HexDigitsDone(Rest(), v);
      return true, v;
    }

    method ReadEscape() returns (ok: bool, chars: bytes)
      requires Valid()
      modifies this
      ensures Valid() && i >= old(i)
      ensures Agrees(ParseEscape(old(Rest())), ok, chars)
    {
      chars := [];
      if i >= |s| {
        return false, [];
      }
      var esc := s[i];
      Advance(1);
      i := i + 1;
      var simple := Unescaped(esc);
      if simple.Some? {
        return true, [simple.value];
      }
      if esc != 117 || i + 4 > |s| {
        return false, [];
      }
      hide HexDigits;
      var v;
      ok, v := ReadHex();
      if ok {
        chars := Utf8(v);
      }
    }

    method ReadString() returns (ok: bool, out: bytes)
      requires Valid()
      modifies this
      ensures Valid() && i >= old(i)
      ensures Agrees(ParseString(old(Rest())), ok, out)
    {
      hide SkipWs, ParseChars, ParseEscape;
      out := [];
      SkipSpace();
      if i >= |s| || s[i] != QUOTE {
        return false, [];
      }
      Advance(1);
      i := i + 1;
      while i < |s|
        invariant Valid() && i > old(i)
        invariant ParseChars(Rest(), out) == ParseString(old(Rest()))
        decreases |s| - i
      {
        hide ParseString;
        CharsStep(Rest(), out);
        var ch := s[i];
        Advance(1);
        i := i + 1;
        if ch == QUOTE {
          return true, out;
        }
        if ch == BACKSLASH {
          var chars;
          ok, chars := ReadEscape();
          if !ok {
            return false, out;
          }
          out := out + chars;
        } else {
          out := out + [ch];
        }
      }
      CharsDone(Rest(), out);
      return false, out;
    }

    /** The digit loop of `parse_number`. */
    method SkipNumeral()
      requires Valid()
      modifies this
      ensures Valid() && i == old(i) + Span(old(Rest()), false)
    {
      var dot := false;
      while i < |s|
        invariant Valid() && old(i) <= i
        invariant Span(old(Rest()), false) == i - old(i) + Span(Rest(), dot)
        decreases |s| - i
      {
        var ch := s[i];
        Advance(1);
        if IsDigit(ch) {
          i := i + 1;
          continue;
        }
        if ch == DOT && !dot {
          dot := true;
          i := i + 1;
          continue;
        }
        break;
      }
    }

    method ReadNumber() returns (ok: bool, num: real)
      requires Valid()
      modifies this
      ensures Valid() && i >= old(i)
      ensures Agrees(ParseNumber(old(Rest())), ok, num)
    {
      hide SkipWs, Span, Numeral, DigitCount, Decimals, NumeralValue;
      var negative := ReadSign();
      ghost var u := Rest();
      var start := i;
      SkipNumeral();
      DropTwice(s, start, i - start);
      SpanIsNumeral(u, false);
      var body := s[start..i];
      assert body == u[..Span(u, false)];
      if DigitCount(body) == 0 {
        return false, 0.0;   // std::stod throws
      }
      var value := NumeralValue(body);
      return true, if negative then -value else value;
    }

    method ReadSign() returns (negative: bool)
      requires Valid()
      modifies this
      ensures Valid() && i >= old(i)
      ensures var t := SkipWs(old(Rest()));
              && Rest() == (if HasSign(t) then t[1..] else t)
              && negative == (HasSign(t) && t[0] == MINUS)
    {
      hide SkipWs;
      SkipSpace();
      negative := false;
      if i < |s| && (s[i] == MINUS || s[i] == PLUS) {
        negative := s[i] == MINUS;
        Advance(1);
        i := i + 1;
      }
    }

    /** The `compare` tests for true, false and null. */
    method TryLiteral(text: bytes) returns (ok: bool)
      requires Valid()
      modifies this
      ensures Valid() && i >= old(i)
      ensures ok == (text <= old(Rest()))
      ensures Rest() == if ok then old(Rest())[|text|..] else old(Rest())
    {
      ok := i + |text| <= |s| && s[i..i + |text|] == text;
      if ok {
        DropTwice(s, i, |text|);
        i := i + |text|;
      }
    }

    method ReadArray() returns (ok: bool, out: Json)
      requires Valid()
      modifies this
      ensures Valid() && i >= old(i)
      ensures Agrees(ParseArray(old(Rest())), ok, out)
      decreases |s| - i, 2
    {
      hide ParseValue, Match, SkipWs;
      out := Null;
      var open := TryMatch(LBRACKET);
      if !open {
        return false, out;
      }
      SkipSpace();
      var empty := TryMatch(RBRACKET);
      if empty {
        return true, Array([]);
      }
      var items: seq<Json> := [];
      while true
        invariant Valid() && i > old(i)
        invariant ParseItems(Rest(), items) == ParseArray(old(Rest()))
        decreases |s| - i
      {
        hide ParseArray;
        ghost var at := i;
        var elem;
        ok, elem := ReadValue();
        if !ok {
          return false, out;
        }
        items := items + [elem];
        SkipSpace();
        var close := TryMatch(RBRACKET);
        if close {
          return true, Array(items);
        }
        var comma := TryMatch(COMMA);
        if !comma {
          return false, out;
        }
        assert i > at;
      }
    }

    method ReadObject() returns (ok: bool, out: Json)
      requires Valid()
      modifies this
      ensures Valid() && i >= old(i)
      ensures Agrees(ParseObject(old(Rest())), ok, out)
      decreases |s| - i, 2
    {
      hide ParseValue, Match, SkipWs, ParseString;
      out := Null;
      var open := TryMatch(LBRACE);
      if !open {
        return false, out;
      }
      SkipSpace();
      var empty := TryMatch(RBRACE);
      if empty {
        return true, Object(map[]);
      }
      var fields: map<bytes, Json> := map[];
      while true
        invariant Valid() && i > old(i)
        invariant ParseMembers(Rest(), fields) == ParseObject(old(Rest()))
        decreases |s| - i
      {
        hide ParseObject;
        ghost var at := i;
        var key, value;
        ok, key := ReadString();
        if !ok {
          return false, out;
        }
        var colon := TryMatch(COLON);
        if !colon {
          return false, out;
        }
        ok, value := ReadValue();
        if !ok {
          return false, out;
        }
        if key !in fields {
          fields := fields[key := value];   // emplace
        }
        SkipSpace();
        var close := TryMatch(RBRACE);
        if close {
          return true, Object(fields);
        }
        var comma := TryMatch(COMMA);
        if !comma {
          return false, out;
        }
        assert i > at;
      }
    }

    method ReadValue() returns (ok: bool, out: Json)
      requires Valid()
      modifies this
      ensures Valid() && i >= old(i)
      ensures Agrees(ParseValue(old(Rest())), ok, out)
      decreases |s| - i, 3
    {
      out := Null;
      SkipSpace();
      if i >= |s| {
        return false, out;
      }
      var ch := s[i];
      ghost var t := Rest();
      hide SkipWs, ParseString, ParseNumber, ParseArray, ParseObject;
      if ch == QUOTE {
        var str;
        ok, str := ReadString();
        if ok {
          out := String(str);
        }
        return ok, out;
      }
      if ch == LBRACE {
        ok, out := ReadObject();
        return;
      }
      if ch == LBRACKET {
        ok, out := ReadArray();
        return;
      }
      ok := TryLiteral(TRUE_TEXT);
      if ok {
        return true, Bool(true);
      }
      ok := TryLiteral(FALSE_TEXT);
      if ok {
        return true, Bool(false);
      }
      ok := TryLiteral(NULL_TEXT);
      if ok {
        return true, Null;
      }
      var num;
      ok, num := ReadNumber();
      if ok {
        out := Number(num);
      }
    }
  }

  lemma HexDigitsStep(s: bytes, count: nat, v: nat)
    requires 0 < count <= |s|
    ensures HexDigits(s, count, v)
         == if HexVal(s[0]) < 0 then Bad(s[1..]) else HexDigits(s[1..], count - 1, v * 16 + HexVal(s[0]))
  {
    hide HexVal;
  }

  lemma HexDigitsDone(s: bytes, v: nat)
    ensures HexDigits(s, 0, v) == Ok(v, s)
  {
  }

  lemma CharsDone(s: bytes, out: bytes)
    requires s == []
    ensures ParseChars(s, out) == Bad(s)
  {
  }

  lemma CharsStep(s: bytes, out: bytes)
    requires s != []
    ensures var e := ParseEscape(s[1..]);
            ParseChars(s, out) ==
            if s[0] == QUOTE then Ok(out, s[1..])
            else if s[0] != BACKSLASH then ParseChars(s[1..], out + [s[0]])
            else if e.Ok? then ParseChars(e.rest, out + e.value) else Bad(e.rest)
  {
    hide ParseEscape;
  }

  /** `parse_json`, with the position it reports on failure. */
  method ParseText(text: bytes) returns (ok: bool, out: Json, errorPos: nat)
    ensures match ParseJson(text) {
              case Ok(v, _) => ok && out == v
              case Bad(rest) => !ok && errorPos <= |text| && text[errorPos..] == rest
            }
  {
    hide ParseValue, SkipWs;
    errorPos := 0;
    var c := new JsonCursor(text);
    ok, out := c.ReadValue();
    if !ok {
      return false, out, c.i;
    }
    c.SkipSpace();
    if c.i != |text| {
      return false, out, c.i;
    }
  }

  // ----------------------------------------------------------------------- printer

  /** `json_escape` */
  method AppendQuoted(s: bytes, out: bytes) returns (r: bytes)
    ensures r == out + Quoted(s)
  {
    r := out + [QUOTE];
    assert s[0..] == s;
    for i := 0 to |s|
      invariant r + EscapeAll(s[i..]) == out + [QUOTE] + EscapeAll(s)
    {
      hide EscapeByte;
      DropTwice(s, i, 1);
      Assoc(r, EscapeByte(s[i]), EscapeAll(s[i + 1..]));
      r := r + EscapeByte(s[i]);
    }
    AppendNothing(r);
    r := r + [QUOTE];
    QuotedText(out, EscapeAll(s));
  }

  lemma QuotedText(out: bytes, body: bytes)
    ensures (out + [QUOTE] + body) + [QUOTE] == out + ([QUOTE] + body + [QUOTE])
  {
  }

  /** `to_json_inner` */
  method AppendValue(v: Stored, out: bytes, st: Style, depth: nat) returns (r: bytes)
    ensures r == out + Print(v, st, depth)
    decreases v, 1
  {
    match v
    case SNull => r := out + NULL_TEXT;
    case SBool(b) => r := out + (if b then TRUE_TEXT else FALSE_TEXT);
    case SNumber(n) => r := out + NumberText(n);
    case SString(s) => r := AppendQuoted(s, out);
    case SArray(items) =>
      r := out + [LBRACKET];
      if items != [] {
        r := AppendItems(items, r + LineEnd(st), st, depth);
        r := r + Indent(st, depth);
      }
      r := r + [RBRACKET];
      hide PrintItems, Indent, LineEnd;
      Bracketed(out, LBRACKET, LineEnd(st), PrintItems(items, st, depth), Indent(st, depth), RBRACKET);
    case SObject(members) =>
      r := out + [LBRACE];
      if members != [] {
        r := AppendMembers(members, r + LineEnd(st), st, depth);
        r := r + Indent(st, depth);
      }
      r := r + [RBRACE];
      hide PrintMembers, Indent, LineEnd;
      Bracketed(out, LBRACE, LineEnd(st), PrintMembers(members, st, depth), Indent(st, depth), RBRACE);
  }

  lemma Bracketed(out: bytes, open: byte, nl: bytes, body: bytes, ind: bytes, close: byte)
    ensures (((out + [open]) + nl) + body) + ind + [close] == out + ([open] + (nl + body + ind) + [close])
    ensures (out + [open]) + [close] == out + ([open] + [] + [close])
  {
  }

  /** The loop over the elements of an array. */
  method AppendItems(items: seq<Stored>, out: bytes, st: Style, depth: nat) returns (r: bytes)
    ensures r == out + PrintItems(items, st, depth)
    decreases items, 0
  {
    r := out;
    assert items[0..] == items;
    for i := 0 to |items|
      invariant r + PrintItems(items[i..], st, depth) == out + PrintItems(items, st, depth)
    {
      hide Print, Indent, LineEnd;
      ghost var before := r;
      r := r + Indent(st, depth + 1);
      r := AppendValue(items[i], r, st, depth + 1);
      if i + 1 < |items| {
        r := r + [COMMA];
      }
      r := r + LineEnd(st);
      DropTwice(items, i, 1);
      JsonRoundTrip.PrintItemsUnfold(items[i..], st, depth);
      ItemAppended(before, Indent(st, depth + 1), Print(items[i], st, depth + 1), i + 1 == |items|, st,
                   PrintItems(items[i + 1..], st, depth), r);
    }
  }

  lemma ItemAppended(before: bytes, ind: bytes, p: bytes, last: bool, st: Style, more: bytes, r: bytes)
    requires r == ((before + ind) + p) + (if last then [] else [COMMA]) + LineEnd(st)
    ensures r + more == before + (ind + (p + (Separator(last, st) + more)))
  {
    hide LineEnd;
  }

  /** The loop over the members of an object. */
  method AppendMembers(members: seq<Member>, out: bytes, st: Style, depth: nat) returns (r: bytes)
    ensures r == out + PrintMembers(members, st, depth)
    decreases members, 0
  {
    r := out;
    assert members[0..] == members;
    for i := 0 to |members|
      invariant r + PrintMembers(members[i..], st, depth) == out + PrintMembers(members, st, depth)
    {
      hide Print, Indent, LineEnd, Quoted, PrintMembers;
      ghost var before := r;
      r := AppendQuoted(members[i].key, r + Indent(st, depth + 1));
      r := r + [COLON] + JsonRoundTrip.Gap(st);
      r := AppendValue(members[i].value, r, st, depth + 1);
      if i + 1 < |members| {
        r := r + [COMMA];
      }
      r := r + LineEnd(st);
      DropTwice(members, i, 1);
      JsonRoundTrip.PrintMembersUnfold(members[i..], st, depth);
      MemberAppended(before, Indent(st, depth + 1), Quoted(members[i].key), JsonRoundTrip.Gap(st),
                     Print(members[i].value, st, depth + 1), i + 1 == |members|, st,
                     PrintMembers(members[i + 1..], st, depth), r);
    }
  }

  lemma MemberAppended(before: bytes, ind: bytes, q: bytes, gap: bytes, p: bytes, last: bool, st: Style, more: bytes, r: bytes)
    requires r == (((((before + ind) + q) + [COLON]) + gap) + p) + (if last then [] else [COMMA]) + LineEnd(st)
    ensures r + more == before + (ind + (q + ([COLON] + (gap + (p + (Separator(last, st) + more))))))
  {
    hide LineEnd;
  }

  /** `to_json` followed by `parse_json` on the text it returned. */
  method PrintThenParse(v: Stored, pretty: bool, indent: nat) returns (ok: bool, out: Json)
    ensures ok == JsonRoundTrip.PlainNumbers(v)
    ensures ok ==> out == Meaning(v)
  {
    var text := AppendValue(v, [], Style(pretty, indent), 0);
    assert text == JsonRoundTrip.ToJson(v, pretty, indent) by { AppendNothing(Print(v, Style(pretty, indent), 0)); }
    JsonRoundTrip.RoundTrip(v, pretty, indent);
    var pos;
    ok, out, pos := ParseText(text);
  }
}
