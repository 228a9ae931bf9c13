/**
 The JSON texts themselves, in terms of their bytes: what strings, numbers, arrays and objects
 look like when printed, and what the parser makes of escapes, fractions and white space.
 Byte values are written out here, as section 2 to 7 of RFC 8259 give them.
 */
module JsonText {
  import opened Bytes
  import opened JsonSpec
  import opened JsonRoundTrip

  // ------------------------------------------------------------------ printed strings

  predicate IsHex(c: byte) {
    48 <= c <= 57 || 65 <= c <= 70 || 97 <= c <= 102
  }

  /** The characters between the quotes, by the grammar of section 7: nothing raw that needs an escape. */
  predicate Chars(t: bytes)
    decreases |t|
  {
    if t == [] then true
    else if t[0] != 92 then t[0] >= 0x20 && t[0] != 34 && Chars(t[1..])
    else if |t| < 2 then false
    else if t[1] == 117 then
      |t| >= 6 && IsHex(t[2]) && IsHex(t[3]) && IsHex(t[4]) && IsHex(t[5]) && Chars(t[6..])
    else t[1] in {34, 92, 47, 98, 102, 110, 114, 116} && Chars(t[2..])
  }

  lemma EscapedByteIsChars(c: byte, t: bytes)
    requires Chars(t)
    ensures Chars(EscapeByte(c) + t)
    ensures forall i :: 0 <= i < |EscapeByte(c)| ==> EscapeByte(c)[i] >= 0x20
  {
    var u := EscapeByte(c) + t;
    if c < 0x20 && !(8 <= c <= 10 || 12 <= c <= 13) {
      assert u[6..] == t;
    } else if EscapeByte(c) == [c] {
      assert u[1..] == t;
    } else {
      assert u[2..] == t;
    }
  }

  lemma {:induction false} EscapedIsChars(s: bytes)
    ensures Chars(EscapeAll(s))
    ensures forall i :: 0 <= i < |EscapeAll(s)| ==> EscapeAll(s)[i] >= 0x20
  {
    if s != [] {
      EscapedIsChars(s[1..]);
      EscapedByteIsChars(s[0], EscapeAll(s[1..]));
      hide EscapeByte, Chars;
    }
  }

  /** A printed string is a string of the grammar: quotes around well-formed characters, no raw control byte. */
  lemma QuotedIsString(s: bytes) returns (inner: bytes)
    ensures Quoted(s) == [34] + inner + [34] && Chars(inner)
    ensures forall i :: 0 <= i < |Quoted(s)| ==> Quoted(s)[i] >= 0x20
  {
    inner := EscapeAll(s);
    EscapedIsChars(s);
  }

  /** Strings are printed byte by byte. */
  lemma {:induction false} EscapeAllAppends(a: bytes, b: bytes)
    ensures EscapeAll(a + b) == EscapeAll(a) + EscapeAll(b)
  {
    if a == [] {
      AppendNothing(b);
    } else {
      hide EscapeByte;
      ConsAppends(a, b);
      EscapeAllAppends(a[1..], b);
      Assoc(EscapeByte(a[0]), EscapeAll(a[1..]), EscapeAll(b));
    }
  }

  lemma EscapeOne(c: byte)
    ensures EscapeAll([c]) == EscapeByte(c)
  {
    hide EscapeByte;
    var one: bytes := [c];
    assert one[1..] == [];
    AppendNothing(EscapeByte(c));
  }

  /** The two-character escapes. */
  lemma ShortEscapes()
    ensures EscapeAll([34]) == [92, 34] && EscapeAll([92]) == [92, 92]
    ensures EscapeAll([8]) == [92, 98] && EscapeAll([12]) == [92, 102] && EscapeAll([10]) == [92, 110]
    ensures EscapeAll([13]) == [92, 114] && EscapeAll([9]) == [92, 116]
  {
    EscapeOne(34);
    EscapeOne(92);
    EscapeOne(8);
    EscapeOne(12);
    EscapeOne(10);
    EscapeOne(13);
    EscapeOne(9);
  }

  /** The other control bytes, in lower-case hex. */
  lemma ControlEscapes(c: byte)
    requires c < 0x20 && c !in {8, 9, 10, 12, 13}
    ensures EscapeAll([c]) == [92, 117, 48, 48, 48 + c / 16, if c % 16 < 10 then 48 + c % 16 else 87 + c % 16]
  {
    EscapeOne(c);
  }

  /** Everything else is printed as it is. */
  lemma PlainBytes(c: byte)
    requires c >= 0x20 && c != 34 && c != 92
    ensures EscapeAll([c]) == [c]
  {
    EscapeOne(c);
  }

  // ------------------------------------------------------------------- parsed escapes

  /** What the one-letter escapes stand for. */
  lemma EscapeLetters(rest: bytes)
    ensures ParseEscape([34] + rest) == Ok([34], rest)
    ensures ParseEscape([92] + rest) == Ok([92], rest)
    ensures ParseEscape([47] + rest) == Ok([47], rest)
    ensures ParseEscape([98] + rest) == Ok([8], rest)
    ensures ParseEscape([102] + rest) == Ok([12], rest)
    ensures ParseEscape([110] + rest) == Ok([10], rest)
    ensures ParseEscape([114] + rest) == Ok([13], rest)
    ensures ParseEscape([116] + rest) == Ok([9], rest)
  {
    hide HexDigits;
    assert forall c: byte :: ([c] + rest)[1..] == rest;
  }

  /** No other letter is accepted, nor a \u with fewer than four hex digits. */
  lemma BadEscapes(e: byte, rest: bytes)
    requires e !in {34, 92, 47, 98, 102, 110, 114, 116}
    requires e == 117 ==> |rest| < 4 || !IsHex(rest[0]) || !IsHex(rest[1]) || !IsHex(rest[2]) || !IsHex(rest[3])
    ensures ParseEscape([e] + rest).Bad?
  {
    assert ([e] + rest)[1..] == rest;
    if e == 117 && |rest| >= 4 {
      BadHex(rest, 4, 0);
    }
  }

  lemma {:induction false} BadHex(s: bytes, count: nat, v: nat)
    requires count <= |s| && exists i :: 0 <= i < count && !IsHex(s[i])
    ensures HexDigits(s, count, v).Bad?
    decreases count
  {
    if IsHex(s[0]) {
      var i :| 0 <= i < count && !IsHex(s[i]);
      assert s[1..][i - 1] == s[i];
      BadHex(s[1..], count - 1, v * 16 + HexVal(s[0]));
    }
  }

  /** Inside a string every byte but quote and backslash stands for itself; a quote ends it; the end of the text does not. */
  lemma StringBytes(c: byte, s: bytes, out: bytes)
    ensures ParseChars([c] + s, out) ==
            if c == 34 then Ok(out, s)
            else if c != 92 then ParseChars(s, out + [c])
            else if ParseEscape(s).Ok? then ParseChars(ParseEscape(s).rest, out + ParseEscape(s).value)
            else Bad(ParseEscape(s).rest)
    ensures ParseChars([], out).Bad?
  {
    hide ParseEscape;
    TailOfCons(c, s);
  }

  /** White space is blank, tab, line feed, vertical tab, form feed and carriage return, as `std::isspace` has it. */
  lemma SpaceBytes(c: byte, s: bytes)
    ensures SkipWs([c] + s) == if c in {32, 9, 10, 11, 12, 13} then SkipWs(s) else [c] + s
  {
    TailOfCons(c, s);
  }

  // ----------------------------------------------------------------- literals and brackets

  /** null, true, false, [] and {} as bytes, both ways. */
  lemma LiteralTexts(st: Style, depth: nat)
    ensures Print(SNull, st, depth) == [110, 117, 108, 108]
    ensures Print(SBool(true), st, depth) == [116, 114, 117, 101]
    ensures Print(SBool(false), st, depth) == [102, 97, 108, 115, 101]
    ensures Print(SArray([]), st, depth) == [91, 93] && Print(SObject([]), st, depth) == [123, 125]
  {
  }

  // ----------------------------------------------------------------------------- layout

  function Blanks(n: nat): bytes {
    seq(n, _ => 32)
  }

  lemma {:induction false} SpacesAreBlanks(n: nat)
    ensures Spaces(n) == Blanks(n)
  {
    if n > 0 {
      SpacesAreBlanks(n - 1);
      assert Blanks(n) == [32] + Blanks(n - 1);
    }
  }

  /** Lines joined by a separator. */
  function Joined(lines: seq<bytes>, sep: bytes): bytes {
    if lines == [] then []
    else if |lines| == 1 then lines[0]
    else lines[0] + (sep + Joined(lines[1..], sep))
  }

  /** The layout of a list: on one line, or one line per element, indented, the closing bracket on its own. */
  function Listing(open: byte, lines: seq<bytes>, close: byte, pretty: bool, indent: nat, depth: nat): bytes {
    if pretty then [open, 10] + (Joined(lines, [44, 10]) + ([10] + (Blanks(depth * indent) + [close])))
    else [open] + (Joined(lines, [44]) + [close])
  }

  function Lead(pretty: bool, indent: nat, depth: nat): bytes {
    if pretty then Blanks((depth + 1) * indent) else []
  }

  function ItemLines(items: seq<Stored>, pretty: bool, indent: nat, depth: nat): seq<bytes> {
    if items == [] then []
    else [Lead(pretty, indent, depth) + Print(items[0], Style(pretty, indent), depth + 1)]
         + ItemLines(items[1..], pretty, indent, depth)
  }

  function MemberLines(members: seq<Member>, pretty: bool, indent: nat, depth: nat): seq<bytes> {
    if members == [] then []
    else [Lead(pretty, indent, depth) + (Quoted(members[0].key) + ((if pretty then [58, 32] else [58])
          + Print(members[0].value, Style(pretty, indent), depth + 1)))]
         + MemberLines(members[1..], pretty, indent, depth)
  }

  lemma JoinedStep(line: bytes, lines: seq<bytes>, sep: bytes)
    ensures Joined([line] + lines, sep) == if lines == [] then line else line + (sep + Joined(lines, sep))
  {
    TailOfCons(line, lines);
    if lines == [] {
      AppendNothing([line]);
    }
  }

  lemma LeadIsIndent(pretty: bool, indent: nat, depth: nat)
    ensures Indent(Style(pretty, indent), depth + 1) == Lead(pretty, indent, depth)
    ensures pretty ==> Indent(Style(pretty, indent), depth) == Blanks(depth * indent)
  {
    SpacesAreBlanks((depth + 1) * indent);
    SpacesAreBlanks(depth * indent);
  }

  function Newline(pretty: bool): bytes {
    if pretty then [10] else []
  }

  lemma LineText(lead: bytes, p: bytes, last: bool, pretty: bool, indent: nat, more: bytes)
    ensures lead + (p + (Separator(last, Style(pretty, indent)) + more))
         == if last then (lead + p) + (Newline(pretty) + more) else (lead + p) + (([44] + Newline(pretty)) + more)
  {
    AppendNothing(LineEnd(Style(pretty, indent)));
    Assoc(lead, p, Separator(last, Style(pretty, indent)) + more);
  }

  lemma {:induction false} ItemsAreJoined(items: seq<Stored>, pretty: bool, indent: nat, depth: nat)
    requires items != []
    ensures PrintItems(items, Style(pretty, indent), depth)
         == Joined(ItemLines(items, pretty, indent, depth), [44] + Newline(pretty)) + Newline(pretty)
    decreases |items|
  {
    var st, lines := Style(pretty, indent), ItemLines(items[1..], pretty, indent, depth);
    var lead, p := Lead(pretty, indent, depth), Print(items[0], st, depth + 1);
    LeadIsIndent(pretty, indent, depth);
    PrintItemsUnfold(items, st, depth);
    LineText(lead, p, |items| == 1, pretty, indent, PrintItems(items[1..], st, depth));
    JoinedStep(lead + p, lines, [44] + Newline(pretty));
    assert items[1..] == [] ==> lines == [] && PrintItems(items[1..], st, depth) == [];
    assert items[1..] != [] ==> lines != [];
    hide Print, PrintItems, Lead, Newline, Joined;
    AppendNothing(Newline(pretty));
    if |items| > 1 {
      ItemsAreJoined(items[1..], pretty, indent, depth);
      JoinText(lead + p, [44] + Newline(pretty), Joined(lines, [44] + Newline(pretty)), Newline(pretty));
    }
  }

  lemma JoinText(line: bytes, sep: bytes, more: bytes, nl: bytes)
    ensures line + (sep + (more + nl)) == (line + (sep + more)) + nl
  {
  }

  lemma {:induction false} MembersAreJoined(members: seq<Member>, pretty: bool, indent: nat, depth: nat)
    requires members != []
    ensures PrintMembers(members, Style(pretty, indent), depth)
         == Joined(MemberLines(members, pretty, indent, depth), [44] + Newline(pretty)) + Newline(pretty)
    decreases |members|
  {
    var st, lines := Style(pretty, indent), MemberLines(members[1..], pretty, indent, depth);
    var value := Print(members[0].value, st, depth + 1);
    var lead, p := Lead(pretty, indent, depth), Quoted(members[0].key) + ((if pretty then [58, 32] else [58]) + value);
    LeadIsIndent(pretty, indent, depth);
    PrintMembersUnfold(members, st, depth);
    var more := Separator(|members| == 1, st) + PrintMembers(members[1..], st, depth);
    MemberLineText(Quoted(members[0].key), pretty, value, more);
    LineText(lead, p, |members| == 1, pretty, indent, PrintMembers(members[1..], st, depth));
    JoinedStep(lead + p, lines, [44] + Newline(pretty));
    assert members[1..] == [] ==> lines == [] && PrintMembers(members[1..], st, depth) == [];
    assert members[1..] != [] ==> lines != [];
    assert Gap(st) == if pretty then [32] else [];
    hide Print, PrintMembers, Lead, Newline, Joined, Quoted, Gap, Separator;
    AppendNothing(Newline(pretty));
    if |members| > 1 {
      MembersAreJoined(members[1..], pretty, indent, depth);
      JoinText(lead + p, [44] + Newline(pretty), Joined(lines, [44] + Newline(pretty)), Newline(pretty));
    }
  }

  lemma MemberLineText(q: bytes, pretty: bool, value: bytes, more: bytes)
    ensures q + ([58] + ((if pretty then [32] else []) + (value + more)))
         == (q + ((if pretty then [58, 32] else [58]) + value)) + more
  {
  }

  /**
   The layout of arrays. Compact text is the elements between brackets with a comma between
   them and nothing else; pretty text has one line per element.
   */
  lemma ArrayLayout(items: seq<Stored>, pretty: bool, indent: nat, depth: nat)
    requires items != []
    ensures Print(SArray(items), Style(pretty, indent), depth)
         == Listing(91, ItemLines(items, pretty, indent, depth), 93, pretty, indent, depth)
  {
    ItemsAreJoined(items, pretty, indent, depth);
    LeadIsIndent(pretty, indent, depth);
    hide PrintItems, ItemLines;
    ListingText(91, ItemLines(items, pretty, indent, depth), 93, pretty, indent, depth);
  }

  /** The layout of objects: the same with a key, a colon and, in pretty text, a blank before each value. */
  lemma ObjectLayout(members: seq<Member>, pretty: bool, indent: nat, depth: nat)
    requires members != []
    ensures Print(SObject(members), Style(pretty, indent), depth)
         == Listing(123, MemberLines(members, pretty, indent, depth), 125, pretty, indent, depth)
  {
    MembersAreJoined(members, pretty, indent, depth);
    LeadIsIndent(pretty, indent, depth);
    hide PrintMembers, MemberLines;
    ListingText(123, MemberLines(members, pretty, indent, depth), 125, pretty, indent, depth);
  }

  lemma ListingText(open: byte, lines: seq<bytes>, close: byte, pretty: bool, indent: nat, depth: nat)
    ensures var nl := Newline(pretty);
            [open] + (nl + (Joined(lines, [44] + nl) + nl) + (if pretty then Blanks(depth * indent) else [])) + [close]
            == Listing(open, lines, close, pretty, indent, depth)
  {
    hide Joined, Blanks;
    assert [44] + [10] == [44, 10] && [44] + [] == [44];
  }

  // ------------------------------------------------------ compact text has no white space

  predicate NoBlank(t: bytes) {
    forall i :: 0 <= i < |t| ==> t[i] > 32
  }

  /** What is left of a text behind the end of the string it is in. */
  function BehindString(t: bytes): (r: bytes)
    ensures |r| <= |t|
    decreases |t|
  {
    if t == [] then []
    else if t[0] == 34 then t[1..]
    else if t[0] == 92 && |t| >= 2 then BehindString(t[2..])
    else BehindString(t[1..])
  }

  /** The bytes of a text that are not part of a string. */
  function Outside(t: bytes): bytes
    decreases |t|
  {
    if t == [] then []
    else if t[0] == 34 then Outside(BehindString(t[1..]))
    else [t[0]] + Outside(t[1..])
  }

  lemma {:induction false} BehindChars(inner: bytes, u: bytes)
    requires Chars(inner)
    ensures BehindString(inner + ([34] + u)) == u
    decreases |inner|
  {
    var t := inner + ([34] + u);
    if inner == [] {
      assert t == [34] + u;
      TailOfCons(34, u);
    } else if inner[0] != 92 {
      assert t[1..] == inner[1..] + ([34] + u);
      BehindChars(inner[1..], u);
    } else if inner[1] != 117 {
      assert t[2..] == inner[2..] + ([34] + u);
      BehindChars(inner[2..], u);
    } else {
      BehindUnicode(inner, u);
      BehindChars(inner[6..], u);
    }
  }

  lemma BehindUnicode(inner: bytes, u: bytes)
    requires |inner| >= 6 && inner[0] == 92 && inner[1] == 117
    requires IsHex(inner[2]) && IsHex(inner[3]) && IsHex(inner[4]) && IsHex(inner[5])
    ensures BehindString(inner + ([34] + u)) == BehindString(inner[6..] + ([34] + u))
  {
    var t := inner + ([34] + u);
    assert t[2..][1..] == t[3..] && t[3..][1..] == t[4..] && t[4..][1..] == t[5..] && t[5..][1..] == t[6..];
    assert BehindString(t) == BehindString(t[2..]);
    assert BehindString(t[2..]) == BehindString(t[3..]);
    assert BehindString(t[3..]) == BehindString(t[4..]);
    assert BehindString(t[4..]) == BehindString(t[5..]);
    assert BehindString(t[5..]) == BehindString(t[6..]);
    assert t[6..] == inner[6..] + ([34] + u);
  }

  lemma OutsideQuoted(s: bytes, u: bytes)
    ensures Outside(Quoted(s) + u) == Outside(u)
  {
    var inner := QuotedIsString(s);
    hide Chars, Quoted, BehindString;
    assert ([34] + inner + [34]) + u == [34] + (inner + ([34] + u));
    TailOfCons(34, inner + ([34] + u));
    BehindChars(inner, u);
  }

  predicate Visible(t: bytes) {
    forall i :: 0 <= i < |t| ==> t[i] > 32 && t[i] != 34
  }

  lemma {:induction false} OutsideVisible(t: bytes, u: bytes)
    requires Visible(t) && NoBlank(Outside(u))
    ensures NoBlank(Outside(t + u))
  {
    if t == [] {
      AppendNothing(u);
    } else {
      OutsideVisible(t[1..], u);
      ConsAppends(t, u);
    }
  }

  lemma {:induction false} DigitsAreVisible(n: nat)
    ensures Visible(Digits(n)) && Digits(n) != []
  {
    if n >= 10 {
      DigitsAreVisible(n / 10);
    }
  }

  lemma NumbersAreVisible(n: int)
    ensures Visible(NumberText(n))
  {
    var a := if n < 0 then -n else n;
    DigitsAreVisible(a);
    if a >= 1_000_000 {
      ScientificIsVisible(a);
    }
    hide Digits, Scientific;
  }

  lemma ScientificIsVisible(a: nat)
    requires a >= 1_000_000
    ensures Visible(Scientific(a))
  {
    var shown, e, tail := ScientificParts(a);
    DigitsAreVisible(shown);
    DigitsAreVisible(e);
    hide Digits, Scientific;
  }

  lemma ScientificParts(a: nat) returns (shown: nat, e: nat, tail: bytes)
    requires a >= 1_000_000
    ensures |Digits(shown)| > 0
    ensures tail == [101, 43] + (if e < 10 then [48] else []) + Digits(e)
    ensures Scientific(a) == Digits(shown)[..1] + (if |Digits(shown)| > 1 then [46] + Digits(shown)[1..] else []) + tail
  {
    var e0 := |Digits(a)| - 1;
    var m0 := RoundedQuotient(a, Pow10(if e0 > 5 then e0 - 5 else 0));
    var (m, e1) := if m0 >= 1_000_000 then (m0 / 10, e0 + 1) else (m0, e0);
    shown, e := StripZeros(m), e1;
    DigitsAreVisible(a);
    DigitsAreVisible(shown);
    tail := [101, 43] + (if e < 10 then [48] else []) + Digits(e);
    hide Digits, StripZeros, RoundedQuotient, Pow10;
    assert Digits(shown)[..1] == [Digits(shown)[0]];
  }

  lemma {:induction false} CompactValue(v: Stored, indent: nat, depth: nat, u: bytes)
    requires NoBlank(Outside(u))
    ensures NoBlank(Outside(Print(v, Style(false, indent), depth) + u))
    decreases v, 1
  {
    match v
    case SNull => OutsideVisible(NULL_TEXT, u);
    case SBool(b) => OutsideVisible(TRUE_TEXT, u); OutsideVisible(FALSE_TEXT, u);
    case SNumber(n) => NumbersAreVisible(n); OutsideVisible(NumberText(n), u);
    case SString(s) => OutsideQuoted(s, u);
    case SArray(items) =>
      var st := Style(false, indent);
      OutsideVisible([93], u);
      CompactItems(items, indent, depth, [93] + u);
      hide Outside, PrintItems, NoBlank;
      assert items == [] ==> PrintItems(items, st, depth) == [] by { NoItems(st, depth); }
      BracketText(91, PrintItems(items, st, depth), 93, u);
      OutsideVisible([91], PrintItems(items, st, depth) + ([93] + u));
    case SObject(members) =>
      var st := Style(false, indent);
      OutsideVisible([125], u);
      CompactMembers(members, indent, depth, [125] + u);
      hide Outside, PrintMembers, NoBlank;
      assert members == [] ==> PrintMembers(members, st, depth) == [] by { NoItems(st, depth); }
      BracketText(123, PrintMembers(members, st, depth), 125, u);
      OutsideVisible([123], PrintMembers(members, st, depth) + ([125] + u));
  }

  lemma BracketText(open: byte, body: bytes, close: byte, u: bytes)
    ensures ([open] + ([] + body + []) + [close]) + u == [open] + (body + ([close] + u))
    ensures ([open] + [] + [close]) + u == [open] + ([] + ([close] + u))
  {
  }

  lemma {:induction false} CompactItems(items: seq<Stored>, indent: nat, depth: nat, u: bytes)
    requires NoBlank(Outside(u))
    ensures NoBlank(Outside(PrintItems(items, Style(false, indent), depth) + u))
    decreases items, 0
  {
    var st := Style(false, indent);
    if items == [] {
      AppendNothing(u);
    } else {
      CompactItems(items[1..], indent, depth, u);
      var more := PrintItems(items[1..], st, depth) + u;
      var sep := Separator(|items| == 1, st);
      OutsideVisible(sep, more);
      CompactValue(items[0], indent, depth + 1, sep + more);
      PrintItemsUnfold(items, st, depth);
      hide Outside, Print, PrintItems, Separator, NoBlank;
      ItemText(Print(items[0], st, depth + 1), sep, PrintItems(items[1..], st, depth), u);
    }
  }

  lemma ItemText(p: bytes, sep: bytes, more: bytes, u: bytes)
    ensures ([] + (p + (sep + more))) + u == p + (sep + (more + u))
  {
  }

  lemma {:induction false} CompactMembers(members: seq<Member>, indent: nat, depth: nat, u: bytes)
    requires NoBlank(Outside(u))
    ensures NoBlank(Outside(PrintMembers(members, Style(false, indent), depth) + u))
    decreases members, 0
  {
    var st := Style(false, indent);
    if members == [] {
      AppendNothing(u);
    } else {
      CompactMembers(members[1..], indent, depth, u);
      var more := PrintMembers(members[1..], st, depth) + u;
      var sep := Separator(|members| == 1, st);
      var value := Print(members[0].value, st, depth + 1);
      OutsideVisible(sep, more);
      CompactValue(members[0].value, indent, depth + 1, sep + more);
      OutsideVisible([58], value + (sep + more));
      OutsideQuoted(members[0].key, [58] + (value + (sep + more)));
      PrintMembersUnfold(members, st, depth);
      hide Outside, Print, PrintMembers, Separator, NoBlank, Quoted;
      MemberLine(Quoted(members[0].key), value, sep, PrintMembers(members[1..], st, depth), u);
    }
  }

  lemma MemberLine(q: bytes, value: bytes, sep: bytes, more: bytes, u: bytes)
    ensures ([] + (q + ([58] + ([] + (value + (sep + more)))))) + u == q + ([58] + (value + (sep + (more + u))))
  {
  }

  /** Compact text has no white space outside its strings. */
  lemma CompactHasNoBlanks(v: Stored, indent: nat)
    ensures NoBlank(Outside(ToJson(v, false, indent)))
  {
    var none: bytes := [];
    assert NoBlank(Outside(none));
    CompactValue(v, indent, 0, none);
    AppendNothing(Print(v, Style(false, indent), 0));
  }

  // --------------------------------------------------- compact text has no control bytes

  predicate NoControl(t: bytes) {
    forall i :: 0 <= i < |t| ==> t[i] >= 0x20
  }

  lemma NoControlAppends(a: bytes, b: bytes)
    requires NoControl(a) && NoControl(b)
    ensures NoControl(a + b)
  {
  }

  lemma {:induction false} ValueHasNoControl(v: Stored, indent: nat, depth: nat)
    ensures NoControl(Print(v, Style(false, indent), depth))
    decreases v, 1
  {
    match v
    case SNull =>
    case SBool(b) =>
    case SNumber(n) => NumbersAreVisible(n);
    case SString(s) => var _ := QuotedIsString(s);
    case SArray(items) => ItemsHaveNoControl(items, indent, depth);
    case SObject(members) => MembersHaveNoControl(members, indent, depth);
  }

  lemma {:induction false} ItemsHaveNoControl(items: seq<Stored>, indent: nat, depth: nat)
    ensures NoControl(PrintItems(items, Style(false, indent), depth))
    decreases items, 0
  {
    if items != [] {
      var st := Style(false, indent);
      ValueHasNoControl(items[0], indent, depth + 1);
      ItemsHaveNoControl(items[1..], indent, depth);
      hide Print;
      NoControlAppends(Separator(|items| == 1, st), PrintItems(items[1..], st, depth));
      NoControlAppends(Print(items[0], st, depth + 1), Separator(|items| == 1, st) + PrintItems(items[1..], st, depth));
    }
  }

  lemma {:induction false} MembersHaveNoControl(members: seq<Member>, indent: nat, depth: nat)
    ensures NoControl(PrintMembers(members, Style(false, indent), depth))
    decreases members, 0
  {
    if members != [] {
      var st := Style(false, indent);
      ValueHasNoControl(members[0].value, indent, depth + 1);
      MembersHaveNoControl(members[1..], indent, depth);
      var _ := QuotedIsString(members[0].key);
      hide Print, Quoted;
      var more := Separator(|members| == 1, st) + PrintMembers(members[1..], st, depth);
      NoControlAppends(Separator(|members| == 1, st), PrintMembers(members[1..], st, depth));
      NoControlAppends(Print(members[0].value, st, depth + 1), more);
    }
  }

  /** The compact text of any value holds no byte below 0x20, so it is one line whatever its strings hold. */
  lemma CompactHasNoControl(v: Stored, indent: nat)
    ensures forall i :: 0 <= i < |ToJson(v, false, indent)| ==> ToJson(v, false, indent)[i] >= 0x20
  {
    ValueHasNoControl(v, indent, 0);
    hide Print;
  }
}
