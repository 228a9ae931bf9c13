/** `extract_files_from_formdata` with its index-driven loops; uploads are collected instead of written to disk. */
module Multipart {
  import opened Bytes
  import opened UrlQuery
  import opened MultipartSpec

  /** `std::string::find` for a pattern, from a position. */
  method FindFrom(s: bytes, pat: bytes, pos: nat) returns (r: Option<nat>)
    requires pos <= |s| && pat != []
    ensures match FindIn(s[pos..], pat) {
              case None => r == None
              case Some(i) => r == Some(pos + i)
            }
  {
    var i := pos;
    while i + |pat| <= |s|
      invariant pos <= i <= |s|
      invariant match FindIn(s[i..], pat) {
                  case None => FindIn(s[pos..], pat) == None
                  case Some(k) => FindIn(s[pos..], pat) == Some(i - pos + k)
                }
    {
      DropTwice(s, i, |pat|);
      DropTwice(s, i, 1);
      if s[i..i + |pat|] == pat {
        return Some(i);
      }
      i := i + 1;
    }
    return None;
  }

  /** `trim_spaces` */
  method TrimSpaces(text: bytes) returns (s: bytes)
    ensures s == Trim(text)
  {
    s := text;
    while s != [] && Blank(s[0])
      invariant TrimLeft(s) == TrimLeft(text)
      decreases |s|
    {
      s := s[1..];
    }
    while s != [] && Blank(s[|s| - 1])
      invariant TrimRight(s) == Trim(text)
      decreases |s|
    {
      s := s[..|s| - 1];
    }
  }

  /** One turn of the attribute loop on value[p..sc]. */
  method ReadAttribute(value: bytes, p: nat, sc: nat, eqp: nat, n: Names) returns (n': Names)
    requires p <= sc <= |value| && eqp == p + IndexOf(value[p..], EQUALS)
    ensures n' == Attribute(n, value[p..sc])
  {
    hide IndexOf, Trim, TrimLeft, Unquoted;
    n' := n;
    ghost var seg := value[p..sc];
    DropTwice(value, p, sc - p);
    EqualsInSegment(value[p..], sc - p);
    if eqp < |value| && eqp < sc {
      PrefixSlices(value[p..], eqp - p, sc - p);
      DropTwice(value, p, eqp - p);
      DropThenSlice(value, p, eqp - p + 1, sc - eqp - 1);
      assert seg[..eqp - p] == value[p..eqp] && seg[eqp - p + 1..] == value[eqp + 1..sc];
      var attr := TrimSpaces(value[p..eqp]);
      var aval := ReadQuoted(value, eqp + 1, sc);
      if aval.Some? {
        if attr == NAME {
          n' := n.(field := aval.value);
        } else if attr == FILENAME {
          n' := n.(filename := aval.value);
        }
      }
    }
  }

  method ReadQuoted(value: bytes, from: nat, sc: nat) returns (r: Option<bytes>)
    requires from <= sc <= |value|
    ensures r == Unquoted(TrimLeft(value[from..sc]))
  {
    var valstart := SkipBlanks(value, from, sc);
    hide TrimLeft;
    if valstart < sc && value[valstart] == QUOTE && sc > valstart + 1 && value[sc - 1] == QUOTE {
      InnerSlice(value, valstart, sc);
      return Some(value[valstart + 1..sc - 1]);
    }
    return None;
  }

  lemma InnerSlice(s: bytes, i: nat, j: nat)
    requires i + 2 <= j <= |s|
    ensures s[i..j][1..j - i - 1] == s[i + 1..j - 1]
  {
    var t := s[i..j];
    assert forall k :: 0 <= k < |t| ==> t[k] == s[i + k];
  }

  method SkipBlanks(value: bytes, from: nat, sc: nat) returns (i: nat)
    requires from <= sc <= |value|
    ensures from <= i <= sc && value[i..sc] == TrimLeft(value[from..sc])
  {
    i := from;
    while i < sc && Blank(value[i])
      invariant from <= i <= sc
      invariant TrimLeft(value[i..sc]) == TrimLeft(value[from..sc])
    {
      assert value[i..sc][1..] == value[i + 1..sc];
      i := i + 1;
    }
  }

  /** The loop over the attributes of a Content-Disposition value. */
  method ReadDisposition(value: bytes, n: Names) returns (n': Names)
    ensures n' == Attributes(n, SplitOn(value, SEMICOLON))
  {
    n' := n;
    var p := 0;
    assert value[0..] == value;
    while p < |value|
      invariant 0 <= p <= |value|
      invariant Attributes(n', SplitOn(value[p..], SEMICOLON)) == Attributes(n, SplitOn(value, SEMICOLON))
      decreases |value| - p
    {
      hide Attribute, SplitOn, IndexOf, Attributes;
      var sc := Find(value, SEMICOLON, p);
      var eqp := Find(value, EQUALS, p);
      ghost var before := n';
      n' := ReadAttribute(value, p, sc, eqp, n');
      FirstAttribute(value, p, sc, before);
      if sc == |value| {
        return;
      }
      p := sc + 1;
    }
    NoAttribute(n', value[p..]);
  }

  lemma FirstAttribute(value: bytes, p: nat, sc: nat, n: Names)
    requires p <= |value| && sc == p + IndexOf(value[p..], SEMICOLON)
    ensures Attributes(n, SplitOn(value[p..], SEMICOLON))
         == if sc == |value| then Attribute(n, value[p..sc])
            else Attributes(Attribute(n, value[p..sc]), SplitOn(value[sc + 1..], SEMICOLON))
  {
    hide IndexOf, Attribute;
    DropTwice(value, p, sc - p);
    if sc < |value| {
      DropTwice(value, p, sc + 1 - p);
      TailOfCons(value[p..sc], SplitOn(value[sc + 1..], SEMICOLON));
    } else {
      assert value[p..|value|] == value[p..];
      assert [value[p..]][1..] == [];
      assert Attributes(Attribute(n, value[p..]), []) == Attribute(n, value[p..]);
    }
  }

  lemma NoAttribute(n: Names, rest: bytes)
    requires rest == []
    ensures Attributes(n, SplitOn(rest, SEMICOLON)) == n
  {
    assert SplitOn(rest, SEMICOLON) == [[]];
    assert Attribute(n, []) == n;
    assert Attributes(n, [[]]) == Attributes(Attribute(n, []), [[]][1..]);
  }

  method ReadHeaderLine(line: bytes, n: Names) returns (n': Names)
    ensures n' == HeaderLine(n, line)
  {
    hide IndexOf, Attributes, SplitOn, LowerAll;
    n' := n;
    assert line[0..] == line;
    var colon := Find(line, COLON, 0);
    if colon == |line| {
      return;
    }
    var value := TrimSpaces(line[colon + 1..]);
    var name := LowerAll(line[..colon]);
    if name == DISPOSITION_LOWER {
      n' := ReadDisposition(value, n);
    } else if name == TYPE_LOWER {
      n' := n.(ctype := value);
    }
  }

  /** The loop over the header lines of a part. */
  method ReadHeaders(headers: bytes) returns (n: Names)
    ensures n == HeaderLines(NO_NAMES, headers)
  {
    hide HeaderLine, FindIn, HeaderLines;
    n := NO_NAMES;
    var hpos := 0;
    assert headers[0..] == headers;
    while hpos < |headers|
      invariant 0 <= hpos
      invariant HeaderLines(NO_NAMES, headers) == if hpos <= |headers| then HeaderLines(n, headers[hpos..]) else n
      decreases |headers| - hpos
    {
      var found := FindFrom(headers, CRLF, hpos);
      HeaderTurn(n, headers, hpos);
      var lineEnd := if found.Some? then found.value else |headers|;
      var line := headers[hpos..lineEnd];
      hpos := lineEnd + 2;
      if line == [] {
        return;
      }
      n := ReadHeaderLine(line, n);
    }
    if hpos == |headers| {
      NoHeaders(n, headers[hpos..]);
    }
  }

  lemma NoHeaders(n: Names, rest: bytes)
    requires rest == []
    ensures HeaderLines(n, rest) == n
  {
  }

  lemma HeaderTurn(n: Names, headers: bytes, hpos: nat)
    requires hpos < |headers|
    ensures HeaderLines(n, headers[hpos..]) ==
            match FindIn(headers[hpos..], CRLF) {
              case None => HeaderLine(n, headers[hpos..|headers|])
              case Some(i) =>
                if i == 0 then n
                else HeaderLines(HeaderLine(n, headers[hpos..hpos + i]), headers[hpos + i + 2..])
            }
  {
    hide HeaderLine, FindIn;
    match FindIn(headers[hpos..], CRLF)
    case None => assert headers[hpos..|headers|] == headers[hpos..];
    case Some(i) =>
      DropTwice(headers, hpos, i);
      DropTwice(headers, hpos, i + 2);
  }

  /** A part behind its delimiter line, which starts at `start`. */
  method ReadPart(body: bytes, delim: bytes, start: nat) returns (ok: bool, names: Names, content: bytes, next: nat)
    requires start <= |body|
    ensures match OnePart(body[start..], delim) {
              case None => !ok
              case Some(p) => ok && next <= |body| && names == p.names && content == p.content && body[next..] == p.rest
            }
  {
    hide FindIn, HeaderLines, Strip;
    ok, names, content, next := false, NO_NAMES, [], 0;
    var headerEnd := FindFrom(body, CRLFCRLF, start);
    if headerEnd.None? {
      return;
    }
    DropTwice(body, start, headerEnd.value - start);
    var contentStart := headerEnd.value + 4;
    DropTwice(body, start, contentStart - start);
    var partEnd := FindFrom(body, CRLF + delim, contentStart);
    if partEnd.None? {
      return;
    }
    DropTwice(body, contentStart, partEnd.value - contentStart);
    next := partEnd.value + 2;
    DropTwice(body, contentStart, next - contentStart);
    content := Strip(body[contentStart..partEnd.value]);
    names := ReadHeaders(body[start..headerEnd.value]);
    ok := true;
  }

  /** The body of the loop over the parts, at `pos`; `done` means that the function returns. */
  method NextPart(body: bytes, delim: bytes, pos: nat, f: Form) returns (done: bool, f': Form, next: nat)
    requires pos <= |body| && delim != []
    ensures next <= |body| && (done ==> f' == Parts(body[pos..], delim, f))
    ensures !done ==> pos < next && Parts(body[next..], delim, f') == Parts(body[pos..], delim, f)
  {
    hide FindIn, OnePart, Store, Parts;
    done, f', next := true, f, pos;
    var found := FindFrom(body, delim, pos);
    PartsFrom(body, delim, pos, f);
    if found.None? {
      return;
    }
    var start := found.value + |delim|;
    if start + 2 <= |body| && body[start..start + 2] == DASHES {
      return;
    }
    if !(start + 2 <= |body| && body[start..start + 2] == CRLF) {
      f' := f.(ok := false);
      return;
    }
    var ok, names, content;
    var after;
    ok, names, content, after := ReadPart(body, delim, start + 2);
    if !ok {
      f' := f.(ok := false);
      return;
    }
    done, f', next := false, Store(f, names, content), after;
  }

  /** `extract_files_from_formdata` */
  method ExtractForm(body: bytes, boundary: bytes, fields: map<bytes, bytes>) returns (f: Form)
    ensures f == Extract(body, boundary, fields)
  {
    hide Parts;
    if boundary == [] {
      return Form(false, fields, []);
    }
    f := Form(true, fields, []);
    var delim := DASHES + boundary;
    var pos, done := 0, false;
    assert body[0..] == body;
    while !done
      invariant pos <= |body|
      invariant Extract(body, boundary, fields) == if done then f else Parts(body[pos..], delim, f)
      decreases !done, |body| - pos
    {
      done, f, pos := NextPart(body, delim, pos, f);
    }
  }

  /** One turn of the loop over the parts, on indices into the body. */
  lemma PartsFrom(body: bytes, delim: bytes, pos: nat, f: Form)
    requires pos <= |body| && delim != []
    ensures match FindIn(body[pos..], delim) {
              case None => Parts(body[pos..], delim, f) == f
              case Some(at) =>
                var start := pos + at + |delim|;
                && start <= |body|
                && Parts(body[pos..], delim, f) ==
                   if start + 2 <= |body| && body[start..start + 2] == DASHES then f
                   else if !(start + 2 <= |body| && body[start..start + 2] == CRLF) then f.(ok := false)
                   else
                     match OnePart(body[start + 2..], delim) {
                       case None => f.(ok := false)
                       case Some(p) => Parts(p.rest, delim, Store(f, p.names, p.content))
                     }
            }
  {
    hide FindIn, OnePart, Store;
    match FindIn(body[pos..], delim)
    case None =>
    case Some(at) =>
      var start := pos + at + |delim|;
      DropTwice(body, pos, at + |delim|);
      Starts(body, start, DASHES);
      Starts(body, start, CRLF);
      if start + 2 <= |body| {
        DropTwice(body, start, 2);
      }
  }

  lemma Starts(s: bytes, i: nat, pat: bytes)
    requires i <= |s|
    ensures pat <= s[i..] <==> i + |pat| <= |s| && s[i..i + |pat|] == pat
  {
    if i + |pat| <= |s| {
      DropTwice(s, i, |pat|);
    }
  }
}
