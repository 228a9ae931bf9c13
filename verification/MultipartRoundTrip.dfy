/** Extraction inverts the encoding of form fields. */
module MultipartRoundTrip {
  import opened Bytes
  import opened UrlQuery
  import opened MultipartSpec

  lemma {:induction false} FindsFirst(s: bytes, pat: bytes, i: nat)
    requires OccursAt(s, pat, i) && forall j: nat :: j < i ==> !OccursAt(s, pat, j)
    ensures FindIn(s, pat) == Some(i)
    decreases i
  {
    if i > 0 {
      assert !OccursAt(s, pat, 0);
      assert s[1..][i - 1..i - 1 + |pat|] == s[i..i + |pat|];
      forall j: nat | j < i - 1
        ensures !OccursAt(s[1..], pat, j)
      {
        assert !OccursAt(s, pat, j + 1);
        if j + 1 + |pat| <= |s| {
          assert s[1..][j..j + |pat|] == s[j + 1..j + 1 + |pat|];
        }
      }
      FindsFirst(s[1..], pat, i - 1);
    }
  }

  lemma {:induction false} FindsNone(s: bytes, pat: bytes)
    requires forall j: nat :: !OccursAt(s, pat, j)
    ensures FindIn(s, pat) == None
    decreases |s|
  {
    if |s| >= |pat| {
      assert !OccursAt(s, pat, 0);
      forall j: nat
        ensures !OccursAt(s[1..], pat, j)
      {
        assert !OccursAt(s, pat, j + 1);
        if j + 1 + |pat| <= |s| {
          assert s[1..][j..j + |pat|] == s[j + 1..j + 1 + |pat|];
        }
      }
      FindsNone(s[1..], pat);
    }
  }

  /** One differing byte rules an occurrence out. */
  lemma Mismatch(s: bytes, pat: bytes, j: nat, k: nat)
    requires k < |pat| && (j + k < |s| ==> s[j + k] != pat[k])
    ensures !OccursAt(s, pat, j)
  {
    if j + |pat| <= |s| {
      assert s[j..j + |pat|][k] == s[j + k];
    }
  }

  /** A pattern that starts with CR is not found before the end of a CR-free text. */
  lemma FindBehindPlain(a: bytes, pat: bytes, rest: bytes)
    requires CR !in a && pat != [] && pat[0] == CR
    ensures FindIn(a + (pat + rest), pat) == Some(|a|)
    ensures FindIn(a, pat) == None
  {
    var s := a + (pat + rest);
    assert s[|a|..|a| + |pat|] == pat;
    assert forall j :: 0 <= j < |a| ==> a[j] in a && s[j] == a[j];
    hide FindIn;
    forall j: nat | j < |a|
      ensures !OccursAt(s, pat, j)
    {
      Mismatch(s, pat, j, 0);
    }
    FindsFirst(s, pat, |a|);
    forall j: nat
      ensures !OccursAt(a, pat, j)
    {
      Mismatch(a, pat, j, 0);
    }
    FindsNone(a, pat);
  }

  /**
   The closing delimiter is found right behind the content: it does not occur inside, and as
   it holds no second CR it cannot start inside and end in the delimiter either.
   */
  lemma FindBehindContent(content: bytes, delim: bytes, rest: bytes)
    requires CR !in delim && !Contains(content, CRLF + delim)
    ensures FindIn(content + (CRLF + (delim + rest)), CRLF + delim) == Some(|content|)
  {
    hide FindIn, Contains;
    var pat := CRLF + delim;
    OneCarriageReturn(delim);
    Assoc(CRLF, delim, rest);
    FindBehindAny(content, pat, rest);
  }

  lemma OneCarriageReturn(delim: bytes)
    requires CR !in delim
    ensures var pat := CRLF + delim;
            pat[0] == CR && forall k :: 1 <= k < |pat| ==> pat[k] != CR
  {
  }

  lemma FindBehindAny(content: bytes, pat: bytes, rest: bytes)
    requires !Contains(content, pat)
    requires pat != [] && pat[0] == CR && forall k :: 1 <= k < |pat| ==> pat[k] != CR
    ensures FindIn(content + (pat + rest), pat) == Some(|content|)
  {
    hide FindIn, Contains;
    var s := content + (pat + rest);
    assert OccursAt(s, pat, |content|);
    forall j: nat | j < |content|
      ensures !OccursAt(s, pat, j)
    {
      NotInside(content, pat, rest, j);
    }
    FindsFirst(s, pat, |content|);
  }

  lemma NotInside(content: bytes, pat: bytes, rest: bytes, j: nat)
    requires j < |content| && !Contains(content, pat)
    requires pat != [] && pat[0] == CR && forall k :: 1 <= k < |pat| ==> pat[k] != CR
    ensures !OccursAt(content + (pat + rest), pat, j)
  {
    var s := content + (pat + rest);
    if j + |pat| <= |content| {
      assert !OccursAt(content, pat, j);
      SliceOfPrefix(content, pat + rest, j, j + |pat|);
    } else {
      assert s[|content|] == CR;
      Mismatch(s, pat, j, |content| - j);
    }
  }

  // ------------------------------------------------------------------------ headers

  lemma TrimKeeps(s: bytes)
    requires s != [] && !Blank(s[0]) && !Blank(s[|s| - 1])
    ensures Trim(s) == s && Trim([SPACE] + s) == s && TrimLeft(s) == s
  {
    TailOfCons(SPACE, s);
  }

  lemma SplitTwo(a: bytes, b: bytes)
    requires SEMICOLON !in a && SEMICOLON !in b
    ensures SplitOn(a + ([SEMICOLON] + b), SEMICOLON) == [a] + [b]
  {
    SplitSnoc(a, SEMICOLON, b);
    SplitSnoc(b, SEMICOLON, a);
  }

  lemma SplitThree(a: bytes, b: bytes, c: bytes)
    requires SEMICOLON !in a && SEMICOLON !in b && SEMICOLON !in c
    ensures SplitOn((a + ([SEMICOLON] + b)) + ([SEMICOLON] + c), SEMICOLON) == ([a] + [b]) + [c]
  {
    SplitTwo(a, b);
    SplitSnoc(a + ([SEMICOLON] + b), SEMICOLON, c);
  }

  lemma AttributeIsRead(n: Names, key: bytes, value: bytes)
    requires key == NAME || key == FILENAME
    ensures Attribute(n, AttributeText(key, value)) == if key == NAME then n.(field := value) else n.(filename := value)
  {
    KeyIsPlain(key);
    hide IndexOf, Trim, TrimLeft, Unquoted, AttributeText;
    AttributeParts(key, value);
    QuotedValue(value);
    AttributeFrom(n, AttributeText(key, value), |[SPACE] + key|, key, value);
  }

  lemma AttributeFrom(n: Names, seg: bytes, e: nat, key: bytes, value: bytes)
    requires IndexOf(seg, EQUALS) == e < |seg| && Trim(seg[..e]) == key
    requires Unquoted(TrimLeft(seg[e + 1..])) == Some(value)
    ensures Attribute(n, seg)
         == if key == NAME then n.(field := value) else if key == FILENAME then n.(filename := value) else n
  {
    hide IndexOf, Trim, TrimLeft, Unquoted;
  }

  lemma QuotedValue(value: bytes)
    ensures Unquoted(TrimLeft([QUOTE] + (value + [QUOTE]))) == Some(value)
  {
    var quoted := [QUOTE] + (value + [QUOTE]);
    TrimKeeps(quoted);
    hide TrimLeft;
    assert quoted[1..|quoted| - 1] == value;
  }

  lemma AttributeParts(key: bytes, value: bytes)
    requires key == NAME || key == FILENAME
    ensures var seg, head := AttributeText(key, value), [SPACE] + key;
            && IndexOf(seg, EQUALS) == |head| < |seg|
            && seg[..|head|] == head && seg[|head| + 1..] == [QUOTE] + (value + [QUOTE])
  {
    KeyIsPlain(key);
    hide IndexOf;
    var head, quoted := [SPACE] + key, [QUOTE] + (value + [QUOTE]);
    Assoc([SPACE], key, [EQUALS] + quoted);
    IndexAfterPlain(head, EQUALS, quoted);
    CutTwice(head, [EQUALS], quoted);
  }

  lemma KeyIsPlain(key: bytes)
    requires key == NAME || key == FILENAME
    ensures EQUALS !in [SPACE] + key && Trim([SPACE] + key) == key && NAME != FILENAME
  {
    assert |NAME| != |FILENAME|;
    TrimKeeps(key);
    hide Trim;
  }

  lemma FormDataAttribute(n: Names)
    ensures Attribute(n, FORM_DATA) == n
  {
    assert EQUALS !in FORM_DATA;
    IndexAfterPlain(FORM_DATA, EQUALS, []);
  }

  lemma LowerNames()
    ensures LowerAll(DISPOSITION) == DISPOSITION_LOWER && LowerAll(TYPE) == TYPE_LOWER
  {
  }

  lemma AttributePlain(key: bytes, value: bytes)
    requires (key == NAME || key == FILENAME) && Quotable(value)
    ensures var t := AttributeText(key, value);
            SEMICOLON !in t && CR !in t && |t| > 0 && t[|t| - 1] == QUOTE
  {
  }

  /** The header of an encoded field yields its name and no file name. */
  lemma HeaderOfField(name: bytes)
    requires Quotable(name)
    ensures HeaderLines(NO_NAMES, FieldHeader(name)) == Names(name, [], [])
    ensures CR !in FieldHeader(name)
  {
    var attr := AttributeText(NAME, name);
    AttributePlain(NAME, name);
    var value := FORM_DATA + ([SEMICOLON] + attr);
    var line := FieldHeader(name);
    DispositionLine(value, line);
    SplitTwo(FORM_DATA, attr);
    FormDataAttribute(NO_NAMES);
    AttributeIsRead(NO_NAMES, NAME, name);
    hide AttributeText, Attribute, SplitOn, FieldHeader;
    TwoAttributes(NO_NAMES, FORM_DATA, attr);
    SingleLine(NO_NAMES, line);
  }

  lemma DispositionLine(value: bytes, line: bytes)
    requires line == DISPOSITION + ([COLON] + ([SPACE] + value)) && CR !in value
    requires |value| > 9 && value[0] == 102 && value[|value| - 1] == QUOTE
    ensures CR !in line && HeaderLine(NO_NAMES, line) == Attributes(NO_NAMES, SplitOn(value, SEMICOLON))
  {
    assert COLON !in DISPOSITION && CR !in DISPOSITION;
    LowerNames();
    HeaderLineOf(DISPOSITION, value, line);
  }

  lemma SingleLine(n: Names, line: bytes)
    requires CR !in line && line != []
    ensures HeaderLines(n, line) == HeaderLine(n, line)
  {
    FindBehindPlain(line, CRLF, []);
    hide FindIn, HeaderLine;
  }

  lemma TwoLines(n: Names, l1: bytes, l2: bytes)
    requires CR !in l1 && CR !in l2 && l1 != [] && l2 != []
    ensures HeaderLines(n, l1 + (CRLF + l2)) == HeaderLine(HeaderLine(n, l1), l2)
  {
    hide FindIn, HeaderLine, HeaderLines;
    FindBehindPlain(l1, CRLF, l2);
    CutTwice(l1, CRLF, l2);
    FirstLine(n, l1 + (CRLF + l2), |l1|);
    SingleLine(HeaderLine(n, l1), l2);
  }

  lemma FirstLine(n: Names, headers: bytes, i: nat)
    requires headers != [] && i > 0 && FindIn(headers, CRLF) == Some(i)
    ensures HeaderLines(n, headers) == HeaderLines(HeaderLine(n, headers[..i]), headers[i + 2..])
  {
    hide FindIn, HeaderLine;
  }

  /** The first header line of an encoded file yields both names. */
  lemma HeaderOfFile(name: bytes, filename: bytes)
    requires Quotable(name) && Quotable(filename)
    ensures HeaderLine(NO_NAMES, FileHeader(name, filename)) == Names(name, filename, [])
    ensures CR !in FileHeader(name, filename) && FileHeader(name, filename) != []
  {
    var a, b := AttributeText(NAME, name), AttributeText(FILENAME, filename);
    AttributePlain(NAME, name);
    AttributePlain(FILENAME, filename);
    var value := (FORM_DATA + ([SEMICOLON] + a)) + ([SEMICOLON] + b);
    FileValue(a, b, value);
    DispositionLine(value, FileHeader(name, filename));
    SplitThree(FORM_DATA, a, b);
    FormDataAttribute(NO_NAMES);
    AttributeIsRead(NO_NAMES, NAME, name);
    AttributeIsRead(Names(name, [], []), FILENAME, filename);
    hide AttributeText, Attribute, SplitOn;
    ThreeAttributes(NO_NAMES, FORM_DATA, a, b);
  }

  lemma FileValue(a: bytes, b: bytes, value: bytes)
    requires value == (FORM_DATA + ([SEMICOLON] + a)) + ([SEMICOLON] + b)
    requires CR !in a && CR !in b && b != [] && b[|b| - 1] == QUOTE
    ensures CR !in value && |value| > 9 && value[0] == 102 && value[|value| - 1] == QUOTE && SEMICOLON !in FORM_DATA
  {
  }

  lemma TypeLine(n: Names, ctype: bytes)
    requires ctype != [] && CR !in ctype && !Blank(ctype[0]) && !Blank(ctype[|ctype| - 1])
    ensures HeaderLine(n, TypeHeader(ctype)) == n.(ctype := ctype)
    ensures CR !in TypeHeader(ctype) && TypeHeader(ctype) != []
  {
    var line := TypeHeader(ctype);
    TypeIsPlain();
    LowerNames();
    hide IndexOf, LowerAll, Attributes, SplitOn;
    IndexAfterPlain(TYPE, COLON, [SPACE] + ctype);
    CutFront(TYPE, [COLON] + ([SPACE] + ctype));
    TailOfCons(COLON, [SPACE] + ctype);
    DropTwice(line, |TYPE|, 1);
    TrimKeeps(ctype);
    hide Trim;
  }

  lemma TypeIsPlain()
    ensures COLON !in TYPE && CR !in TYPE && TYPE_LOWER != DISPOSITION_LOWER
  {
  }

  function NamesOf(p: Piece): Names {
    match p
    case Field(name, _) => Names(name, [], [])
    case File(name, filename, ctype, _) => Names(name, filename, ctype)
  }

  /** The header of a piece is found whole and yields its names. */
  lemma HeaderIsRead(p: Piece, delim: bytes, w: bytes)
    requires Encodable(p, delim)
    ensures HeaderLines(NO_NAMES, Header(p)) == NamesOf(p)
    ensures FindIn(Header(p) + (CRLFCRLF + w), CRLFCRLF) == Some(|Header(p)|)
  {
    hide FindIn, HeaderLines, HeaderLine, FieldHeader, FileHeader, TypeHeader, Contains;
    match p
    case Field(name, _) =>
      HeaderOfField(name);
      FindBehindPlain(FieldHeader(name), CRLFCRLF, w);
    case File(name, filename, ctype, _) =>
      HeaderOfFile(name, filename);
      var line := FileHeader(name, filename);
      if ctype == [] {
        SingleLine(NO_NAMES, line);
        FindBehindPlain(line, CRLFCRLF, w);
      } else {
        TypeLine(Names(name, filename, []), ctype);
        TwoLines(NO_NAMES, line, TypeHeader(ctype));
        FindBehindTwoLines(line, TypeHeader(ctype), w);
      }
  }

  lemma FindBehindTwoLines(l1: bytes, l2: bytes, w: bytes)
    requires CR !in l1 && CR !in l2 && l2 != []
    ensures FindIn((l1 + (CRLF + l2)) + (CRLFCRLF + w), CRLFCRLF) == Some(|l1 + (CRLF + l2)|)
  {
    var head := l1 + (CRLF + l2);
    var s := head + (CRLFCRLF + w);
    assert s[|head|..|head| + 4] == CRLFCRLF;
    forall j: nat | j < |head|
      ensures !OccursAt(s, CRLFCRLF, j)
    {
      assert s[j] == head[j];
      if j == |l1| {
        assert s[j + 2] == l2[0];
        Mismatch(s, CRLFCRLF, j, 2);
      } else {
        assert s[j] != CR;
        Mismatch(s, CRLFCRLF, j, 0);
      }
    }
    FindsFirst(s, CRLFCRLF, |head|);
  }

  lemma TwoAttributes(n: Names, a: bytes, b: bytes)
    ensures Attributes(n, [a] + [b]) == Attribute(Attribute(n, a), b)
  {
    hide Attribute;
    TailOfCons(a, [b]);
    assert [b][1..] == [];
    assert Attributes(Attribute(Attribute(n, a), b), []) == Attribute(Attribute(n, a), b);
    assert Attributes(Attribute(n, a), [b]) == Attribute(Attribute(n, a), b);
  }

  lemma ThreeAttributes(n: Names, a: bytes, b: bytes, c: bytes)
    ensures Attributes(n, ([a] + [b]) + [c]) == Attribute(Attribute(Attribute(n, a), b), c)
  {
    hide Attribute;
    assert ([a] + [b]) + [c] == [a] + ([b] + [c]);
    TailOfCons(a, [b] + [c]);
    TwoAttributes(Attribute(n, a), b, c);
  }

  lemma HeaderLineOf(name: bytes, value: bytes, line: bytes)
    requires value != [] && !Blank(value[0]) && !Blank(value[|value| - 1])
    requires line == name + ([COLON] + ([SPACE] + value)) && COLON !in name && LowerAll(name) == DISPOSITION_LOWER
    ensures HeaderLine(NO_NAMES, line) == Attributes(NO_NAMES, SplitOn(value, SEMICOLON))
  {
    hide IndexOf, LowerAll, Attributes, SplitOn;
    IndexAfterPlain(name, COLON, [SPACE] + value);
    CutFront(name, [COLON] + ([SPACE] + value));
    TailOfCons(COLON, [SPACE] + value);
    DropTwice(line, |name|, 1);
    TrimKeeps(value);
    hide Trim;
  }

  // --------------------------------------------------------------------- the theorem

  /** What a piece adds to the result. */
  function Added(f: Form, p: Piece): Form {
    match p
    case Field(name, content) => f.(fields := f.fields[name := Strip(content)])
    case File(name, filename, ctype, content) =>
      f.(files := f.files + [Upload(Names(name, filename, ctype), Strip(content))])
  }

  /** One encoded piece is one turn of the loop. */
  lemma OnePiece(p: Piece, delim: bytes, rest: bytes, f: Form)
    requires delim != [] && CR !in delim && Encodable(p, delim) && delim <= rest
    ensures Parts(delim + (CRLF + (Header(p) + (CRLFCRLF + (p.content + (CRLF + rest))))), delim, f)
         == Parts(rest, delim, Added(f, p))
  {
    hide FindIn, Header, HeaderLines, Strip, Parts, Contains;
    var head, content := Header(p), p.content;
    var w := content + (CRLF + rest);
    HeaderIsRead(p, delim, w);
    var v := head + (CRLFCRLF + w);
    var u := CRLF + v;
    FindsAtFront(delim, u);
    assert rest == delim + rest[|delim|..];
    FindBehindContent(content, delim, rest[|delim|..]);
    CutFront(delim, u);
    CutFront(CRLF, v);
    CutTwice(head, CRLFCRLF, w);
    CutTwice(content, CRLF, rest);
    OnePartOf(v, delim, |head|, w, |content|);
    PartsTurn(delim + u, delim, u, v, f);
  }

  lemma FindsAtFront(pat: bytes, rest: bytes)
    ensures FindIn(pat + rest, pat) == Some(0)
  {
  }

  lemma OnePartOf(v: bytes, delim: bytes, h: nat, w: bytes, c: nat)
    requires FindIn(v, CRLFCRLF) == Some(h) && v[h + 4..] == w && FindIn(w, CRLF + delim) == Some(c)
    ensures OnePart(v, delim) == Some(Part(HeaderLines(NO_NAMES, v[..h]), Strip(w[..c]), w[c + 2..]))
  {
    hide FindIn, HeaderLines, Strip;
  }

  lemma PartsTurn(s: bytes, delim: bytes, u: bytes, v: bytes, f: Form)
    requires delim != [] && FindIn(s, delim) == Some(0) && s[|delim|..] == u
    requires CRLF <= u && u[2..] == v && OnePart(v, delim).Some?
    ensures var p := OnePart(v, delim).value;
            Parts(s, delim, f) == Parts(p.rest, delim, Store(f, p.names, p.content))
  {
    NotClosing(u);
    hide FindIn, OnePart, Store;
  }

  lemma NotClosing(u: bytes)
    requires CRLF <= u
    ensures !(DASHES <= u)
  {
    assert u[0] == CRLF[0];
  }

  lemma CutTwice(a: bytes, b: bytes, c: bytes)
    ensures var s := a + (b + c);
            s[..|a|] == a && s[|a| + |b|..] == c
  {
  }

  lemma CutFront(a: bytes, b: bytes)
    ensures (a + b)[..|a|] == a && (a + b)[|a|..] == b && a <= a + b
  {
  }

  lemma EncodeStartsWithDelim(fs: seq<Piece>, delim: bytes, epilogue: bytes)
    ensures delim <= EncodeForm(fs, delim, epilogue)
  {
  }

  lemma {:induction false} PartsOfForm(ps: seq<Piece>, delim: bytes, epilogue: bytes, f: Form)
    requires delim != [] && CR !in delim
    requires forall i :: 0 <= i < |ps| ==> Encodable(ps[i], delim)
    ensures Parts(EncodeForm(ps, delim, epilogue), delim, f)
         == f.(fields := FieldsOf(f.fields, ps), files := f.files + FilesOf(ps))
    decreases |ps|
  {
    if ps == [] {
      var s := delim + (DASHES + epilogue);
      FindsFirst(s, delim, 0);
      CutFront(delim, DASHES + epilogue);
      CutFront(DASHES, epilogue);
      AppendNothing(f.files);
      hide FindIn;
    } else {
      var rest := EncodeForm(ps[1..], delim, epilogue);
      EncodeStartsWithDelim(ps[1..], delim, epilogue);
      OnePiece(ps[0], delim, rest, f);
      hide Parts, Header, Encodable, Strip;
      PartsOfForm(ps[1..], delim, epilogue, Added(f, ps[0]));
      FilesAdded(f, ps);
    }
  }

  lemma FilesAdded(f: Form, ps: seq<Piece>)
    requires ps != []
    ensures Added(f, ps[0]).files + FilesOf(ps[1..]) == f.files + FilesOf(ps)
  {
    hide Strip;
    AppendNothing(FilesOf(ps[1..]));
    if ps[0].File? {
      Assoc(f.files, [Upload(Names(ps[0].name, ps[0].filename, ps[0].ctype), Strip(ps[0].content))], FilesOf(ps[1..]));
    }
  }

  /**
   For every list of fields and files, extraction succeeds and yields the last-wins map of the
   fields and the files in order with their names and types, each content without one trailing
   CRLF.
   */
  lemma FormRoundTrip(ps: seq<Piece>, boundary: bytes, epilogue: bytes)
    requires boundary != [] && CR !in boundary
    requires forall i :: 0 <= i < |ps| ==> Encodable(ps[i], DASHES + boundary)
    ensures Extract(EncodeForm(ps, DASHES + boundary, epilogue), boundary, map[])
         == Form(true, FieldsOf(map[], ps), FilesOf(ps))
  {
    PartsOfForm(ps, DASHES + boundary, epilogue, Form(true, map[], []));
    AppendNothing(FilesOf(ps));
  }

  /** So a content comes back unchanged exactly when it does not end in CRLF. */
  lemma ContentSurvives(fd: Piece, boundary: bytes, epilogue: bytes)
    requires boundary != [] && CR !in boundary && Encodable(fd, DASHES + boundary) && fd.Field?
    ensures Extract(EncodeForm([fd], DASHES + boundary, epilogue), boundary, map[]).fields == map[fd.name := fd.content]
            <==> !(|fd.content| >= 2 && fd.content[|fd.content| - 2..] == CRLF)
  {
    FormRoundTrip([fd], boundary, epilogue);
    var m: map<bytes, bytes> := map[];
    var one: seq<Piece> := [fd];
    assert one[1..] == [];
    assert FieldsOf(m, one) == m[fd.name := Strip(fd.content)] by {
      assert FieldsOf(m[fd.name := Strip(fd.content)], one[1..]) == m[fd.name := Strip(fd.content)];
    }
    hide Extract, EncodeForm;
    assert map[fd.name := Strip(fd.content)][fd.name] == Strip(fd.content);
    assert map[fd.name := fd.content][fd.name] == fd.content;
  }

  /** A body that breaks off in the content of a part is refused; the pieces before it are kept. */
  lemma {:induction false} UnterminatedFails(ps: seq<Piece>, last: Piece, delim: bytes, f: Form)
    requires delim != [] && CR !in delim
    requires forall i :: 0 <= i < |ps| ==> Encodable(ps[i], delim)
    requires Encodable(last, delim)
    ensures Parts(BrokenOff(ps, last, delim), delim, f)
         == f.(ok := false, fields := FieldsOf(f.fields, ps), files := f.files + FilesOf(ps))
    decreases |ps|
  {
    if ps == [] {
      BrokenPart(last, delim, f);
      AppendNothing(f.files);
    } else {
      var rest := BrokenOff(ps[1..], last, delim);
      assert delim <= rest;
      OnePiece(ps[0], delim, rest, f);
      hide Parts, Header, Encodable, Strip;
      UnterminatedFails(ps[1..], last, delim, Added(f, ps[0]));
      FilesAdded(f, ps);
    }
  }

  /** Complete pieces, then one whose closing delimiter is missing. */
  function BrokenOff(ps: seq<Piece>, last: Piece, delim: bytes): bytes {
    if ps == [] then delim + (CRLF + (Header(last) + (CRLFCRLF + last.content)))
    else delim + (CRLF + (Header(ps[0]) + (CRLFCRLF + (ps[0].content + (CRLF + BrokenOff(ps[1..], last, delim))))))
  }

  lemma BrokenPart(last: Piece, delim: bytes, f: Form)
    requires delim != [] && CR !in delim && Encodable(last, delim)
    ensures Parts(BrokenOff([], last, delim), delim, f) == f.(ok := false)
  {
    var head, w := Header(last), last.content;
    HeaderIsRead(last, delim, w);
    hide FindIn, Header, HeaderLines, Parts, OnePart;
    var v := head + (CRLFCRLF + w);
    var u := CRLF + v;
    FindsAtFront(delim, u);
    CutFront(delim, u);
    CutFront(CRLF, v);
    CutTwice(head, CRLFCRLF, w);
    assert forall j: nat :: !OccursAt(w, CRLF + delim, j);
    FindsNone(w, CRLF + delim);
    NoPart(v, delim, |head|, w);
    PartsFail(delim + u, delim, u, v, f);
  }

  lemma NoPart(v: bytes, delim: bytes, h: nat, w: bytes)
    requires FindIn(v, CRLFCRLF) == Some(h) && v[h + 4..] == w && FindIn(w, CRLF + delim) == None
    ensures OnePart(v, delim) == None
  {
    hide FindIn, HeaderLines, Strip;
  }

  lemma PartsFail(s: bytes, delim: bytes, u: bytes, v: bytes, f: Form)
    requires delim != [] && FindIn(s, delim) == Some(0) && s[|delim|..] == u
    requires CRLF <= u && u[2..] == v && OnePart(v, delim) == None
    ensures Parts(s, delim, f) == f.(ok := false)
  {
    NotClosing(u);
    hide FindIn, OnePart, Store;
  }

  // ------------------------------------------------------------------ the encoding in ASCII

  /** The words of the headers, and the characters between them. */
  lemma HeaderWords()
    ensures DISPOSITION == Text("Content-Disposition") && TYPE == Text("Content-Type")
    ensures FORM_DATA == Text("form-data") && NAME == Text("name") && FILENAME == Text("filename")
    ensures [COLON, SPACE, SEMICOLON, EQUALS, QUOTE] == Text(": ;=\"")
  {
  }

  /** Lines end in CR LF, the delimiter is the boundary behind two dashes, and two more dashes end the form. */
  lemma FormTexts(p: Piece, delim: bytes, epilogue: bytes)
    ensures EncodeForm([], delim, epilogue) == delim + ([45, 45] + epilogue)
    ensures EncodeForm([p], delim, epilogue)
         == delim + ([13, 10] + (Header(p) + ([13, 10, 13, 10] + (p.content + ([13, 10] + EncodeForm([], delim, epilogue))))))
    ensures DASHES == [45, 45]
  {
    var one: seq<Piece> := [p];
    assert one[1..] == [];
  }

  /** Header names count in any case: letters A to Z are read as a to z, nothing else changes. */
  lemma AnyCase(s: bytes, i: nat)
    requires i < |s|
    ensures |LowerAll(s)| == |s|
    ensures LowerAll(s)[i] == if 'A' as int <= s[i] <= 'Z' as int then s[i] + 32 else s[i]
  {
  }

  /** Blanks and tabs around a text go, and only those. */
  lemma TrimmedText(before: bytes, s: bytes, after: bytes)
    requires forall i :: 0 <= i < |before| ==> before[i] == 32 || before[i] == 9
    requires forall i :: 0 <= i < |after| ==> after[i] == 32 || after[i] == 9
    requires s != [] && s[0] != 32 && s[0] != 9 && s[|s| - 1] != 32 && s[|s| - 1] != 9
    ensures Trim(before + (s + after)) == s
  {
    TrimmedLeft(before, s + after);
    TrimmedRight(s, after);
  }

  lemma {:induction false} TrimmedLeft(before: bytes, s: bytes)
    requires forall i :: 0 <= i < |before| ==> before[i] == 32 || before[i] == 9
    requires s != [] && s[0] != 32 && s[0] != 9
    ensures TrimLeft(before + s) == s
  {
    if before == [] {
      AppendNothing(s);
    } else {
      ConsAppends(before, s);
      TrimmedLeft(before[1..], s);
    }
  }

  lemma {:induction false} TrimmedRight(s: bytes, after: bytes)
    requires forall i :: 0 <= i < |after| ==> after[i] == 32 || after[i] == 9
    requires s != [] && s[|s| - 1] != 32 && s[|s| - 1] != 9
    ensures TrimRight(s + after) == s
    decreases |after|
  {
    if after == [] {
      AppendNothing(s);
    } else {
      var less := after[..|after| - 1];
      assert (s + after)[..|s + after| - 1] == s + less;
      TrimmedRight(s, less);
    }
  }

  /** A delimiter that neither ends its line nor the form is an error, and so is an empty boundary. */
  lemma MalformedForm(delim: bytes, u: bytes, f: Form, body: bytes, fields: map<bytes, bytes>)
    requires delim != [] && !([13, 10] <= u) && !([45, 45] <= u)
    ensures Parts(delim + u, delim, f) == f.(ok := false)
    ensures Extract(body, [], fields) == Form(false, fields, [])
  {
    FindsAtFront(delim, u);
    CutFront(delim, u);
    hide FindIn, OnePart;
  }
}
