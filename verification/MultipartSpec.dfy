/**
 multipart/form-data as `extract_files_from_formdata` reads it, on the unread suffix of the
 body, and the encoding of section 5.1.1 of RFC 2046 that it has to invert.
 */
module MultipartSpec {
  import opened Bytes
  import opened UrlQuery

  const CR: byte := 13
  const TAB: byte := 9
  const SEMICOLON: byte := 59

  const CRLF: bytes := [CR, LF]
  const CRLFCRLF: bytes := [CR, LF, CR, LF]
  const DASHES: bytes := [MINUS, MINUS]

  /** Content-Disposition, Content-Type, the same in lower case, form-data, name, filename */
  const DISPOSITION: bytes := [67, 111, 110, 116, 101, 110, 116, 45, 68, 105, 115, 112, 111, 115, 105, 116, 105, 111, 110]
  const DISPOSITION_LOWER: bytes := [99, 111, 110, 116, 101, 110, 116, 45, 100, 105, 115, 112, 111, 115, 105, 116, 105, 111, 110]
  const TYPE: bytes := [67, 111, 110, 116, 101, 110, 116, 45, 84, 121, 112, 101]
  const TYPE_LOWER: bytes := [99, 111, 110, 116, 101, 110, 116, 45, 116, 121, 112, 101]
  const FORM_DATA: bytes := [102, 111, 114, 109, 45, 100, 97, 116, 97]
  const NAME: bytes := [110, 97, 109, 101]
  const FILENAME: bytes := [102, 105, 108, 101, 110, 97, 109, 101]

  // -------------------------------------------------------------- substring search

  predicate OccursAt(s: bytes, pat: bytes, i: nat) {
    i + |pat| <= |s| && s[i..i + |pat|] == pat
  }

  /** First occurrence of a pattern. */
  function FindIn(s: bytes, pat: bytes): (r: Option<nat>)
    ensures r.Some? ==> r.value + |pat| <= |s|
  {
    if |s| < |pat| then None
    else if pat <= s then Some(0)
    else
      match FindIn(s[1..], pat)
      case None => None
      case Some(i) => Some(i + 1)
  }

  // ------------------------------------------------------------------------ headers

  predicate Blank(c: byte) {
    c == SPACE || c == TAB
  }

  function TrimLeft(s: bytes): (t: bytes)
    ensures |t| <= |s|
  {
    if s != [] && Blank(s[0]) then TrimLeft(s[1..]) else s
  }

  function TrimRight(s: bytes): bytes {
    if s != [] && Blank(s[|s| - 1]) then TrimRight(s[..|s| - 1]) else s
  }

  function Trim(s: bytes): bytes {
    TrimRight(TrimLeft(s))
  }

  function Lower(c: byte): byte {
    if 65 <= c <= 90 then c + 32 else c
  }

  function LowerAll(s: bytes): bytes {
    seq(|s|, i requires 0 <= i < |s| => Lower(s[i]))
  }

  /** What the headers of a part say. */
  datatype Names = Names(field: bytes, filename: bytes, ctype: bytes)

  function Unquoted(v: bytes): Option<bytes> {
    if |v| >= 2 && v[0] == QUOTE && v[|v| - 1] == QUOTE then Some(v[1..|v| - 1]) else None
  }

  /** One attribute of a Content-Disposition value, such as name="x". */
  function Attribute(n: Names, segment: bytes): Names {
    var e := IndexOf(segment, EQUALS);
    if e == |segment| then n
    else
      var attr := Trim(segment[..e]);
      match Unquoted(TrimLeft(segment[e + 1..]))
      case None => n
      case Some(v) =>
        if attr == NAME then n.(field := v)
        else if attr == FILENAME then n.(filename := v)
        else n
  }

  function Attributes(n: Names, segments: seq<bytes>): Names
    decreases |segments|
  {
    if segments == [] then n else Attributes(Attribute(n, segments[0]), segments[1..])
  }

  function HeaderLine(n: Names, line: bytes): Names {
    var colon := IndexOf(line, COLON);
    if colon == |line| then n
    else
      var name, value := LowerAll(line[..colon]), Trim(line[colon + 1..]);
      if name == DISPOSITION_LOWER then Attributes(n, SplitOn(value, SEMICOLON))
      else if name == TYPE_LOWER then n.(ctype := value)
      else n
  }

  /** The lines of a header block up to the first empty one. */
  function HeaderLines(n: Names, headers: bytes): Names
    decreases |headers|
  {
    if headers == [] then n
    else
      match FindIn(headers, CRLF)
      case None => HeaderLine(n, headers)
      case Some(0) => n
      case Some(i) => HeaderLines(HeaderLine(n, headers[..i]), headers[i + 2..])
  }

  // -------------------------------------------------------------------------- parts

  datatype Upload = Upload(names: Names, content: bytes)

  datatype Form = Form(ok: bool, fields: map<bytes, bytes>, files: seq<Upload>)

  /** A trailing CRLF of the content is dropped. */
  function Strip(content: bytes): bytes {
    if |content| >= 2 && content[|content| - 2..] == CRLF then content[..|content| - 2] else content
  }

  function Store(f: Form, n: Names, content: bytes): Form {
    if n.filename == [] then f.(fields := f.fields[n.field := content])
    else f.(files := f.files + [Upload(n, content)])
  }

  const NO_NAMES := Names([], [], [])

  datatype Part = Part(names: Names, content: bytes, rest: bytes)

  /** A part behind its delimiter line: headers, empty line, content up to the next delimiter. */
  function OnePart(v: bytes, delim: bytes): (r: Option<Part>)
    ensures r.Some? ==> |r.value.rest| < |v|
  {
    match FindIn(v, CRLFCRLF)
    case None => None
    case Some(h) =>
      var w := v[h + 4..];
      match FindIn(w, CRLF + delim)
      case None => None
      case Some(c) => Some(Part(HeaderLines(NO_NAMES, v[..h]), Strip(w[..c]), w[c + 2..]))
  }

  /** The loop over the parts; `ok` becomes false when a part is malformed. */
  function Parts(s: bytes, delim: bytes, f: Form): Form
    requires delim != []
    decreases |s|
  {
    match FindIn(s, delim)
    case None => f
    case Some(at) =>
      var u := s[at + |delim|..];
      if DASHES <= u then f
      else if !(CRLF <= u) then f.(ok := false)
      else
        match OnePart(u[2..], delim)
        case None => f.(ok := false)
        case Some(p) => Parts(p.rest, delim, Store(f, p.names, p.content))
  }

  function Extract(body: bytes, boundary: bytes, fields: map<bytes, bytes>): Form {
    if boundary == [] then Form(false, fields, [])
    else Parts(body, DASHES + boundary, Form(true, fields, []))
  }

  // ----------------------------------------------------------------------- encoding

  /** What a browser sends: form fields, and files with or without a content type. */
  datatype Piece =
    | Field(name: bytes, content: bytes)
    | File(name: bytes, filename: bytes, ctype: bytes, content: bytes)

  /** key="value" behind a blank */
  function AttributeText(key: bytes, value: bytes): bytes {
    [SPACE] + (key + ([EQUALS] + ([QUOTE] + (value + [QUOTE]))))
  }

  function FieldHeader(name: bytes): bytes {
    DISPOSITION + ([COLON] + ([SPACE] + (FORM_DATA + ([SEMICOLON] + AttributeText(NAME, name)))))
  }

  function FileHeader(name: bytes, filename: bytes): bytes {
    DISPOSITION + ([COLON] + ([SPACE]
    + ((FORM_DATA + ([SEMICOLON] + AttributeText(NAME, name))) + ([SEMICOLON] + AttributeText(FILENAME, filename)))))
  }

  function TypeHeader(ctype: bytes): bytes {
    TYPE + ([COLON] + ([SPACE] + ctype))
  }

  function Header(p: Piece): bytes {
    match p
    case Field(name, _) => FieldHeader(name)
    case File(name, filename, ctype, _) =>
      if ctype == [] then FileHeader(name, filename) else FileHeader(name, filename) + (CRLF + TypeHeader(ctype))
  }

  function EncodeForm(ps: seq<Piece>, delim: bytes, epilogue: bytes): bytes {
    if ps == [] then delim + (DASHES + epilogue)
    else delim + (CRLF + (Header(ps[0]) + (CRLFCRLF + (ps[0].content + (CRLF + EncodeForm(ps[1..], delim, epilogue))))))
  }

  ghost predicate Contains(s: bytes, pat: bytes) {
    exists i: nat :: OccursAt(s, pat, i)
  }

  predicate Quotable(v: bytes) {
    CR !in v && SEMICOLON !in v
  }

  /** What the encoding needs of a piece so that it can be read back. */
  ghost predicate Encodable(p: Piece, delim: bytes) {
    && Quotable(p.name)
    && !Contains(p.content, CRLF + delim)
    && (p.File? ==>
          && Quotable(p.filename) && p.filename != [] && CR !in p.ctype
          && (p.ctype != [] ==> !Blank(p.ctype[0]) && !Blank(p.ctype[|p.ctype| - 1])))
  }

  /** The fields among the pieces, a later one replacing an earlier one of the same name. */
  function FieldsOf(m: map<bytes, bytes>, ps: seq<Piece>): map<bytes, bytes>
    decreases |ps|
  {
    if ps == [] then m
    else FieldsOf(if ps[0].Field? then m[ps[0].name := Strip(ps[0].content)] else m, ps[1..])
  }

  /** The files among the pieces, in order. */
  function FilesOf(ps: seq<Piece>): seq<Upload> {
    if ps == [] then []
    else (if ps[0].File? then [Upload(Names(ps[0].name, ps[0].filename, ps[0].ctype), Strip(ps[0].content))] else [])
         + FilesOf(ps[1..])
  }
}
