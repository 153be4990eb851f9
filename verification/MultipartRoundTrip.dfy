/** Parsing what a client prints in the form of section 5.1.1 of RFC 2046 and section 4 of RFC 7578. */
module MultipartRoundTrip {
  import opened CStrings
  import opened Entries
  import opened VirtualStream
  import opened BoundarySearch
  import opened Delimiters
  import opened HeaderLines
  import opened Multipart
  import opened MultipartOutputs

  // ---------- Printing ----------

  /** A part as the client means it; an empty file name or content type is not printed. */
  datatype FormPart = FormPart(name: string, fileName: string, contentType: string, body: string)

  /** ` name="value` and what closes it. */
  function Field(name: string, value: string, post: string): string {
    " " + (name + ("=" + ("\"" + (value + post))))
  }

  /** What follows the value of the name. */
  function BehindName(p: FormPart, quote: string): string {
    if p.fileName == "" then quote else "\"" + (";" + Field("filename", p.fileName, quote))
  }

  /** `form-data; name="..."` or `form-data; name="..."; filename="..."`; `quote` is the last quote. */
  function DispositionUpTo(p: FormPart, quote: string): string {
    "form-data" + (";" + Field("name", p.name, BehindName(p, quote)))
  }

  function Disposition(p: FormPart): string { DispositionUpTo(p, "\"") }

  function HeaderField(attr: string, value: string, rest: string): string {
    attr + (": " + (value + ("\r\n" + rest)))
  }

  function PrintHeader(p: FormPart, rest: string): string {
    HeaderField("Content-Disposition", Disposition(p),
                if p.contentType == "" then "\r\n" + rest
                else HeaderField("Content-Type", p.contentType, "\r\n" + rest))
  }

  /** What follows a boundary and, if another part comes, its line break. */
  function PrintParts(b: string, parts: seq<FormPart>, epilogue: string): string
    decreases |parts|, 0
  {
    if parts == [] then "--" + epilogue
    else PrintHeader(parts[0], parts[0].body + ("\r\n--" + b + PrintTail(b, parts[1..], epilogue)))
  }

  function PrintTail(b: string, parts: seq<FormPart>, epilogue: string): string
    decreases |parts|, 1
  {
    (if parts == [] then "" else "\r\n") + PrintParts(b, parts, epilogue)
  }

  /** A request body. A preamble is to be ignored, and so is an epilogue. */
  function Print(b: string, preamble: string, parts: seq<FormPart>, epilogue: string): string {
    preamble + ("--" + b + PrintTail(b, parts, epilogue))
  }

  /** The entry of a part: the body of an upload is in its file, any other body in the value. */
  function Expected(p: FormPart): FormEntry {
    FormEntry(p.name, if p.fileName == "" then p.body else "", |p.body|, p.fileName, p.contentType,
              if p.fileName == "" then None else Some(p.body))
  }

  function ExpectedAll(parts: seq<FormPart>): seq<FormEntry> {
    if parts == [] then [] else [Expected(parts[0])] + ExpectedAll(parts[1..])
  }

  // ---------- Which parts survive ----------

  /** The parts that come back unchanged. The last quote of the disposition may be cut off. */
  predicate Legal(b: string, p: FormPart) {
    && PlainText(p.name) && '\"' !in p.name
    && PlainText(p.fileName) && '\"' !in p.fileName
    && |Disposition(p)| <= 400
    && PlainText(p.contentType) && ';' !in p.contentType && |p.contentType| < 400
    && (p.contentType != "" ==> p.contentType[0] != '\"' && !IsSpace(p.contentType[0]))
    && FirstIndex(Delimiter(b, false), p.body).None?
  }

  /** Parts whose texts could have come out of the parser at all. */
  predicate Readable(p: FormPart) {
    PossibleHeader(PartHeader("form-data", p.name, p.fileName, p.contentType))
  }

  /** A field value with something but white space in it. */
  predicate FieldValue(t: string) { t != "" ==> Past(t, IsSpace) != "" }

  // ---------- Header lines ----------

  predicate Token(s: string) {
    s != "" && |s| < BUFFER_MIN && forall i :: 0 <= i < |s| ==> !IsSpace(s[i]) && s[i] != ':' && s[i] != '\0'
  }

  lemma {:induction false} HeaderName(a: string, read: string, rest: string)
    requires a != "" ==> Token(a)
    requires |read| + |a| < BUFFER_MIN
    ensures HeaderLine(a + rest, read, "", false) == HeaderLine(rest, read + a, "", false)
    decreases |a|
  {
    if a == "" {
      assert a + rest == rest && read + a == read;
    } else {
      assert (a + rest)[1..] == a[1..] + rest;
      HeaderName(a[1..], read + [a[0]], rest);
      assert read + [a[0]] + a[1..] == read + a;
    }
  }

  lemma {:induction false} HeaderValue(a: string, attr: string, read: string, rest: string)
    requires PlainText(a) && attr != "" && |read| < BUFFER_MIN
    ensures HeaderLine(a + rest, attr, read, true) == HeaderLine(rest, attr, Fit(read + a, BUFFER_MIN), true)
    decreases |a|
  {
    if a == "" {
      assert a + rest == rest && read + a == read;
    } else {
      assert (a + rest)[1..] == a[1..] + rest;
      var read' := Append(read, a[0], BUFFER_MIN);
      HeaderValue(a[1..], attr, read', rest);
      assert Fit(read' + a[1..], BUFFER_MIN) == Fit(read + a, BUFFER_MIN) by {
        assert read + [a[0]] + a[1..] == read + a;
      }
    }
  }

  lemma {:induction false} HeaderColon(attr: string, v: string)
    requires attr != ""
    ensures HeaderLine(": " + v, attr, "", false) == HeaderLine(Past(v, IsSpace), attr, "", true)
  {
    assert (": " + v)[1..] == " " + v && (" " + v)[1..] == v;
  }

  lemma {:induction false} HeaderEnd(attr: string, value: string, found: bool, rest: string)
    ensures HeaderLine("\r\n" + rest, attr, value, found) == Line(attr != "" && value != "", attr, value, rest)
  {
    assert ("\r\n" + rest)[2..] == rest;
  }

  /** A printed field is read back without white space in front; only the buffer can cut its value. */
  lemma {:induction false} PrintedField(attr: string, value: string, rest: string)
    requires Token(attr) && PlainText(value) && Past(value, IsSpace) != ""
    ensures HeaderLine(HeaderField(attr, value, rest), "", "", false)
         == Line(true, attr, Fit(Past(value, IsSpace), BUFFER_MIN), rest)
  {
    var v := Past(value, IsSpace);
    HeaderName(attr, "", ": " + (value + ("\r\n" + rest)));
    assert "" + attr == attr && "" + v == v;
    HeaderColon(attr, value + ("\r\n" + rest));
    PastWithin(value, "\r\n" + rest, IsSpace);
    RunKeeps(value, IsSpace);
    PlainPart(value, v);
    HeaderValue(v, attr, "", "\r\n" + rest);
    HeaderEnd(attr, Fit(v, BUFFER_MIN), true, rest);
  }

  // ---------- Parameters ----------

  function UpTo(s: string, c: char): (u: string)
    ensures u <= s && c !in u && (|u| < |s| ==> s[|u|] == c)
    ensures u == s <==> c !in s
  {
    if s == "" || s[0] == c then "" else [s[0]] + UpTo(s[1..], c)
  }

  predicate AllAlnum(s: string) {
    forall n :: 0 <= n < |s| ==> IsAlnum(s[n])
  }

  lemma {:induction false} ArgumentName(name: string, text: string, names: seq<string>)
    requires 0 < |name| < BUFFER_MIN && AllAlnum(name)
    requires text == "" || !IsSpace(text[0])
    ensures ArgumentAt(" " + (name + ("=" + text)), names)
         == Argument(IndexOf(names, name), Text(text), PastText(text))
  {
    var nameAt := name + ("=" + text);
    assert (" " + nameAt)[1..] == nameAt;
    assert Past(" " + nameAt, IsSpace) == Past(nameAt, IsSpace) == nameAt;
    RunOver(name, "=" + text, IsAlnum);
    assert name + "" == name;
    assert ("=" + text)[1..] == text;
  }

  lemma {:induction false} UpToSplit(s: string, c: char)
    ensures var w := s[|UpTo(s, c)|..];
            s == UpTo(s, c) + w && (w != "" ==> w[0] == c && c in s) && forall x :: x in w ==> x in s
  {
  }

  /** A quoted text is read up to its first inner quote. */
  lemma {:induction false} QuotedText(value: string, post: string)
    requires |value| < BUFFER_MIN && ('\"' in value ==> ';' !in value)
    requires post == "" || post[0] == '\"'
    ensures Text("\"" + (value + post)) == UpTo(value, '\"')
    ensures PastText("\"" + (value + post)) == Past(post, NotSemicolon)
  {
    var u := UpTo(value, '\"');
    var w := value[|u|..];
    UpToSplit(value, '\"');
    QuotedSplit(value, u, w, post);
    QuotedRun(u, w, post);
  }

  lemma {:induction false} QuotedSplit(value: string, u: string, w: string, post: string)
    requires value == u + w
    ensures ("\"" + (value + post))[1..] == u + (w + post)
  {
  }

  lemma {:induction false} QuotedRun(u: string, w: string, post: string)
    requires '\"' !in u && (w != "" ==> w[0] == '\"') && (post == "" || post[0] == '\"') && ';' !in w
    ensures Run(u + (w + post), NotQuote) == u
    ensures Past(Past(u + (w + post), NotQuote), NotSemicolon) == Past(post, NotSemicolon)
  {
    RunOver(u, w + post, NotQuote);
    assert Run(w + post, NotQuote) == "" && Past(w + post, NotQuote) == w + post;
    assert u + "" == u;
    RunOver(w, post, NotSemicolon);
  }

  const NAMES := ["name", "filename"]

  lemma {:induction false} FieldRead(name: string, value: string, post: string, names: seq<string>)
    requires 0 < |name| < BUFFER_MIN && AllAlnum(name)
    requires |value| < BUFFER_MIN && ('\"' in value ==> ';' !in value)
    requires post == "" || post[0] == '\"'
    ensures ArgumentAt(Field(name, value, post), names)
         == Argument(IndexOf(names, name), UpTo(value, '\"'), Past(post, NotSemicolon))
  {
    ArgumentName(name, "\"" + (value + post), names);
    QuotedText(value, post);
  }

  lemma {:induction false} NamesKnown()
    ensures IndexOf(NAMES, "name") == 0 && IndexOf(NAMES, "filename") == 1
    ensures AllAlnum("name") && AllAlnum("filename")
  {
    assert AllAlnum("file") && AllAlnum("name");
    assert "filename" == "file" + "name";
    assert NAMES[1..] == ["filename"];
    assert !StrEqNc("filename", "name") && StrEqNc("filename", "filename");
  }

  lemma {:induction false} OneArgument(field: string, a: nat, text: string, next: string, args: seq<string>)
    requires |args| == 2 && a < 2 && ArgumentAt(field, NAMES) == Argument(a, text, next)
    ensures Arguments(";" + field, NAMES, args) == Arguments(next, NAMES, args[a := text])
  {
    assert (";" + field)[1..] == field;
  }

  lemma {:induction false} FileNameRead(fileName: string, quote: string)
    requires quote == "" || quote == "\""
    requires ReadableText(fileName)
    ensures ArgumentAt(Field("filename", fileName, quote), NAMES) == Argument(1, UpTo(fileName, '\"'), "")
  {
    NamesKnown();
    FieldRead("filename", fileName, quote, NAMES);
    assert Past(quote, NotSemicolon) == "";
  }

  /** The second parameter, behind the quote that closes the first. */
  lemma {:induction false} SecondArgument(field: string, name: string, text: string)
    requires ArgumentAt(field, NAMES) == Argument(1, text, "")
    ensures Arguments(Past("\"" + (";" + field), NotSemicolon), NAMES, [name, ""]) == Some([name, text])
  {
    assert ("\"" + (";" + field))[1..] == ";" + field;
    OneArgument(field, 1, text, "", [name, ""]);
    assert [name, ""][1 := text] == [name, text];
  }

  lemma {:induction false} FormDataMain(field: string)
    ensures Decompose("form-data" + (";" + field), NAMES)
         == match Arguments(";" + field, NAMES, ["", ""])
            case Some(args) => Decomposed("form-data", args)
            case None => NullArgument
  {
    MainText("form-data", ";" + field);
    assert seq(2, _ => "") == ["", ""];
  }

  /** The disposition type and the first parameter. */
  lemma {:induction false} NameRead(p: FormPart, post: string)
    requires ReadableText(p.name) && (post == "" || post[0] == '\"')
    ensures Decompose("form-data" + (";" + Field("name", p.name, post)), NAMES)
         == match Arguments(Past(post, NotSemicolon), NAMES, [UpTo(p.name, '\"'), ""])
            case Some(args) => Decomposed("form-data", args)
            case None => NullArgument
  {
    var field, name := Field("name", p.name, post), UpTo(p.name, '\"');
    FormDataMain(field);
    NamesKnown();
    FieldRead("name", p.name, post, NAMES);
    OneArgument(field, 0, name, Past(post, NotSemicolon), ["", ""]);
    assert ["", ""][0 := name] == [name, ""];
  }

  /** What decomposeValue makes of a printed disposition, even if a quote is in a name. */
  lemma {:induction false} DispositionRead(p: FormPart, quote: string)
    requires quote == "" || quote == "\""
    requires ReadableText(p.name) && ReadableText(p.fileName)
    ensures Decompose(DispositionUpTo(p, quote), NAMES)
         == Decomposed("form-data", [UpTo(p.name, '\"'), UpTo(p.fileName, '\"')])
  {
    NameRead(p, BehindName(p, quote));
    if p.fileName != "" {
      FileNameRead(p.fileName, quote);
      SecondArgument(Field("filename", p.fileName, quote), UpTo(p.name, '\"'), UpTo(p.fileName, '\"'));
    } else {
      assert Past(quote, NotSemicolon) == "";
    }
  }

  lemma {:induction false} MainText(main: string, rest: string)
    requires main != "" && !IsSpace(main[0]) && main[0] != '\"' && ';' !in main && |main| < BUFFER_MIN
    requires rest == "" || rest[0] == ';'
    ensures Past(main + rest, IsSpace) == main + rest
    ensures Text(main + rest) == main && PastText(main + rest) == rest
  {
    RunOver(main, rest, NotSemicolon);
    assert main + "" == main;
  }

  lemma {:induction false} SkipAll(v: string)
    ensures Arguments(v, [], []) == Some([])
    decreases |v|
  {
    if v != "" && v[0] == ';' && ArgumentAt(v[1..], []).Argument? {
      SkipAll(ArgumentAt(v[1..], []).next);
    }
  }

  /** What the parser makes of a printed content type. */
  function TypeRead(t: string): string { Text(Past(t, IsSpace)) }

  lemma {:induction false} PastTwice(t: string)
    ensures Past(Past(t, IsSpace), IsSpace) == Past(t, IsSpace)
  {
    RunSplits(t, IsSpace);
  }

  lemma {:induction false} ContentTypeRead(t: string)
    ensures Decompose(Past(t, IsSpace), []) == Decomposed(TypeRead(t), [])
  {
    PastTwice(t);
    SkipAll(PastText(Past(t, IsSpace)));
    assert seq(0, _ => "") == [];
  }

  lemma {:induction false} TextNotLonger(v: string)
    ensures |Text(v)| <= |v|
  {
    RunSplits(v, NotSemicolon);
    if v != "" {
      RunSplits(v[1..], NotQuote);
    }
  }

  /** A content type comes back exactly if it has no white space in front and no semicolon. */
  lemma {:induction false} TypeReadIff(t: string)
    requires |t| < BUFFER_MIN && (t != "" ==> t[0] != '\"')
    ensures TypeRead(t) == t <==> t == "" || (!IsSpace(t[0]) && ';' !in t)
  {
    if t != "" {
      RunSplits(t, IsSpace);
      TextNotLonger(Past(t, IsSpace));
      RunSplits(t, NotSemicolon);
      if ';' !in t {
        RunOver(t, "", NotSemicolon);
        assert t + "" == t;
      }
    }
  }

  // ---------- One part ----------

  /** The header that the parser gets from a printed part. */
  function HeaderRead(p: FormPart): PartHeader
    requires Decompose(Fit(Disposition(p), BUFFER_MIN), NAMES).Decomposed?
  {
    var args := Decompose(Fit(Disposition(p), BUFFER_MIN), NAMES).args;
    PartHeader("form-data", args[0], args[1], TypeRead(p.contentType))
  }

  /** A file name parameter whose text is cut off: nothing or less than the file name is read. */
  lemma {:induction false} CutFileName(fileName: string, n: nat)
    requires ReadableText(fileName) && fileName != "" && n < |fileName| + 11
    ensures n <= |Field("filename", fileName, "\"")|
    ensures var r := ArgumentAt(Field("filename", fileName, "\"")[..n], NAMES);
            r.Malformed? || (r.index == 1 && |r.text| < |fileName| && r.next == "")
  {
    var field := Field("filename", fileName, "\"");
    NamesKnown();
    if n >= 11 {
      var cut := fileName[..n - 11];
      assert field[..n] == Field("filename", cut, "");
      FileNameRead(cut, "");
    } else if n == 10 {
      assert field[..n] == " " + ("filename" + ("=" + ""));
      ArgumentName("filename", "", NAMES);
      assert Text("") == "";
    } else if n > 0 {
      var name := "filename"[..n - 1];
      assert field[..n] == " " + name;
      CutName(name);
    }
  }

  lemma {:induction false} CutName(name: string)
    requires AllAlnum(name)
    ensures ArgumentAt(" " + name, NAMES).Malformed?
  {
    assert (" " + name)[1..] == name;
    assert Past(" " + name, IsSpace) == name;
    RunOver(name, "", IsAlnum);
    assert name + "" == name;
  }

  lemma {:induction false} PlainJoin(a: string, b: string)
    ensures PlainText(a + b) <==> PlainText(a) && PlainText(b)
  {
  }

  lemma {:induction false} FieldPlain(name: string, value: string, post: string)
    requires PlainText(name) && PlainText(value) && PlainText(post)
    ensures PlainText(Field(name, value, post))
  {
    var quoted := "\"" + (value + post);
    PlainJoin(value, post);
    PlainJoin("\"", value + post);
    PlainJoin("=", quoted);
    PlainJoin(name, "=" + quoted);
    PlainJoin(" ", name + ("=" + quoted));
  }

  lemma {:induction false} BehindNamePlain(p: FormPart)
    requires PlainText(p.fileName)
    ensures PlainText(BehindName(p, "\""))
  {
    if p.fileName != "" {
      var field := Field("filename", p.fileName, "\"");
      FieldPlain("filename", p.fileName, "\"");
      PlainJoin(";", field);
      PlainJoin("\"", ";" + field);
    }
  }

  lemma {:induction false} DispositionPlain(p: FormPart)
    requires PlainText(p.name) && PlainText(p.fileName)
    ensures PlainText(Disposition(p))
    ensures Disposition(p) != "" && Past(Disposition(p), IsSpace) == Disposition(p)
  {
    var field := Field("name", p.name, BehindName(p, "\""));
    BehindNamePlain(p);
    FieldPlain("name", p.name, BehindName(p, "\""));
    PlainJoin(";", field);
    PlainJoin("form-data", ";" + field);
    assert ("form-data" + (";" + field))[0] == 'f';
  }

  lemma {:induction false} LongDispositionCut(p: FormPart)
    requires Readable(p) && |Disposition(p)| > BUFFER_MIN
    ensures var r := Decompose(Disposition(p)[..BUFFER_MIN - 1], NAMES);
            r.Decomposed? && r.main == "form-data" && r.args != [p.name, p.fileName]
  {
    var v := Disposition(p)[..BUFFER_MIN - 1];
    var room := BUFFER_MIN - 18;
    if |p.name| >= room {
      // the value ends within the name or right behind it
      var q := p.(name := p.name[..room], fileName := "");
      assert v == DispositionUpTo(q, "");
      DispositionRead(q, "");
    } else if |p.name| == room - 1 {
      // the value ends with the quote behind the name
      assert p.fileName != "";
      var q := p.(fileName := "");
      assert v == DispositionUpTo(q, "\"");
      DispositionRead(q, "\"");
    } else {
      CutDispositionRead(p, room - 2 - |p.name|);
    }
  }

  lemma {:induction false} CutDispositionRead(p: FormPart, n: nat)
    requires Readable(p) && p.fileName != "" && n < |p.fileName| + 11
    requires |p.name| + n + 2 == BUFFER_MIN - 18
    ensures |Disposition(p)| >= BUFFER_MIN - 1
    ensures var r := Decompose(Disposition(p)[..BUFFER_MIN - 1], NAMES);
            r.Decomposed? && r.main == "form-data" && r.args != [p.name, p.fileName]
  {
    CutFileName(p.fileName, n);
    var field := Field("filename", p.fileName, "\"")[..n];
    var post := "\"" + (";" + field);
    var first := Field("name", p.name, post);
    assert Disposition(p)[..BUFFER_MIN - 1] == "form-data" + (";" + first);
    NameRead(p, post);
    assert ("\"" + (";" + field))[1..] == ";" + field;
    assert (";" + field)[1..] == field;
    if ArgumentAt(field, NAMES).Argument? {
      SecondArgument(field, UpTo(p.name, '\"'), ArgumentAt(field, NAMES).text);
    }
  }

  // ---------- One part ----------

  lemma {:induction false} FieldEnd(name: string, value: string, post: string)
    ensures Field(name, value, post + "\"") == Field(name, value, post) + "\""
  {
  }

  lemma {:induction false} LastQuote(p: FormPart)
    ensures Disposition(p) == DispositionUpTo(p, "") + "\""
    ensures Disposition(p)[..|Disposition(p)| - 1] == DispositionUpTo(p, "")
  {
    var post := BehindName(p, "");
    FieldEnd("filename", p.fileName, "");
    assert "" + "\"" == "\"";
    assert BehindName(p, "\"") == post + "\"";
    FieldEnd("name", p.name, post);
    assert Disposition(p) == DispositionUpTo(p, "") + "\"";
  }

  /** The disposition comes back exactly if it fits and there is no quote in the names. */
  lemma {:induction false} DispositionReadIff(p: FormPart)
    requires Readable(p)
    ensures var r := Decompose(Fit(Disposition(p), BUFFER_MIN), NAMES);
            && r.Decomposed? && r.main == "form-data"
            && (r.args == [p.name, p.fileName] <==>
                |Disposition(p)| <= BUFFER_MIN && '\"' !in p.name && '\"' !in p.fileName)
  {
    if |Disposition(p)| > BUFFER_MIN {
      LongDispositionCut(p);
    } else {
      LastQuote(p);
      DispositionRead(p, "\"");
      DispositionRead(p, "");
    }
  }

  lemma {:induction false} AttributeNames()
    ensures Token("Content-Disposition") && Token("Content-Type")
  {
  }

  lemma {:induction false} TokenIsText(s: string)
    requires Token(s)
    ensures CStr(s) == s
  {
    CStrFacts(s);
  }

  /** The header line of a printed disposition. */
  lemma {:induction false} DispositionField(p: FormPart, behind: string)
    requires Readable(p)
    ensures var line := HeaderLine(HeaderField("Content-Disposition", Disposition(p), behind), "", "", false);
            line.more && line.rest == behind && CStr(line.attr) == "Content-Disposition"
            && CStr(line.value) == Fit(Disposition(p), BUFFER_MIN)
  {
    var value := Disposition(p);
    DispositionPlain(p);
    AttributeNames();
    TokenIsText("Content-Disposition");
    PrintedField("Content-Disposition", value, behind);
    CStrFacts(Fit(value, BUFFER_MIN));
  }

  lemma {:induction false} HeaderOfPart(p: FormPart, rest: string)
    requires Readable(p) && FieldValue(p.contentType)
    requires Decompose(Fit(Disposition(p), BUFFER_MIN), NAMES).Decomposed?
    requires Decompose(Fit(Disposition(p), BUFFER_MIN), NAMES).main == "form-data"
    ensures ReadHeader(PrintHeader(p, rest), NO_HEADER) == HeaderBlock(Some(HeaderRead(p)), rest)
  {
    var behind := if p.contentType == "" then "\r\n" + rest
                  else HeaderField("Content-Type", p.contentType, "\r\n" + rest);
    DispositionField(p, behind);
    TypeOfPart(p.contentType, rest, HeaderRead(p).(contentType := ""));
  }

  lemma {:induction false} TypeOfPart(t: string, rest: string, h: PartHeader)
    requires ReadableText(t) && FieldValue(t) && h.contentType == ""
    ensures ReadHeader(if t == "" then "\r\n" + rest else HeaderField("Content-Type", t, "\r\n" + rest), h)
         == HeaderBlock(Some(h.(contentType := TypeRead(t))), rest)
  {
    HeaderEnd("", "", false, rest);
    if t != "" {
      var v := Past(t, IsSpace);
      PrintedField("Content-Type", t, "\r\n" + rest);
      RunSplits(t, IsSpace);
      RunKeeps(t, IsSpace);
      AttributeNames();
      TokenIsText("Content-Type");
      CStrFacts(v);
      ContentTypeRead(t);
    }
  }

  lemma {:induction false} TailPassed(b: string, body: string, parts: seq<FormPart>, epilogue: string)
    ensures PassDelimiter(Found(body, PrintTail(b, parts, epilogue)))
         == Passage(ParseSuccess, body, PrintParts(b, parts, epilogue))
  {
    var tail := PrintTail(b, parts, epilogue);
    if parts != [] {
      assert tail[2..] == PrintParts(b, parts, epilogue);
    } else {
      assert "" + PrintParts(b, parts, epilogue) == "--" + epilogue;
    }
  }

  lemma {:induction false} NoEarlierDelimiter(p: string, body: string, tail: string, i: nat)
    requires HeadIsUnique(p) && FirstIndex(p, body).None? && i < |body|
    ensures !OccursAt(p, body + (p + tail), i)
  {
    var s := body + (p + tail);
    if i + |p| <= |body| {
      assert s[i..i + |p|] == body[i..i + |p|];
      assert !OccursAt(p, body, i);
    } else {
      assert s[|body|] == p[0];
      MismatchRefutes(p, s, i, |body| - i);
    }
  }

  lemma {:induction false} MismatchRefutes(p: string, s: string, i: nat, k: nat)
    requires i + |p| <= |s| && k < |p| && s[i + k] != p[k]
    ensures !OccursAt(p, s, i)
  {
    assert s[i..i + |p|][k] == s[i + k];
  }

  /** The head of the delimiter does not recur in it, so no occurrence can begin in the body. */
  lemma {:induction false} BodyUpToDelimiter(p: string, body: string, tail: string)
    requires HeadIsUnique(p) && FirstIndex(p, body).None?
    ensures Leftmost(p, body + (p + tail), "") == Found(body, tail)
  {
    forall i: nat | i < |body| ensures !OccursAt(p, body + (p + tail), i) {
      NoEarlierDelimiter(p, body, tail, i);
    }
    LeftmostIs(p, body, tail);
  }

  lemma {:induction false} LeftmostIs(p: string, before: string, tail: string)
    requires forall i: nat :: i < |before| ==> !OccursAt(p, before + (p + tail), i)
    ensures Leftmost(p, before + (p + tail), "") == Found(before, tail)
  {
    var s := before + (p + tail);
    assert s[|before|..|before| + |p|] == p;
    FirstIndexIs(p, s, |before|);
    assert "" + s[..|before|] == before && s[|before| + |p|..] == tail;
  }

  lemma {:induction false} EntryReadIff(b: string, p: FormPart)
    requires Readable(p) && FirstIndex(Delimiter(b, false), p.body).None?
    ensures Decompose(Fit(Disposition(p), BUFFER_MIN), NAMES).Decomposed?
    ensures Decompose(Fit(Disposition(p), BUFFER_MIN), NAMES).main == "form-data"
    ensures EntryOf(HeaderRead(p), p.body) == Expected(p) <==> Legal(b, p)
  {
    DispositionReadIff(p);
    TypeReadIff(p.contentType);
    var args := Decompose(Fit(Disposition(p), BUFFER_MIN), NAMES).args;
    assert args == [args[0], args[1]];
  }

  lemma {:induction false} PartPrinted(b: string, parts: seq<FormPart>, epilogue: string)
    requires parts != []
    ensures var p, tail := parts[0], PrintTail(b, parts[1..], epilogue);
            PrintParts(b, parts, epilogue) == PrintHeader(p, p.body + (Delimiter(b, false) + tail))
    ensures !AtEnd(PrintParts(b, parts, epilogue))
  {
    var v := PrintParts(b, parts, epilogue);
    assert |v| >= 2 ==> v[..2][0] == 'C';
  }

  /** One round of the parser over a printed part whose texts are readable. */
  lemma {:induction false} PartWithTail(b: string, p: FormPart, tail: string)
    requires ValidBoundary(b) && Readable(p) && FieldValue(p.contentType) && |tail| >= 2
    requires FirstIndex(Delimiter(b, false), p.body).None?
    ensures var next := NextPart(b, PrintHeader(p, p.body + (Delimiter(b, false) + tail)));
            && next.step.Part? && next.rest == (if tail[0] == '-' then tail else tail[2..])
            && (next.step.entry == Expected(p) <==> Legal(b, p))
  {
    var v := PrintHeader(p, p.body + (Delimiter(b, false) + tail));
    assert |v| >= 2 ==> v[..2][0] == 'C';
    EntryReadIff(b, p);
    HeaderOfPart(p, p.body + (Delimiter(b, false) + tail));
    InnerDelimiterHasUniqueHead(b);
    BodyUpToDelimiter(Delimiter(b, false), p.body, tail);
  }

  lemma {:induction false} PartRead(b: string, parts: seq<FormPart>, epilogue: string)
    requires ValidBoundary(b) && parts != [] && Readable(parts[0]) && FieldValue(parts[0].contentType)
    requires FirstIndex(Delimiter(b, false), parts[0].body).None?
    ensures var next := NextPart(b, PrintParts(b, parts, epilogue));
            && next.step.Part? && next.rest == PrintParts(b, parts[1..], epilogue)
            && (next.step.entry == Expected(parts[0]) <==> Legal(b, parts[0]))
  {
    PartPrinted(b, parts, epilogue);
    TailPassed(b, parts[0].body, parts[1..], epilogue);
    PartWithTail(b, parts[0], PrintTail(b, parts[1..], epilogue));
  }

  // ---------- The whole request ----------

  lemma {:induction false} ExpectedIsPossible(b: string, p: FormPart)
    ensures PossibleEntry(b, Expected(p)) <==> Readable(p) && FirstIndex(Delimiter(b, false), p.body).None?
    ensures Legal(b, p) ==> PossibleEntry(b, Expected(p))
  {
  }

  predicate AllLegal(b: string, parts: seq<FormPart>) {
    forall p :: p in parts ==> Legal(b, p)
  }

  predicate Recovered(b: string, parts: seq<FormPart>, o: Outcome) {
    o == Outcome(ParseSuccess, ExpectedAll(parts))
  }

  lemma {:induction false} AllLegalSplit(b: string, parts: seq<FormPart>)
    requires parts != []
    ensures AllLegal(b, parts) <==> Legal(b, parts[0]) && AllLegal(b, parts[1..])
  {
    assert forall q :: q in parts <==> q == parts[0] || q in parts[1..];
  }

  lemma {:induction false} RecoveredSplit(b: string, parts: seq<FormPart>, o: Outcome, entry: FormEntry, later: Outcome)
    requires parts != [] && o == Outcome(later.result, [entry] + later.entries)
    ensures Recovered(b, parts, o) <==> entry == Expected(parts[0]) && Recovered(b, parts[1..], later)
  {
    var expected := [Expected(parts[0])] + ExpectedAll(parts[1..]);
    if o.entries == expected {
      assert o.entries[0] == expected[0] && o.entries[1..] == expected[1..];
      assert later.entries == o.entries[1..] && ExpectedAll(parts[1..]) == expected[1..];
    }
  }

  lemma {:induction false} PartsIff(b: string, parts: seq<FormPart>, epilogue: string)
    requires ValidBoundary(b) && forall p :: p in parts ==> FieldValue(p.contentType)
    ensures Recovered(b, parts, Parts(b, PrintParts(b, parts, epilogue))) <==> AllLegal(b, parts)
  {
    var v := PrintParts(b, parts, epilogue);
    if parts == [] {
      assert v[..2] == "--";
    } else {
      ExpectedIsPossible(b, parts[0]);
      AllLegalSplit(b, parts);
      if PossibleEntry(b, Expected(parts[0])) {
        PartRead(b, parts, epilogue);
        PartsIff(b, parts[1..], epilogue);
        RecoveredSplit(b, parts, Parts(b, v), NextPart(b, v).step.entry, Parts(b, PrintParts(b, parts[1..], epilogue)));
      } else {
        EntriesArePossible(b, v);
        assert ExpectedAll(parts)[0] == Expected(parts[0]);
      }
    }
  }

  /** The start of the boundary, its leading dashes and the character behind them, does not occur
      before the boundary itself. */
  predicate Preamble(b: string, preamble: string) {
    var p := Delimiter(b, true);
    var m := LeadingRun(p, '-');
    FirstIndex(if m < |p| then p[..m + 1] else p, preamble + p) == Some(|preamble|)
  }

  lemma {:induction false} PrefixOccurs(stem: string, p: string, s: string, i: nat)
    requires stem <= p && OccursAt(p, s, i)
    ensures OccursAt(stem, s, i)
  {
    assert s[i..i + |stem|] == s[i..i + |p|][..|stem|];
  }

  lemma {:induction false} NoEarlierStem(p: string, m: nat, preamble: string, tail: string, i: nat)
    requires HasRun(p, m) && FirstIndex(Stem(p, m), preamble + p) == Some(|preamble|) && i < |preamble|
    ensures !OccursAt(Stem(p, m), preamble + (p + tail), i) && !OccursAt(p, preamble + (p + tail), i)
  {
    var stem, s := Stem(p, m), preamble + (p + tail);
    assert s[i..i + |stem|] == (preamble + p)[i..i + |stem|];
    assert !OccursAt(stem, preamble + p, i);
    if OccursAt(p, s, i) {
      PrefixOccurs(stem, p, s, i);
    }
  }

  lemma {:induction false} NothingFailsBefore(p: string, m: nat, preamble: string, tail: string)
    requires HasRun(p, m) && FirstIndex(Stem(p, m), preamble + p) == Some(|preamble|)
    ensures NoLateFailure(p, m, preamble + (p + tail))
  {
    var s := preamble + (p + tail);
    assert s[|preamble|..] == p + tail && AgreesAt(p, s, |preamble|);
    forall i: nat | OccursAt(Stem(p, m), s, i) ensures exists j: nat :: j <= i && AgreesAt(p, s, j) {
      if i < |preamble| {
        NoEarlierStem(p, m, preamble, tail, i);
      }
    }
  }

  lemma {:induction false} PreambleLeftmost(p: string, m: nat, preamble: string, tail: string)
    requires HasRun(p, m) && FirstIndex(Stem(p, m), preamble + p) == Some(|preamble|)
    ensures Leftmost(p, preamble + (p + tail), "") == Found(preamble, tail)
  {
    var s := preamble + (p + tail);
    forall i: nat | i < |preamble| ensures !OccursAt(p, s, i) {
      NoEarlierStem(p, m, preamble, tail, i);
    }
    LeftmostIs(p, preamble, tail);
  }

  /** The opening search passes over such a preamble. */
  lemma {:induction false} PreamblePassed(b: string, preamble: string, tail: string)
    requires Preamble(b, preamble)
    ensures FindDelimiter(b, true, preamble + (Delimiter(b, true) + tail)) == Found(preamble, tail)
  {
    var p := Delimiter(b, true);
    var m := LeadingRun(p, '-');
    OpeningSearchIsLeftmost(b, preamble + (p + tail));
    NothingFailsBefore(p, m, preamble, tail);
    PreambleLeftmost(p, m, preamble, tail);
  }

  /** A preamble without dashes is one. */
  lemma {:induction false} DashFree(b: string, preamble: string)
    requires '-' !in preamble
    ensures Preamble(b, preamble)
  {
    var p := Delimiter(b, true);
    var m := LeadingRun(p, '-');
    assert p[0] == '-' && p[1] == '-';
    var stem, s := if m < |p| then p[..m + 1] else p, preamble + p;
    forall i: nat | i < |preamble| ensures !OccursAt(stem, s, i) {
      MismatchRefutesIfFits(stem, s, i);
    }
    assert s[|preamble|..|preamble| + |stem|] == stem;
    FirstIndexIs(stem, s, |preamble|);
  }

  lemma {:induction false} MismatchRefutesIfFits(p: string, s: string, i: nat)
    requires p != "" && i < |s| && s[i] != p[0]
    ensures !OccursAt(p, s, i)
  {
    if i + |p| <= |s| {
      MismatchRefutes(p, s, i, 0);
    }
  }

  /** The parser returns exactly the printed parts, in order, if and only if every part is legal.
      The preamble and any epilogue are ignored. */
  lemma {:induction false} MultipartRoundTripIff(b: string, preamble: string, parts: seq<FormPart>, epilogue: string)
    requires ValidBoundary(b) && Preamble(b, preamble) && forall p :: p in parts ==> FieldValue(p.contentType)
    ensures ParseMultipart(b, Print(b, preamble, parts, epilogue)) == Outcome(ParseSuccess, ExpectedAll(parts))
            <==> forall p :: p in parts ==> Legal(b, p)
  {
    assert AllLegal(b, parts) <==> forall p :: p in parts ==> Legal(b, p);
    PreamblePassed(b, preamble, PrintTail(b, parts, epilogue));
    TailPassed(b, preamble, parts, epilogue);
    PartsIff(b, parts, epilogue);
  }

  // ---------- Content types that are nothing but white space ----------

  /** A value that follows nothing but white space after its colon, line breaks included. */
  lemma {:induction false} SwallowedField(attr: string, blank: string, value: string, rest: string)
    requires Token(attr) && Past(blank, IsSpace) == "" && PlainText(value) && 0 < |value| < BUFFER_MIN
    requires !IsSpace(value[0])
    ensures HeaderLine(attr + (": " + (blank + (value + ("\r\n" + rest)))), "", "", false)
         == Line(true, attr, value, rest)
  {
    var v := value + ("\r\n" + rest);
    HeaderName(attr, "", ": " + (blank + v));
    assert "" + attr == attr && "" + value == value;
    HeaderColon(attr, blank + v);
    RunSplits(blank, IsSpace);
    AllInside(blank, IsSpace);
    RunOver(blank, v, IsSpace);
    HeaderValue(value, attr, "", "\r\n" + rest);
    HeaderEnd(attr, value, true, rest);
  }

  lemma {:induction false} AllInside(a: string, inside: char -> bool)
    requires Past(a, inside) == ""
    ensures forall n :: 0 <= n < |a| ==> inside(a[n])
  {
    if a != "" {
      AllInside(a[1..], inside);
    }
  }

  /** A header line with a name and no colon ends the header. */
  lemma {:induction false} NoField(attr: string, rest: string)
    requires Token(attr)
    ensures HeaderLine(attr + ("\r\n" + rest), "", "", false) == Line(false, attr, "", rest)
  {
    HeaderName(attr, "", "\r\n" + rest);
    assert "" + attr == attr;
    HeaderEnd(attr, "", false, rest);
  }

  /** A quoted blank text is decomposed into the blank text. */
  lemma {:induction false} QuotedBlank(t: string)
    requires PlainText(t) && |t| < BUFFER_MIN && '\"' !in t && ';' !in t
    ensures Decompose("\"" + (t + "\""), []) == Decomposed(t, [])
  {
    QuotedText(t, "\"");
    assert UpTo(t, '\"') == t;
    var v := "\"" + (t + "\"");
    assert Past(v, IsSpace) == v;
    SkipAll(PastText(v));
    assert seq(0, _ => "") == [];
  }

  lemma {:induction false} NoDelimiterWithoutBreak(b: string, body: string)
    requires '\r' !in body
    ensures FirstIndex(Delimiter(b, false), body).None?
  {
    forall i: nat ensures !OccursAt(Delimiter(b, false), body, i) {
      if i < |body| {
        MismatchRefutesIfFits(Delimiter(b, false), body, i);
      }
    }
  }

  /** The part whose type is blank, and an epilogue that begins with the part's own body. */
  predicate Swallowing(b: string, p: FormPart, epilogue: string) {
    && p.contentType != "" && Past(p.contentType, IsSpace) == ""
    && p.body == "\"" + (p.contentType + "\"") && |p.body| < BUFFER_MIN
    && epilogue == "\r\n" + (p.body + (Delimiter(b, false) + "--"))
  }

  /** What is printed of such a part behind its disposition, as the parser sees it. */
  lemma {:induction false} SwallowedText(b: string, p: FormPart, epilogue: string)
    requires Swallowing(b, p, epilogue)
    ensures HeaderField("Content-Type", p.contentType,
                        "\r\n" + (p.body + (Delimiter(b, false) + PrintTail(b, [], epilogue))))
         == "Content-Type" + (": " + (p.contentType + "\r\n\r\n" + (p.body + ("\r\n" + ("--" + (b + "--")
            + ("\r\n" + (p.body + (Delimiter(b, false) + "--"))))))))
  {
    var again := p.body + (Delimiter(b, false) + "--");
    LastBoundary(b, epilogue);
    Regrouped(p.contentType, p.body + ("\r\n" + ("--" + (b + "--") + ("\r\n" + again))));
  }

  lemma {:induction false} LastBoundary(b: string, epilogue: string)
    ensures Delimiter(b, false) + PrintTail(b, [], epilogue) == "\r\n" + ("--" + (b + "--") + epilogue)
  {
    assert PrintTail(b, [], epilogue) == "--" + epilogue;
  }

  lemma {:induction false} Regrouped(t: string, rest: string)
    ensures t + ("\r\n" + ("\r\n" + rest)) == t + "\r\n\r\n" + rest
  {
  }

  /** The lines that the parser takes for the header of such a part. */
  lemma {:induction false} SwallowedHeader(b: string, p: FormPart, epilogue: string, h: PartHeader)
    requires Swallowing(b, p, epilogue) && Readable(p) && Token("--" + (b + "--"))
    ensures ReadHeader(HeaderField("Content-Type", p.contentType,
                                   "\r\n" + (p.body + (Delimiter(b, false) + PrintTail(b, [], epilogue)))), h)
         == HeaderBlock(Some(h.(contentType := p.contentType)), p.body + (Delimiter(b, false) + "--"))
  {
    SwallowedText(b, p, epilogue);
    SwallowedType(p.contentType, p.body, "--" + (b + "--"), p.body + (Delimiter(b, false) + "--"), h);
  }

  lemma {:induction false} SwallowedType(t: string, body: string, line: string, rest: string, h: PartHeader)
    requires t != "" && Past(t, IsSpace) == "" && PlainText(t) && body == "\"" + (t + "\"") && |body| < BUFFER_MIN
    requires Token(line)
    ensures ReadHeader("Content-Type" + (": " + (t + "\r\n\r\n" + (body + ("\r\n" + (line + ("\r\n" + rest)))))), h)
         == HeaderBlock(Some(h.(contentType := t)), rest)
  {
    var behind := line + ("\r\n" + rest);
    SwallowedLine(t, body, behind);
    BlankApplied(t, body, h);
    NoField(line, rest);
    OneField("Content-Type" + (": " + (t + "\r\n\r\n" + (body + ("\r\n" + behind)))), h, behind, rest);
  }

  lemma {:induction false} SwallowedLine(t: string, body: string, behind: string)
    requires t != "" && Past(t, IsSpace) == "" && PlainText(t) && body == "\"" + (t + "\"") && |body| < BUFFER_MIN
    ensures var v := "Content-Type" + (": " + (t + "\r\n\r\n" + (body + ("\r\n" + behind))));
            var line := HeaderLine(v, "", "", false);
            line.more && line.rest == behind && CStr(line.attr) == "Content-Type" && CStr(line.value) == body
  {
    AttributeNames();
    TokenIsText("Content-Type");
    BlankJoin(t);
    QuotedPlain(t);
    SwallowedField("Content-Type", t + "\r\n\r\n", body, behind);
    CStrFacts(body);
  }

  lemma {:induction false} QuotedPlain(t: string)
    requires PlainText(t)
    ensures PlainText("\"" + (t + "\""))
  {
    PlainJoin(t, "\"");
    PlainJoin("\"", t + "\"");
  }

  lemma {:induction false} BlankApplied(t: string, body: string, h: PartHeader)
    requires Past(t, IsSpace) == "" && PlainText(t) && body == "\"" + (t + "\"") && |body| < BUFFER_MIN
    ensures ApplyHeader(h, "Content-Type", body) == Some(h.(contentType := t))
  {
    AllSpaces(t);
    QuotedBlank(t);
  }

  /** A header of one line. */
  lemma {:induction false} OneField(v: string, h: PartHeader, behind: string, rest: string)
    requires var line := HeaderLine(v, "", "", false);
             line.more && line.rest == behind && ApplyHeader(h, CStr(line.attr), CStr(line.value)).Some?
    requires var line := HeaderLine(behind, "", "", false); !line.more && line.rest == rest
    ensures var line := HeaderLine(v, "", "", false);
            ReadHeader(v, h) == HeaderBlock(ApplyHeader(h, CStr(line.attr), CStr(line.value)), rest)
  {
  }

  lemma {:induction false} BlankJoin(t: string)
    requires Past(t, IsSpace) == ""
    ensures Past(t + "\r\n\r\n", IsSpace) == ""
  {
    AllInside(t, IsSpace);
    RunOver(t + "\r\n\r\n", "", IsSpace);
    assert t + "\r\n\r\n" + "" == t + "\r\n\r\n";
  }

  lemma {:induction false} AllSpaces(t: string)
    requires Past(t, IsSpace) == ""
    ensures '\"' !in t && ';' !in t
  {
    AllInside(t, IsSpace);
  }

  /** Why blank content types are left out of the equivalence: the parser swallows the end of the
      header and the body of such a part, and an epilogue can make up for both. */
  lemma {:induction false} BlankTypeCanComeBack(b: string, p: FormPart, epilogue: string)
    requires ValidBoundary(b) && Token("--" + (b + "--")) && Swallowing(b, p, epilogue) && Readable(p)
    requires |Disposition(p)| <= BUFFER_MIN && '\"' !in p.name && '\"' !in p.fileName
    ensures ParseMultipart(b, Print(b, "", [p], epilogue)) == Outcome(ParseSuccess, [Expected(p)])
    ensures !Legal(b, p)
  {
    var tail := PrintTail(b, [p], epilogue);
    DashFree(b, "");
    PreamblePassed(b, "", tail);
    TailPassed(b, "", [p], epilogue);
    OnlyPart(b, p, epilogue);
    AllInside(p.contentType, IsSpace);
  }

  lemma {:induction false} OnlyPart(b: string, p: FormPart, epilogue: string)
    requires ValidBoundary(b) && Token("--" + (b + "--")) && Swallowing(b, p, epilogue) && Readable(p)
    requires |Disposition(p)| <= BUFFER_MIN && '\"' !in p.name && '\"' !in p.fileName
    ensures Parts(b, PrintParts(b, [p], epilogue)) == Outcome(ParseSuccess, [Expected(p)])
  {
    SwallowedPart(b, p, epilogue);
    assert AtEnd("--") && Parts(b, "--") == Outcome(ParseSuccess, []);
    assert [Expected(p)] + [] == [Expected(p)];
  }

  lemma {:induction false} SwallowedPart(b: string, p: FormPart, epilogue: string)
    requires ValidBoundary(b) && Token("--" + (b + "--")) && Swallowing(b, p, epilogue) && Readable(p)
    requires |Disposition(p)| <= BUFFER_MIN && '\"' !in p.name && '\"' !in p.fileName
    ensures NextPart(b, PrintParts(b, [p], epilogue)) == Advance(Part(Expected(p)), "--")
  {
    assert [p][1..] == [];
    PartPrinted(b, [p], epilogue);
    DispositionReadIff(p);
    var rest := p.body + (Delimiter(b, false) + PrintTail(b, [], epilogue));
    DispositionField(p, HeaderField("Content-Type", p.contentType, "\r\n" + rest));
    SwallowedHeader(b, p, epilogue, PartHeader("form-data", p.name, p.fileName, ""));
    NoBreak(p);
    NoDelimiterWithoutBreak(b, p.body);
    InnerDelimiterHasUniqueHead(b);
    BodyUpToDelimiter(Delimiter(b, false), p.body, "--");
  }

  lemma {:induction false} NoBreak(p: FormPart)
    requires PlainText(p.contentType) && p.body == "\"" + (p.contentType + "\"")
    ensures '\r' !in p.body
  {
  }
}
