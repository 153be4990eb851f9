/** Headers and parts that no client prints in the usual form, and submissions that are cut off. */
module MultipartLaws {
  import opened CStrings
  import opened Entries
  import opened VirtualStream
  import opened BoundarySearch
  import opened Delimiters
  import opened HeaderLines
  import opened Multipart
  import opened MultipartOutputs
  import opened MultipartRoundTrip

  // ---------- Any header line ----------

  /** A name without its white space. */
  function Squeeze(n: string): string {
    if n == "" then "" else (if IsSpace(n[0]) then "" else [n[0]]) + Squeeze(n[1..])
  }

  /** A value without its colons and the white space behind them. */
  function Clean(v: string): string
    decreases |v|
  {
    if v == "" then "" else if v[0] == ':' then Clean(Past(v[1..], IsSpace)) else [v[0]] + Clean(v[1..])
  }

  /** A text within a line that ends in a character of its own. */
  predicate ValueText(v: string) {
    v != "" && '\r' !in v && '\n' !in v && !IsSpace(v[|v| - 1]) && v[|v| - 1] != ':'
  }

  predicate LineBreak(end: string, rest: string) {
    end == "\r\n" || end == "\n" || (end == "\r" && (rest == "" || rest[0] != '\n'))
  }

  lemma {:induction false} FitMore(s: string, c: char, t: string)
    requires |s| < BUFFER_MIN
    ensures Fit(Append(s, c, BUFFER_MIN) + t, BUFFER_MIN) == Fit(s + ([c] + t), BUFFER_MIN)
  {
    assert s + [c] + t == s + ([c] + t);
  }

  lemma {:induction false} AnyName(n: string, read: string, rest: string)
    requires '\r' !in n && '\n' !in n && ':' !in n && |read| < BUFFER_MIN
    ensures HeaderLine(n + rest, read, "", false) == HeaderLine(rest, Fit(read + Squeeze(n), BUFFER_MIN), "", false)
    decreases |n|
  {
    if n == "" {
      assert n + rest == rest && read + "" == read;
    } else {
      assert (n + rest)[1..] == n[1..] + rest;
      if IsSpace(n[0]) {
        AnyName(n[1..], read, rest);
        assert "" + Squeeze(n[1..]) == Squeeze(n[1..]);
      } else {
        AnyName(n[1..], Append(read, n[0], BUFFER_MIN), rest);
        FitMore(read, n[0], Squeeze(n[1..]));
      }
    }
  }

  lemma {:induction false} PastKeepsEnd(v: string)
    requires v != "" && !IsSpace(v[|v| - 1])
    ensures Past(v, IsSpace) != "" && Past(v, IsSpace)[|Past(v, IsSpace)| - 1] == v[|v| - 1]
  {
    if IsSpace(v[0]) {
      PastKeepsEnd(v[1..]);
    }
  }

  lemma {:induction false} PastIsText(v: string)
    requires ValueText(v)
    ensures ValueText(Past(v, IsSpace))
  {
    PastKeepsEnd(v);
    RunKeeps(v, IsSpace);
  }

  lemma {:induction false} CleanNotEmpty(v: string)
    requires ValueText(v)
    ensures Clean(v) != ""
    decreases |v|
  {
    if v[0] == ':' {
      PastIsText(v[1..]);
      CleanNotEmpty(Past(v[1..], IsSpace));
    }
  }

  lemma {:induction false} AnyValue(v: string, attr: string, read: string, rest: string)
    requires attr != "" && (v == "" || ValueText(v)) && |read| < BUFFER_MIN
    ensures HeaderLine(v + rest, attr, read, true) == HeaderLine(rest, attr, Fit(read + Clean(v), BUFFER_MIN), true)
    decreases |v|
  {
    if v == "" {
      assert v + rest == rest && read + "" == read;
    } else {
      assert (v + rest)[1..] == v[1..] + rest;
      if v[0] == ':' {
        PastIsText(v[1..]);
        PastWithin(v[1..], rest, IsSpace);
        AnyValue(Past(v[1..], IsSpace), attr, read, rest);
      } else {
        AnyValue(v[1..], attr, Append(read, v[0], BUFFER_MIN), rest);
        FitMore(read, v[0], Clean(v[1..]));
      }
    }
  }

  lemma {:induction false} AnyEnd(attr: string, value: string, found: bool, end: string, rest: string)
    requires LineBreak(end, rest)
    ensures HeaderLine(end + rest, attr, value, found) == Line(attr != "" && value != "", attr, value, rest)
  {
    if end == "\r\n" {
      assert (end + rest)[2..] == rest;
    } else {
      assert (end + rest)[1..] == rest;
    }
  }

  /** Any line with a colon behind its name: white space in the name and in front of the value is
      dropped, and so is every later colon with the white space behind it. Both texts are cut at 399
      characters, and all three line breaks end the line. */
  lemma {:induction false} HeaderLineIs(n: string, v: string, end: string, rest: string)
    requires '\r' !in n && '\n' !in n && ':' !in n && Squeeze(n) != "" && ValueText(v) && LineBreak(end, rest)
    ensures HeaderLine(n + (":" + (v + (end + rest))), "", "", false)
         == Line(true, Fit(Squeeze(n), 400), Fit(Clean(Past(v, IsSpace)), 400), rest)
  {
    var attr, text := Fit(Squeeze(n), 400), Past(v, IsSpace);
    AnyName(n, "", ":" + (v + (end + rest)));
    assert "" + Squeeze(n) == Squeeze(n) && "" + Clean(text) == Clean(text);
    assert (":" + (v + (end + rest)))[1..] == v + (end + rest);
    PastIsText(v);
    PastWithin(v, end + rest, IsSpace);
    AnyValue(text, attr, "", end + rest);
    CleanNotEmpty(text);
    AnyEnd(attr, Fit(Clean(text), 400), true, end, rest);
  }

  // ---------- Parameters ----------

  predicate Blank(s: string) { forall i :: 0 <= i < |s| ==> IsSpace(s[i]) }

  /** White space may stand around the name and the equals sign. */
  lemma {:induction false} SpacedArgument(s1: string, name: string, s2: string, s3: string, text: string,
                                          names: seq<string>)
    requires Blank(s1) && Blank(s2) && Blank(s3) && 0 < |name| < 400 && AllAlnum(name)
    requires text == "" || !IsSpace(text[0])
    ensures ArgumentAt(s1 + (name + (s2 + ("=" + (s3 + text)))), names)
         == Argument(IndexOf(names, name), Text(text), PastText(text))
  {
    var behind := s2 + ("=" + (s3 + text));
    NoSpaceInAlnum(name[0]);
    RunOver(s1, name + behind, IsSpace);
    NameEnds(behind, s2);
    RunOver(name, behind, IsAlnum);
    assert name + "" == name;
    RunOver(s2, "=" + (s3 + text), IsSpace);
    assert ("=" + (s3 + text))[1..] == s3 + text;
    RunOver(s3, text, IsSpace);
  }

  lemma {:induction false} NoSpaceInAlnum(c: char)
    ensures IsAlnum(c) ==> !IsSpace(c)
  {
  }

  lemma {:induction false} NameEnds(behind: string, s2: string)
    requires Blank(s2) && s2 <= behind && |behind| > |s2| && behind[|s2|] == '='
    ensures Run(behind, IsAlnum) == "" && Past(behind, IsAlnum) == behind
  {
    assert s2 != "" ==> IsSpace(s2[0]) && behind[0] == s2[0];
    NoSpaceInAlnum(behind[0]);
  }

  /** An unquoted text goes up to the semicolon, a quoted one up to the next quote. */
  lemma {:induction false} UnquotedText(value: string, post: string)
    requires |value| < 400 && ';' !in value && (value != "" ==> value[0] != '\"') && (post == "" || post[0] == ';')
    ensures Text(value + post) == value && PastText(value + post) == post
  {
    RunOver(value, post, NotSemicolon);
    assert value + "" == value;
    if value == "" {
      assert value + post == post;
    }
  }

  /** A parameter counts for the first name that it equals up to case. */
  lemma {:induction false} IndexIs(names: seq<string>, name: string)
    ensures var a := IndexOf(names, name);
            && (a < |names| ==> Lower(name) == Lower(names[a]))
            && forall i :: 0 <= i < a ==> Lower(name) != Lower(names[i])
  {
    if names != [] {
      StrEqNcIff(name, names[0]);
      if !StrEqNc(name, names[0]) {
        IndexIs(names[1..], name);
      }
    }
  }

  /** A piece without an equals sign ends the parameters. */
  lemma {:induction false} MalformedParameter(junk: string, names: seq<string>, args: seq<string>)
    requires '=' !in junk && |names| == |args|
    ensures Arguments(";" + junk, names, args) == Some(args)
  {
    assert (";" + junk)[1..] == junk;
    var name := Past(junk, IsSpace);
    RunKeeps(junk, IsSpace);
    RunKeeps(name, IsAlnum);
    RunKeeps(Past(name, IsAlnum), IsSpace);
  }

  /** A parameter that is neither a name nor a file name is written through a null pointer. */
  lemma {:induction false} UnknownParameter(name: string, text: string)
    requires 0 < |name| < 400 && AllAlnum(name) && (text == "" || !IsSpace(text[0]))
    requires Lower(name) != Lower("name") && Lower(name) != Lower("filename")
    ensures Decompose("form-data" + (";" + (" " + (name + ("=" + text)))), NAMES) == NullArgument
  {
    var field := " " + (name + ("=" + text));
    FormDataMain(field);
    ArgumentName(name, text, NAMES);
    IndexIs(NAMES, name);
    assert (";" + field)[1..] == field;
  }

  /** Of a content type only what comes before the first semicolon is kept. */
  lemma {:induction false} TypeBeforeSemicolon(t: string, parameters: string)
    requires 0 < |t| < 400 && ';' !in t && t[0] != '\"' && !IsSpace(t[0])
    requires parameters == "" || parameters[0] == ';'
    ensures TypeRead(t + parameters) == t
  {
    UnquotedText(t, parameters);
  }

  // ---------- Header fields ----------

  /** The case of the letters of a field's name does not matter. */
  lemma {:induction false} AnyCase(h: PartHeader, attr: string, attr': string, value: string)
    requires Lower(attr) == Lower(attr')
    ensures ApplyHeader(h, attr, value) == ApplyHeader(h, attr', value)
  {
    StrEqNcIff(attr, "Content-Disposition");
    StrEqNcIff(attr', "Content-Disposition");
    StrEqNcIff(attr, "Content-Type");
    StrEqNcIff(attr', "Content-Type");
  }

  /** Any other field is passed over. */
  lemma {:induction false} OtherField(h: PartHeader, attr: string, value: string, rest: string)
    requires Token(attr) && PlainText(value) && Past(value, IsSpace) != ""
    requires Lower(attr) != Lower("Content-Disposition") && Lower(attr) != Lower("Content-Type")
    ensures ReadHeader(HeaderField(attr, value, rest), h) == ReadHeader(rest, h)
  {
    StrEqNcIff(attr, "Content-Disposition");
    StrEqNcIff(attr, "Content-Type");
    PrintedField(attr, value, rest);
    TokenIsText(attr);
  }

  /** The first header line of a part. */
  lemma {:induction false} FirstField(value: string, behind: string)
    requires 0 < |value| < 400 && PlainText(value) && !IsSpace(value[0])
    ensures var v := HeaderField("Content-Disposition", value, behind);
            var line := HeaderLine(v, "", "", false);
            && !AtEnd(v) && line.more && line.rest == behind
            && CStr(line.attr) == "Content-Disposition" && CStr(line.value) == value
  {
    assert HeaderField("Content-Disposition", value, behind)[..2][0] == 'C';
    AttributeNames();
    TokenIsText("Content-Disposition");
    PrintedField("Content-Disposition", value, behind);
    CStrFacts(value);
  }

  lemma {:induction false} MainOnly(main: string)
    requires 0 < |main| < 400 && ';' !in main && main[0] != '\"' && !IsSpace(main[0])
    ensures Decompose(main, NAMES) == Decomposed(main, ["", ""])
  {
    UnquotedText(main, "");
    assert main + "" == main;
    assert seq(2, _ => "") == ["", ""];
  }

  /** A part that is not form data is not an entry: its body is read as the next header. */
  lemma {:induction false} OtherDisposition(b: string, main: string, rest: string)
    requires 0 < |main| < 400 && PlainText(main) && ';' !in main && main[0] != '\"' && !IsSpace(main[0])
    requires Lower(main) != Lower("form-data")
    ensures NextPart(b, HeaderField("Content-Disposition", main, "\r\n" + rest)) == Advance(Ignored, rest)
  {
    StrEqNcIff(main, "form-data");
    FirstField(main, "\r\n" + rest);
    MainOnly(main);
    MainApplied(main);
    HeaderEnd("", "", false, rest);
    OneField(HeaderField("Content-Disposition", main, "\r\n" + rest), NO_HEADER, "\r\n" + rest, rest);
  }

  lemma {:induction false} MainApplied(main: string)
    requires Decompose(main, NAMES) == Decomposed(main, ["", ""])
    ensures ApplyHeader(NO_HEADER, "Content-Disposition", main) == Some(PartHeader(main, "", "", ""))
  {
    StrEqNcIff("Content-Disposition", "Content-Disposition");
  }

  // ---------- Submissions that are cut off ----------

  lemma {:induction false} LegalIsReadable(b: string, p: FormPart)
    requires Legal(b, p)
    ensures Readable(p) && FieldValue(p.contentType)
  {
  }

  /** The parts, and the header and the body of a last part with nothing behind. */
  function PrintCut(b: string, parts: seq<FormPart>, last: FormPart): string {
    if parts == [] then PrintHeader(last, last.body)
    else PrintHeader(parts[0], parts[0].body + ("\r\n--" + b + ("\r\n" + PrintCut(b, parts[1..], last))))
  }

  lemma {:induction false} CutPart(b: string, p: FormPart)
    requires Legal(b, p)
    ensures NextPart(b, PrintHeader(p, p.body)).step == Failed(ParseIO)
  {
    LegalIsReadable(b, p);
    assert PrintHeader(p, p.body)[..2][0] == 'C';
    EntryReadIff(b, p);
    HeaderOfPart(p, p.body);
  }

  /** Without two characters behind the boundary the part is lost as well. */
  lemma {:induction false} CutBehindBoundary(b: string, p: FormPart, tail: string)
    requires ValidBoundary(b) && Legal(b, p) && |tail| < 2
    ensures NextPart(b, PrintHeader(p, p.body + ("\r\n--" + b + tail))).step == Failed(ParseIO)
  {
    LegalIsReadable(b, p);
    var v := p.body + (Delimiter(b, false) + tail);
    assert PrintHeader(p, v)[..2][0] == 'C';
    EntryReadIff(b, p);
    HeaderOfPart(p, v);
    InnerDelimiterHasUniqueHead(b);
    BodyUpToDelimiter(Delimiter(b, false), p.body, tail);
  }

  lemma {:induction false} CutParts(b: string, parts: seq<FormPart>, last: FormPart)
    requires ValidBoundary(b) && Legal(b, last) && forall p :: p in parts ==> Legal(b, p)
    ensures Parts(b, PrintCut(b, parts, last)) == Outcome(ParseIO, ExpectedAll(parts))
  {
    if parts == [] {
      CutPart(b, last);
    } else {
      var cut := PrintCut(b, parts[1..], last);
      assert Legal(b, parts[0]);
      LegalIsReadable(b, parts[0]);
      PartWithTail(b, parts[0], "\r\n" + cut);
      assert ("\r\n" + cut)[2..] == cut;
      CutParts(b, parts[1..], last);
    }
  }

  /** A submission that ends before the boundary behind a part is an error, and only the earlier
      parts are entries. */
  lemma {:induction false} CutSubmission(b: string, preamble: string, parts: seq<FormPart>, last: FormPart)
    requires ValidBoundary(b) && Preamble(b, preamble) && Legal(b, last) && forall p :: p in parts ==> Legal(b, p)
    ensures ParseMultipart(b, preamble + ("--" + b + ("\r\n" + PrintCut(b, parts, last))))
         == Outcome(ParseIO, ExpectedAll(parts))
  {
    var tail := "\r\n" + PrintCut(b, parts, last);
    PreamblePassed(b, preamble, tail);
    assert tail[2..] == PrintCut(b, parts, last);
    CutParts(b, parts, last);
  }

  /** A submission without dashes holds no boundary, and is empty rather than an error. */
  lemma {:induction false} NoBoundary(b: string, input: string)
    requires '-' !in input
    ensures ParseMultipart(b, input) == Outcome(ParseSuccess, [])
  {
    NothingMatches(Delimiter(b, true), input, "");
  }

  lemma {:induction false} NothingMatches(p: string, input: string, out: string)
    requires p != "" && p[0] !in input
    ensures Search(p, 0, "", input, out) == Missing
  {
    if input != "" {
      NothingMatches(p, input[1..], out + [input[0]]);
    }
  }

  lemma {:induction false} ParameterPlain(name: string, text: string)
    requires PlainText(name) && PlainText(text)
    ensures PlainText("form-data" + (";" + (" " + (name + ("=" + text)))))
  {
    PlainJoin("=", text);
    PlainJoin(name, "=" + text);
    PlainJoin(" ", name + ("=" + text));
    PlainJoin(";", " " + (name + ("=" + text)));
    PlainJoin("form-data", ";" + (" " + (name + ("=" + text))));
  }

  /** A header that is written through null ends the parser. */
  lemma {:induction false} NullEndsAll(b: string, v: string)
    requires !AtEnd(v) && HeaderLine(v, "", "", false).more
    requires var line := HeaderLine(v, "", "", false);
             ApplyHeader(NO_HEADER, CStr(line.attr), CStr(line.value)).None?
    ensures Parts(b, v) == Outcome(Crashed, [])
  {
    assert ReadHeader(v, NO_HEADER).header.None?;
    assert NextPart(b, v).step == Failed(Crashed);
  }

  /** A part with an unknown parameter ends the parser in a write through null. */
  lemma {:induction false} UnknownParameterCrashes(b: string, name: string, text: string, rest: string)
    requires 0 < |name| && |name| + |text| < 300 && AllAlnum(name) && PlainText(name) && PlainText(text)
    requires text == "" || !IsSpace(text[0])
    requires Lower(name) != Lower("name") && Lower(name) != Lower("filename")
    ensures Parts(b, HeaderField("Content-Disposition", "form-data" + (";" + (" " + (name + ("=" + text)))), rest))
         == Outcome(Crashed, [])
  {
    var value := "form-data" + (";" + (" " + (name + ("=" + text))));
    assert value[0] == 'f';
    ParameterPlain(name, text);
    FirstField(value, rest);
    UnknownParameter(name, text);
    StrEqNcIff("Content-Disposition", "Content-Disposition");
    NullEndsAll(b, HeaderField("Content-Disposition", value, rest));
  }
}
