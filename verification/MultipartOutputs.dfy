/** What every entry satisfies that the multipart parser can return, whatever its input. */
module MultipartOutputs {
  import opened CStrings
  import opened Entries
  import opened VirtualStream
  import opened BoundarySearch
  import opened Delimiters
  import opened HeaderLines
  import opened Multipart

  predicate PlainText(s: string) {
    '\r' !in s && '\n' !in s && ':' !in s && '\0' !in s
  }

  /** A text read by decomposeValue: quoted, so without quotes, or unquoted, so without semicolons. */
  predicate ReadableText(s: string) {
    PlainText(s) && |s| < 400 && ('\"' in s ==> ';' !in s)
  }

  predicate PossibleHeader(h: PartHeader) {
    ReadableText(h.name) && ReadableText(h.fileName) && ReadableText(h.contentType) &&
    (h.contentType != "" ==> h.contentType[0] != '\"')
  }

  function Content(e: FormEntry): string { if e.file.Some? then e.file.value else e.value }

  predicate PossibleEntry(b: string, e: FormEntry) {
    PossibleHeader(PartHeader("", e.attr, e.fileName, e.contentType)) &&
    e.valueLength == |Content(e)| && (e.file.Some? <==> e.fileName != "") && (e.file.Some? ==> e.value == "") &&
    FirstIndex(Delimiter(b, false), Content(e)).None?
  }

  /** A header value never holds a line break or a colon: the code drops every colon in it. */
  lemma {:induction false} HeaderLineValuePlain(v: string, attr: string, value: string, found: bool)
    requires '\r' !in value && '\n' !in value && ':' !in value && (found ==> attr != "")
    ensures var line := HeaderLine(v, attr, value, found);
            '\r' !in line.value && '\n' !in line.value && ':' !in line.value
    decreases |v|
  {
    if v == "" || v[0] == '\r' || v[0] == '\n' {
    } else if v[0] == ':' && attr != "" {
      HeaderLineValuePlain(Past(v[1..], IsSpace), attr, value, true);
    } else if !found {
      HeaderLineValuePlain(v[1..], if IsSpace(v[0]) then attr else Append(attr, v[0], BUFFER_MIN), value, false);
    } else {
      HeaderLineValuePlain(v[1..], attr, Append(value, v[0], BUFFER_MIN), true);
    }
  }

  lemma {:induction false} CStrKeeps(s: string)
    ensures forall c :: c in CStr(s) ==> c in s
  {
    if s != "" && s[0] != '\0' {
      CStrKeeps(s[1..]);
    }
  }

  lemma {:induction false} RunKeeps(v: string, inside: char -> bool)
    ensures forall c :: c in Run(v, inside) ==> c in v && inside(c)
    ensures forall c :: c in Past(v, inside) ==> c in v
  {
    if v != "" && inside(v[0]) {
      RunKeeps(v[1..], inside);
    }
  }

  lemma {:induction false} PlainPart(s: string, t: string)
    requires PlainText(s) && forall c :: c in t ==> c in s
    ensures PlainText(t)
  {
  }

  lemma {:induction false} TextIsReadable(v: string)
    requires PlainText(v)
    ensures ReadableText(Text(v)) && (Text(v) != "" ==> Text(v)[0] != '\"') && PlainText(PastText(v))
  {
    if v != "" && v[0] == '\"' {
      RunKeeps(v[1..], NotQuote);
      RunKeeps(Past(v[1..], NotQuote), NotSemicolon);
      PlainPart(v, Run(v[1..], NotQuote));
      PlainPart(v, Past(Past(v[1..], NotQuote), NotSemicolon));
    } else {
      RunKeeps(v, NotSemicolon);
      PlainPart(v, Run(v, NotSemicolon));
      PlainPart(v, Past(v, NotSemicolon));
    }
  }

  lemma {:induction false} ArgumentIsReadable(v: string, names: seq<string>)
    requires PlainText(v) && ArgumentAt(v, names).Argument?
    ensures ReadableText(ArgumentAt(v, names).text) && PlainText(ArgumentAt(v, names).next)
  {
    var nameAt := Past(v, IsSpace);
    RunKeeps(v, IsSpace);
    RunKeeps(nameAt, IsAlnum);
    RunKeeps(Past(nameAt, IsAlnum), IsSpace);
    var equalsAt := Past(Past(nameAt, IsAlnum), IsSpace);
    RunKeeps(equalsAt[1..], IsSpace);
    PlainPart(v, Past(equalsAt[1..], IsSpace));
    TextIsReadable(Past(equalsAt[1..], IsSpace));
  }

  lemma {:induction false} ArgumentsAreReadable(v: string, names: seq<string>, args: seq<string>)
    requires |names| == |args| && PlainText(v) && forall a :: 0 <= a < |args| ==> ReadableText(args[a])
    requires Arguments(v, names, args).Some?
    ensures forall a :: 0 <= a < |names| ==> ReadableText(Arguments(v, names, args).value[a])
    decreases |v|
  {
    if v != "" && v[0] == ';' && ArgumentAt(v[1..], names).Argument? {
      PlainPart(v, v[1..]);
      ArgumentIsReadable(v[1..], names);
      var r := ArgumentAt(v[1..], names);
      ArgumentsAreReadable(r.next, names, if r.index < |names| then args[r.index := r.text] else args);
    }
  }

  lemma {:induction false} DecomposedTexts(v: string, names: seq<string>)
    requires PlainText(v) && Decompose(v, names).Decomposed?
    ensures var r := Decompose(v, names);
            && ReadableText(r.main) && (r.main != "" ==> r.main[0] != '\"')
            && forall a :: 0 <= a < |names| ==> ReadableText(r.args[a])
  {
    var mainAt := Past(v, IsSpace);
    RunKeeps(v, IsSpace);
    PlainPart(v, mainAt);
    TextIsReadable(mainAt);
    ArgumentsAreReadable(PastText(mainAt), names, seq(|names|, _ => ""));
  }

  lemma {:induction false} HeaderIsPossible(v: string, h: PartHeader)
    requires PossibleHeader(h)
    ensures ReadHeader(v, h).header.Some? ==> PossibleHeader(ReadHeader(v, h).header.value)
    decreases |v|
  {
    var line := HeaderLine(v, "", "", false);
    var attr, value := CStr(line.attr), CStr(line.value);
    if line.more && ApplyHeader(h, attr, value).Some? {
      HeaderLineValuePlain(v, "", "", false);
      CStrKeeps(line.value);
      CStrFacts(line.value);
      assert PlainText(value);
      if StrEqNc(attr, "Content-Disposition") {
        DecomposedTexts(value, ["name", "filename"]);
      } else if StrEqNc(attr, "Content-Type") {
        DecomposedTexts(value, []);
      }
      HeaderIsPossible(line.rest, ApplyHeader(h, attr, value).value);
    }
  }

  lemma {:induction false} BeforeFirst(p: string, s: string)
    requires p != "" && FirstIndex(p, s).Some?
    ensures FirstIndex(p, s[..FirstIndex(p, s).value]).None?
  {
    var i := FirstIndex(p, s).value;
    forall j: nat ensures !OccursAt(p, s[..i], j) {
      if j + |p| <= i {
        assert s[..i][j..j + |p|] == s[j..j + |p|];
        assert !OccursAt(p, s, j);
      }
    }
  }

  lemma {:induction false} PartIsPossible(b: string, v: string)
    requires NextPart(b, v).step.Part?
    ensures PossibleEntry(b, NextPart(b, v).step.entry)
  {
    HeaderIsPossible(v, NO_HEADER);
    var rest := ReadHeader(v, NO_HEADER).rest;
    BeforeFirst(Delimiter(b, false), rest);
    var i := FirstIndex(Delimiter(b, false), rest).value;
    assert "" + rest[..i] == rest[..i];
  }

  lemma {:induction false} EntriesArePossible(b: string, v: string)
    ensures forall e :: e in Parts(b, v).entries ==> PossibleEntry(b, e)
    decreases |v|
  {
    var next := NextPart(b, v);
    if next.step.Part? {
      PartIsPossible(b, v);
      EntriesArePossible(b, next.rest);
    } else if next.step.Ignored? {
      EntriesArePossible(b, next.rest);
    }
  }
}
