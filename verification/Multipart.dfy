/** cgiParsePostMultipartInput of cgic.c: the multipart/form-data parser. */
module Multipart {
  import opened CStrings
  import opened Entries
  import opened VirtualStream
  import opened BoundarySearch
  import opened Delimiters
  import opened HeaderLines

  // ---------- The header of one part ----------

  datatype PartHeader = PartHeader(disposition: string, name: string, fileName: string, contentType: string)

  const NO_HEADER := PartHeader("", "", "", "")

  /** What one header line changes; None stands for a write through null. */
  function ApplyHeader(h: PartHeader, attr: string, value: string): Option<PartHeader> {
    if StrEqNc(attr, "Content-Disposition") then
      match Decompose(value, ["name", "filename"])
      case Decomposed(main, args) =>
        Some(h.(disposition := main, name := args[0], fileName := args[1]))
      case NullArgument => None
    else if StrEqNc(attr, "Content-Type") then
      match Decompose(value, [])
      case Decomposed(main, _) => Some(h.(contentType := main))
      case NullArgument => None
    else Some(h)
  }

  datatype HeaderBlock = HeaderBlock(header: Option<PartHeader>, rest: string)

  /** Header lines up to the first line that is not one. */
  function ReadHeader(v: string, h: PartHeader): (r: HeaderBlock)
    ensures v != "" ==> |r.rest| < |v|
    decreases |v|
  {
    var line := HeaderLine(v, "", "", false);
    if !line.more then HeaderBlock(Some(h), line.rest)
    else
      match ApplyHeader(h, CStr(line.attr), CStr(line.value))
      case None => HeaderBlock(None, line.rest)
      case Some(h') => ReadHeader(line.rest, h')
  }

  method ReadPartHeader(mpp: MpStream) returns (header: Option<PartHeader>)
    requires mpp.Valid() && |mpp.Queue()| <= 2
    modifies mpp, mpp.putback
    ensures mpp.Valid() && |mpp.Queue()| <= 1
    ensures HeaderBlock(header, mpp.Virtual()) == ReadHeader(old(mpp.Virtual()), NO_HEADER)
  {
    header := Some(NO_HEADER);
    var more, attr, value := ReadHeaderLine(mpp);
    ghost var before := old(mpp.Virtual());
    while more
      invariant mpp.Valid() && |mpp.Queue()| <= 1 && header.Some?
      invariant Line(more, attr, value, mpp.Virtual()) == HeaderLine(before, "", "", false)
      invariant ReadHeader(old(mpp.Virtual()), NO_HEADER) == ReadHeader(before, header.value)
      decreases |before|
    {
      header := ApplyHeader(header.value, CStr(attr), CStr(value));
      if header.None? {
        return;
      }
      before := mpp.Virtual();
      more, attr, value := ReadHeaderLine(mpp);
    }
  }

  // ---------- The parts ----------

  function EntryOf(h: PartHeader, body: string): FormEntry {
    if h.fileName != "" then FormEntry(h.name, "", |body|, h.fileName, h.contentType, Some(body))
    else FormEntry(h.name, body, |body|, "", h.contentType, None)
  }

  datatype Step = Part(entry: FormEntry) | Ignored | Finished | Failed(result: ParseResult)

  datatype Advance = Advance(step: Step, rest: string)

  predicate AtEnd(v: string) { |v| < 2 || v[..2] == "--" }

  /** One round of the parser: a header, and the body up to the next boundary. The body of a part
      that is not form data stays in the stream. */
  function NextPart(b: string, v: string): (r: Advance)
    ensures r.step.Part? || r.step.Ignored? ==> |r.rest| < |v|
  {
    if AtEnd(v) then Advance(Finished, "")
    else
      match ReadHeader(v, NO_HEADER)
      case HeaderBlock(None, rest) => Advance(Failed(Crashed), rest)
      case HeaderBlock(Some(h), rest) =>
        if !StrEqNc(h.disposition, "form-data") then Advance(Ignored, rest)
        else
          var passage := PassDelimiter(FindDelimiter(b, false, rest));
          Advance(if passage.result != ParseSuccess then Failed(passage.result) else Part(EntryOf(h, passage.body)),
                  passage.rest)
  }

  method ReadAtEnd(mpp: MpStream) returns (atEnd: bool)
    requires mpp.Valid() && |mpp.Queue()| <= 2
    modifies mpp, mpp.putback
    ensures mpp.Valid() && |mpp.Queue()| <= 2
    ensures atEnd == AtEnd(old(mpp.Virtual()))
    ensures atEnd <==> |old(mpp.Virtual())| < 2 || old(mpp.Virtual())[..2] == "--"
    ensures !atEnd ==> mpp.Virtual() == old(mpp.Virtual())
  {
    ghost var v := mpp.Virtual();
    var got, d := mpp.Read(2);
    if got < 2 || d == "--" {
      return true;
    }
    mpp.MpPutBack(d);
    assert mpp.Virtual() == d + v[2..];
    atEnd := false;
  }

  method ReadPart(mpp: MpStream, b: string) returns (step: Step)
    requires mpp.Valid() && |mpp.Queue()| <= 2 && ValidBoundary(b)
    modifies mpp, mpp.putback
    ensures mpp.Valid() && |mpp.Queue()| <= 2
    ensures step == NextPart(b, old(mpp.Virtual())).step
    ensures !step.Finished? ==> mpp.Virtual() == NextPart(b, old(mpp.Virtual())).rest
  {
    var atEnd := ReadAtEnd(mpp);
    if atEnd {
      return Finished;
    }
    var header := ReadPartHeader(mpp);
    if header.None? {
      return Failed(Crashed);
    }
    if !StrEqNc(header.value.disposition, "form-data") {
      return Ignored;
    }
    var result, body := AfterNextBoundary(mpp, b, false, true);
    step := if result != ParseSuccess then Failed(result) else Part(EntryOf(header.value, body));
  }

  datatype Outcome = Outcome(result: ParseResult, entries: seq<FormEntry>)

  /** What one round adds in front of what is parsed later. */
  function AddPart(step: Step, later: Outcome): Outcome {
    match step
    case Finished => Outcome(ParseSuccess, [])
    case Failed(result) => Outcome(result, [])
    case Ignored => later
    case Part(entry) => Outcome(later.result, [entry] + later.entries)
  }

  /** The parts that follow a boundary and its line break. */
  function Parts(b: string, v: string): Outcome
    decreases |v|
  {
    var next := NextPart(b, v);
    AddPart(next.step, if next.step.Part? || next.step.Ignored? then Parts(b, next.rest) else Outcome(ParseSuccess, []))
  }

  /** The whole request body. One without any boundary is an empty submission. */
  function ParseMultipart(b: string, input: string): Outcome {
    var passage := PassDelimiter(FindDelimiter(b, true, input));
    if passage.result == ParseIO then Outcome(ParseSuccess, []) else Parts(b, passage.rest)
  }

  function Behind(entries: seq<FormEntry>, o: Outcome): Outcome { Outcome(o.result, entries + o.entries) }

  lemma {:induction false} OnePart(entries: seq<FormEntry>, step: Step, later: Outcome)
    ensures Behind(entries, AddPart(step, later)) ==
            match step
            case Finished => Outcome(ParseSuccess, entries)
            case Failed(result) => Outcome(result, entries)
            case Ignored => Behind(entries, later)
            case Part(entry) => Behind(entries + [entry], later)
  {
    assert entries + [] == entries;
    if step.Part? {
      assert entries + ([step.entry] + later.entries) == entries + [step.entry] + later.entries;
    }
  }

  /** One round of the parser loop. */
  method NextStep(mpp: MpStream, b: string, ghost entries: seq<FormEntry>) returns (step: Step)
    requires mpp.Valid() && |mpp.Queue()| <= 2 && ValidBoundary(b)
    modifies mpp, mpp.putback
    ensures mpp.Valid() && |mpp.Queue()| <= 2
    ensures step.Part? || step.Ignored? ==> |mpp.Virtual()| < |old(mpp.Virtual())|
    ensures Behind(entries, Parts(b, old(mpp.Virtual()))) ==
            match step
            case Finished => Outcome(ParseSuccess, entries)
            case Failed(result) => Outcome(result, entries)
            case Ignored => Behind(entries, Parts(b, mpp.Virtual()))
            case Part(entry) => Behind(entries + [entry], Parts(b, mpp.Virtual()))
  {
    step := ReadPart(mpp, b);
    OnePart(entries, step,
            if step.Part? || step.Ignored? then Parts(b, mpp.Virtual()) else Outcome(ParseSuccess, []));
  }

  method ParseParts(mpp: MpStream, b: string) returns (result: ParseResult, entries: seq<FormEntry>)
    requires mpp.Valid() && |mpp.Queue()| <= 2 && ValidBoundary(b)
    modifies mpp, mpp.putback
    ensures Outcome(result, entries) == Parts(b, old(mpp.Virtual()))
  {
    entries := [];
    NothingBehind(Parts(b, mpp.Virtual()));
    while true
      invariant mpp.Valid() && |mpp.Queue()| <= 2
      invariant Parts(b, old(mpp.Virtual())) == Behind(entries, Parts(b, mpp.Virtual()))
      decreases |mpp.Virtual()|
    {
      var step := NextStep(mpp, b, entries);
      match step
      case Finished => return ParseSuccess, entries;
      case Failed(failure) => return failure, entries;
      case Ignored =>
      case Part(entry) => entries := entries + [entry];
    }
  }

  lemma {:induction false} NothingBehind(o: Outcome)
    ensures Behind([], o) == o
  {
    assert [] + o.entries == o.entries;
  }

  method ParsePostMultipartInput(input: string, contentLength: int, b: string)
    returns (result: ParseResult, entries: seq<FormEntry>)
    requires |input| <= contentLength && ValidBoundary(b)
    ensures Outcome(result, entries) == ParseMultipart(b, input)
  {
    result, entries := ParseSuccess, [];
    var mpp := new MpStream(input, contentLength);
    if contentLength == 0 {
      return;
    }
    var body;
    result, body := AfterNextBoundary(mpp, b, true, false);
    if result == ParseIO {
      return ParseSuccess, [];
    }
    result, entries := ParseParts(mpp, b);
  }
}
