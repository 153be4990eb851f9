/** cgiWriteEnvironment and cgiReadEnvironment of cgic.c: the saved form of a request. */
module Environment {
  import opened CStrings
  import opened Entries
  import opened FormValues
  import opened FormEntries
  import opened VirtualStream

  // ---------- Integers and strings in the file ----------

  const WORD := 0x1_0000_0000

  predicate Int32(i: int) { -0x8000_0000 <= i < 0x8000_0000 }

  /** The four bytes of an int, least significant first. */
  function PutInt(i: int): (s: string)
    ensures |s| == 4
  {
    var u := i % WORD;
    var h1 := u / 0x100;
    var h2 := h1 / 0x100;
    [(u % 0x100) as char, (h1 % 0x100) as char, (h2 % 0x100) as char, (h2 / 0x100) as char]
  }

  /** The characters of a file are bytes. */
  function ByteOf(c: char): (b: nat)
    ensures b < 0x100
  {
    if c as int < 0x100 then c as int else 0
  }

  function TextInt(s: string): (i: int)
    requires |s| == 4
    ensures Int32(i)
  {
    var u := ByteOf(s[0]) + 0x100 * (ByteOf(s[1]) + 0x100 * (ByteOf(s[2]) + 0x100 * ByteOf(s[3])));
    if u < 0x8000_0000 then u else u - WORD
  }

  datatype IntRead = IntRead(i: int, rest: string) | NoInt

  function GetInt(v: string): IntRead {
    if |v| < 4 then NoInt else IntRead(TextInt(v[..4]), v[4..])
  }

  /** strlen decides what is written of a string. */
  function PutString(s: string): string { PutInt(|CStr(s)|) + CStr(s) }

  datatype StringRead = StringRead(s: string, rest: string) | NoString

  function GetString(v: string): (r: StringRead)
    ensures r.StringRead? ==> |r.rest| < |v|
  {
    match GetInt(v)
    case NoInt => NoString
    case IntRead(len, rest) =>
      if 0 <= len <= |rest| then StringRead(CStr(rest[..len]), rest[len..]) else NoString
  }

  // ---------- Entries in the file ----------

  /** The file that is saved with an entry: that of the first entry with the same name. */
  function SavedFile(entries: seq<FormEntry>, e: FormEntry): Option<string> {
    var m := Matching(entries, e.attr);
    if m == [] then None else m[0].file
  }

  function PutFile(file: Option<string>, rest: string): string {
    match file
    case None => PutInt(0) + rest
    case Some(contents) => PutInt(1) + (contents + rest)
  }

  function PutEntry(e: FormEntry, file: Option<string>, rest: string): string {
    PutString(e.attr) + (PutString(e.value) + (PutString(e.fileName) + (PutString(e.contentType)
      + (PutInt(e.valueLength) + PutFile(file, rest)))))
  }

  function PutEntries(all: seq<FormEntry>, entries: seq<FormEntry>): string {
    if entries == [] then ""
    else PutEntry(entries[0], SavedFile(all, entries[0]), PutEntries(all, entries[1..]))
  }

  datatype RestoreError = EnvironmentIO | EnvironmentMemory | EnvironmentWrongVersion

  datatype EntryRead = EntryRead(e: FormEntry, rest: string) | EndOfList | EntryError(error: RestoreError)

  /** The file behind an entry; `e` has everything else. */
  function GetFile(e: FormEntry, v: string): (r: EntryRead)
    ensures r.EntryRead? ==> |r.rest| <= |v|
    ensures !r.EndOfList?
  {
    match GetInt(v)
    case NoInt => EntryError(EnvironmentMemory)
    case IntRead(flag, rest) =>
      var size := if e.valueLength < 0 then 0 else e.valueLength;
      if flag == 0 then EntryRead(e.(file := None), rest)
      else if |rest| < size then EntryError(EnvironmentIO)
      else EntryRead(e.(file := Some(rest[..size])), rest[size..])
  }

  function GetFields(attr: string, v: string): (r: EntryRead)
    ensures r.EntryRead? ==> |r.rest| <= |v|
    ensures !r.EndOfList?
  {
    match GetString(v)
    case NoString => EntryError(EnvironmentMemory)
    case StringRead(value, v1) =>
      match GetString(v1)
      case NoString => EntryError(EnvironmentMemory)
      case StringRead(fileName, v2) =>
        match GetString(v2)
        case NoString => EntryError(EnvironmentMemory)
        case StringRead(contentType, v3) =>
          match GetInt(v3)
          case NoInt => EntryError(EnvironmentMemory)
          case IntRead(valueLength, v4) => GetFile(FormEntry(attr, value, valueLength, fileName, contentType, None), v4)
  }

  function GetEntry(v: string): (r: EntryRead)
    ensures r.EntryRead? ==> |r.rest| < |v|
  {
    match GetString(v)
    case NoString => EndOfList
    case StringRead(attr, rest) => GetFields(attr, rest)
  }

  datatype ListRead = Entries(entries: seq<FormEntry>) | ListError(error: RestoreError)

  /** What a list is when one entry, or the lack of one, comes in front of what is read later. */
  function Add(next: EntryRead, later: ListRead): ListRead {
    match next
    case EndOfList => Entries([])
    case EntryError(error) => ListError(error)
    case EntryRead(e, _) =>
      match later
      case Entries(es) => Entries([e] + es)
      case ListError(error) => ListError(error)
  }

  /** An entry whose name cannot be read ends the list; anything else that is missing is an error. */
  function GetEntries(v: string): ListRead
    decreases |v|
  {
    var next := GetEntry(v);
    Add(next, if next.EntryRead? then GetEntries(next.rest) else Entries([]))
  }

  // ---------- The whole file ----------

  const VERSION := "CGIC2.0"

  /** The CGI variables, in the order of their declaration. */
  datatype Variables = Variables(
    serverSoftware: string, serverName: string, gatewayInterface: string, serverProtocol: string, serverPort: string,
    requestMethod: string, pathInfo: string, pathTranslated: string, scriptName: string, queryString: string,
    remoteHost: string, remoteAddr: string, authType: string, remoteUser: string, remoteIdent: string,
    contentType: string, accept: string, userAgent: string, referrer: string, cookie: string)

  /** The order in which they are saved. */
  function Listed(v: Variables): (s: seq<string>)
    ensures |s| == 20
  {
    [v.serverSoftware, v.serverName, v.gatewayInterface, v.serverProtocol, v.serverPort,
     v.requestMethod, v.pathInfo, v.pathTranslated, v.scriptName, v.queryString,
     v.remoteHost, v.remoteAddr, v.authType, v.remoteUser, v.remoteIdent,
     v.contentType, v.accept, v.userAgent, v.referrer, v.cookie]
  }

  /** The order in which they are restored. */
  function Unlisted(s: seq<string>): Variables
    requires |s| == 20
  {
    Variables(s[0], s[1], s[2], s[3], s[4], s[5], s[6], s[7], s[8], s[9],
              s[10], s[11], s[12], s[13], s[14], s[15], s[16], s[17], s[18], s[19])
  }

  datatype Saved = Saved(variables: Variables, contentLength: int, entries: seq<FormEntry>)

  function PutStrings(s: seq<string>, rest: string): string {
    if s == [] then rest else PutString(s[0]) + PutStrings(s[1..], rest)
  }

  function Save(env: Saved): string {
    var entries := PutEntries(env.entries, env.entries);
    PutString(VERSION) + PutStrings(Listed(env.variables), PutInt(env.contentLength) + entries)
  }

  datatype StringsRead = StringsRead(s: seq<string>, rest: string) | NoStrings

  function GetStrings(n: nat, v: string): (r: StringsRead)
    ensures r.StringsRead? ==> |r.s| == n
  {
    if n == 0 then StringsRead([], v)
    else
      match GetString(v)
      case NoString => NoStrings
      case StringRead(s, rest) =>
        match GetStrings(n - 1, rest)
        case NoStrings => NoStrings
        case StringsRead(later, rest') => StringsRead([s] + later, rest')
  }

  datatype Restored = Success(env: Saved) | Failure(error: RestoreError)

  function Restore(v: string): Restored {
    match GetString(v)
    case NoString => Failure(EnvironmentIO)
    case StringRead(version, v1) =>
      if version != VERSION then Failure(EnvironmentWrongVersion)
      else
        match GetStrings(20, v1)
        case NoStrings => Failure(EnvironmentIO)
        case StringsRead(s, v2) =>
          match GetInt(v2)
          case NoInt => Failure(EnvironmentIO)
          case IntRead(contentLength, v3) =>
            match GetEntries(v3)
            case ListError(error) => Failure(error)
            case Entries(entries) => Success(Saved(Unlisted(s), contentLength, entries))
  }

  // ---------- cgiWriteEnvironment ----------

  /** A flag, and behind a one the contents. */
  function FileBytes(file: Option<string>): string {
    match file
    case None => PutInt(0)
    case Some(contents) => PutInt(1) + contents
  }

  lemma {:induction false} FileBytesArePut(file: Option<string>, rest: string)
    ensures PutFile(file, rest) == FileBytes(file) + rest
  {
  }

  /** The file of an entry is looked up by name, and copied a buffer at a time. */
  method WriteFile(form: Form, e: FormEntry) returns (out: string)
    requires form.Valid()
    modifies form`findTarget, form`findPos
    ensures form.Valid()
    ensures out == FileBytes(SavedFile(form.entries, e))
  {
    var found := form.FindFirst(e.attr);
    if found.Some? && found.value.file.Some? {
      var contents := found.value.file.value;
      out := PutInt(1);
      var pos := 0;
      while pos < |contents|
        invariant 0 <= pos <= |contents| && out == PutInt(1) + contents[..pos]
      {
        var got := if |contents| - pos < BUFFER_MIN then |contents| - pos else BUFFER_MIN;
        assert contents[..pos] + contents[pos..pos + got] == contents[..pos + got];
        out := out + contents[pos..pos + got];
        pos := pos + got;
      }
      assert contents[..pos] == contents;
    } else {
      out := PutInt(0);
    }
  }

  lemma {:induction false} JoinFields(a: string, b: string, c: string, d: string, i: string, f: string, rest: string)
    ensures a + (b + (c + (d + (i + (f + rest))))) == a + b + c + d + i + f + rest
  {
  }

  method WriteEntry(form: Form, e: FormEntry) returns (out: string)
    requires form.Valid()
    modifies form`findTarget, form`findPos
    ensures form.Valid()
    ensures out == PutString(e.attr) + PutString(e.value) + PutString(e.fileName) + PutString(e.contentType)
                 + PutInt(e.valueLength) + FileBytes(SavedFile(form.entries, e))
    ensures forall rest :: PutEntry(e, SavedFile(form.entries, e), rest) == out + rest
  {
    var fields := PutString(e.attr) + PutString(e.value) + PutString(e.fileName) + PutString(e.contentType)
                  + PutInt(e.valueLength);
    var file := WriteFile(form, e);
    out := fields + file;
    forall rest ensures PutEntry(e, SavedFile(form.entries, e), rest) == out + rest {
      FileBytesArePut(SavedFile(form.entries, e), rest);
      JoinFields(PutString(e.attr), PutString(e.value), PutString(e.fileName), PutString(e.contentType),
                 PutInt(e.valueLength), file, rest);
    }
  }

  method WriteStrings(s: seq<string>) returns (out: string)
    ensures forall rest :: PutStrings(s, rest) == out + rest
  {
    out := "";
    var i := 0;
    while i < |s|
      invariant 0 <= i <= |s|
      invariant forall rest :: PutStrings(s, rest) == out + PutStrings(s[i..], rest)
    {
      ghost var before := out;
      out := out + PutString(s[i]);
      assert s[i..][1..] == s[i + 1..];
      forall rest ensures PutStrings(s, rest) == out + PutStrings(s[i + 1..], rest) {
        assert PutStrings(s, rest) == before + PutStrings(s[i..], rest);
        assert before + (PutString(s[i]) + PutStrings(s[i + 1..], rest)) == out + PutStrings(s[i + 1..], rest);
      }
      i := i + 1;
    }
  }

  method WriteEntries(form: Form) returns (out: string)
    requires form.Valid()
    modifies form`findTarget, form`findPos
    ensures form.Valid() && out == PutEntries(form.entries, form.entries)
  {
    ghost var all := form.entries;
    out := "";
    var i := 0;
    assert all[0..] == all && "" + PutEntries(all, all) == PutEntries(all, all);
    while i < |form.entries|
      invariant 0 <= i <= |all| && form.Valid() && form.entries == all
      invariant PutEntries(all, all) == out + PutEntries(all, all[i..])
    {
      var entry := WriteEntry(form, form.entries[i]);
      PutOneEntry(all, i, out, entry);
      out := out + entry;
      i := i + 1;
    }
    assert out + "" == out;
  }

  lemma {:induction false} PutOneEntry(all: seq<FormEntry>, i: nat, out: string, entry: string)
    requires i < |all|
    requires forall rest :: PutEntry(all[i], SavedFile(all, all[i]), rest) == entry + rest
    ensures out + PutEntries(all, all[i..]) == out + entry + PutEntries(all, all[i + 1..])
  {
    assert all[i..][1..] == all[i + 1..];
    var rest := PutEntries(all, all[i + 1..]);
    assert PutEntries(all, all[i..]) == PutEntry(all[i], SavedFile(all, all[i]), rest) == entry + rest;
  }

  method WriteEnvironment(form: Form, variables: Variables, contentLength: int) returns (out: string)
    requires form.Valid()
    modifies form`findTarget, form`findPos
    ensures form.Valid()
    ensures out == Save(Saved(variables, contentLength, form.entries))
  {
    var strings := WriteStrings(Listed(variables));
    var entries := WriteEntries(form);
    out := PutString(VERSION) + (strings + (PutInt(contentLength) + entries));
    assert PutStrings(Listed(variables), PutInt(contentLength) + entries)
        == strings + (PutInt(contentLength) + entries);
  }

  // ---------- cgiReadEnvironment ----------

  /** The file being read: what has not been read of it yet. */
  class InFile {
    var rest: string

    constructor (contents: string)
      ensures rest == contents
    {
      rest := contents;
    }

    method Read(size: nat) returns (text: string)
      modifies this
      ensures var n := if size < |old(rest)| then size else |old(rest)|;
              text == old(rest)[..n] && rest == old(rest)[n..]
    {
      var n := if size < |rest| then size else |rest|;
      text := rest[..n];
      rest := rest[n..];
    }

    method ReadInt() returns (ok: bool, i: int)
      modifies this
      ensures match GetInt(old(rest))
              case NoInt => !ok
              case IntRead(i', rest') => ok && i == i' && rest == rest'
    {
      var bytes := Read(4);
      ok := |bytes| == 4;
      i := if ok then TextInt(bytes) else 0;
    }

    method ReadString() returns (s: Option<string>)
      modifies this
      ensures match GetString(old(rest))
              case NoString => s == None
              case StringRead(s', rest') => s == Some(s') && rest == rest'
    {
      var ok, len := ReadInt();
      if !ok || len < 0 {
        return None;
      }
      var text := Read(len);
      s := if |text| == len then Some(CStr(text)) else None;
    }

    /** Copies a file of this size a buffer at a time. */
    method ReadContents(size: int) returns (contents: Option<string>)
      modifies this
      ensures var n := if size < 0 then 0 else size;
              if |old(rest)| < n then contents == None
              else contents == Some(old(rest)[..n]) && rest == old(rest)[n..]
    {
      ghost var v := rest;
      var len := size;
      var out := "";
      while len > 0
        invariant len <= 0 || len + |out| == size
        invariant |out| <= |v| && out == v[..|out|] && rest == v[|out|..]
        invariant len <= 0 ==> |out| == if size < 0 then 0 else size
        decreases len
      {
        var tryr := if len > BUFFER_MIN then BUFFER_MIN else len;
        var text := Read(tryr);
        if text == "" {
          return None;
        }
        assert v[..|out|] + v[|out|..][..|text|] == v[..|out| + |text|];
        out := out + text;
        len := len - |text|;
      }
      contents := Some(out);
    }

    method ReadFields(attr: string) returns (r: Option<FormEntry>)
      modifies this
      ensures FieldsRead(attr, old(rest), r, rest)
    {
      var value := ReadString();
      if value.None? { return None; }
      var fileName := ReadString();
      if fileName.None? { return None; }
      var contentType := ReadString();
      if contentType.None? { return None; }
      var ok, valueLength := ReadInt();
      if !ok { return None; }
      r := Some(FormEntry(attr, value.value, valueLength, fileName.value, contentType.value, None));
    }

    method ReadEntry() returns (r: EntryRead)
      modifies this
      ensures r == GetEntry(old(rest)) && (r.EntryRead? ==> r.rest == rest)
    {
      var attr := ReadString();
      if attr.None? { return EndOfList; }
      var e := ReadFields(attr.value);
      if e.None? { return EntryError(EnvironmentMemory); }
      var ok, fileFlag := ReadInt();
      if !ok { return EntryError(EnvironmentMemory); }
      if fileFlag == 0 {
        return EntryRead(e.value, rest);
      }
      var contents := ReadContents(e.value.valueLength);
      if contents.None? { return EntryError(EnvironmentIO); }
      r := EntryRead(e.value.(file := contents), rest);
    }

    /** One round of the loop over the entries. */
    method NextEntry(ghost entries: seq<FormEntry>) returns (next: EntryRead)
      modifies this
      ensures next.EntryRead? ==> |rest| < |old(rest)|
      ensures Behind(entries, GetEntries(old(rest)))
           == match next
              case EndOfList => Entries(entries)
              case EntryError(error) => ListError(error)
              case EntryRead(e, _) => Behind(entries + [e], GetEntries(rest))
    {
      next := ReadEntry();
      AddBehind(entries, next, if next.EntryRead? then GetEntries(rest) else Entries([]));
    }

    method ReadEntries() returns (r: ListRead)
      modifies this
      ensures r == GetEntries(old(rest))
    {
      var entries := [];
      NothingBehind(GetEntries(rest));
      while true
        invariant GetEntries(old(rest)) == Behind(entries, GetEntries(rest))
        decreases |rest|
      {
        var next := NextEntry(entries);
        match next
        case EndOfList => return Entries(entries);
        case EntryError(error) => return ListError(error);
        case EntryRead(e, _) => entries := entries + [e];
      }
    }
  }

  lemma {:induction false} NothingBehind(later: ListRead)
    ensures Behind([], later) == later
  {
    if later.Entries? {
      assert [] + later.entries == later.entries;
    }
  }

  function Behind(entries: seq<FormEntry>, later: ListRead): ListRead {
    match later
    case Entries(es) => Entries(entries + es)
    case ListError(error) => ListError(error)
  }

  lemma {:induction false} AddBehind(entries: seq<FormEntry>, next: EntryRead, later: ListRead)
    ensures Behind(entries, Add(next, later))
         == match next
            case EndOfList => Entries(entries)
            case EntryError(error) => ListError(error)
            case EntryRead(e, _) => Behind(entries + [e], later)
  {
    assert entries + [] == entries;
    if next.EntryRead? && later.Entries? {
      assert entries + ([next.e] + later.entries) == entries + [next.e] + later.entries;
    }
  }

  /** The four fields behind the name of an entry. */
  predicate FieldsRead(attr: string, v: string, r: Option<FormEntry>, rest: string) {
    match r
    case None => GetFields(attr, v) == EntryError(EnvironmentMemory)
    case Some(e) => e.file == None && GetFields(attr, v) == GetFile(e, rest)
  }

  /** The next of the variables. */
  method NextString(file: InFile, ghost n: nat, ghost strings: seq<string>) returns (t: Option<string>)
    requires n > 0
    modifies file
    ensures BehindStrings(strings, GetStrings(n, old(file.rest)))
         == match t
            case None => NoStrings
            case Some(s) => BehindStrings(strings + [s], GetStrings(n - 1, file.rest))
  {
    OneMoreString(strings, n, file.rest);
    t := file.ReadString();
  }

  method ReadStrings(file: InFile, n: nat) returns (s: Option<seq<string>>)
    modifies file
    ensures match GetStrings(n, old(file.rest))
            case NoStrings => s == None
            case StringsRead(s', rest') => s == Some(s') && file.rest == rest'
  {
    var strings := [];
    NoStringsBehind(GetStrings(n, file.rest));
    var left := n;
    ghost var all := GetStrings(n, file.rest);
    while left > 0
      invariant all == BehindStrings(strings, GetStrings(left, file.rest))
    {
      var t := NextString(file, left, strings);
      if t.None? {
        return None;
      }
      strings := strings + [t.value];
      left := left - 1;
    }
    assert strings + [] == strings;
    s := Some(strings);
  }

  lemma {:induction false} NoStringsBehind(later: StringsRead)
    ensures BehindStrings([], later) == later
  {
    if later.StringsRead? {
      assert [] + later.s == later.s;
    }
  }

  function BehindStrings(strings: seq<string>, later: StringsRead): StringsRead {
    match later
    case StringsRead(s, rest) => StringsRead(strings + s, rest)
    case NoStrings => NoStrings
  }

  lemma {:induction false} OneMoreString(strings: seq<string>, n: nat, v: string)
    requires n > 0
    ensures BehindStrings(strings, GetStrings(n, v))
         == match GetString(v)
            case NoString => NoStrings
            case StringRead(s, rest) => BehindStrings(strings + [s], GetStrings(n - 1, rest))
  {
    var next := GetString(v);
    if next.StringRead? && GetStrings(n - 1, next.rest).StringsRead? {
      var later := GetStrings(n - 1, next.rest).s;
      assert strings + ([next.s] + later) == strings + [next.s] + later;
    }
  }

  method ReadEnvironment(contents: string) returns (result: Restored)
    ensures result == Restore(contents)
  {
    var file := new InFile(contents);
    var version := file.ReadString();
    if version.None? {
      return Failure(EnvironmentIO);
    }
    if version.value != VERSION {
      return Failure(EnvironmentWrongVersion);
    }
    var strings := ReadStrings(file, 20);
    if strings.None? {
      return Failure(EnvironmentIO);
    }
    var ok, contentLength := file.ReadInt();
    if !ok {
      return Failure(EnvironmentIO);
    }
    var list := file.ReadEntries();
    match list
    case ListError(error) => result := Failure(error);
    case Entries(entries) => result := Success(Saved(Unlisted(strings.value), contentLength, entries));
  }
}
