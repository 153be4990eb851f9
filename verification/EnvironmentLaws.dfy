/** What a saved request looks like when it is restored. */
module EnvironmentLaws {
  import opened CStrings
  import opened Entries
  import opened FormEntries
  import opened Environment

  // ---------- Integers and strings ----------

  lemma {:induction false} ByteBack(b: nat)
    requires b < 0x100
    ensures ByteOf(b as char) == b
  {
  }

  lemma {:induction false} IntBack(i: int)
    requires Int32(i)
    ensures TextInt(PutInt(i)) == i
  {
    var u := i % WORD;
    assert u == if i < 0 then i + WORD else i;
    var h1 := u / 0x100;
    var h2 := h1 / 0x100;
    ByteBack(u % 0x100);
    ByteBack(h1 % 0x100);
    ByteBack(h2 % 0x100);
    ByteBack(h2 / 0x100);
  }

  lemma {:induction false} IntReadBack(i: int, rest: string)
    requires Int32(i)
    ensures GetInt(PutInt(i) + rest) == IntRead(i, rest)
  {
    var v := PutInt(i) + rest;
    IntBack(i);
    assert v[..4] == PutInt(i) && v[4..] == rest;
  }

  predicate Fits(s: string) { |CStr(s)| < 0x8000_0000 }

  lemma {:induction false} StringBack(s: string, rest: string)
    requires Fits(s)
    ensures GetString(PutString(s) + rest) == StringRead(CStr(s), rest)
  {
    var c := CStr(s);
    assert PutString(s) + rest == PutInt(|c|) + (c + rest);
    IntReadBack(|c|, c + rest);
    assert (c + rest)[..|c|] == c && (c + rest)[|c|..] == rest;
    CStrFacts(s);
  }

  // ---------- What comes back ----------

  predicate PlainString(s: string) { '\0' !in s && |s| < 0x8000_0000 }

  /** An entry as the parsers make it: its name and types are C strings, and the length of a file
      is the size of its contents. */
  predicate Sound(e: FormEntry) {
    && PlainString(e.attr) && PlainString(e.fileName) && PlainString(e.contentType)
    && |e.value| < 0x8000_0000 && Int32(e.valueLength)
    && (e.file.Some? ==> e.valueLength == |e.file.value|)
  }

  lemma {:induction false} FieldsBack(e: FormEntry, file: Option<string>, rest: string)
    requires Sound(e)
    ensures GetEntry(PutEntry(e, file, rest)) == GetFile(e.(value := CStr(e.value), file := None), PutFile(file, rest))
  {
    CStrFacts(e.attr);
    CStrFacts(e.value);
    CStrFacts(e.fileName);
    CStrFacts(e.contentType);
    var v4 := PutFile(file, rest);
    var v3 := PutInt(e.valueLength) + v4;
    var v2 := PutString(e.contentType) + v3;
    var v1 := PutString(e.fileName) + v2;
    StringBack(e.attr, PutString(e.value) + v1);
    StringBack(e.value, v1);
    StringBack(e.fileName, v2);
    StringBack(e.contentType, v3);
    IntReadBack(e.valueLength, v4);
  }

  /** An entry comes back unchanged, with the reader at the start of what follows it, if and only
      if its value holds no NUL and the file saved with it is its own. */
  lemma {:induction false} EntryBackIff(e: FormEntry, file: Option<string>, rest: string)
    requires Sound(e)
    ensures GetEntry(PutEntry(e, file, rest)) == EntryRead(e, rest) <==> '\0' !in e.value && file == e.file
  {
    FieldsBack(e, file, rest);
    CStrFacts(e.value);
    IntReadBack(0, rest);
    if file.Some? {
      var v := file.value + rest;
      IntReadBack(1, v);
      var size := if e.valueLength < 0 then 0 else e.valueLength;
      if size <= |v| && v[size..] == rest {
        assert v[..size] == file.value;
      }
      if size == |file.value| {
        assert v[..size] == file.value && v[size..] == rest;
      }
    }
  }

  /** What a save keeps of an entry is the entry itself. */
  predicate Kept(all: seq<FormEntry>, e: FormEntry) {
    '\0' !in e.value && SavedFile(all, e) == e.file
  }

  /** Different files under one name have the same size. */
  predicate SameSize(all: seq<FormEntry>, e: FormEntry) {
    e.file.Some? && SavedFile(all, e).Some? ==> |SavedFile(all, e).value| == |e.file.value|
  }

  /** If the entry is not kept and files of one name have one size, another entry comes back. */
  lemma {:induction false} EntryLost(all: seq<FormEntry>, e: FormEntry, rest: string)
    requires Sound(e) && SameSize(all, e) && !Kept(all, e)
    ensures var r := GetEntry(PutEntry(e, SavedFile(all, e), rest)); r.EntryRead? ==> r.e != e
  {
    var file := SavedFile(all, e);
    FieldsBack(e, file, rest);
    CStrFacts(e.value);
    IntReadBack(0, rest);
    if file.Some? {
      IntReadBack(1, file.value + rest);
      assert e.file.Some? ==> (file.value + rest)[..e.valueLength] == file.value;
    }
  }

  lemma {:induction false} OneEntry(v: string, e: FormEntry, rest: string, later: seq<FormEntry>)
    requires GetEntry(v) == EntryRead(e, rest) && GetEntries(rest) == Entries(later)
    ensures GetEntries(v) == Entries([e] + later)
  {
  }

  lemma {:induction false} EntryInFront(all: seq<FormEntry>, e: FormEntry, later: seq<FormEntry>)
    requires Sound(e) && Kept(all, e) && GetEntries(PutEntries(all, later)) == Entries(later)
    ensures GetEntries(PutEntries(all, [e] + later)) == Entries([e] + later)
  {
    assert ([e] + later)[1..] == later;
    var rest := PutEntries(all, later);
    EntryBackIff(e, SavedFile(all, e), rest);
    OneEntry(PutEntries(all, [e] + later), e, rest, later);
  }

  /** Every entry is sound and kept. */
  predicate AllKept(all: seq<FormEntry>, entries: seq<FormEntry>) {
    entries == [] || (Sound(entries[0]) && Kept(all, entries[0]) && AllKept(all, entries[1..]))
  }

  lemma {:induction false} KeptOneByOne(all: seq<FormEntry>, entries: seq<FormEntry>)
    requires forall e :: e in entries ==> Sound(e) && Kept(all, e)
    ensures AllKept(all, entries)
  {
    if entries != [] {
      KeptOneByOne(all, entries[1..]);
      assert entries[0] in entries;
    }
  }

  lemma {:induction false} EntriesBack(all: seq<FormEntry>, entries: seq<FormEntry>)
    requires AllKept(all, entries)
    ensures GetEntries(PutEntries(all, entries)) == Entries(entries)
  {
    if entries == [] {
      assert PutEntries(all, []) == "" && GetEntries("") == Entries([]);
    } else {
      EntriesBack(all, entries[1..]);
      EntryInFront(all, entries[0], entries[1..]);
      assert [entries[0]] + entries[1..] == entries;
    }
  }

  lemma {:induction false} EntriesBackIff(all: seq<FormEntry>, entries: seq<FormEntry>)
    requires forall e :: e in entries ==> Sound(e) && SameSize(all, e)
    ensures GetEntries(PutEntries(all, entries)) == Entries(entries) <==> forall e :: e in entries ==> Kept(all, e)
  {
    if entries != [] {
      var e, later := entries[0], entries[1..];
      var rest := PutEntries(all, later);
      assert Sound(e) && SameSize(all, e) && [e] + later == entries;
      EntryBackIff(e, SavedFile(all, e), rest);
      EntriesBackIff(all, later);
      if !Kept(all, e) {
        EntryLost(all, e, rest);
        var r := GetEntry(PutEntry(e, SavedFile(all, e), rest));
        if r.EntryRead? && GetEntries(r.rest).Entries? {
          ConsIff(r.e, e, GetEntries(r.rest).entries, later);
        }
      } else if GetEntries(rest).Entries? {
        ConsIff(e, e, GetEntries(rest).entries, later);
      }
      assert forall d :: d in entries <==> d == e || d in later;
    }
  }

  lemma {:induction false} StringsBack(s: seq<string>, rest: string)
    requires forall t :: t in s ==> PlainString(t)
    ensures GetStrings(|s|, PutStrings(s, rest)) == StringsRead(s, rest)
  {
    if s != [] {
      assert PlainString(s[0]);
      CStrFacts(s[0]);
      StringBack(s[0], PutStrings(s[1..], rest));
      StringsBack(s[1..], rest);
      assert [s[0]] + s[1..] == s;
    }
  }

  predicate SoundRequest(env: Saved) {
    (forall t :: t in Listed(env.variables) ==> PlainString(t)) && Int32(env.contentLength)
    && forall e :: e in env.entries ==> Sound(e)
  }

  lemma {:induction false} HeaderBack(s: seq<string>, contentLength: int, v: string)
    requires |s| == 20 && Int32(contentLength) && forall t :: t in s ==> PlainString(t)
    ensures Restore(PutString(VERSION) + PutStrings(s, PutInt(contentLength) + v))
         == match GetEntries(v)
            case Entries(entries) => Success(Saved(Unlisted(s), contentLength, entries))
            case ListError(error) => Failure(error)
  {
    VersionBack(PutStrings(s, PutInt(contentLength) + v));
    StringsBack(s, PutInt(contentLength) + v);
    IntReadBack(contentLength, v);
  }

  lemma {:induction false} VersionBack(rest: string)
    ensures GetString(PutString(VERSION) + rest) == StringRead(VERSION, rest)
  {
    CStrFacts(VERSION);
    StringBack(VERSION, rest);
  }

  lemma {:induction false} VariablesBack(env: Saved)
    requires SoundRequest(env)
    ensures Restore(Save(env)) == match GetEntries(PutEntries(env.entries, env.entries))
                                  case Entries(entries) => Success(env.(entries := entries))
                                  case ListError(error) => Failure(error)
  {
    HeaderBack(Listed(env.variables), env.contentLength, PutEntries(env.entries, env.entries));
    ListedBack(env.variables);
  }

  lemma {:induction false} ListedBack(v: Variables)
    ensures Unlisted(Listed(v)) == v
  {
  }

  /** A saved request comes back whole if every value is a C string and every entry is the first
      of its name or has the same file, or like it no file. */
  lemma {:induction false} SaveRestore(env: Saved)
    requires SoundRequest(env) && forall e :: e in env.entries ==> Kept(env.entries, e)
    ensures Restore(Save(env)) == Success(env)
  {
    VariablesBack(env);
    KeptOneByOne(env.entries, env.entries);
    EntriesBack(env.entries, env.entries);
  }

  /** And only then, as long as different files under one name have one size: files of other sizes
      leave the reader inside a file, where what it takes for entries depends on the contents. */
  lemma {:induction false} SaveRestoreIff(env: Saved)
    requires SoundRequest(env) && forall e :: e in env.entries ==> SameSize(env.entries, e)
    ensures Restore(Save(env)) == Success(env) <==> forall e :: e in env.entries ==> Kept(env.entries, e)
  {
    VariablesBack(env);
    EntriesBackIff(env.entries, env.entries);
  }

  /** Entries with names of their own are kept. */
  lemma {:induction false} UniqueNamesAreKept(all: seq<FormEntry>, i: nat)
    requires i < |all| && forall j :: 0 <= j < i ==> all[j].attr != all[i].attr
    ensures SavedFile(all, all[i]) == all[i].file
  {
    if i > 0 {
      assert all[1..][i - 1] == all[i];
      assert forall j :: 0 <= j < i - 1 ==> all[1..][j] == all[j + 1];
      UniqueNamesAreKept(all[1..], i - 1);
    }
  }

  /** An upload behind a field of the same name loses its file. */
  lemma {:induction false} SharedNameLosesFile(env: Saved, field: FormEntry, upload: FormEntry)
    requires SoundRequest(env) && env.entries == [field, upload]
    requires field.attr == upload.attr && field.file.None? && upload.file.Some?
    ensures Restore(Save(env)) != Success(env)
  {
    assert SavedFile(env.entries, field) == None && SavedFile(env.entries, upload) == None;
    assert !Kept(env.entries, upload) && upload in env.entries;
    SaveRestoreIff(env);
  }

  /** Why the sizes matter: what is left of a larger file at the very end goes unnoticed if it is
      too short for an int, although the save did not keep the second file. */
  lemma {:induction false} ShortLeftoverGoesUnnoticed(env: Saved, first: FormEntry, second: FormEntry, left: string)
    requires SoundRequest(env) && env.entries == [first, second] && first.attr == second.attr
    requires first.file.Some? && second.file.Some? && first.file.value == second.file.value + left && 0 < |left| < 4
    requires '\0' !in first.value && '\0' !in second.value
    ensures !Kept(env.entries, second) && Restore(Save(env)) == Success(env)
  {
    var file := first.file;
    var saved := PutEntry(second, file, "");
    assert Sound(first) && Sound(second);
    assert SavedFile(env.entries, first) == file && SavedFile(env.entries, second) == file;
    SecondCut(second, second.file.value, left);
    EntryBackIff(first, file, saved);
    OneEntry(PutEntry(first, file, saved), first, saved, [second]);
    TwoEntries(env.entries, first, second);
    VariablesBack(env);
  }

  lemma {:induction false} TwoEntries(all: seq<FormEntry>, first: FormEntry, second: FormEntry)
    ensures PutEntries(all, [first, second])
         == PutEntry(first, SavedFile(all, first), PutEntry(second, SavedFile(all, second), ""))
    ensures [first] + [second] == [first, second]
  {
    assert [first, second][1..] == [second];
    assert PutEntries(all, [second]) == PutEntry(second, SavedFile(all, second), "");
  }

  lemma {:induction false} SecondCut(e: FormEntry, contents: string, left: string)
    requires Sound(e) && '\0' !in e.value && e.file == Some(contents) && |left| < 4
    ensures GetEntries(PutEntry(e, Some(contents + left), "")) == Entries([e])
  {
    FieldsBack(e, Some(contents + left), "");
    CStrFacts(e.value);
    assert e.(value := CStr(e.value), file := None) == e.(file := None);
    LeftoverFile(e, contents, left);
    OneEntry(PutEntry(e, Some(contents + left), ""), e, left, []);
    assert [e] + [] == [e];
  }

  lemma {:induction false} LeftoverFile(e: FormEntry, contents: string, left: string)
    requires e.file == Some(contents) && e.valueLength == |contents| && |left| < 4
    ensures GetFile(e.(file := None), PutFile(Some(contents + left), "")) == EntryRead(e, left)
    ensures GetEntries(left) == Entries([])
  {
    var v := contents + left + "";
    IntReadBack(1, v);
    assert v[..|contents|] == contents && v[|contents|..] == left;
  }

  // ---------- The form of the file ----------

  lemma {:induction false} FourDigits(u: nat)
    requires u < 0x1_0000_0000
    ensures var h1 := u / 0x100;
            var h2 := h1 / 0x100;
            h2 / 0x100 < 0x100 && u == u % 0x100 + 256 * (h1 % 0x100) + 65536 * (h2 % 0x100) + 16777216 * (h2 / 0x100)
  {
    var h1 := u / 0x100;
    assert u == u % 0x100 + 0x100 * h1;
    assert h1 == h1 % 0x100 + 0x100 * (h1 / 0x100);
  }

  /** An int is saved as the four bytes of its two's complement, least significant first. */
  lemma {:induction false} LittleEndian(i: int)
    requires Int32(i)
    ensures var s := PutInt(i);
            && s[0] as int < 256 && s[1] as int < 256 && s[2] as int < 256 && s[3] as int < 256
            && (if i < 0 then i + 0x1_0000_0000 else i)
               == s[0] as int + 256 * s[1] as int + 65536 * s[2] as int + 16777216 * s[3] as int
  {
    assert i % WORD == if i < 0 then i + WORD else i;
    FourDigits(i % WORD);
  }

  /** The file begins with the version, behind its length. */
  lemma {:induction false} FileBegins(env: Saved)
    ensures Save(env)[..11] == [7 as char, '\0', '\0', '\0'] + "CGIC2.0"
  {
    CStrFacts(VERSION);
    assert PutInt(7) == [7 as char, '\0', '\0', '\0'];
    assert PutString(VERSION) == PutInt(7) + VERSION;
  }

  lemma {:induction false} OneString(t: string, s: seq<string>, rest: string)
    ensures PutStrings([t] + s, rest) == PutString(t) + PutStrings(s, rest)
  {
    assert ([t] + s)[1..] == s;
  }

  lemma {:induction false} FiveStrings(a: string, b: string, c: string, d: string, e: string,
                                       s: seq<string>, rest: string)
    ensures PutStrings([a, b, c, d, e] + s, rest)
         == PutString(a) + (PutString(b) + (PutString(c) + (PutString(d) + (PutString(e) + PutStrings(s, rest)))))
  {
    assert [a, b, c, d, e] + s == [a] + ([b] + ([c] + ([d] + ([e] + s))));
    OneString(a, [b] + ([c] + ([d] + ([e] + s))), rest);
    OneString(b, [c] + ([d] + ([e] + s)), rest);
    OneString(c, [d] + ([e] + s), rest);
    OneString(d, [e] + s, rest);
    OneString(e, s, rest);
  }

  /** The variables follow one another in the order of the code. */
  lemma {:induction false} VariablesInOrder(v: Variables, rest: string)
    ensures PutStrings(Listed(v), rest)
         == PutString(v.serverSoftware) + (PutString(v.serverName) + (PutString(v.gatewayInterface)
            + (PutString(v.serverProtocol) + (PutString(v.serverPort)
            + (PutString(v.requestMethod) + (PutString(v.pathInfo) + (PutString(v.pathTranslated)
            + (PutString(v.scriptName) + (PutString(v.queryString)
            + (PutString(v.remoteHost) + (PutString(v.remoteAddr) + (PutString(v.authType)
            + (PutString(v.remoteUser) + (PutString(v.remoteIdent)
            + (PutString(v.contentType) + (PutString(v.accept) + (PutString(v.userAgent)
            + (PutString(v.referrer) + (PutString(v.cookie) + rest)))))))))))))))))))
  {
    var last := LastTen(v);
    assert Listed(v) == [v.serverSoftware, v.serverName, v.gatewayInterface, v.serverProtocol, v.serverPort]
                        + ([v.requestMethod, v.pathInfo, v.pathTranslated, v.scriptName, v.queryString] + last);
    FiveStrings(v.serverSoftware, v.serverName, v.gatewayInterface, v.serverProtocol, v.serverPort,
                [v.requestMethod, v.pathInfo, v.pathTranslated, v.scriptName, v.queryString] + last, rest);
    FiveStrings(v.requestMethod, v.pathInfo, v.pathTranslated, v.scriptName, v.queryString, last, rest);
    LastTenInOrder(v, rest);
  }

  function LastTen(v: Variables): seq<string> {
    [v.remoteHost, v.remoteAddr, v.authType, v.remoteUser, v.remoteIdent]
    + [v.contentType, v.accept, v.userAgent, v.referrer, v.cookie]
  }

  lemma {:induction false} LastTenInOrder(v: Variables, rest: string)
    ensures PutStrings(LastTen(v), rest)
         == PutString(v.remoteHost) + (PutString(v.remoteAddr) + (PutString(v.authType)
            + (PutString(v.remoteUser) + (PutString(v.remoteIdent)
            + (PutString(v.contentType) + (PutString(v.accept) + (PutString(v.userAgent)
            + (PutString(v.referrer) + (PutString(v.cookie) + rest)))))))))
  {
    var s := [v.contentType, v.accept, v.userAgent, v.referrer, v.cookie];
    FiveStrings(v.remoteHost, v.remoteAddr, v.authType, v.remoteUser, v.remoteIdent, s, rest);
    assert s + [] == s;
    FiveStrings(v.contentType, v.accept, v.userAgent, v.referrer, v.cookie, [], rest);
  }

  // ---------- Files that cannot be restored ----------

  /** A file of another version is refused. */
  lemma {:induction false} OtherVersion(version: string, rest: string)
    requires Fits(version) && CStr(version) != "CGIC2.0"
    ensures Restore(PutString(version) + rest) == Failure(EnvironmentWrongVersion)
  {
    StringBack(version, rest);
  }

  /** A file that ends before or within the variables. */
  lemma {:induction false} CutInVariables(s: seq<string>, cut: string)
    requires |s| < 20 && |cut| < 4 && forall t :: t in s ==> PlainString(t)
    ensures Restore(cut) == Failure(EnvironmentIO)
    ensures Restore(PutString("CGIC2.0") + PutStrings(s, cut)) == Failure(EnvironmentIO)
  {
    VersionBack(PutStrings(s, cut));
    StringsEnd(s, 20, cut);
  }

  lemma {:induction false} StringInFront(t: string, s: seq<string>, n: nat, cut: string)
    requires PlainString(t) && n > 0 && GetStrings(n - 1, PutStrings(s, cut)) == NoStrings
    ensures GetStrings(n, PutStrings([t] + s, cut)) == NoStrings
  {
    CStrFacts(t);
    OneString(t, s, cut);
    StringBack(t, PutStrings(s, cut));
  }

  lemma {:induction false} StringsEnd(s: seq<string>, n: nat, cut: string)
    requires |s| < n && |cut| < 4 && forall t :: t in s ==> PlainString(t)
    ensures GetStrings(n, PutStrings(s, cut)) == NoStrings
  {
    if s == [] {
      assert GetString(cut) == NoString;
    } else {
      StringsEnd(s[1..], n - 1, cut);
      StringInFront(s[0], s[1..], n, cut);
      assert [s[0]] + s[1..] == s;
    }
  }

  /** A file that ends behind the name of an entry. */
  lemma {:induction false} CutInEntry(s: seq<string>, contentLength: int, attr: string, cut: string)
    requires |s| == 20 && Int32(contentLength) && (forall t :: t in s ==> PlainString(t)) && Fits(attr) && |cut| < 4
    ensures Restore(PutString(VERSION) + PutStrings(s, PutInt(contentLength) + (PutString(attr) + cut)))
         == Failure(EnvironmentMemory)
  {
    HeaderBack(s, contentLength, PutString(attr) + cut);
    StringBack(attr, cut);
    assert GetEntries(PutString(attr) + cut) == ListError(EnvironmentMemory);
  }

  /** A file that ends within the contents of an uploaded file. */
  lemma {:induction false} CutInFile(s: seq<string>, contentLength: int, e: FormEntry, contents: string)
    requires |s| == 20 && Int32(contentLength) && forall t :: t in s ==> PlainString(t)
    requires Sound(e) && |contents| < e.valueLength
    ensures Restore(PutString(VERSION) + PutStrings(s, PutInt(contentLength) + PutEntry(e, Some(contents), "")))
         == Failure(EnvironmentIO)
  {
    var v := PutEntry(e, Some(contents), "");
    HeaderBack(s, contentLength, v);
    FieldsBack(e, Some(contents), "");
    IntReadBack(1, contents + "");
    assert GetEntry(v) == EntryError(EnvironmentIO);
    assert GetEntries(v) == ListError(EnvironmentIO);
  }
}
