/** cgiCookieString and cgiCookies of cgic.c. */
module Cookies {
  import opened CStrings
  import opened FormValues

  /** The ends of two strings from where they first differ. */
  function Differ(p: string, n: string): (d: (string, string))
    ensures |d.0| <= |p| && (d.0 == "" && d.1 == "" <==> p == n)
  {
    if p != "" && n != "" && p[0] == n[0] then Differ(p[1..], n[1..]) else (p, n)
  }

  /** Where the value of a cookie is. Overrun stands for a comparison that runs past both
      terminating NULs, because the rest of the header equals the name. */
  datatype Lookup = At(value: string) | Absent | Overrun

  function Find(p: string, name: string): Lookup
    decreases |p|
  {
    if p == "" then Absent
    else if p == name then Overrun
    else
      var (p', n') := Differ(p, name);
      if n' == "" && p'[0] == '=' then At(p'[1..])
      else
        var semicolon := Past(p', NotSemicolon);
        if semicolon == "" then Absent else Find(Past(semicolon[1..], IsSpace), name)
  }

  // ---------- cgiCookieString ----------

  /** Overran stands for a lookup that has left the header. */
  datatype CookieResult = Status(status: FormResult) | Overran

  /** The inner comparison of the name with the header. */
  method Compare(p: string, name: string) returns (p': string, n': string)
    ensures (p', n') == Differ(p, name)
  {
    p', n' := p, name;
    while p' != "" && n' != "" && p'[0] == n'[0]
      invariant Differ(p', n') == Differ(p, name)
      decreases |p'|
    {
      p', n' := p'[1..], n'[1..];
    }
  }

  /** Copies a value up to its end, a semicolon, or the end of the buffer. */
  method CopyValue(value: array<char>, p: string, space: int) returns (status: FormResult)
    requires space <= value.Length
    modifies value
    ensures if space > 0 then Holds(value[..], old(value[..]), Run(p, NotSemicolon), space)
            else value[..] == old(value[..])
    ensures status == if |Run(p, NotSemicolon)| > Room(space) then FormTruncated else FormSuccess
  {
    if space <= 0 {
      return if p == "" || p[0] == ';' then FormSuccess else FormTruncated;
    }
    ghost var before, text := value[..], Run(p, NotSemicolon);
    var rest: string, i: nat := p, 0;
    assert value[..0] + text == text;
    while rest != "" && rest[0] != ';' && space - i > 1
      invariant Filling(value[..], before, i, text, Run(rest, NotSemicolon), space)
      decreases |rest|
    {
      FillOne(value[..], before, i, text, rest[0], Run(rest[1..], NotSemicolon), space);
      ghost var held := value[..];
      value[i] := rest[0];
      assert value[..] == held[i := rest[0]];
      i := i + 1;
      rest := rest[1..];
    }
    ghost var held := value[..];
    value[i] := '\0';
    status := if rest == "" || rest[0] == ';' then FormSuccess else FormTruncated;
    assert status.FormTruncated? ==> held[..i] == text[..i];
    Terminated(held, value[..], before, i, text, status.FormTruncated?, space);
  }

  /** The search loop. It leaves the header when header and name end together. */
  method Locate(cookie: string, name: string) returns (found: Lookup)
    ensures found == Find(cookie, name)
  {
    var p := cookie;
    while p != ""
      invariant Find(cookie, name) == Find(p, name)
      decreases |p|
    {
      var n;
      p, n := Compare(p, name);
      if p == "" && n == "" {
        return Overrun;
      }
      if n == "" && p[0] == '=' {
        return At(p[1..]);
      }
      p := Skip(p, NotSemicolon);
      if p == "" {
        break;
      }
      p := Skip(p[1..], IsSpace);
    }
    found := Absent;
  }

  method CookieString(cookie: string, name: string, value: array<char>, space: int) returns (result: CookieResult)
    requires space <= value.Length && (space != 0 ==> value.Length > 0)
    modifies value
    ensures match Find(cookie, name)
            case At(v) =>
              var text := Run(v, NotSemicolon);
              && (result == Status(FormTruncated) <==> |text| > Room(space))
              && (result == Status(FormSuccess) <==> |text| <= Room(space))
              && (if space > 0 then Holds(value[..], old(value[..]), text, space) else value[..] == old(value[..]))
            case Absent =>
              && result == Status(FormNotFound)
              && value[..] == if space != 0 then ['\0'] + old(value[1..]) else old(value[..])
            case Overrun => result == Overran && value[..] == old(value[..])
  {
    var found := Locate(cookie, name);
    match found
    case At(p) =>
      var status := CopyValue(value, p, space);
      result := Status(status);
    case Absent =>
      if space != 0 {
        value[0] := '\0';
      }
      result := Status(FormNotFound);
    case Overrun =>
      result := Overran;
  }

  // ---------- cgiCookies ----------

  /** The names in the header: after white space, everything up to the next equals sign. */
  function NamesIn(p: string): seq<string>
    decreases |p|
  {
    if p == "" then []
    else
      var n := Past(p, IsSpace);
      var name := Run(n, NotEquals);
      var semicolon := Past(Past(n, NotEquals), NotSemicolon);
      (if name != "" then [name] else []) + (if semicolon == "" then [] else NamesIn(semicolon[1..]))
  }

  lemma {:induction false} CountPast(p: string, inside: char -> bool, c: char)
    ensures Count(Past(p, inside), c) <= Count(p, c)
  {
    if p != "" && inside(p[0]) {
      CountPast(p[1..], inside, c);
    }
  }

  /** Every name but one without an equals sign, at the very end, has an equals sign behind it. */
  lemma {:induction false} SlotsSuffice(p: string)
    ensures |NamesIn(p)| <= Count(p, '=') + 1
    decreases |p|
  {
    if p != "" {
      var n := Past(p, IsSpace);
      var equals := Past(n, NotEquals);
      var semicolon := Past(equals, NotSemicolon);
      CountPast(p, IsSpace, '=');
      CountPast(n, NotEquals, '=');
      if equals != "" {
        RunSplits(n, NotEquals);
        assert equals[0] == '=' && Past(equals, NotSemicolon) == Past(equals[1..], NotSemicolon);
        CountPast(equals[1..], NotSemicolon, '=');
        if semicolon != "" {
          SlotsSuffice(semicolon[1..]);
        }
      }
    }
  }

  method CountEquals(p: string) returns (total: nat)
    ensures total == Count(p, '=')
  {
    total := 0;
    for i := 0 to |p|
      invariant total + Count(p[i..], '=') == Count(p, '=')
    {
      if p[i] == '=' {
        total := total + 1;
      }
    }
  }

  /** One name, and the rest of the header behind its value. */
  method NextName(p: string) returns (name: string, rest: string)
    requires p != ""
    ensures |rest| < |p|
    ensures name != "" ==> NamesIn(p) != [] && NamesIn(p)[0] == name
    ensures NamesIn(p)[if name != "" then 1 else 0..] == NamesIn(rest)
  {
    var n := Skip(p, IsSpace);
    ghost var start := n;
    name := "";
    while n != "" && n[0] != '='
      invariant name + Run(n, NotEquals) == Run(start, NotEquals) && Past(n, NotEquals) == Past(start, NotEquals)
      invariant |n| <= |start|
      decreases |n|
    {
      assert name + ([n[0]] + Run(n[1..], NotEquals)) == name + [n[0]] + Run(n[1..], NotEquals);
      name := name + [n[0]];
      n := n[1..];
    }
    assert name + "" == name;
    n := Skip(n, NotSemicolon);
    rest := if n != "" then n[1..] else "";
  }

  /** Every store is within the array that the first pass allocates. A name without an equals sign
      at the end can take the slot of the terminating null. */
  method CookieNames(cookie: string) returns (result: array<Option<string>>)
    ensures fresh(result) && result.Length == Count(cookie, '=') + 1
    ensures Stored(result[..], NamesIn(cookie), |NamesIn(cookie)|)
  {
    SlotsSuffice(cookie);
    var total := CountEquals(cookie);
    result := new Option<string>[total + 1](_ => None);
    FillNames(cookie, result, NamesIn(cookie));
  }

  method FillNames(cookie: string, result: array<Option<string>>, ghost names: seq<string>)
    requires Stored(result[..], names, 0) && names == NamesIn(cookie)
    modifies result
    ensures Stored(result[..], names, |names|)
  {
    var p, i := cookie, 0;
    while p != ""
      invariant 0 <= i <= |names| && names[i..] == NamesIn(p)
      invariant Stored(result[..], names, i)
      decreases |p|
    {
      var name;
      name, p := NextName(p);
      if name != "" {
        assert names[i] == names[i..][0] && names[i + 1..] == names[i..][1..];
        Store(result, i, name, names);
        i := i + 1;
      } else {
        assert names[i..][0..] == names[i..];
      }
    }
  }
}
