/** readHeaderLine and decomposeValue of cgic.c. */
module HeaderLines {
  import opened CStrings
  import opened VirtualStream

  // ---------- readHeaderLine ----------

  datatype Line = Line(more: bool, attr: string, value: string, rest: string)

  /** APPEND: a character that no longer fits beside the terminating NUL is dropped. */
  function Append(s: string, c: char, space: nat): string {
    if |s| + 1 < space then s + [c] else s
  }

  /** One header line. `attr`, `value` and `found` are what has been read of it so far. */
  function HeaderLine(v: string, attr: string, value: string, found: bool): (line: Line)
    ensures v != "" ==> |line.rest| < |v|
    ensures v == "" ==> line.rest == "" && !line.more
    decreases |v|
  {
    if v == "" then Line(false, attr, value, "")
    else if v[0] == '\r' then
      Line(attr != "" && value != "", attr, value, if |v| > 1 && v[1] == '\n' then v[2..] else v[1..])
    else if v[0] == '\n' then Line(attr != "" && value != "", attr, value, v[1..])
    else if v[0] == ':' && attr != "" then
      HeaderLine(Past(v[1..], IsSpace), attr, value, true)
    else if !found then
      HeaderLine(v[1..], if IsSpace(v[0]) then attr else Append(attr, v[0], BUFFER_MIN), value, false)
    else HeaderLine(v[1..], attr, Append(value, v[0], BUFFER_MIN), true)
  }

  /** Every un-read finds the ring empty: at most two characters are queued on entry, and a colon
      only counts once a character of the name has been taken from them. */
  method ReadHeaderLine(mpp: MpStream) returns (more: bool, attr: string, value: string)
    requires mpp.Valid() && |mpp.Queue()| <= 2
    modifies mpp, mpp.putback
    ensures mpp.Valid() && |mpp.Queue()| <= 1
    ensures Line(more, attr, value, mpp.Virtual()) == HeaderLine(old(mpp.Virtual()), "", "", false)
  {
    attr, value := "", "";
    var valueFound := false;
    ghost var line := HeaderLine(mpp.Virtual(), "", "", false);
    while true
      invariant mpp.Valid() && |mpp.Queue()| <= 2
      invariant attr != "" ==> |mpp.Queue()| <= 1
      invariant line == HeaderLine(mpp.Virtual(), attr, value, valueFound)
      decreases |mpp.Virtual()|
    {
      var got, d := mpp.ReadVirtual();
      if got != 1 {
        return false, attr, value;
      }
      if d == '\r' {
        SkipLineFeed(mpp);
        break;
      } else if d == '\n' {
        break;
      } else if d == ':' && attr != "" {
        valueFound := true;
        SkipWhiteSpace(mpp);
      } else if !valueFound {
        if !IsSpace(d) {
          attr := Append(attr, d, BUFFER_MIN);
        }
      } else {
        value := Append(value, d, BUFFER_MIN);
      }
    }
    more := attr != "" && value != "";
  }

  method SkipLineFeed(mpp: MpStream)
    requires mpp.Valid() && |mpp.Queue()| <= 1
    modifies mpp, mpp.putback
    ensures mpp.Valid() && |mpp.Queue()| <= 1
    ensures mpp.Virtual() == var v := old(mpp.Virtual()); if v != "" && v[0] == '\n' then v[1..] else v
  {
    var got, d := mpp.ReadVirtual();
    if got == 1 {
      if d == '\n' {
      } else {
        mpp.Unread(d);
      }
    }
  }

  method SkipWhiteSpace(mpp: MpStream)
    requires mpp.Valid() && mpp.Queue() == ""
    modifies mpp, mpp.putback
    ensures mpp.Valid() && |mpp.Queue()| <= 1
    ensures mpp.Virtual() == Past(old(mpp.Virtual()), IsSpace)
  {
    while true
      invariant mpp.Valid() && mpp.Queue() == ""
      invariant Past(mpp.Virtual(), IsSpace) == Past(old(mpp.Virtual()), IsSpace)
      decreases |mpp.Virtual()|
    {
      var got, d := mpp.ReadVirtual();
      if got != 1 {
        break;
      }
      if !IsSpace(d) {
        mpp.Unread(d);
        break;
      }
    }
  }

  // ---------- decomposeValue ----------

  predicate NotQuote(c: char) { c != '\"' }

  /** What a buffer of `space` characters keeps of a text. */
  function Fit(s: string, space: nat): string {
    if |s| < space then s else s[..if space > 0 then space - 1 else 0]
  }

  method Copy(v: string, inside: char -> bool, space: nat) returns (text: string, r: string)
    ensures text == Fit(Run(v, inside), space) && r == Past(v, inside)
  {
    text, r := "", v;
    ghost var done := "";
    while r != "" && inside(r[0])
      invariant Past(r, inside) == Past(v, inside)
      invariant done + Run(r, inside) == Run(v, inside) && text == Fit(done, space)
      decreases |r|
    {
      assert done + ([r[0]] + Run(r[1..], inside)) == done + [r[0]] + Run(r[1..], inside);
      done := done + [r[0]];
      text := Append(text, r[0], space);
      r := r[1..];
    }
    assert done + "" == done;
  }

  /** A possibly quoted text, and the semicolon or end of string behind it. */
  function Text(v: string): string {
    if v != "" && v[0] == '\"' then Fit(Run(v[1..], NotQuote), BUFFER_MIN)
    else Fit(Run(v, NotSemicolon), BUFFER_MIN)
  }

  function PastText(v: string): (r: string)
    ensures |r| <= |v|
  {
    if v != "" && v[0] == '\"' then Past(Past(v[1..], NotQuote), NotSemicolon) else Past(v, NotSemicolon)
  }

  method ReadText(v: string) returns (text: string, r: string)
    ensures text == Text(v) && r == PastText(v)
  {
    if v != "" && v[0] == '\"' {
      text, r := Copy(v[1..], NotQuote, BUFFER_MIN);
      r := Skip(r, NotSemicolon);
    } else {
      text, r := Copy(v, NotSemicolon, BUFFER_MIN);
    }
  }

  /** The index of a parameter name, or the number of names if it is none of them. */
  function IndexOf(names: seq<string>, name: string): (a: nat)
    ensures a <= |names|
  {
    if names == [] || StrEqNc(name, names[0]) then 0 else 1 + IndexOf(names[1..], name)
  }

  method FindName(names: seq<string>, name: string) returns (a: nat)
    ensures a == IndexOf(names, name)
  {
    a := 0;
    while a < |names|
      invariant a <= |names| && IndexOf(names, name) == a + IndexOf(names[a..], name)
    {
      if StrEqNc(name, names[a]) {
        break;
      }
      a := a + 1;
    }
  }

  datatype Argument = Argument(index: nat, text: string, next: string) | Malformed

  /** The parameter behind a semicolon. */
  function ArgumentAt(v: string, names: seq<string>): (r: Argument)
    ensures r.Argument? ==> r.index <= |names| && |r.next| <= |v|
  {
    var nameAt := Past(v, IsSpace);
    var equalsAt := Past(Past(nameAt, IsAlnum), IsSpace);
    if equalsAt == "" || equalsAt[0] != '=' then Malformed
    else
      var valueAt := Past(equalsAt[1..], IsSpace);
      Argument(IndexOf(names, Fit(Run(nameAt, IsAlnum), BUFFER_MIN)), Text(valueAt), PastText(valueAt))
  }

  method ReadArgument(v: string, names: seq<string>) returns (r: Argument)
    ensures r == ArgumentAt(v, names)
  {
    var value := Skip(v, IsSpace);
    var argName;
    argName, value := Copy(value, IsAlnum, BUFFER_MIN);
    value := Skip(value, IsSpace);
    if value == "" || value[0] != '=' {
      return Malformed;
    }
    value := Skip(value[1..], IsSpace);
    var argNum := FindName(names, argName);
    var argValue;
    argValue, value := ReadText(value);
    r := Argument(argNum, argValue, value);
  }

  datatype Decomposed = Decomposed(main: string, args: seq<string>) | NullArgument

  /** The parameters from here on. One that is not asked for is skipped if no argument buffers
      were passed, and otherwise ends in a write through null. */
  function Arguments(v: string, names: seq<string>, args: seq<string>): (r: Option<seq<string>>)
    requires |names| == |args|
    ensures r.Some? ==> |r.value| == |names|
    decreases |v|
  {
    if v == "" || v[0] != ';' then Some(args)
    else
      match ArgumentAt(v[1..], names)
      case Malformed => Some(args)
      case Argument(a, text, next) =>
        if a < |names| then Arguments(next, names, args[a := text])
        else if names == [] then Arguments(next, names, args)
        else None
  }

  function Decompose(v: string, names: seq<string>): (r: Decomposed)
    ensures r.Decomposed? ==> |r.args| == |names|
  {
    var mainAt := Past(v, IsSpace);
    match Arguments(PastText(mainAt), names, seq(|names|, _ => ""))
    case Some(args) => Decomposed(Text(mainAt), args)
    case None => NullArgument
  }

  method DecomposeValue(v: string, names: seq<string>) returns (result: Decomposed)
    ensures result == Decompose(v, names)
  {
    var args := seq(|names|, _ => "");
    var value := Skip(v, IsSpace);
    var main;
    main, value := ReadText(value);
    while value != "" && value[0] == ';'
      invariant |args| == |names|
      invariant Decompose(v, names) == match Arguments(value, names, args)
                                       case Some(final) => Decomposed(main, final)
                                       case None => NullArgument
      decreases |value|
    {
      var argument := ReadArgument(value[1..], names);
      if argument.Malformed? {
        return Decomposed(main, args);
      }
      value := argument.next;
      if argument.index < |names| {
        args := args[argument.index := argument.text];
      } else if names != [] {
        return NullArgument;
      }
    }
    result := Decomposed(main, args);
  }
}
