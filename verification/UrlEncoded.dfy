/** The application/x-www-form-urlencoded parser of cgic.c: cgiParseFormInput and cgiUnescapeChars. */
module UrlEncoded {
  import opened CStrings
  import opened Entries

  // ---------- cgiUnescapeChars ----------

  /** cgiHexValue: zero for everything that is not a hexadecimal digit. */
  function HexValue(c: char): (h: nat)
    ensures h < 16
  {
    if '0' <= c <= '9' then c as int - '0' as int
    else if 'A' <= c <= 'F' then c as int - 'A' as int + 10
    else if 'a' <= c <= 'f' then c as int - 'a' as int + 10
    else 0
  }

  datatype EscapeState = EscapeRest | EscapeFirst | EscapeSecond(high: nat)

  predicate Proper(st: EscapeState) { st.EscapeSecond? ==> st.high < 16 }

  function NextState(st: EscapeState, ch: char): (st': EscapeState)
    ensures Proper(st')
  {
    match st
    case EscapeRest => if ch == '%' then EscapeFirst else EscapeRest
    case EscapeFirst => EscapeSecond(HexValue(ch))
    case EscapeSecond(_) => EscapeRest
  }

  function Emitted(st: EscapeState, ch: char): (out: string)
    requires Proper(st)
    ensures |out| <= 1
  {
    match st
    case EscapeRest => if ch == '%' then "" else if ch == '+' then " " else [ch]
    case EscapeFirst => ""
    case EscapeSecond(high) => [(16 * high + HexValue(ch)) as char]
  }

  /** The characters still to come out of `s`. The output never outgrows the input. */
  function Unescape(s: string, st: EscapeState): (r: string)
    requires Proper(st)
    ensures |r| <= |s|
  {
    if s == "" then "" else Emitted(st, s[0]) + Unescape(s[1..], NextState(st, s[0]))
  }

  /** One round of the unescaping loop. */
  method UnescapeOne(buffer: array<char>, dst: nat, st: EscapeState, ch: char)
    returns (dstPos: nat, state: EscapeState)
    requires dst < buffer.Length && Proper(st)
    modifies buffer
    ensures dst <= dstPos <= dst + 1 && buffer[..dstPos] == old(buffer[..dst]) + Emitted(st, ch)
    ensures state == NextState(st, ch)
  {
    dstPos, state := dst, st;
    match st
    case EscapeRest =>
      if ch == '%' {
        state := EscapeFirst;
      } else if ch == '+' {
        buffer[dstPos] := ' ';
        dstPos := dstPos + 1;
      } else {
        buffer[dstPos] := ch;
        dstPos := dstPos + 1;
      }
    case EscapeFirst =>
      state := EscapeSecond(HexValue(ch));
    case EscapeSecond(escapedValue) =>
      buffer[dstPos] := (16 * escapedValue + HexValue(ch)) as char;
      dstPos := dstPos + 1;
      state := EscapeRest;
  }

  /** The C string that results: an escaped NUL ends it. */
  method UnescapeChars(cp: string) returns (s: string)
    ensures s == CStr(Unescape(cp, EscapeRest))
  {
    var buffer := new char[|cp| + 1](_ => '\0');
    var state := EscapeRest;
    var srcPos, dstPos := 0, 0;
    while srcPos < |cp|
      invariant 0 <= dstPos <= srcPos <= |cp| && Proper(state)
      invariant Unescape(cp, EscapeRest) == buffer[..dstPos] + Unescape(cp[srcPos..], state)
    {
      ghost var done, out, later := buffer[..dstPos], Emitted(state, cp[srcPos]), NextState(state, cp[srcPos]);
      assert cp[srcPos..][1..] == cp[srcPos + 1..];
      assert done + (out + Unescape(cp[srcPos + 1..], later)) == done + out + Unescape(cp[srcPos + 1..], later);
      dstPos, state := UnescapeOne(buffer, dstPos, state, cp[srcPos]);
      srcPos := srcPos + 1;
    }
    assert buffer[..dstPos] + "" == buffer[..dstPos];
    buffer[dstPos] := '\0';
    s := CStr(buffer[..]);
    CStrStops(buffer[..], dstPos);
  }

  // ---------- cgiParseFormInput ----------

  predicate NotAmpersand(c: char) { c != '&' }

  function FieldEntry(attr: string, value: string): FormEntry { FormEntry(attr, value, |value|, "", "", None) }

  /** The pairs in the form data. What follows the last pair without an equals sign is dropped. */
  function ParseForm(data: string): seq<FormEntry>
    decreases |data|
  {
    var equals := Past(data, NotEquals);
    if equals == "" then []
    else
      var attr := CStr(Unescape(Run(data, NotEquals), EscapeRest));
      var value := CStr(Unescape(Run(equals[1..], NotAmpersand), EscapeRest));
      var ampersand := Past(equals[1..], NotAmpersand);
      [FieldEntry(attr, value)] + (if ampersand == "" then [] else ParseForm(ampersand[1..]))
  }

  /** The two inner loops: the text up to a separator, and what follows the separator. */
  method ScanTo(data: string, inside: char -> bool) returns (text: string, found: bool, rest: string)
    ensures text == Run(data, inside) && found == (Past(data, inside) != "")
    ensures rest == if found then Past(data, inside)[1..] else ""
  {
    text, rest, found := "", data, false;
    while rest != ""
      invariant text + Run(rest, inside) == Run(data, inside) && Past(rest, inside) == Past(data, inside)
      decreases |rest|
    {
      if !inside(rest[0]) {
        found := true;
        assert text + "" == text;
        return text, found, rest[1..];
      }
      assert text + ([rest[0]] + Run(rest[1..], inside)) == text + [rest[0]] + Run(rest[1..], inside);
      text := text + [rest[0]];
      rest := rest[1..];
    }
    assert text + "" == text;
  }

  /** One round of the outer loop: a pair, unless there is no equals sign, and what follows it. */
  method ParsePair(data: string, ghost entries: seq<FormEntry>)
    returns (entry: Option<FormEntry>, more: bool, rest: string)
    ensures entry.None? ==> entries + ParseForm(data) == entries
    ensures entry.Some? ==>
              var all := entries + [entry.value];
              entries + ParseForm(data) == if more then all + ParseForm(rest) else all
    ensures entry.Some? && more ==> |rest| < |data|
  {
    var text, foundEq, behind := ScanTo(data, NotEquals);
    if !foundEq {
      return None, false, "";
    }
    var attr := UnescapeChars(text);
    text, more, rest := ScanTo(behind, NotAmpersand);
    var value := UnescapeChars(text);
    entry := Some(FieldEntry(attr, value));
    ghost var later := if more then ParseForm(rest) else [];
    assert ParseForm(data) == [entry.value] + later;
    assert entries + ([entry.value] + later) == entries + [entry.value] + later;
  }

  method ParseFormInput(data: string) returns (entries: seq<FormEntry>)
    ensures entries == ParseForm(data)
  {
    entries := [];
    ghost var all := ParseForm(data);
    assert entries + all == all;
    var rest := data;
    while rest != ""
      invariant entries + ParseForm(rest) == all
      decreases |rest|
    {
      var entry, more, behind := ParsePair(rest, entries);
      if entry.None? {
        return;
      }
      entries := entries + [entry.value];
      if !more {
        return;
      }
      rest := behind;
    }
    assert entries + [] == entries;
  }

  // ---------- Legal encodings ----------

  /** One character of an encoding, in any of the forms that section 17.13.4.1 of HTML 4.01 allows. */
  datatype Token = Literal(c: char) | Plus | Percent(high: char, low: char)

  predicate IsHex(c: char) { '0' <= c <= '9' || 'A' <= c <= 'F' || 'a' <= c <= 'f' }

  /** `separator` is what the text at hand must not contain: `=` in names, `&` in values. */
  predicate LegalToken(t: Token, separator: char) {
    match t
    case Literal(c) => c != '%' && c != '+' && c != separator
    case Plus => true
    case Percent(high, low) => IsHex(high) && IsHex(low)
  }

  function Meaning(t: Token): char {
    match t
    case Literal(c) => c
    case Plus => ' '
    case Percent(high, low) => (16 * HexValue(high) + HexValue(low)) as char
  }

  function PrintToken(t: Token): string {
    match t
    case Literal(c) => [c]
    case Plus => "+"
    case Percent(high, low) => ['%', high, low]
  }

  function Meanings(ts: seq<Token>): string {
    if ts == [] then "" else [Meaning(ts[0])] + Meanings(ts[1..])
  }

  function PrintTokens(ts: seq<Token>): string {
    if ts == [] then "" else PrintToken(ts[0]) + PrintTokens(ts[1..])
  }

  datatype Pair = Pair(name: seq<Token>, value: seq<Token>)

  predicate LegalPair(p: Pair) {
    (forall t :: t in p.name ==> LegalToken(t, '=')) && forall t :: t in p.value ==> LegalToken(t, '&')
  }

  /** Form data. `tail` is a last piece without an equals sign. */
  function PrintForm(pairs: seq<Pair>, tail: string): string
    decreases |pairs|, 0
  {
    if pairs == [] then tail
    else PrintTokens(pairs[0].name) + ("=" + (PrintTokens(pairs[0].value) + PrintRest(pairs[1..], tail)))
  }

  function PrintRest(pairs: seq<Pair>, tail: string): string
    decreases |pairs|, 1
  {
    if pairs == [] && tail == "" then "" else "&" + PrintForm(pairs, tail)
  }

  /** The entries that the submitted pairs mean. */
  function Submitted(pairs: seq<Pair>): seq<FormEntry> {
    if pairs == [] then []
    else
      var name, value := Meanings(pairs[0].name), Meanings(pairs[0].value);
      [FormEntry(name, value, |value|, "", "", None)] + Submitted(pairs[1..])
  }

  lemma {:induction false} UnescapeStep(c: char, rest: string, st: EscapeState)
    requires Proper(st)
    ensures Unescape([c] + rest, st) == Emitted(st, c) + Unescape(rest, NextState(st, c))
  {
    assert ([c] + rest)[1..] == rest;
  }

  lemma {:induction false} TokenUnescapes(t: Token, separator: char, rest: string)
    requires LegalToken(t, separator)
    ensures Unescape(PrintToken(t) + rest, EscapeRest) == [Meaning(t)] + Unescape(rest, EscapeRest)
  {
    var s := PrintToken(t) + rest;
    match t
    case Percent(high, low) =>
      assert s[1..] == [high] + ([low] + rest);
      UnescapeStep(high, [low] + rest, EscapeFirst);
      UnescapeStep(low, rest, EscapeSecond(HexValue(high)));
    case _ =>
      assert s[1..] == rest;
  }

  lemma {:induction false} TokensUnescape(ts: seq<Token>, separator: char)
    requires forall t :: t in ts ==> LegalToken(t, separator)
    ensures Unescape(PrintTokens(ts), EscapeRest) == Meanings(ts)
  {
    if ts != [] {
      TokenUnescapes(ts[0], separator, PrintTokens(ts[1..]));
      TokensUnescape(ts[1..], separator);
    }
  }

  lemma {:induction false} NoSeparator(ts: seq<Token>, separator: char)
    requires forall t :: t in ts ==> LegalToken(t, separator)
    requires separator == '=' || separator == '&'
    ensures separator !in PrintTokens(ts)
  {
    if ts != [] {
      NoSeparator(ts[1..], separator);
      assert LegalToken(ts[0], separator);
    }
  }

  /** One printed pair in front of the rest of the form. */
  lemma {:induction false} PairParses(p: Pair, pairs: seq<Pair>, tail: string)
    requires LegalPair(p) && '=' !in tail
    ensures var name, value := CStr(Meanings(p.name)), CStr(Meanings(p.value));
            ParseForm(PrintForm([p] + pairs, tail))
            == [FormEntry(name, value, |value|, "", "", None)] + ParseForm(PrintForm(pairs, tail))
  {
    assert ([p] + pairs)[1..] == pairs;
    var name, value, rest := PrintTokens(p.name), PrintTokens(p.value), PrintRest(pairs, tail);
    NoSeparator(p.name, '=');
    NoSeparator(p.value, '&');
    RunOver(name, "=" + (value + rest), NotEquals);
    RunOver(value, rest, NotAmpersand);
    assert name + "" == name && value + "" == value;
    assert ("=" + (value + rest))[1..] == value + rest;
    TokensUnescape(p.name, '=');
    TokensUnescape(p.value, '&');
    if rest != "" {
      assert rest[1..] == PrintForm(pairs, tail);
    }
  }

  predicate NulFree(p: Pair) { '\0' !in Meanings(p.name) && '\0' !in Meanings(p.value) }

  /** The parser inverts every legal encoding, not only a canonical one: it returns the submitted
      pairs, in order, if and only if no name or value holds a NUL. A last piece without an equals
      sign is dropped. */
  lemma {:induction false} FormRoundTripIff(pairs: seq<Pair>, tail: string)
    requires '=' !in tail && forall p :: p in pairs ==> LegalPair(p)
    ensures ParseForm(PrintForm(pairs, tail)) == Submitted(pairs) <==> forall p :: p in pairs ==> NulFree(p)
  {
    if pairs == [] {
      RunOver(tail, "", NotEquals);
      assert tail + "" == tail;
    } else {
      var p, later := pairs[0], pairs[1..];
      assert pairs == [p] + later;
      var name, value := Meanings(p.name), Meanings(p.value);
      PairParses(p, later, tail);
      FormRoundTripIff(later, tail);
      CStrFacts(name);
      CStrFacts(value);
      ConsIff(FormEntry(CStr(name), CStr(value), |CStr(value)|, "", "", None),
              FormEntry(name, value, |value|, "", "", None), ParseForm(PrintForm(later, tail)), Submitted(later));
      assert forall q :: q in pairs <==> q == p || q in later;
    }
  }

  /** The same, field by field. */
  lemma {:induction false} FieldsComeBack(pairs: seq<Pair>, tail: string, i: nat)
    requires '=' !in tail && (forall p :: p in pairs ==> LegalPair(p) && NulFree(p)) && i < |pairs|
    ensures var entries := ParseForm(PrintForm(pairs, tail));
            && |entries| == |pairs|
            && entries[i].attr == Meanings(pairs[i].name) && entries[i].value == Meanings(pairs[i].value)
            && entries[i].valueLength == |Meanings(pairs[i].value)|
            && entries[i].fileName == "" && entries[i].contentType == "" && entries[i].file == None
  {
    FormRoundTripIff(pairs, tail);
    SubmittedAt(pairs, i);
  }

  lemma {:induction false} SubmittedAt(pairs: seq<Pair>, i: nat)
    requires i < |pairs|
    ensures |Submitted(pairs)| == |pairs|
    ensures var name, value := Meanings(pairs[i].name), Meanings(pairs[i].value);
            Submitted(pairs)[i] == FormEntry(name, value, |value|, "", "", None)
  {
    SubmittedLength(pairs);
    if i > 0 {
      SubmittedAt(pairs[1..], i - 1);
    }
  }

  lemma {:induction false} SubmittedLength(pairs: seq<Pair>)
    ensures |Submitted(pairs)| == |pairs|
  {
    if pairs != [] {
      SubmittedLength(pairs[1..]);
    }
  }

  /** An escape that the text ends in is dropped. */
  lemma {:induction false} CutEscape(ts: seq<Token>, separator: char, cut: string)
    requires (forall t :: t in ts ==> LegalToken(t, separator)) && |cut| <= 2 && (cut != "" ==> cut[0] == '%')
    ensures Unescape(PrintTokens(ts) + cut, EscapeRest) == Meanings(ts)
  {
    if ts == [] {
      assert PrintTokens(ts) + cut == cut;
    } else {
      TokenUnescapes(ts[0], separator, PrintTokens(ts[1..]) + cut);
      CutEscape(ts[1..], separator, cut);
      assert PrintToken(ts[0]) + (PrintTokens(ts[1..]) + cut) == PrintTokens(ts) + cut;
    }
  }

  const UPPER_HEX := "0123456789ABCDEF"
  const LOWER_HEX := "0123456789abcdef"

  /** The table behind the escapes. */
  lemma {:induction false} HexTable(i: nat, c: char)
    requires i < 16
    ensures HexValue(UPPER_HEX[i]) == i && HexValue(LOWER_HEX[i]) == i
    ensures c !in UPPER_HEX && c !in LOWER_HEX ==> HexValue(c) == 0
    ensures IsHex(c) <==> c in UPPER_HEX || c in LOWER_HEX
  {
    if '0' <= c <= '9' {
      assert UPPER_HEX[c as int - 48] == c;
    } else if 'A' <= c <= 'F' {
      assert UPPER_HEX[c as int - 55] == c;
    } else if 'a' <= c <= 'f' {
      assert LOWER_HEX[c as int - 87] == c;
    }
  }

  // ---------- Every text has a legal encoding ----------

  function HexDigit(n: nat): (c: char)
    requires n < 16
    ensures IsHex(c) && HexValue(c) == n
  {
    if n < 10 then ('0' as int + n) as char else ('A' as int + n - 10) as char
  }

  /** The encoding that escapes every byte but letters, digits and blanks. */
  function Canonical(s: string): (ts: seq<Token>)
    ensures Meanings(ts) == s && forall t :: t in ts ==> LegalToken(t, '=') && LegalToken(t, '&')
  {
    if s == "" then []
    else
      var n := s[0] as int;
      [if s[0] == ' ' then Plus
       else if IsAlnum(s[0]) || n >= 256 then Literal(s[0])
       else Percent(HexDigit(n / 16), HexDigit(n % 16))] + Canonical(s[1..])
  }
}
