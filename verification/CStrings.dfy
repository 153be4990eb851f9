/** C strings and the <ctype.h> tests that cgic.c uses, in the "C" locale. */
module CStrings {

  datatype Option<+T> = None | Some(value: T)

  predicate IsSpace(c: char) { c == ' ' || '\t' <= c <= '\r' }

  predicate IsAlpha(c: char) { 'A' <= c <= 'Z' || 'a' <= c <= 'z' }

  predicate IsAlnum(c: char) { IsAlpha(c) || '0' <= c <= '9' }

  function ToLower(c: char): char {
    if 'A' <= c <= 'Z' then (c as int + 32) as char else c
  }

  const UPPER := "ABCDEFGHIJKLMNOPQRSTUVWXYZ"
  const LOWER := "abcdefghijklmnopqrstuvwxyz"
  const DIGITS := "0123456789"

  lemma {:induction false} InUpper(c: char)
    ensures c in UPPER <==> 'A' <= c <= 'Z'
  {
    assert 'A' <= c <= 'Z' ==> UPPER[c as int - 65] == c;
  }

  lemma {:induction false} InLower(c: char)
    ensures c in LOWER <==> 'a' <= c <= 'z'
  {
    assert 'a' <= c <= 'z' ==> LOWER[c as int - 97] == c;
  }

  lemma {:induction false} InDigits(c: char)
    ensures c in DIGITS <==> '0' <= c <= '9'
  {
    assert '0' <= c <= '9' ==> DIGITS[c as int - 48] == c;
  }

  /** The tests in terms of the characters they list. */
  lemma {:induction false} CharacterClasses(c: char)
    ensures IsSpace(c) <==> c as int in {9, 10, 11, 12, 13, 32}
    ensures IsAlpha(c) <==> c in UPPER || c in LOWER
    ensures IsAlnum(c) <==> c in UPPER || c in LOWER || c in DIGITS
    ensures ToLower(c) != c <==> c in UPPER
  {
    InUpper(c);
    InLower(c);
    InDigits(c);
  }

  lemma {:induction false} LowerCase(i: nat)
    requires i < 26
    ensures ToLower(UPPER[i]) == LOWER[i] == ToLower(LOWER[i])
  {
  }

  /** The C string that a buffer with these contents denotes: everything before the first NUL. */
  function CStr(s: string): string {
    if s == "" || s[0] == '\0' then "" else [s[0]] + CStr(s[1..])
  }

  lemma {:induction false} CStrFacts(s: string)
    ensures '\0' !in CStr(s) && |CStr(s)| <= |s| && CStr(CStr(s)) == CStr(s)
    ensures CStr(s) == s <==> '\0' !in s
  {
    if s != "" && s[0] != '\0' {
      CStrFacts(s[1..]);
      assert CStr(s)[1..] == CStr(s[1..]);
      assert CStr(s) == s ==> CStr(s)[1..] == s[1..];
    }
  }

  lemma {:induction false} CStrStops(buffer: string, n: nat)
    requires n < |buffer| && buffer[n] == '\0'
    ensures CStr(buffer) == CStr(buffer[..n])
    decreases n
  {
    if n > 0 {
      CStrStops(buffer[1..], n - 1);
      assert buffer[1..][..n - 1] == buffer[..n][1..];
    }
  }

  /** cgiStrEqNc: equality that ignores the case of the letters of the first string. */
  predicate StrEqNc(a: string, b: string) {
    |a| == |b| &&
    forall i :: 0 <= i < |a| ==> if IsAlpha(a[i]) then ToLower(a[i]) == ToLower(b[i]) else a[i] == b[i]
  }

  predicate NotSemicolon(c: char) { c != ';' }

  predicate NotEquals(c: char) { c != '=' }

  function Lower(s: string): (t: string)
    ensures |t| == |s|
  {
    seq(|s|, i requires 0 <= i < |s| => ToLower(s[i]))
  }

  /** Equality up to the case of letters is equality in lower case. */
  lemma {:induction false} StrEqNcIff(a: string, b: string)
    ensures StrEqNc(a, b) <==> Lower(a) == Lower(b)
  {
    if Lower(a) == Lower(b) {
      assert |a| == |b|;
      forall i | 0 <= i < |a| ensures if IsAlpha(a[i]) then ToLower(a[i]) == ToLower(b[i]) else a[i] == b[i] {
        assert Lower(a)[i] == Lower(b)[i];
      }
    }
  }

  /** The longest prefix whose characters all satisfy `inside`, and what follows it. A pointer
      into a C string is the rest of the string from there on. */
  function Run(v: string, inside: char -> bool): string {
    if v != "" && inside(v[0]) then [v[0]] + Run(v[1..], inside) else ""
  }

  function Past(v: string, inside: char -> bool): (r: string)
    ensures |r| <= |v|
  {
    if v != "" && inside(v[0]) then Past(v[1..], inside) else v
  }

  method Skip(v: string, inside: char -> bool) returns (r: string)
    ensures r == Past(v, inside)
  {
    r := v;
    while r != "" && inside(r[0])
      invariant Past(r, inside) == Past(v, inside)
      decreases |r|
    {
      r := r[1..];
    }
  }

  lemma {:induction false} RunSplits(v: string, inside: char -> bool)
    ensures |Run(v, inside)| + |Past(v, inside)| == |v| && Run(v, inside) + Past(v, inside) == v
    ensures forall i :: 0 <= i < |Run(v, inside)| ==> inside(Run(v, inside)[i])
    ensures Past(v, inside) != "" ==> !inside(Past(v, inside)[0])
  {
    if v != "" && inside(v[0]) {
      RunSplits(v[1..], inside);
    }
  }

  lemma {:induction false} RunOver(a: string, rest: string, inside: char -> bool)
    requires forall n :: 0 <= n < |a| ==> inside(a[n])
    ensures Past(a + rest, inside) == Past(rest, inside)
    ensures Run(a + rest, inside) == a + Run(rest, inside)
  {
    if a == "" {
      assert a + rest == rest && a + Run(rest, inside) == Run(rest, inside);
    } else {
      assert (a + rest)[1..] == a[1..] + rest;
      RunOver(a[1..], rest, inside);
      assert [a[0]] + (a[1..] + Run(rest, inside)) == a + Run(rest, inside);
    }
  }

  lemma {:induction false} PastWithin(a: string, rest: string, inside: char -> bool)
    requires Past(a, inside) != ""
    ensures Past(a + rest, inside) == Past(a, inside) + rest
  {
    if inside(a[0]) {
      assert (a + rest)[1..] == a[1..] + rest;
      PastWithin(a[1..], rest, inside);
    }
  }

  // ---------- Null-terminated arrays of strings ----------

  /** The first `i` slots hold names, and the others null. */
  predicate Stored(slots: seq<Option<string>>, names: seq<string>, i: nat) {
    && i <= |names| <= |slots|
    && (forall k :: 0 <= k < i ==> slots[k] == Some(names[k]))
    && forall k :: i <= k < |slots| ==> slots[k] == None
  }

  method Store(result: array<Option<string>>, i: nat, name: string, ghost names: seq<string>)
    requires Stored(result[..], names, i) && i < |names| && names[i] == name
    modifies result
    ensures Stored(result[..], names, i + 1)
  {
    result[i] := Some(name);
  }
}
