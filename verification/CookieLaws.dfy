/** Looking up and listing what a browser prints, section 4.2.1 of RFC 6265. */
module CookieLaws {
  import opened CStrings
  import opened FormValues
  import opened Cookies

  datatype Cookie = Cookie(name: string, value: string)

  /** A text that can stand for a name: it is not cut, and not skipped as white space. */
  predicate NameText(s: string) { '=' !in s && ';' !in s && (s != "" ==> !IsSpace(s[0])) }

  predicate WellFormed(c: Cookie) { NameText(c.name) && c.name != "" && ';' !in c.value }

  /** `n1=v1; n2=v2; ...`, and possibly a bare name at the end. */
  function Print(cs: seq<Cookie>, bare: string): string
    decreases |cs|, 0
  {
    if cs == [] then bare else cs[0].name + ("=" + (cs[0].value + PrintBehind(cs[1..], bare)))
  }

  function PrintBehind(cs: seq<Cookie>, bare: string): string
    decreases |cs|, 1
  {
    if cs == [] && bare == "" then "" else "; " + Print(cs, bare)
  }

  function FirstNamed(cs: seq<Cookie>, name: string): (c: Option<Cookie>)
    ensures c.Some? ==> c.value in cs && c.value.name == name
    ensures c.None? ==> forall d :: d in cs ==> d.name != name
  {
    if cs == [] then None else if cs[0].name == name then Some(cs[0]) else FirstNamed(cs[1..], name)
  }

  predicate Printable(cs: seq<Cookie>, bare: string) {
    NameText(bare) && forall c :: c in cs ==> WellFormed(c)
  }

  lemma {:induction false} DifferOver(a: string, rest: string, t: string)
    requires rest != "" && rest[0] !in t
    ensures Differ(a + rest, t) == (Differ(a, t).0 + rest, Differ(a, t).1)
    ensures forall c :: c in Differ(a, t).0 ==> c in a
  {
    if a == "" {
      assert a + rest == rest && Differ(a, t).0 + rest == rest;
    } else if t != "" && a[0] == t[0] {
      assert (a + rest)[1..] == a[1..] + rest;
      DifferOver(a[1..], rest, t[1..]);
    }
  }

  /** Skipping to the next cookie. */
  lemma {:induction false} NextCookie(d: string, value: string, cs: seq<Cookie>, bare: string)
    requires ';' !in d && ';' !in value && Printable(cs, bare)
    ensures var semicolon := Past(d + ("=" + (value + PrintBehind(cs, bare))), NotSemicolon);
            semicolon == PrintBehind(cs, bare)
            && (semicolon != "" ==> Past(semicolon[1..], IsSpace) == Print(cs, bare))
  {
    var behind := PrintBehind(cs, bare);
    var head := d + ("=" + value);
    assert d + ("=" + (value + behind)) == head + behind;
    RunOver(head, behind, NotSemicolon);
    if behind != "" {
      var p := Print(cs, bare);
      assert behind[1..] == " " + p && (" " + p)[1..] == p;
      if cs != [] {
        assert WellFormed(cs[0]) && p[0] == cs[0].name[0];
      }
      assert Past(" " + p, IsSpace) == Past(p, IsSpace) == p;
    }
  }

  lemma {:induction false} FindStep(c: Cookie, cs: seq<Cookie>, bare: string, name: string)
    requires WellFormed(c) && Printable(cs, bare) && NameText(name)
    ensures var behind := PrintBehind(cs, bare);
            Find(c.name + ("=" + (c.value + behind)), name)
            == if c.name == name then At(c.value + behind) else if behind == "" then Absent
               else Find(Print(cs, bare), name)
  {
    var behind := PrintBehind(cs, bare);
    var rest := "=" + (c.value + behind);
    var p := c.name + rest;
    assert p[|c.name|] == '=';
    DifferOver(c.name, rest, name);
    var d := Differ(c.name, name);
    if d.0 != "" {
      assert (d.0 + rest)[0] == d.0[0] && d.0[0] in c.name;
    } else {
      assert d.0 + rest == rest && rest[1..] == c.value + behind;
    }
    NextCookie(d.0, c.value, cs, bare);
  }

  lemma {:induction false} BareIsNoCookie(bare: string, name: string)
    requires NameText(bare) && NameText(name)
    ensures Find(bare, name) == if bare != "" && bare == name then Overrun else Absent
  {
    if bare != "" && bare != name {
      DifferSuffix(bare, name);
      var d := Differ(bare, name);
      RunOver(d.0, "", NotSemicolon);
      assert d.0 + "" == d.0;
    }
  }

  lemma {:induction false} DifferSuffix(a: string, t: string)
    ensures forall c :: c in Differ(a, t).0 ==> c in a
  {
    if a != "" && t != "" && a[0] == t[0] {
      DifferSuffix(a[1..], t[1..]);
    }
  }

  /** A lookup finds the first cookie with exactly that name, and its whole value. It runs past
      the end of the header exactly if there is none and the header ends in the bare name. */
  lemma {:induction false} LookupInvertsPrinting(cs: seq<Cookie>, bare: string, name: string)
    requires Printable(cs, bare) && NameText(name)
    ensures match FirstNamed(cs, name)
            case Some(c) => Find(Print(cs, bare), name).At?
                            && Run(Find(Print(cs, bare), name).value, NotSemicolon) == c.value
            case None => Find(Print(cs, bare), name) == if bare != "" && bare == name then Overrun else Absent
  {
    if cs == [] {
      BareIsNoCookie(bare, name);
    } else {
      var c, later := cs[0], cs[1..];
      FindStep(c, later, bare, name);
      if c.name == name {
        RunOver(c.value, PrintBehind(later, bare), NotSemicolon);
        assert c.value + "" == c.value;
      } else {
        LookupInvertsPrinting(later, bare, name);
      }
    }
  }

  function NamesOf(cs: seq<Cookie>): seq<string> {
    if cs == [] then [] else [cs[0].name] + NamesOf(cs[1..])
  }

  lemma {:induction false} NamesStep(c: Cookie, cs: seq<Cookie>, bare: string)
    requires WellFormed(c) && Printable(cs, bare)
    ensures NamesIn(c.name + ("=" + (c.value + PrintBehind(cs, bare)))) == [c.name] + NamesIn(Print(cs, bare))
  {
    var behind := PrintBehind(cs, bare);
    var p := c.name + ("=" + (c.value + behind));
    assert p[0] == c.name[0] && Past(p, IsSpace) == p;
    RunOver(c.name, "=" + (c.value + behind), NotEquals);
    assert c.name + "" == c.name;
    NextCookie("", c.value, cs, bare);
    assert "" + ("=" + (c.value + behind)) == "=" + (c.value + behind);
    if behind != "" {
      assert behind[1..] == " " + Print(cs, bare);
      LeadingBlank(Print(cs, bare));
    } else {
      assert [c.name] + [] == [c.name];
    }
  }

  lemma {:induction false} LeadingBlank(p: string)
    requires p != "" && !IsSpace(p[0])
    ensures NamesIn(" " + p) == NamesIn(p)
  {
    assert (" " + p)[1..] == p;
  }

  lemma {:induction false} CountJoin(a: string, b: string, c: char)
    ensures Count(a + b, c) == Count(a, c) + Count(b, c)
    ensures c !in a <==> Count(a, c) == 0
  {
    if a == "" {
      assert a + b == b;
    } else {
      assert (a + b)[1..] == a[1..] + b;
      CountJoin(a[1..], b, c);
    }
  }

  lemma {:induction false} EqualsInCookie(c: Cookie, cs: seq<Cookie>, bare: string)
    requires WellFormed(c) && Printable(cs, bare)
    ensures Count(Print([c] + cs, bare), '=') == 1 + Count(c.value, '=') + Count(Print(cs, bare), '=')
    ensures Count(c.value, '=') == 0 <==> '=' !in c.value
  {
    assert ([c] + cs)[1..] == cs;
    var behind := PrintBehind(cs, bare);
    CountJoin(c.name, "=" + (c.value + behind), '=');
    CountJoin("=", c.value + behind, '=');
    CountJoin(c.value, behind, '=');
    assert Count("=", '=') == 1 + Count("", '=');
    EqualsBehind(cs, bare);
  }

  lemma {:induction false} EqualsBehind(cs: seq<Cookie>, bare: string)
    ensures Count(PrintBehind(cs, bare), '=') == Count(Print(cs, bare), '=')
  {
    CountJoin("; ", Print(cs, bare), '=');
  }

  /** The equals signs are those behind the names and those in the values. */
  lemma {:induction false} EqualsSigns(cs: seq<Cookie>, bare: string)
    requires Printable(cs, bare)
    ensures Count(Print(cs, bare), '=') >= |cs|
    ensures Count(Print(cs, bare), '=') == |cs| <==> forall c :: c in cs ==> '=' !in c.value
  {
    if cs == [] {
      CountJoin(bare, "", '=');
    } else {
      var c, later := cs[0], cs[1..];
      assert cs == [c] + later && WellFormed(c);
      EqualsInCookie(c, later, bare);
      EqualsSigns(later, bare);
      assert forall d :: d in cs <==> d == c || d in later;
    }
  }

  /** The listing returns all names in order. Behind a bare name, and only there, the array has no
      terminating null left, unless some value holds an equals sign. */
  lemma {:induction false} ListingInvertsPrinting(cs: seq<Cookie>, bare: string)
    requires Printable(cs, bare)
    ensures NamesIn(Print(cs, bare)) == NamesOf(cs) + if bare == "" then [] else [bare]
    ensures |NamesIn(Print(cs, bare))| <= Count(Print(cs, bare), '=')
            <==> bare == "" || exists c :: c in cs && '=' in c.value
  {
    NamesListed(cs, bare);
    EqualsSigns(cs, bare);
  }

  lemma {:induction false} NamesListed(cs: seq<Cookie>, bare: string)
    requires Printable(cs, bare)
    ensures NamesIn(Print(cs, bare)) == NamesOf(cs) + if bare == "" then [] else [bare]
    ensures |NamesOf(cs)| == |cs|
  {
    var last := if bare == "" then [] else [bare];
    if cs == [] {
      assert [] + last == last;
      BareListed(bare);
    } else {
      assert WellFormed(cs[0]);
      NamesStep(cs[0], cs[1..], bare);
      NamesListed(cs[1..], bare);
      assert [cs[0].name] + (NamesOf(cs[1..]) + last) == NamesOf(cs) + last;
    }
  }

  lemma {:induction false} BareListed(bare: string)
    requires NameText(bare)
    ensures NamesIn(bare) == if bare == "" then [] else [bare]
  {
    if bare != "" {
      RunOver(bare, "", NotEquals);
      assert bare + "" == bare && [bare] + [] == [bare];
    }
  }
}
