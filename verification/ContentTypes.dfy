/** How main() of cgic.c takes the boundary out of the content type. */
module ContentTypes {
  import opened CStrings
  import opened VirtualStream
  import opened Delimiters
  import opened HeaderLines
  import opened Multipart
  import opened MultipartRoundTrip

  datatype ContentType = ContentType(main: string, boundary: string)

  predicate NotSpace(c: char) { !IsSpace(c) }

  /** cgiStrBeginsNc */
  predicate BeginsNc(s: string, prefix: string) {
    |prefix| <= |s| && StrEqNc(s[..|prefix|], prefix)
  }

  /** The boundary among the parameters from a semicolon on. */
  function BoundaryIn(v: string): string
    decreases |v|
  {
    if v == "" then ""
    else
      var sat := Past(v[1..], IsSpace);
      if BeginsNc(sat, "boundary=") then Run(sat[9..], NotSpace) else BoundaryIn(Past(sat, NotSemicolon))
  }

  /** A content type that does not fit its buffer is cut off. */
  function Parsed(e: string): ContentType {
    var t := Fit(e, BUFFER_MIN);
    ContentType(Run(t, NotSemicolon), BoundaryIn(Past(t, NotSemicolon)))
  }

  method ParseContentType(e: string) returns (result: ContentType)
    ensures result == Parsed(e)
    ensures ValidBoundary(result.boundary)
  {
    ExtractedBoundaryFits(e);
    var main, sat := Copy(Fit(e, BUFFER_MIN), NotSemicolon, BUFFER_MIN);
    RunSplits(Fit(e, BUFFER_MIN), NotSemicolon);
    result := ContentType(main, "");
    while sat != ""
      invariant Parsed(e).main == main && Parsed(e).boundary == BoundaryIn(sat)
      invariant result == ContentType(main, "") && |sat| < BUFFER_MIN
      decreases |sat|
    {
      sat := Skip(sat[1..], IsSpace);
      if BeginsNc(sat, "boundary=") {
        RunSplits(sat[9..], NotSpace);
        var boundary;
        boundary, sat := Copy(sat[9..], NotSpace, BUFFER_MIN);
        return ContentType(main, boundary);
      } else {
        sat := Skip(sat, NotSemicolon);
      }
    }
  }

  lemma {:induction false} BoundaryInFits(v: string)
    requires |v| < BUFFER_MIN
    ensures ValidBoundary(BoundaryIn(v))
    decreases |v|
  {
    if v != "" {
      var sat := Past(v[1..], IsSpace);
      if BeginsNc(sat, "boundary=") {
        RunSplits(sat[9..], NotSpace);
      } else {
        BoundaryInFits(Past(sat, NotSemicolon));
      }
    }
  }

  /** Whatever the content type, the dashes and the line break still fit in front of the boundary,
      and it holds no white space: what afterNextBoundary relies on. */
  lemma {:induction false} ExtractedBoundaryFits(e: string)
    ensures ValidBoundary(Parsed(e).boundary)
  {
    RunSplits(Fit(e, BUFFER_MIN), NotSemicolon);
    BoundaryInFits(Past(Fit(e, BUFFER_MIN), NotSemicolon));
  }

  /** A parameter that is not the boundary. */
  predicate OtherParameter(p: string) {
    ';' !in p && (p != "" ==> !IsSpace(p[0])) && (|p| < 9 || Lower(p[..9]) != Lower("boundary="))
  }

  function WithParameters(params: seq<string>, rest: string): string {
    if params == [] then rest else "; " + (params[0] + WithParameters(params[1..], rest))
  }

  /** The header that announces a boundary, behind other parameters; `keyword` is `boundary=` in any
      case. */
  function Announced(main: string, params: seq<string>, keyword: string, b: string): string {
    main + WithParameters(params, "; " + (keyword + b))
  }

  lemma {:induction false} BeginsIff(s: string, prefix: string)
    ensures BeginsNc(s, prefix) <==> |s| >= |prefix| && Lower(s[..|prefix|]) == Lower(prefix)
  {
    if |s| >= |prefix| {
      StrEqNcIff(s[..|prefix|], prefix);
    }
  }

  lemma {:induction false} NotBoundary(p: string, rest: string)
    requires OtherParameter(p) && rest != "" && rest[0] == ';'
    ensures !BeginsNc(p + rest, "boundary=")
  {
    var s := p + rest;
    if |s| >= 9 {
      BeginsIff(s, "boundary=");
      if |p| >= 9 {
        assert s[..9] == p[..9];
      } else {
        assert s[..9][|p|] == ';' && !IsAlpha(';');
      }
    }
  }

  lemma {:induction false} ParameterPassed(p: string, rest: string)
    requires OtherParameter(p) && rest != "" && rest[0] == ';'
    ensures BoundaryIn("; " + (p + rest)) == BoundaryIn(rest)
  {
    var v := "; " + (p + rest);
    assert v[1..] == " " + (p + rest) && (" " + (p + rest))[1..] == p + rest;
    assert p == "" ==> p + rest == rest;
    assert Past(v[1..], IsSpace) == Past(p + rest, IsSpace) == p + rest;
    NotBoundary(p, rest);
    RunOver(p, rest, NotSemicolon);
  }

  lemma {:induction false} ParametersPassed(params: seq<string>, rest: string)
    requires (forall p :: p in params ==> OtherParameter(p)) && rest != "" && rest[0] == ';'
    ensures BoundaryIn(WithParameters(params, rest)) == BoundaryIn(rest)
    ensures WithParameters(params, rest) != "" && WithParameters(params, rest)[0] == ';'
  {
    if params != [] {
      assert OtherParameter(params[0]);
      ParametersPassed(params[1..], rest);
      ParameterPassed(params[0], WithParameters(params[1..], rest));
    }
  }

  predicate Keyword(keyword: string) { Lower(keyword) == Lower("boundary=") }

  lemma {:induction false} KeywordBegins(keyword: string, b: string)
    requires Keyword(keyword)
    ensures |keyword| == 9 && !IsSpace(keyword[0]) && BeginsNc(keyword + b, "boundary=") && (keyword + b)[9..] == b
  {
    assert |Lower("boundary=")| == 9 && Lower("boundary=")[0] == 'b' && Lower(keyword)[0] == ToLower(keyword[0]);
    assert (keyword + b)[..9] == keyword;
    BeginsIff(keyword + b, "boundary=");
  }

  lemma {:induction false} BoundaryParameter(keyword: string, b: string)
    requires Keyword(keyword)
    ensures BoundaryIn("; " + (keyword + b)) == Run(b, NotSpace)
  {
    var v, sat := "; " + (keyword + b), keyword + b;
    KeywordBegins(keyword, b);
    assert v[1..] == " " + sat && (" " + sat)[1..] == sat;
    assert Past(" " + sat, IsSpace) == Past(sat, IsSpace) == sat;
  }

  lemma {:induction false} AnnouncementEnds(main: string, params: seq<string>, keyword: string, a: string, b: string)
    ensures Announced(main, params, keyword, a + b) == Announced(main, params, keyword, a) + b
  {
    EndsWith(params, "; " + (keyword + a), b);
    assert "; " + (keyword + (a + b)) == "; " + (keyword + a) + b;
    assert main + (WithParameters(params, "; " + (keyword + a)) + b) == Announced(main, params, keyword, a) + b;
  }

  lemma {:induction false} EndsWith(params: seq<string>, rest: string, b: string)
    ensures WithParameters(params, rest + b) == WithParameters(params, rest) + b
  {
    if params != [] {
      EndsWith(params[1..], rest, b);
      var later := WithParameters(params[1..], rest);
      assert "; " + (params[0] + (later + b)) == "; " + (params[0] + later) + b;
    }
  }

  lemma {:induction false} AnnouncedIsParsed(main: string, params: seq<string>, keyword: string, b: string)
    requires ';' !in main && Keyword(keyword) && forall p :: p in params ==> OtherParameter(p)
    requires |Announced(main, params, keyword, b)| < 400
    ensures Parsed(Announced(main, params, keyword, b)) == ContentType(main, Run(b, NotSpace))
  {
    var rest := "; " + (keyword + b);
    ParametersPassed(params, rest);
    BoundaryParameter(keyword, b);
    RunOver(main, WithParameters(params, rest), NotSemicolon);
    assert main + "" == main;
  }

  /** A boundary is taken over, from behind whatever other parameters, exactly if it is free of white
      space and the header fits its buffer. */
  lemma {:induction false} AnnouncedBoundaryIff(main: string, params: seq<string>, keyword: string, b: string)
    requires ';' !in main && Keyword(keyword) && forall p :: p in params ==> OtherParameter(p)
    requires |Announced(main, params, keyword, "")| < 400
    ensures Parsed(Announced(main, params, keyword, b)) == ContentType(main, b)
            <==> |Announced(main, params, keyword, b)| < 400 && forall i :: 0 <= i < |b| ==> !IsSpace(b[i])
  {
    var e := Announced(main, params, keyword, b);
    AnnouncementEnds(main, params, keyword, "", b);
    assert "" + b == b;
    var kept := if |e| < 400 then b else b[..399 - |Announced(main, params, keyword, "")|];
    AnnouncementKept(main, params, keyword, b, kept);
    AnnouncedIsParsed(main, params, keyword, kept);
    RunSplits(kept, NotSpace);
    if |e| < 400 && forall i :: 0 <= i < |b| ==> !IsSpace(b[i]) {
      RunOver(b, "", NotSpace);
      assert b + "" == b;
    }
  }

  lemma {:induction false} AnnouncementKept(main: string, params: seq<string>, keyword: string,
                                            b: string, kept: string)
    requires |Announced(main, params, keyword, "")| < 400
    ensures var e, start := Announced(main, params, keyword, b), Announced(main, params, keyword, "");
            && |e| == |start| + |b|
            && (kept == (if |e| < 400 then b else b[..399 - |start|]) ==>
                  Announced(main, params, keyword, kept) == Fit(e, BUFFER_MIN)
                  && |Announced(main, params, keyword, kept)| < 400)
  {
    AnnouncementEnds(main, params, keyword, "", b);
    AnnouncementEnds(main, params, keyword, "", kept);
    assert "" + b == b && "" + kept == kept;
  }

  /** A submission announced and printed for a boundary, as main() receives it: for parts that are
      legal for it, and only for them, the parser returns exactly the parts. */
  lemma {:induction false} SubmissionRoundTripIff(params: seq<string>, keyword: string, b: string, preamble: string,
                                                  parts: seq<FormPart>, epilogue: string)
    requires Keyword(keyword) && forall p :: p in params ==> OtherParameter(p)
    requires |Announced("multipart/form-data", params, keyword, b)| < 400
    requires ValidBoundary(b) && Preamble(b, preamble) && forall p :: p in parts ==> FieldValue(p.contentType)
    ensures var request := Parsed(Announced("multipart/form-data", params, keyword, b));
            && StrEqNc(request.main, "multipart/form-data")
            && (ParseMultipart(request.boundary, Print(b, preamble, parts, epilogue))
                == Outcome(ParseSuccess, ExpectedAll(parts))
                <==> forall p :: p in parts ==> Legal(b, p))
  {
    AnnouncedIsParsed("multipart/form-data", params, keyword, b);
    RunOver(b, "", NotSpace);
    assert b + "" == b;
    MultipartRoundTripIff(b, preamble, parts, epilogue);
  }
}
