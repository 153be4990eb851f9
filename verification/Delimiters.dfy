/** afterNextBoundary of cgic.c. */
module Delimiters {
  import opened CStrings
  import opened VirtualStream
  import opened BoundarySearch

  /** Crashed stands for a null pointer that the C code writes through. */
  datatype ParseResult = ParseSuccess | ParseIO | Crashed

  /** What main() guarantees of cgiMultipartBoundary, see ContentTypes.ExtractedBoundaryFits. */
  predicate ValidBoundary(b: string) {
    |b| + 4 < BUFFER_MIN && forall i :: 0 <= i < |b| ==> !IsSpace(b[i])
  }

  /** workingBoundary: with `first` no line break is expected before the dashes. */
  function Delimiter(b: string, first: bool): string {
    (if first then "--" else "\r\n--") + b
  }

  lemma {:induction false} InnerDelimiterHasUniqueHead(b: string)
    requires ValidBoundary(b)
    ensures HeadIsUnique(Delimiter(b, false))
  {
    var p := Delimiter(b, false);
    forall i | 0 < i < |p| ensures p[i] != p[0] {
      assert i >= 4 ==> p[i] == b[i - 4];
    }
  }

  // ---------- The delimiter and the two characters behind it ----------

  datatype Passage = Passage(result: ParseResult, body: string, rest: string)

  /** Where the stream stands after a search: behind a line break, or before `--`. */
  function PassDelimiter(found: SearchResult): Passage {
    match found
    case Missing => Passage(ParseIO, "", "")
    case Found(body, rest) =>
      if |rest| < 2 then Passage(ParseIO, "", "")
      else if rest[0] == '-' then Passage(ParseSuccess, body, rest)
      else Passage(ParseSuccess, body, rest[2..])
  }

  /** What the search finds in a stream that it starts on with at most one queued character. */
  function FindDelimiter(b: string, first: bool, v: string): SearchResult {
    if first then Search(Delimiter(b, true), 0, "", v, "") else Leftmost(Delimiter(b, false), v, "")
  }

  lemma {:induction false} InnerSearchIsLeftmost(b: string, first: bool, queue: string, body: string)
    requires ValidBoundary(b) && if first then queue == "" else |queue| <= 1
    ensures Search(Delimiter(b, first), 0, queue, body, "") == FindDelimiter(b, first, queue + body)
  {
    var p := Delimiter(b, first);
    if first {
      assert queue + body == body;
    } else {
      InnerDelimiterHasUniqueHead(b);
      UniqueHeadIsDisciplined(p, 0, queue, body);
      DisciplinedIsLeftmost(p, 0, queue, body, "");
      assert p[..0] + (queue + body) == queue + body;
    }
  }

  /** The opening search un-reads onto an empty ring throughout exactly when no match fails beyond
      the leading dashes before the search is over; then it is a leftmost search as well. */
  lemma {:induction false} OpeningSearchIsLeftmost(b: string, v: string)
    ensures var p := Delimiter(b, true);
            var m := LeadingRun(p, '-');
            && HasRun(p, m)
            && (Disciplined(p, 0, "", v) <==> NoLateFailure(p, m, v))
            && (NoLateFailure(p, m, v) ==> FindDelimiter(b, true, v) == Leftmost(p, v, ""))
  {
    var p := Delimiter(b, true);
    assert p[0] == '-' && p[1] == '-';
    var m := LeadingRun(p, '-');
    RunDisciplinedIff(p, m, 0, "", v);
    assert p[..0] + ("" + v) == v;
    if NoLateFailure(p, m, v) {
      DisciplinedIsLeftmost(p, 0, "", v, "");
    }
  }

  method AfterNextBoundary(mpp: MpStream, b: string, first: bool, store: bool)
    returns (result: ParseResult, body: string)
    requires mpp.Valid() && ValidBoundary(b)
    requires if first then mpp.Queue() == "" else |mpp.Queue()| <= 1
    modifies mpp, mpp.putback
    ensures mpp.Valid() && |mpp.Queue()| <= 2
    ensures var passage := PassDelimiter(FindDelimiter(b, first, old(mpp.Virtual())));
            && result == passage.result && body == (if store then passage.body else "")
            && mpp.Virtual() == passage.rest
    ensures match FindDelimiter(b, first, old(mpp.Virtual()))
            case Missing => result == ParseIO && body == "" && mpp.Virtual() == ""
            case Found(before, rest) =>
              if |rest| < 2 then result == ParseIO && body == "" && mpp.Virtual() == ""
              else result == ParseSuccess && body == (if store then before else "")
                   && mpp.Virtual() == if rest[0] == '-' then rest else rest[2..]
    ensures var v := old(mpp.Virtual());
            !first ==> match FirstIndex("\r\n--" + b, v)
                       case None => result == ParseIO && body == ""
                       case Some(i) =>
                         if |v| - i - 4 - |b| < 2 then result == ParseIO && body == ""
                         else result == ParseSuccess && body == if store then v[..i] else ""
  {
    var p := Delimiter(b, first);
    ghost var found := Search(p, 0, mpp.Queue(), mpp.Body(), "");
    InnerSearchIsLeftmost(b, first, mpp.Queue(), mpp.Body());
    result, body := SearchLoop(mpp, p, store, found);
    if result == ParseIO {
      return;
    }
    var ok := PassTwo(mpp);
    if !ok {
      return ParseIO, "";
    }
  }

  /** The end of afterNextBoundary: two characters are skipped unless the first is a dash. */
  method PassTwo(mpp: MpStream) returns (ok: bool)
    requires mpp.Valid() && mpp.Queue() == ""
    modifies mpp, mpp.putback
    ensures mpp.Valid() && |mpp.Queue()| <= 2
    ensures ok == (|old(mpp.Virtual())| >= 2)
    ensures mpp.Virtual() == if !ok then "" else if old(mpp.Virtual())[0] == '-' then old(mpp.Virtual())
                             else old(mpp.Virtual())[2..]
  {
    var got, d := mpp.Read(2);
    if got != 2 {
      return false;
    }
    ok := true;
    if d[0] == '\r' && d[1] == '\n' {
    } else if d[0] == '-' {
      mpp.MpPutBack(d);
    }
  }

  /** The search that is still to be done finds what the whole search finds. */
  ghost predicate Searching(mpp: MpStream, p: string, boffset: nat, out: string, found: SearchResult)
    reads mpp, mpp.putback
  {
    && mpp.Valid() && |p| < BUFFER_MIN && Bounded(p, boffset, mpp.Queue())
    && found == Search(p, boffset, mpp.Queue(), mpp.Body(), out)
  }

  /** One round of the search: it emits at most one character. */
  method SearchOne(mpp: MpStream, p: string, boffset0: nat, ghost out: string, ghost found: SearchResult)
    returns (boffset: nat, emitted: string, ended: bool)
    requires Searching(mpp, p, boffset0, out, found)
    modifies mpp, mpp.putback
    ensures !ended ==> Searching(mpp, p, boffset, out + emitted, found)
    ensures !ended ==> var sum, sum0 := boffset + |mpp.Queue()| + |mpp.Body()|,
                                        boffset0 + |old(mpp.Queue())| + |old(mpp.Body())|;
                       sum < sum0 || (sum == sum0 && boffset0 < boffset)
    ensures ended ==> mpp.Valid() && mpp.Queue() == "" && emitted == ""
    ensures ended ==> found == if boffset == |p| then Found(out, mpp.Virtual()) else Missing
    ensures ended && boffset != |p| ==> mpp.Virtual() == ""
  {
    boffset, emitted, ended := boffset0, "", false;
    var got, d := mpp.ReadChar();
    if got != 1 {
      ended := true;
    } else if d == p[boffset] {
      assert out + emitted == out;
      boffset := boffset + 1;
      ended := boffset == |p|;
    } else if boffset > 0 {
      emitted := [p[0]];
      UnreadMatch(mpp, p, boffset, d);
      boffset := 0;
    } else {
      emitted := [d];
    }
  }

  /** The search loop of afterNextBoundary, up to the completed match. */
  method SearchLoop(mpp: MpStream, p: string, store: bool, ghost found: SearchResult)
    returns (result: ParseResult, body: string)
    requires Searching(mpp, p, 0, "", found)
    modifies mpp, mpp.putback
    ensures mpp.Valid() && mpp.Queue() == ""
    ensures match found
            case Missing => result == ParseIO && body == "" && mpp.Virtual() == ""
            case Found(out, rest) =>
              result == ParseSuccess && body == (if store then out else "") && mpp.Virtual() == rest
  {
    var boffset: nat := 0;
    ghost var out := "";
    body := "";
    while true
      invariant Searching(mpp, p, boffset, out, found) && body == if store then out else ""
      decreases boffset + |mpp.Queue()| + |mpp.Body()|, |p| - boffset
    {
      var emitted, ended;
      boffset, emitted, ended := SearchOne(mpp, p, boffset, out, found);
      if ended {
        if boffset != |p| {
          return ParseIO, "";
        }
        break;
      }
      out := out + emitted;
      body := if store then body + emitted else body;
    }
    result := ParseSuccess;
  }

  /** Puts back all of a failed match but its first character. */
  method UnreadMatch(mpp: MpStream, p: string, boffset: nat, d: char)
    requires mpp.Valid() && 0 < boffset < |p| && |mpp.Queue()| + boffset < BUFFER_MIN
    modifies mpp, mpp.putback
    ensures mpp.Valid() && mpp.Body() == old(mpp.Body())
    ensures mpp.Queue() == old(mpp.Queue()) + p[1..boffset] + [d]
  {
    mpp.MpPutBack(p[1..boffset]);
    mpp.MpPutBack([d]);
  }
}
