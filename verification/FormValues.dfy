/** cgiFormEntryString of cgic.c: newlines are normalised, and what does not fit is cut off. */
module FormValues {
  import opened CStrings
  import opened Entries

  datatype FormResult = FormSuccess | FormTruncated | FormEmpty | FormNotFound | FormNotAFile

  const CR := '\r'
  const LF := '\n'

  // ---------- The normal form ----------

  predicate IsNewline(c: char) { c == CR || c == LF }

  function Count(s: string, c: char): nat {
    if s == "" then 0 else (if s[0] == c then 1 else 0) + Count(s[1..], c)
  }

  /** `n` line feeds. */
  function Feeds(n: nat): (s: string)
    ensures |s| == n && forall i :: 0 <= i < n ==> s[i] == LF
  {
    if n == 0 then "" else [LF] + Feeds(n - 1)
  }

  /** What becomes of a burst with this many carriage returns and line feeds. */
  function Burst(cr: nat, lf: nat, newlines: bool): string {
    Feeds(if !newlines then 0 else if lf > cr then lf else cr)
  }

  /** Every burst of newline characters, in whatever pattern, becomes as many line feeds as there
      are characters of its more frequent kind, or nothing. */
  function Normal(v: string, newlines: bool): string
    decreases |v|
  {
    if v == "" then ""
    else if IsNewline(v[0]) then
      var burst := Run(v, IsNewline);
      Burst(Count(burst, CR), Count(burst, LF), newlines) + Normal(Past(v[1..], IsNewline), newlines)
    else [v[0]] + Normal(v[1..], newlines)
  }

  // ---------- The code ----------

  /** What is still to come when `cr` and `lf` newline characters of a burst have been counted. */
  function Pending(v: string, cr: nat, lf: nat, newlines: bool): string {
    if v == "" then Burst(cr, lf, newlines)
    else if v[0] == CR then Pending(v[1..], cr + 1, lf, newlines)
    else if v[0] == LF then Pending(v[1..], cr, lf + 1, newlines)
    else Burst(cr, lf, newlines) + ([v[0]] + Pending(v[1..], 0, 0, newlines))
  }

  lemma {:induction false} CountCons(d: char, s: string, c: char)
    ensures Count([d] + s, c) == (if d == c then 1 else 0) + Count(s, c)
  {
    assert ([d] + s)[1..] == s;
  }

  /** Counting a burst as it is read gives what the whole burst becomes. */
  lemma {:induction false} PendingIs(v: string, cr: nat, lf: nat, newlines: bool)
    ensures var burst := Run(v, IsNewline);
            Pending(v, cr, lf, newlines)
            == Burst(cr + Count(burst, CR), lf + Count(burst, LF), newlines) + Normal(Past(v, IsNewline), newlines)
    decreases |v|, 0
  {
    if v == "" {
    } else if IsNewline(v[0]) {
      PendingIs(v[1..], if v[0] == CR then cr + 1 else cr, if v[0] == LF then lf + 1 else lf, newlines);
      CountCons(v[0], Run(v[1..], IsNewline), CR);
      CountCons(v[0], Run(v[1..], IsNewline), LF);
    } else {
      PendingNone(v[1..], newlines);
    }
  }

  lemma {:induction false} PendingNone(v: string, newlines: bool)
    ensures Pending(v, 0, 0, newlines) == Normal(v, newlines)
    decreases |v|, 1
  {
    PendingIs(v, 0, 0, newlines);
    if v != "" && IsNewline(v[0]) {
      assert Past(v, IsNewline) == Past(v[1..], IsNewline);
    } else {
      assert Run(v, IsNewline) == "" && Past(v, IsNewline) == v;
    }
  }

  /** How many characters a buffer of this size can take beside the terminating NUL. */
  function Room(max: int): nat { if max > 1 then max - 1 else 0 }

  /** What a call leaves in the result buffer. */
  predicate Holds(result: seq<char>, before: seq<char>, normal: string, max: int) {
    var n := if |normal| > Room(max) then Room(max) else |normal|;
    |result| == |before| && n < |result| && result == normal[..n] + ['\0'] + before[n + 1..]
  }

  /** `len` characters of the normal form have been written, and `more` of it is to come. */
  predicate Filling(result: seq<char>, before: seq<char>, len: nat, normal: string, more: string, max: int) {
    && len <= Room(max) < |before| == |result|
    && result[..len] + more == normal && result[len..] == before[len..]
  }

  /** The buffer is full before the normal form ends. */
  predicate Full(result: seq<char>, before: seq<char>, len: nat, normal: string, max: int) {
    && len == Room(max) < |before| == |result| && len < |normal|
    && result[..len] == normal[..len] && result[len..] == before[len..]
  }

  lemma {:induction false} FillOne(held: seq<char>, before: seq<char>, len: nat, normal: string,
                                   c: char, more: string, max: int)
    requires Filling(held, before, len, normal, [c] + more, max) && len < Room(max)
    ensures Filling(held[len := c], before, len + 1, normal, more, max)
  {
    var result := held[len := c];
    assert held[..len] + ([c] + more) == result[..len + 1] + more;
    assert result[len + 1..] == held[len..][1..] == before[len..][1..] == before[len + 1..];
  }

  /** Writes one character behind `len0` characters, unless the buffer is full. */
  method PutOne(result: array<char>, len0: nat, c: char, max: int,
                ghost before: seq<char>, ghost normal: string, ghost more: string)
    returns (len: nat, truncated: bool)
    requires Filling(result[..], before, len0, normal, [c] + more, max)
    modifies result
    ensures truncated ==> Full(result[..], before, len, normal, max)
    ensures !truncated ==> Filling(result[..], before, len, normal, more, max)
  {
    var avail := max - 1;
    len := len0;
    if len >= avail {
      truncated := true;
      assert normal[..len] == result[..len];
    } else {
      truncated := false;
      FillOne(result[..], before, len, normal, c, more, max);
      ghost var held := result[..];
      result[len] := c;
      assert result[..] == held[len := c];
      len := len + 1;
    }
  }

  method PutFeeds(result: array<char>, len0: nat, count: nat, max: int,
                  ghost before: seq<char>, ghost normal: string, ghost more: string)
    returns (len: nat, truncated: bool)
    requires Filling(result[..], before, len0, normal, Feeds(count) + more, max)
    modifies result
    ensures truncated ==> Full(result[..], before, len, normal, max)
    ensures !truncated ==> Filling(result[..], before, len, normal, more, max)
  {
    var lfsAdd := count;
    len, truncated := len0, false;
    while lfsAdd > 0
      invariant !truncated && Filling(result[..], before, len, normal, Feeds(lfsAdd) + more, max)
    {
      assert Feeds(lfsAdd) + more == [LF] + (Feeds(lfsAdd - 1) + more);
      len, truncated := PutOne(result, len, LF, max, before, normal, Feeds(lfsAdd - 1) + more);
      if truncated {
        return;
      }
      lfsAdd := lfsAdd - 1;
    }
    assert Feeds(0) + more == more;
  }

  /** The normal form of an entry's value, cut off at the size of the buffer. The rest of the
      buffer is not touched. */
  method FormEntryString(e: FormEntry, result: array<char>, max: int, newlines: bool) returns (status: FormResult)
    requires Room(max) < result.Length
    modifies result
    ensures Holds(result[..], old(result[..]), Normal(CStr(e.value), newlines), max)
    ensures status.FormTruncated? <==> |Normal(CStr(e.value), newlines)| > Room(max)
    ensures status.FormEmpty? <==> Normal(CStr(e.value), newlines) == ""
    ensures status.FormTruncated? || status.FormEmpty? || status.FormSuccess?
  {
    ghost var before, normal := result[..], Normal(CStr(e.value), newlines);
    var len: nat := 0;
    var truncated := false;
    var sp := CStr(e.value);
    var crCount: nat, lfCount: nat := 0, 0;
    PendingNone(sp, newlines);
    assert result[..0] + normal == normal;
    while true
      invariant !truncated && Filling(result[..], before, len, normal, Pending(sp, crCount, lfCount, newlines), max)
      decreases |sp|
    {
      if sp != "" && IsNewline(sp[0]) {
        if sp[0] == CR {
          crCount := crCount + 1;
        } else {
          lfCount := lfCount + 1;
        }
      } else {
        ghost var more := if sp == "" then "" else [sp[0]] + Pending(sp[1..], 0, 0, newlines);
        assert Burst(crCount, lfCount, newlines) + "" == Burst(crCount, lfCount, newlines);
        len, truncated := PutBurst(result, len, crCount, lfCount, newlines, max, before, normal, more);
        crCount, lfCount := 0, 0;
        if sp == "" {
          break;
        }
        if truncated {
          break;
        }
        len, truncated := PutOne(result, len, sp[0], max, before, normal, Pending(sp[1..], 0, 0, newlines));
        if truncated {
          break;
        }
      }
      sp := sp[1..];
    }
    assert !truncated ==> result[..len] + "" == result[..len];
    ghost var held := result[..];
    result[len] := '\0';
    Terminated(held, result[..], before, len, normal, truncated, max);
    status := if truncated then FormTruncated else if len == 0 then FormEmpty else FormSuccess;
  }

  lemma {:induction false} Terminated(held: seq<char>, final: seq<char>, before: seq<char>, len: nat, normal: string,
                                      truncated: bool, max: int)
    requires len < |held| && final == held[len := '\0']
    requires if truncated then Full(held, before, len, normal, max) else Filling(held, before, len, normal, "", max)
    ensures Holds(final, before, normal, max)
    ensures (truncated <==> |normal| > Room(max)) && (!truncated ==> len == |normal|)
  {
    assert !truncated ==> held[..len] + "" == held[..len];
    assert held[len + 1..] == held[len..][1..] == before[len..][1..] == before[len + 1..];
    assert final == held[..len] + ['\0'] + held[len + 1..];
  }

  /** The end of a burst, if there was one. */
  method PutBurst(result: array<char>, len0: nat, crCount: nat, lfCount: nat, newlines: bool, max: int,
                  ghost before: seq<char>, ghost normal: string, ghost more: string)
    returns (len: nat, truncated: bool)
    requires Filling(result[..], before, len0, normal, Burst(crCount, lfCount, newlines) + more, max)
    modifies result
    ensures truncated ==> Full(result[..], before, len, normal, max)
    ensures !truncated ==> Filling(result[..], before, len, normal, more, max)
  {
    len, truncated := len0, false;
    if crCount > 0 || lfCount > 0 {
      var lfsAdd := crCount;
      if lfCount > crCount {
        lfsAdd := lfCount;
      }
      if !newlines {
        lfsAdd := 0;
      }
      len, truncated := PutFeeds(result, len, lfsAdd, max, before, normal, more);
    } else {
      assert "" + more == more;
    }
  }

  // ---------- What normalising means ----------

  function WithoutNewlines(v: string): string {
    if v == "" then "" else if IsNewline(v[0]) then WithoutNewlines(v[1..]) else [v[0]] + WithoutNewlines(v[1..])
  }

  lemma {:induction false} PendingWithoutNewlines(v: string, cr: nat, lf: nat)
    ensures Pending(v, cr, lf, false) == WithoutNewlines(v)
    ensures WithoutNewlines(Pending(v, cr, lf, true)) == WithoutNewlines(v)
  {
    if v == "" {
      FeedsVanish(if lf > cr then lf else cr, "");
      assert Burst(cr, lf, true) + "" == Burst(cr, lf, true);
    } else if IsNewline(v[0]) {
      PendingWithoutNewlines(v[1..], if v[0] == CR then cr + 1 else cr, if v[0] == LF then lf + 1 else lf);
    } else {
      PendingWithoutNewlines(v[1..], 0, 0);
      var later := Pending(v[1..], 0, 0, true);
      assert ([v[0]] + later)[1..] == later;
      FeedsVanish(if lf > cr then lf else cr, [v[0]] + later);
    }
  }

  lemma {:induction false} FeedsVanish(n: nat, rest: string)
    ensures WithoutNewlines(Feeds(n) + rest) == WithoutNewlines(rest)
  {
    if n == 0 {
      assert Feeds(0) + rest == rest;
    } else {
      assert (Feeds(n) + rest)[1..] == Feeds(n - 1) + rest;
      FeedsVanish(n - 1, rest);
    }
  }

  /** A text in which all newlines are line feeds is in normal form. */
  lemma {:induction false} PendingFeeds(v: string, lf: nat)
    requires CR !in v
    ensures Pending(v, 0, lf, true) == Feeds(lf) + v
  {
    if v == "" {
      assert Feeds(lf) + v == Feeds(lf);
    } else if v[0] == LF {
      PendingFeeds(v[1..], lf + 1);
      assert Feeds(lf + 1) + v[1..] == Feeds(lf) + v;
    } else {
      PendingFeeds(v[1..], 0);
      assert Feeds(0) + v[1..] == v[1..] && [v[0]] + v[1..] == v;
    }
  }

  lemma {:induction false} PendingHasNoReturns(v: string, cr: nat, lf: nat, newlines: bool)
    ensures CR !in Pending(v, cr, lf, newlines)
  {
    if v == "" {
    } else if IsNewline(v[0]) {
      PendingHasNoReturns(v[1..], if v[0] == CR then cr + 1 else cr, if v[0] == LF then lf + 1 else lf, newlines);
    } else {
      PendingHasNoReturns(v[1..], 0, 0, newlines);
    }
  }

  lemma {:induction false} StableWithoutNewlines(v: string, newlines: bool)
    ensures forall c :: c in WithoutNewlines(v) ==> !IsNewline(c)
    ensures WithoutNewlines(WithoutNewlines(v)) == WithoutNewlines(v)
    ensures Pending(WithoutNewlines(v), 0, 0, newlines) == WithoutNewlines(v)
  {
    if v != "" {
      StableWithoutNewlines(v[1..], newlines);
    }
  }

  /** Normalising twice is normalising once, in the stricter of the two ways. */
  lemma {:induction false} NormalisingTwice(v: string, a: bool, b: bool)
    ensures Normal(Normal(v, a), b) == Normal(v, a && b)
  {
    var once := Normal(v, a);
    PendingNone(v, a);
    PendingNone(v, false);
    PendingNone(once, b);
    PendingWithoutNewlines(v, 0, 0);
    if !a {
      StableWithoutNewlines(v, b);
    } else if b {
      PendingHasNoReturns(v, 0, 0, true);
      PendingFeeds(once, 0);
      assert Feeds(0) + once == once;
    } else {
      PendingWithoutNewlines(once, 0, 0);
    }
  }

  lemma {:induction false} PendingLength(v: string, cr: nat, lf: nat, newlines: bool)
    ensures |Pending(v, cr, lf, newlines)| <= cr + lf + |v|
  {
    if v == "" {
    } else if IsNewline(v[0]) {
      PendingLength(v[1..], if v[0] == CR then cr + 1 else cr, if v[0] == LF then lf + 1 else lf, newlines);
    } else {
      PendingLength(v[1..], 0, 0, newlines);
    }
  }

  lemma {:induction false} PendingNotEmpty(v: string, cr: nat, lf: nat)
    ensures Pending(v, cr, lf, true) == "" <==> v == "" && cr == 0 && lf == 0
  {
    if v != "" && IsNewline(v[0]) {
      PendingNotEmpty(v[1..], if v[0] == CR then cr + 1 else cr, if v[0] == LF then lf + 1 else lf);
    }
  }

  /** The space that cgiFormStringSpaceNeeded asks for is always enough, and a value with newlines
      kept comes out empty only if it is empty. */
  lemma {:induction false} SpaceNeededIsEnough(value: string, newlines: bool)
    ensures |Normal(CStr(value), newlines)| <= Room(|CStr(value)| + 1) == |CStr(value)|
    ensures Normal(CStr(value), true) == "" <==> CStr(value) == ""
  {
    PendingLength(CStr(value), 0, 0, newlines);
    PendingNone(CStr(value), newlines);
    PendingNone(CStr(value), true);
    PendingNotEmpty(CStr(value), 0, 0);
  }

  lemma {:induction false} CountIs(s: string, c: char)
    ensures Count(s, c) == multiset(s)[c]
  {
    if s != "" {
      CountIs(s[1..], c);
      assert s == [s[0]] + s[1..];
    }
  }

  lemma {:induction false} PendingJoin(a: string, rest: string, cr: nat, lf: nat, newlines: bool)
    requires a != "" && !IsNewline(a[|a| - 1])
    ensures Pending(a + rest, cr, lf, newlines) == Pending(a, cr, lf, newlines) + Pending(rest, 0, 0, newlines)
  {
    assert (a + rest)[1..] == a[1..] + rest;
    if IsNewline(a[0]) {
      PendingJoin(a[1..], rest, if a[0] == CR then cr + 1 else cr, if a[0] == LF then lf + 1 else lf, newlines);
    } else {
      var burst, later := Burst(cr, lf, newlines), Pending(rest, 0, 0, newlines);
      if |a| == 1 {
        assert a[1..] + rest == rest && Pending("", 0, 0, newlines) == "";
        assert burst + ([a[0]] + later) == burst + ([a[0]] + "") + later;
      } else {
        PendingJoin(a[1..], rest, 0, 0, newlines);
        var middle := Pending(a[1..], 0, 0, newlines);
        assert burst + ([a[0]] + (middle + later)) == burst + ([a[0]] + middle) + later;
      }
    }
  }

  lemma {:induction false} BurstPending(burst: string, after: string, newlines: bool)
    requires forall i :: 0 <= i < |burst| ==> IsNewline(burst[i])
    requires after == "" || !IsNewline(after[0])
    ensures Pending(burst + after, 0, 0, newlines)
         == Burst(multiset(burst)[CR], multiset(burst)[LF], newlines) + Normal(after, newlines)
  {
    WholeBurst(burst, after);
    PendingBurst(burst + after, newlines);
    CountIs(burst, CR);
    CountIs(burst, LF);
  }

  lemma {:induction false} PendingBurst(v: string, newlines: bool)
    ensures var burst := Run(v, IsNewline);
            Pending(v, 0, 0, newlines)
            == Burst(Count(burst, CR), Count(burst, LF), newlines) + Normal(Past(v, IsNewline), newlines)
  {
    PendingIs(v, 0, 0, newlines);
  }

  lemma {:induction false} WholeBurst(burst: string, after: string)
    requires forall i :: 0 <= i < |burst| ==> IsNewline(burst[i])
    requires after == "" || !IsNewline(after[0])
    ensures Run(burst + after, IsNewline) == burst && Past(burst + after, IsNewline) == after
  {
    RunOver(burst, after, IsNewline);
    assert burst + "" == burst;
  }

  /** A burst of newlines between other characters, in whatever pattern, becomes as many line feeds
      as there are characters of its more frequent kind, or nothing. */
  lemma {:induction false} BurstsAreCounted(before: string, burst: string, after: string, newlines: bool)
    requires before != "" && !IsNewline(before[|before| - 1]) && (after == "" || !IsNewline(after[0]))
    requires forall i :: 0 <= i < |burst| ==> IsNewline(burst[i])
    ensures var n := if !newlines then 0
                     else if multiset(burst)['\r'] < multiset(burst)['\n'] then multiset(burst)['\n']
                     else multiset(burst)['\r'];
            Normal(before + (burst + after), newlines)
            == Normal(before, newlines) + (seq(n, _ => '\n') + Normal(after, newlines))
  {
    var cr, lf := multiset(burst)[CR], multiset(burst)[LF];
    PendingNone(before + (burst + after), newlines);
    PendingNone(before, newlines);
    PendingJoin(before, burst + after, 0, 0, newlines);
    BurstPending(burst, after, newlines);
    var n := if !newlines then 0 else if lf > cr then lf else cr;
    assert Feeds(n) == seq(n, _ => '\n');
  }

  function Join(lines: seq<string>, end: string): string {
    if lines == [] then "" else if |lines| == 1 then lines[0] else lines[0] + (end + Join(lines[1..], end))
  }

  predicate LineEnd(end: string) { end in {"\n", "\r", "\r\n", "\n\r"} }

  /** The newline characters of `k` line ends. */
  function Times(end: string, c: char, k: nat): nat { if c in end then k else 0 }

  lemma {:induction false} PendingOver(line: string, rest: string, cr: nat, lf: nat)
    requires line != "" && forall i :: 0 <= i < |line| ==> !IsNewline(line[i])
    ensures Pending(line + rest, cr, lf, true) == Burst(cr, lf, true) + (line + Pending(rest, 0, 0, true))
  {
    assert (line + rest)[1..] == line[1..] + rest;
    if |line| == 1 {
      assert line[1..] + rest == rest && [line[0]] + Pending(rest, 0, 0, true) == line + Pending(rest, 0, 0, true);
    } else {
      PendingOver(line[1..], rest, 0, 0);
      var later := line[1..] + Pending(rest, 0, 0, true);
      assert "" + later == later && [line[0]] + later == line + Pending(rest, 0, 0, true);
    }
  }

  lemma {:induction false} PendingEnd(end: string, rest: string, k: nat)
    requires LineEnd(end)
    ensures Pending(end + rest, Times(end, CR, k), Times(end, LF, k), true)
         == Pending(rest, Times(end, CR, k + 1), Times(end, LF, k + 1), true)
  {
    assert (end + rest)[1..] == end[1..] + rest;
    if |end| == 1 {
      assert end[1..] + rest == rest;
    } else {
      assert (end[1..] + rest)[1..] == rest;
    }
  }

  lemma {:induction false} JoinedLines(lines: seq<string>, end: string, k: nat)
    requires LineEnd(end) && forall l :: l in lines ==> CR !in l && LF !in l
    ensures Pending(Join(lines, end), Times(end, CR, k), Times(end, LF, k), true) == Feeds(k) + Join(lines, "\n")
    decreases |lines|, 0
  {
    if lines == [] {
      assert Feeds(k) + "" == Feeds(k);
    } else {
      var line, later := lines[0], lines[1..];
      var rest := if later == [] then "" else end + Join(later, end);
      var normal := if later == [] then "" else "\n" + Join(later, "\n");
      assert line in lines && line + "" == line;
      if line == "" {
        assert line + rest == rest && line + normal == normal;
        LinesBehind(later, end, k);
      } else {
        PendingOver(line, rest, Times(end, CR, k), Times(end, LF, k));
        LinesBehind(later, end, 0);
        assert Feeds(0) + normal == normal;
      }
    }
  }

  /** The lines behind a line end. */
  lemma {:induction false} LinesBehind(later: seq<string>, end: string, k: nat)
    requires LineEnd(end) && forall l :: l in later ==> CR !in l && LF !in l
    ensures Pending(if later == [] then "" else end + Join(later, end), Times(end, CR, k), Times(end, LF, k), true)
         == Feeds(k) + if later == [] then "" else "\n" + Join(later, "\n")
    decreases |later|, 1
  {
    if later == [] {
      assert Feeds(k) + "" == Feeds(k);
    } else {
      PendingEnd(end, Join(later, end), k);
      JoinedLines(later, end, k + 1);
      assert Feeds(k + 1) + Join(later, "\n") == Feeds(k) + ("\n" + Join(later, "\n"));
    }
  }

  /** Whichever line end the browser uses, the lines come out separated by single line feeds,
      empty lines included. */
  lemma {:induction false} LineEndsAreNormalised(lines: seq<string>, end: string)
    requires LineEnd(end) && forall l :: l in lines ==> CR !in l && LF !in l
    ensures Normal(Join(lines, end), true) == Join(lines, "\n")
  {
    PendingNone(Join(lines, end), true);
    JoinedLines(lines, end, 0);
    assert Feeds(0) + Join(lines, "\n") == Join(lines, "\n");
  }
}
