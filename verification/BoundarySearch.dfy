/** The streaming search of cgic.c for a multipart delimiter. Bytes of a match that fails are
    un-read into the FIFO ring, so whether the search is a leftmost search depends on what the
    ring holds at each un-read. */
module BoundarySearch {
  import opened CStrings
  import opened VirtualStream

  // ---------- What the search should find ----------

  predicate OccursAt(p: string, s: string, i: nat) {
    i + |p| <= |s| && s[i..i + |p|] == p
  }

  lemma {:induction false} OccursShift(p: string, s: string, j: nat)
    requires 0 < j && s != ""
    ensures OccursAt(p, s, j) <==> OccursAt(p, s[1..], j - 1)
  {
    if j + |p| <= |s| {
      assert s[1..][j - 1..j - 1 + |p|] == s[j..j + |p|];
    }
  }

  /** Position of the leftmost occurrence of `p` in `s`. */
  function FirstIndex(p: string, s: string): (r: Option<nat>)
    ensures r.Some? ==> OccursAt(p, s, r.value) && forall j: nat :: j < r.value ==> !OccursAt(p, s, j)
    ensures r.None? ==> forall j: nat :: !OccursAt(p, s, j)
  {
    if |s| < |p| then None
    else if s[..|p|] == p then Some(0)
    else
      assert forall j: nat :: 0 < j ==> (OccursAt(p, s, j) <==> OccursAt(p, s[1..], j - 1)) by {
        forall j: nat | 0 < j { OccursShift(p, s, j); }
      }
      match FirstIndex(p, s[1..])
      case None => None
      case Some(i) => Some(i + 1)
  }

  lemma {:induction false} FirstIndexIs(p: string, s: string, i: nat)
    requires OccursAt(p, s, i) && forall j: nat :: j < i ==> !OccursAt(p, s, j)
    ensures FirstIndex(p, s) == Some(i)
  {
    var r := FirstIndex(p, s);
    assert r.Some?;
    if r.value < i {
      assert false;
    }
  }

  // ---------- What the code does ----------

  datatype SearchResult = Found(emitted: string, rest: string) | Missing

  /** While the ring is not empty, it and the matched prefix together stay shorter than the
      pattern. Hence the ring never fills up, and is empty whenever a match completes. */
  predicate Bounded(p: string, k: nat, queue: string) {
    k < |p| && (queue != "" ==> k + |queue| < |p|)
  }

  /** The search loop: `k` characters of `p` are matched, the ring holds `queue`, the request
      body still holds `rest`, and `out` has been emitted. The measure is what shows that the
      loop ends although it reads un-read characters again. */
  function Search(p: string, k: nat, queue: string, rest: string, out: string): SearchResult
    requires Bounded(p, k, queue)
    decreases k + |queue| + |rest|, |p| - k
  {
    if queue == "" && rest == "" then Missing
    else
      var d, queue', rest' := Front(queue, rest), QueueTail(queue), BodyTail(queue, rest);
      if d == p[k] then
        if k + 1 == |p| then Found(out, queue' + rest') else Search(p, k + 1, queue', rest', out)
      else if k > 0 then Search(p, 0, queue' + p[1..k] + [d], rest', out + [p[0]])
      else Search(p, 0, queue', rest', out + [d])
  }

  /** Every un-read of the run finds the ring empty. */
  predicate Disciplined(p: string, k: nat, queue: string, rest: string)
    requires Bounded(p, k, queue)
    decreases k + |queue| + |rest|, |p| - k
  {
    if queue == "" && rest == "" then true
    else
      var d, queue', rest' := Front(queue, rest), QueueTail(queue), BodyTail(queue, rest);
      if d == p[k] then k + 1 == |p| || Disciplined(p, k + 1, queue', rest')
      else if k > 0 then queue' == "" && Disciplined(p, 0, p[1..k] + [d], rest')
      else Disciplined(p, 0, queue', rest')
  }

  // ---------- The search is exact ----------

  function Leftmost(p: string, s: string, out: string): SearchResult {
    match FirstIndex(p, s)
    case None => Missing
    case Some(i) => Found(out + s[..i], s[i + |p|..])
  }

  /** Un-reading onto an empty ring loses, duplicates and reorders nothing: the search finds the
      leftmost occurrence, emits exactly what precedes it and leaves exactly what follows it. */
  lemma {:induction false} DisciplinedIsLeftmost(p: string, k: nat, queue: string, rest: string, out: string)
    requires Bounded(p, k, queue) && Disciplined(p, k, queue, rest)
    ensures Search(p, k, queue, rest, out) == Leftmost(p, p[..k] + (queue + rest), out)
    decreases k + |queue| + |rest|, |p| - k
  {
    if queue == "" && rest == "" {
      assert p[..k] + (queue + rest) == p[..k];
    } else {
      var d, queue', rest' := Front(queue, rest), QueueTail(queue), BodyTail(queue, rest);
      ReadOne(queue, rest);
      if d == p[k] {
        MatchedOne(p, k, d, queue' + rest', out);
        if k + 1 < |p| {
          DisciplinedIsLeftmost(p, k + 1, queue', rest', out);
        }
      } else if k > 0 {
        MismatchedLater(p, k, d, rest', out);
        assert queue' + rest' == rest' && queue' + p[1..k] + [d] == p[1..k] + [d];
        DisciplinedIsLeftmost(p, 0, p[1..k] + [d], rest', out + [p[0]]);
      } else {
        MismatchedFirst(p, d, queue' + rest', out);
        DisciplinedIsLeftmost(p, 0, queue', rest', out + [d]);
      }
    }
  }

  lemma {:induction false} ReadMatched(p: string, k: nat, queue: string, rest: string)
    requires k < |p| && (queue != "" || rest != "") && Front(queue, rest) == p[k]
    ensures p[..k] + (queue + rest) == p[..k + 1] + (QueueTail(queue) + BodyTail(queue, rest))
  {
    ReadOne(queue, rest);
    assert p[..k + 1] == p[..k] + [p[k]];
  }

  lemma {:induction false} MatchedOne(p: string, k: nat, d: char, v: string, out: string)
    requires k < |p| && d == p[k]
    ensures p[..k] + ([d] + v) == p[..k + 1] + v
    ensures k + 1 == |p| ==> Leftmost(p, p[..k] + ([d] + v), out) == Found(out, v)
  {
    var s := p[..k] + ([d] + v);
    assert s == p[..k + 1] + v;
    if k + 1 == |p| {
      assert s[..|p|] == p && s[|p|..] == v && out + s[..0] == out;
    }
  }

  lemma {:induction false} MismatchedLater(p: string, k: nat, d: char, v: string, out: string)
    requires 0 < k < |p| && d != p[k]
    ensures Leftmost(p, p[..k] + ([d] + v), out) == Leftmost(p, p[..0] + (p[1..k] + [d] + v), out + [p[0]])
  {
    var s := p[..k] + ([d] + v);
    assert s[k] == d && s[1..] == p[..0] + (p[1..k] + [d] + v);
    SkipOne(p, s, out);
  }

  lemma {:induction false} MismatchedFirst(p: string, d: char, v: string, out: string)
    requires p != "" && d != p[0]
    ensures Leftmost(p, p[..0] + ([d] + v), out) == Leftmost(p, p[..0] + v, out + [d])
  {
    var s := p[..0] + ([d] + v);
    assert s[0] == d && s[1..] == p[..0] + v;
    SkipOne(p, s, out);
  }

  lemma {:induction false} SkipOne(p: string, s: string, out: string)
    requires s != "" && !(p <= s)
    ensures Leftmost(p, s, out) == Leftmost(p, s[1..], out + [s[0]])
  {
    match FirstIndex(p, s[1..])
    case None =>
    case Some(i) =>
      assert out + s[..i + 1] == out + [s[0]] + s[1..][..i];
      assert s[i + 1 + |p|..] == s[1..][i + |p|..];
  }

  // ---------- When the ring is empty at every un-read ----------

  /** With `first == 0` the pattern starts with CR and holds no other CR. */
  predicate HeadIsUnique(p: string) {
    p != "" && forall i :: 0 < i < |p| ==> p[i] != p[0]
  }

  /** A head character in the ring can only be the last queued one. */
  predicate HeadOnlyLast(p: string, queue: string)
    requires p != ""
  {
    forall i :: 0 <= i < |queue| - 1 ==> queue[i] != p[0]
  }

  /** If the head of the pattern does not recur in it, every un-read of every run finds the ring
      empty, because a match can only begin at the last queued character. */
  lemma {:induction false} UniqueHeadIsDisciplined(p: string, k: nat, queue: string, rest: string)
    requires HeadIsUnique(p) && Bounded(p, k, queue)
    requires HeadOnlyLast(p, queue) && (k > 0 ==> queue == "")
    ensures Disciplined(p, k, queue, rest)
    decreases k + |queue| + |rest|, |p| - k
  {
    if queue != "" || rest != "" {
      var d, queue', rest' := Front(queue, rest), QueueTail(queue), BodyTail(queue, rest);
      if d == p[k] {
        if k + 1 < |p| {
          UniqueHeadIsDisciplined(p, k + 1, queue', rest');
        }
      } else if k > 0 {
        UniqueHeadIsDisciplined(p, 0, p[1..k] + [d], rest');
      } else {
        UniqueHeadIsDisciplined(p, 0, queue', rest');
      }
    }
  }

  /** `p` begins with exactly `m` copies of one character, at least two, as `--` + boundary does. */
  predicate HasRun(p: string, m: nat) {
    2 <= m <= |p| && (forall i :: 0 <= i < m ==> p[i] == p[0]) && (m < |p| ==> p[m] != p[0])
  }

  /** The leading run and the character after it, if any. */
  function Stem(p: string, m: nat): string
    requires HasRun(p, m)
  {
    if m < |p| then p[..m + 1] else p
  }

  function LeadingRun(p: string, c: char): (m: nat)
    ensures m <= |p| && (forall i :: 0 <= i < m ==> p[i] == c) && (m < |p| ==> p[m] != c)
  {
    if p == "" || p[0] != c then 0 else 1 + LeadingRun(p[1..], c)
  }

  /** No mismatch at position `i`: the pattern occurs there, or the input ends within it. */
  predicate AgreesAt(p: string, s: string, i: nat) {
    i <= |s| && (s[i..] <= p || p <= s[i..])
  }

  /** No match gets beyond the leading run and then fails, before the search is over. */
  ghost predicate NoLateFailure(p: string, m: nat, s: string)
    requires HasRun(p, m)
  {
    forall i: nat :: OccursAt(Stem(p, m), s, i) ==> exists j: nat :: j <= i && AgreesAt(p, s, j)
  }

  lemma {:induction false} AgreesShift(p: string, s: string, j: nat)
    requires 0 < j && s != ""
    ensures AgreesAt(p, s, j) <==> AgreesAt(p, s[1..], j - 1)
  {
    if j <= |s| {
      assert s[1..][j - 1..] == s[j..];
    }
  }

  lemma {:induction false} NoLateFailureTail(p: string, m: nat, s: string)
    requires HasRun(p, m) && s != "" && !AgreesAt(p, s, 0) && !OccursAt(Stem(p, m), s, 0)
    ensures NoLateFailure(p, m, s) <==> NoLateFailure(p, m, s[1..])
  {
    if NoLateFailure(p, m, s) {
      forall i: nat | OccursAt(Stem(p, m), s[1..], i)
        ensures exists j: nat :: j <= i && AgreesAt(p, s[1..], j)
      {
        OccursShift(Stem(p, m), s, i + 1);
        var j: nat :| j <= i + 1 && AgreesAt(p, s, j);
        AgreesShift(p, s, j);
        assert AgreesAt(p, s[1..], j - 1);
      }
    }
    if NoLateFailure(p, m, s[1..]) {
      forall i: nat | OccursAt(Stem(p, m), s, i)
        ensures exists j: nat :: j <= i && AgreesAt(p, s, j)
      {
        OccursShift(Stem(p, m), s, i);
        var j: nat :| j <= i - 1 && AgreesAt(p, s[1..], j);
        AgreesShift(p, s, j + 1);
        assert AgreesAt(p, s, j + 1);
      }
    }
  }

  /** What the ring can hold while no late failure has happened: part of the run and one character. */
  predicate RunQueued(p: string, m: nat, k: nat, queue: string)
    requires HasRun(p, m)
  {
    queue != "" ==> k + |queue| <= m && forall i :: 0 <= i < |queue| - 1 ==> queue[i] == p[0]
  }

  /** For the opening boundary the discipline is not automatic. It holds exactly for the inputs
      in which no match fails beyond the leading dashes before the search is over. */
  lemma {:induction false} RunDisciplinedIff(p: string, m: nat, k: nat, queue: string, rest: string)
    requires HasRun(p, m) && Bounded(p, k, queue) && RunQueued(p, m, k, queue)
    ensures Disciplined(p, k, queue, rest) <==> NoLateFailure(p, m, p[..k] + (queue + rest))
    decreases k + |queue| + |rest|, |p| - k, 1
  {
    if queue == "" && rest == "" {
      NothingFailed(p, m, k, queue + rest);
    } else if Front(queue, rest) == p[k] {
      RunMatch(p, m, k, queue, rest);
    } else {
      RunMismatch(p, m, k, queue, rest);
    }
  }

  lemma {:induction false} RunMatch(p: string, m: nat, k: nat, queue: string, rest: string)
    requires HasRun(p, m) && Bounded(p, k, queue) && RunQueued(p, m, k, queue)
    requires (queue != "" || rest != "") && Front(queue, rest) == p[k]
    ensures Disciplined(p, k, queue, rest) <==> NoLateFailure(p, m, p[..k] + (queue + rest))
    decreases k + |queue| + |rest|, |p| - k, 0
  {
    var queue', rest' := QueueTail(queue), BodyTail(queue, rest);
    ReadMatched(p, k, queue, rest);
    if k + 1 < |p| {
      RunDisciplinedIff(p, m, k + 1, queue', rest');
    } else {
      NothingFailed(p, m, |p|, queue' + rest');
    }
  }

  lemma {:induction false} RunMismatch(p: string, m: nat, k: nat, queue: string, rest: string)
    requires HasRun(p, m) && Bounded(p, k, queue) && RunQueued(p, m, k, queue)
    requires (queue != "" || rest != "") && Front(queue, rest) != p[k]
    ensures Disciplined(p, k, queue, rest) <==> NoLateFailure(p, m, p[..k] + (queue + rest))
    decreases k + |queue| + |rest|, |p| - k, 0
  {
    var d, queue', rest' := Front(queue, rest), QueueTail(queue), BodyTail(queue, rest);
    MismatchFails(p, m, k, queue, rest);
    if k > m {
      LateFailureRequeues(p, m, 0, k, d, rest');
    } else {
      RunQueuedMismatch(p, m, k, queue, d);
      if k > 0 {
        RunDisciplinedIff(p, m, 0, p[1..k] + [d], rest');
      } else {
        RunDisciplinedIff(p, m, 0, queue', rest');
      }
    }
  }

  /** A mismatch is a late failure beyond the run, and otherwise leaves it to what is read next. */
  lemma {:induction false} MismatchFails(p: string, m: nat, k: nat, queue: string, rest: string)
    requires HasRun(p, m) && Bounded(p, k, queue) && (0 < k <= m ==> QueueTail(queue) == "")
    requires (queue != "" || rest != "") && Front(queue, rest) != p[k]
    ensures var queue' := if k > 0 then p[1..k] + [Front(queue, rest)] else QueueTail(queue);
            var next := p[..0] + (queue' + BodyTail(queue, rest));
            NoLateFailure(p, m, p[..k] + (queue + rest)) <==> k <= m && NoLateFailure(p, m, next)
  {
    var d, queue', rest' := Front(queue, rest), QueueTail(queue), BodyTail(queue, rest);
    ReadOne(queue, rest);
    MismatchFacts(p, m, k, d, queue' + rest');
    if k <= m {
      NoLateFailureTail(p, m, p[..k] + ([d] + (queue' + rest')));
      MismatchTail(p, k, d, queue', rest');
    }
  }

  lemma {:induction false} NothingFailed(p: string, m: nat, k: nat, v: string)
    requires HasRun(p, m) && k <= |p| && (v == "" || k == |p|)
    ensures NoLateFailure(p, m, p[..k] + v)
  {
    var s := p[..k] + v;
    assert s[0..] == s;
    assert AgreesAt(p, s, 0) by {
      if k == |p| {
        assert p <= s;
      }
    }
  }

  lemma {:induction false} MismatchTail(p: string, k: nat, d: char, queue': string, rest': string)
    requires k < |p| && (k > 0 ==> queue' == "")
    ensures (p[..k] + ([d] + (queue' + rest')))[1..]
         == p[..0] + ((if k > 0 then p[1..k] + [d] else queue') + rest')
  {
  }

  lemma {:induction false} RunQueuedMismatch(p: string, m: nat, k: nat, queue: string, d: char)
    requires HasRun(p, m) && RunQueued(p, m, k, queue) && k <= m && k < |p| && d != p[k]
    requires queue != "" ==> d == queue[0]
    ensures if k > 0 then QueueTail(queue) == "" && RunQueued(p, m, 0, p[1..k] + [d])
            else RunQueued(p, m, 0, QueueTail(queue))
  {
  }

  lemma {:induction false} MismatchFacts(p: string, m: nat, k: nat, d: char, v: string)
    requires HasRun(p, m) && k < |p| && d != p[k]
    ensures var s := p[..k] + ([d] + v);
            && s != "" && !AgreesAt(p, s, 0) && (OccursAt(Stem(p, m), s, 0) <==> k > m)
            && (k > m ==> !NoLateFailure(p, m, s))
  {
    var s := p[..k] + ([d] + v);
    assert s[k] == d && s[0..] == s;
    if k > m {
      assert s[..m + 1] == p[..m + 1];
    } else if |s| >= |Stem(p, m)| {
      assert s[0..|Stem(p, m)|][k] != Stem(p, m)[k];
    }
  }

  /** After a late failure the search matches most of the run again out of the ring, fails at the
      character behind it, and un-reads while the ring still holds the rest. */
  lemma {:induction false} LateFailureRequeues(p: string, m: nat, j: nat, k: nat, d: char, rest: string)
    requires HasRun(p, m) && j < m < k < |p|
    requires Bounded(p, j, p[1 + j..k] + [d])
    ensures !Disciplined(p, j, p[1 + j..k] + [d], rest)
    decreases m - j
  {
    var queue := p[1 + j..k] + [d];
    assert QueueTail(queue) == p[2 + j..k] + [d];
    if j + 1 < m {
      LateFailureRequeues(p, m, j + 1, k, d, rest);
    }
  }

  /** The opening search when the discipline fails: it walks past a boundary that is there. */
  lemma {:induction false} FirstSearchCanMiss()
    ensures OccursAt("--ab", "--a--ab", 3)
    ensures Search("--ab", 0, "", "--a--ab", "") == Missing
  {
    var p := "--ab";
    assert Search(p, 0, "", "--a--ab", "") == Search(p, 3, "", "--ab", "");
    MismatchStep(p, 3, "", "--ab", "", "-a-", "-ab", "-");
    FirstSearchReorders();
  }

  /** The ring returns `-a-` as `-`, `-`, `a`. */
  lemma {:induction false} FirstSearchReorders()
    ensures Search("--ab", 0, "-a-", "-ab", "-") == Missing
  {
    var p := "--ab";
    assert Search(p, 0, "-a-", "-ab", "-") == Search(p, 1, "a-", "-ab", "-");
    MismatchStep(p, 1, "a-", "-ab", "-", "-a", "-ab", "--");
    assert Search(p, 0, "-a", "-ab", "--") == Search(p, 1, "a", "-ab", "--");
    MismatchStep(p, 1, "a", "-ab", "--", "a", "-ab", "---");
    assert Search(p, 0, "a", "-ab", "---") == Search(p, 1, "", "ab", "---" + ['a']);
    MismatchStep(p, 1, "", "ab", "---" + ['a'], "a", "b", "---" + ['a'] + ['-']);
  }

  /** One failing step of the search, on literal operands. */
  lemma {:induction false} MismatchStep(p: string, k: nat, queue: string, rest: string, out: string,
                     queue': string, rest': string, out': string)
    requires Bounded(p, k, queue) && k > 0 && (queue != "" || rest != "") && Front(queue, rest) != p[k]
    requires queue' == QueueTail(queue) + p[1..k] + [Front(queue, rest)] && rest' == BodyTail(queue, rest)
    requires out' == out + [p[0]]
    ensures Bounded(p, 0, queue') && Search(p, k, queue, rest, out) == Search(p, 0, queue', rest', out')
  {
  }
}
