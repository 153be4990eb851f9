/** Access to the form entries of cgic.c through the shared find cursor. */
module FormEntries {
  import opened CStrings
  import opened Entries
  import opened FormValues

  // ---------- What the accessors should return ----------

  /** The entries with a name, in list order. */
  function Matching(entries: seq<FormEntry>, name: string): seq<FormEntry> {
    if entries == [] then []
    else if entries[0].attr == name then [entries[0]] + Matching(entries[1..], name)
    else Matching(entries[1..], name)
  }

  lemma {:induction false} MatchingJoin(a: seq<FormEntry>, b: seq<FormEntry>, name: string)
    ensures Matching(a + b, name) == Matching(a, name) + Matching(b, name)
  {
    if a == [] {
      assert a + b == b && [] + Matching(b, name) == Matching(b, name);
    } else {
      assert (a + b)[1..] == a[1..] + b;
      MatchingJoin(a[1..], b, name);
      if a[0].attr == name {
        assert [a[0]] + (Matching(a[1..], name) + Matching(b, name)) == Matching(a, name) + Matching(b, name);
      }
    }
  }

  /** Every entry with the name, and no other, has its place among the matching ones: behind those
      that match in front of it. */
  lemma {:induction false} MatchingAt(entries: seq<FormEntry>, name: string, i: nat)
    requires i < |entries|
    ensures var k, m := |Matching(entries[..i], name)|, Matching(entries, name);
            && |Matching(entries[..i + 1], name)| == (if entries[i].attr == name then k + 1 else k) <= |m|
            && (entries[i].attr == name ==> m[k] == entries[i])
  {
    assert entries[..i + 1] == entries[..i] + [entries[i]] && entries == entries[..i + 1] + entries[i + 1..];
    MatchingJoin(entries[..i], [entries[i]], name);
    MatchingJoin(entries[..i + 1], entries[i + 1..], name);
    assert [entries[i]][1..] == [];
  }

  /** The first choice that equals the value, or the number of choices. */
  function FirstChoice(choices: seq<string>, value: string): (i: nat)
    ensures i <= |choices| && value !in choices[..i] && (i < |choices| ==> choices[i] == value)
  {
    if choices == [] || choices[0] == value then 0 else 1 + FirstChoice(choices[1..], value)
  }

  function Choice(choices: seq<string>, e: FormEntry): nat { FirstChoice(choices, CStr(e.value)) }

  /** How many of the entries have a value that is one of the choices. */
  function Hits(choices: seq<string>, m: seq<FormEntry>): (h: nat)
    ensures h <= |m|
  {
    if m == [] then 0
    else Hits(choices, m[..|m| - 1]) + if Choice(choices, m[|m| - 1]) < |choices| then 1 else 0
  }

  /** One mark for each choice: 1 if an entry has selected it. */
  function Marks(choices: seq<string>, m: seq<FormEntry>): (marks: seq<int>)
    ensures |marks| == |choices|
  {
    if m == [] then seq(|choices|, _ => 0)
    else
      var marks, c := Marks(choices, m[..|m| - 1]), Choice(choices, m[|m| - 1]);
      if c < |choices| then marks[c := 1] else marks
  }

  predicate Named(entries: seq<FormEntry>, name: string) { exists e :: e in entries && e.attr == name }

  /** The names in the list, each once, in the order in which they first occur. */
  function Names(entries: seq<FormEntry>): (names: seq<string>)
    ensures forall name :: name in names <==> Named(entries, name)
  {
    if entries == [] then []
    else
      var before, last := entries[..|entries| - 1], entries[|entries| - 1];
      assert entries == before + [last];
      if last.attr in Names(before) then Names(before) else Names(before) + [last.attr]
  }

  class Form {
    var entries: seq<FormEntry>      // the list from cgiFormEntryFirst on
    var findTarget: string
    var findPos: nat                 // cgiFindPos; the length of the list stands for null

    ghost predicate Valid() reads this { findPos <= |entries| }

    /** What FindNext has still to return. */
    ghost function ToFind(): seq<FormEntry>
      requires Valid()
      reads this
    {
      Matching(entries[findPos..], findTarget)
    }

    /** A find has returned the entry `m[i]`, or null if there is none, and `m[i + 1..]` remains. */
    ghost predicate Found(e: Option<FormEntry>, m: seq<FormEntry>, i: nat)
      reads this
    {
      && Valid() && i <= |m| && (e.Some? <==> i < |m|)
      && if i < |m| then e.value == m[i] && ToFind() == m[i + 1..] else ToFind() == []
    }

    constructor (entries: seq<FormEntry>)
      ensures Valid() && this.entries == entries
    {
      this.entries, findTarget, findPos := entries, "", |entries|;
    }

    method FindFirst(name: string) returns (e: Option<FormEntry>)
      modifies this`findTarget, this`findPos
      ensures Found(e, Matching(entries, name), 0)
    {
      findTarget := name;
      findPos := 0;
      assert entries[0..] == entries;
      e := FindNext();
    }

    method FindNext() returns (e: Option<FormEntry>)
      requires Valid()
      modifies this`findPos
      ensures Found(e, old(ToFind()), 0)
    {
      while findPos < |entries|
        invariant Valid() && ToFind() == old(ToFind())
      {
        var c := entries[findPos];
        assert entries[findPos..][1..] == entries[findPos + 1..];
        findPos := findPos + 1;
        if c.attr == findTarget {
          return Some(c);
        }
      }
      e := None;
    }

    // ---------- cgiFormString and cgiFormStringMultiple ----------

    /** cgiFormString and cgiFormStringNoNewlines: the value of the first entry with the name. */
    method FormString(name: string, result: array<char>, max: int, newlines: bool) returns (status: FormResult)
      requires Room(max) < result.Length
      modifies this`findTarget, this`findPos, result
      ensures Valid()
      ensures var m := Matching(entries, name);
              if m == [] then status == FormNotFound && result[..] == ['\0'] + old(result[1..])
              else
                var normal := Normal(CStr(m[0].value), newlines);
                && Holds(result[..], old(result[..]), normal, max)
                && (status.FormTruncated? <==> |normal| > Room(max)) && (status.FormEmpty? <==> normal == "")
                && (status.FormTruncated? || status.FormEmpty? || status.FormSuccess?)
    {
      var e := FindFirst(name);
      match e
      case None =>
        result[0] := '\0';
        status := FormNotFound;
      case Some(entry) =>
        status := FormEntryString(entry, result, max, newlines);
    }

    method FormStringSpaceNeeded(name: string) returns (status: FormResult, space: nat)
      modifies this`findTarget, this`findPos
      ensures Valid()
      ensures var m := Matching(entries, name);
              if m == [] then status == FormNotFound && space == 1
              else status == FormSuccess && space == |CStr(m[0].value)| + 1
    {
      var e := FindFirst(name);
      if e.None? {
        return FormNotFound, 1;
      }
      return FormSuccess, |CStr(e.value.value)| + 1;
    }

    /** One pass over the matching entries to count them. */
    method CountMatching(name: string) returns (total: nat)
      modifies this`findTarget, this`findPos
      ensures Valid() && total == |Matching(entries, name)|
    {
      total := 0;
      var e := FindFirst(name);
      while e.Some?
        invariant Found(e, Matching(entries, name), total)
        decreases |Matching(entries, name)| - total
      {
        total := total + 1;
        e := FindNext();
      }
    }

    /** Two passes: the slots that the first one counts are the slots that the second one fills,
        with the normalised values in list order, and a null ends the array. */
    method FormStringMultiple(name: string) returns (status: FormResult, result: array<Option<string>>)
      modifies this`findTarget, this`findPos
      ensures Valid() && fresh(result)
      ensures var m := Matching(entries, name);
              && status == (if m == [] then FormNotFound else FormSuccess)
              && result.Length == |m| + 1 && result[|m|] == None
              && forall i :: 0 <= i < |m| ==> result[i] == Some(Normal(CStr(m[i].value), true))
    {
      var total := CountMatching(name);
      result := new Option<string>[total + 1](_ => None);
      status := FillTexts(name, result, NormalTexts(Matching(entries, name)));
    }

    /** The second pass. */
    method FillTexts(name: string, result: array<Option<string>>, ghost texts: seq<string>) returns (status: FormResult)
      requires texts == NormalTexts(Matching(entries, name)) && Stored(result[..], texts, 0)
      modifies this`findTarget, this`findPos, result
      ensures Valid() && Stored(result[..], texts, |texts|)
      ensures status == if texts == [] then FormNotFound else FormSuccess
    {
      ghost var m := Matching(entries, name);
      var e := FindFirst(name);
      status := if e.None? then FormNotFound else FormSuccess;
      var i := 0;
      while e.Some?
        invariant Found(e, m, i) && Stored(result[..], texts, i)
        decreases |m| - i
      {
        var text := NormalText(e.value);
        Store(result, i, text, texts);
        e := FindNext();
        i := i + 1;
      }
    }

    // ---------- cgiFormSelectMultiple ----------

    method FormSelectMultiple(name: string, choices: seq<string>, result: array<int>)
      returns (status: FormResult, invalid: nat)
      requires |choices| <= result.Length
      modifies this`findTarget, this`findPos, result
      ensures Valid()
      ensures var m := Matching(entries, name);
              && status == (if Hits(choices, m) > 0 then FormSuccess else FormNotFound)
              && invalid + Hits(choices, m) == |m|
              && result[..] == Marks(choices, m) + old(result[|choices|..])
    {
      ghost var m, tail := Matching(entries, name), result[|choices|..];
      ClearMarks(result, choices);
      assert m[..0] == [];
      var hits := 0;
      invalid := 0;
      var e := FindFirst(name);
      ghost var i := 0;
      while e.Some?
        invariant Found(e, m, i) && hits == Hits(choices, m[..i]) && invalid + hits == i
        invariant result[..] == Marks(choices, m[..i]) + tail
        decreases |m| - i
      {
        var hit := MarkEntry(result, choices, e.value, m, i, tail);
        if hit {
          hits := hits + 1;
        } else {
          invalid := invalid + 1;
        }
        i := i + 1;
        e := FindNext();
      }
      assert m[..i] == m;
      status := if hits > 0 then FormSuccess else FormNotFound;
    }
  }

  /** The values of entries as they are returned. */
  ghost function NormalTexts(m: seq<FormEntry>): (texts: seq<string>)
    ensures |texts| == |m| && forall i :: 0 <= i < |m| ==> texts[i] == Normal(CStr(m[i].value), true)
  {
    seq(|m|, i requires 0 <= i < |m| => Normal(CStr(m[i].value), true))
  }

  /** Marks the choice of one more entry. */
  method MarkEntry(result: array<int>, choices: seq<string>, e: FormEntry,
                   ghost m: seq<FormEntry>, ghost i: nat, ghost tail: seq<int>) returns (hit: bool)
    requires i < |m| && e == m[i] && result[..] == Marks(choices, m[..i]) + tail
    modifies result
    ensures result[..] == Marks(choices, m[..i + 1]) + tail
    ensures Hits(choices, m[..i + 1]) == Hits(choices, m[..i]) + if hit then 1 else 0
  {
    assert m[..i + 1][..i] == m[..i];
    hit := Mark(result, choices, CStr(e.value), Marks(choices, m[..i]), tail);
  }

  method ClearMarks(result: array<int>, choices: seq<string>)
    requires |choices| <= result.Length
    modifies result
    ensures result[..] == Marks(choices, []) + old(result[|choices|..])
  {
    for k := 0 to |choices|
      invariant forall l :: 0 <= l < k ==> result[l] == 0
      invariant result[|choices|..] == old(result[|choices|..])
    {
      result[k] := 0;
    }
    assert result[..] == result[..|choices|] + result[|choices|..];
  }

  /** The inner loop: marks the first choice that equals the value. */
  method Mark(result: array<int>, choices: seq<string>, value: string, ghost marks: seq<int>, ghost tail: seq<int>)
    returns (hit: bool)
    requires |marks| == |choices| && result[..] == marks + tail
    modifies result
    ensures var k := FirstChoice(choices, value);
            hit == (k < |choices|) && result[..] == (if hit then marks[k := 1] else marks) + tail
  {
    for i := 0 to |choices|
      invariant FirstChoice(choices, value) == i + FirstChoice(choices[i..], value)
      invariant result[..] == marks + tail
    {
      if choices[i] == value {
        result[i] := 1;
        assert result[..] == (marks + tail)[i := 1] == marks[i := 1] + tail;
        return true;
      }
    }
    hit := false;
  }

  /** A choice is marked exactly if it is the first matching choice of some entry, and an entry
      hits exactly if its value is one of the choices. */
  lemma {:induction false} MarksIff(choices: seq<string>, m: seq<FormEntry>)
    ensures forall k :: 0 <= k < |choices| ==>
              Marks(choices, m)[k] == if exists e :: e in m && Choice(choices, e) == k then 1 else 0
    ensures Hits(choices, m) == 0 <==> forall e :: e in m ==> CStr(e.value) !in choices
  {
    if m != [] {
      var before, last := m[..|m| - 1], m[|m| - 1];
      assert m == before + [last];
      MarksIff(choices, before);
      assert last in m && forall e :: e in m <==> e in before || e == last;
    }
  }

  /** The positions of the entries whose value is one of the choices. */
  function Hitting(choices: seq<string>, m: seq<FormEntry>): set<int> {
    set i | 0 <= i < |m| && CStr(m[i].value) in choices
  }

  lemma {:induction false} HitsAre(choices: seq<string>, m: seq<FormEntry>)
    ensures Hits(choices, m) == |Hitting(choices, m)|
  {
    if m == [] {
      assert Hitting(choices, m) == {};
    } else {
      var n := |m| - 1;
      HitsAre(choices, m[..n]);
      assert choices[..|choices|] == choices;
      assert Choice(choices, m[n]) < |choices| <==> CStr(m[n].value) in choices;
      assert Hitting(choices, m) == Hitting(choices, m[..n]) + if CStr(m[n].value) in choices then {n} else {};
    }
  }

  // ---------- cgiFormEntries ----------

  /** Both passes of cgiFormEntries compare an entry with all entries in front of it. */
  method SeenBefore(entries: seq<FormEntry>, i: nat) returns (seen: bool)
    requires i < |entries|
    ensures seen == (entries[i].attr in Names(entries[..i]))
  {
    var pe := 0;
    while pe != i
      invariant 0 <= pe <= i && forall k :: 0 <= k < pe ==> entries[k].attr != entries[i].attr
    {
      if entries[i].attr == entries[pe].attr {
        assert entries[..i][pe] == entries[pe];
        return true;
      }
      pe := pe + 1;
    }
    seen := false;
  }

  method CountNames(entries: seq<FormEntry>) returns (total: nat)
    ensures total == |Names(entries)|
  {
    total := 0;
    var i := 0;
    while i < |entries|
      invariant i <= |entries| && total == |Names(entries[..i])|
    {
      var seen := SeenBefore(entries, i);
      assert entries[..i + 1][..i] == entries[..i];
      if !seen {
        total := total + 1;
      }
      i := i + 1;
    }
    assert entries[..i] == entries;
  }

  lemma {:induction false} NamesGrow(entries: seq<FormEntry>, i: nat)
    requires i <= |entries|
    ensures Names(entries[..i]) <= Names(entries)
  {
    if i < |entries| {
      NamesGrow(entries[..|entries| - 1], i);
      assert entries[..|entries| - 1][..i] == entries[..i];
    } else {
      assert entries[..i] == entries;
    }
  }

  /** The second pass fills exactly the slots that the first one counted. */
  method FormEntryNames(entries: seq<FormEntry>) returns (result: array<Option<string>>)
    ensures fresh(result) && result.Length == |Names(entries)| + 1
    ensures Stored(result[..], Names(entries), |Names(entries)|)
  {
    var total := CountNames(entries);
    result := new Option<string>[total + 1](_ => None);
    var e, i := 0, 0;
    while e < |entries|
      invariant e <= |entries| && i == |Names(entries[..e])| && Stored(result[..], Names(entries), i)
    {
      var seen := SeenBefore(entries, e);
      NextName(entries, e);
      if !seen {
        Store(result, i, entries[e].attr, Names(entries));
        i := i + 1;
      }
      e := e + 1;
    }
    assert entries[..e] == entries;
  }

  lemma {:induction false} NextName(entries: seq<FormEntry>, e: nat)
    requires e < |entries|
    ensures var names, i := Names(entries), |Names(entries[..e])|;
            if entries[e].attr in Names(entries[..e]) then |Names(entries[..e + 1])| == i <= |names|
            else |Names(entries[..e + 1])| == i + 1 <= |names| && names[i] == entries[e].attr
  {
    assert entries[..e + 1][..e] == entries[..e];
    NamesGrow(entries, e + 1);
  }

  /** The position of the first entry with a name. */
  function FirstAt(entries: seq<FormEntry>, name: string): (i: nat)
    ensures i <= |entries| && (i < |entries| ==> entries[i].attr == name)
    ensures forall k :: 0 <= k < i ==> entries[k].attr != name
  {
    if entries == [] || entries[0].attr == name then 0 else 1 + FirstAt(entries[1..], name)
  }

  /** The names come in the order of their first entries, so none comes twice. */
  lemma {:induction false} NamesInOrder(entries: seq<FormEntry>, i: nat, j: nat)
    requires i < j < |Names(entries)|
    ensures FirstAt(entries, Names(entries)[i]) < FirstAt(entries, Names(entries)[j]) < |entries|
  {
    var before, last := entries[..|entries| - 1], entries[|entries| - 1];
    assert entries == before + [last];
    var names := Names(before);
    assert Names(entries)[i] == names[i] && names[i] in names;
    FirstOfMore(before, last, names[i]);
    FirstOfMore(before, last, Names(entries)[j]);
    if j < |names| {
      NamesInOrder(before, i, j);
      assert names[j] in names;
    }
  }

  lemma {:induction false} FirstOfMore(before: seq<FormEntry>, last: FormEntry, name: string)
    ensures FirstAt(before, name) < |before| <==> Named(before, name)
    ensures Named(before, name) ==> FirstAt(before + [last], name) == FirstAt(before, name)
    ensures !Named(before, name) && last.attr == name ==> FirstAt(before + [last], name) == |before|
  {
    var first := FirstAt(before, name);
    if first < |before| {
      assert before[first] in before;
      assert (before + [last])[first] == before[first];
      assert forall k :: 0 <= k < first ==> (before + [last])[k] == before[k];
    } else {
      assert (before + [last])[|before|] == last;
      assert forall k :: 0 <= k < |before| ==> (before + [last])[k] == before[k];
    }
  }

  // ---------- One buffer of cgiFormStringMultiple ----------

  lemma {:induction false} NormalHasNoNul(v: string, cr: nat, lf: nat)
    requires '\0' !in v
    ensures '\0' !in Pending(v, cr, lf, true)
  {
    if v == "" {
    } else if IsNewline(v[0]) {
      NormalHasNoNul(v[1..], if v[0] == CR then cr + 1 else cr, if v[0] == LF then lf + 1 else lf);
    } else {
      NormalHasNoNul(v[1..], 0, 0);
    }
  }

  /** One buffer of cgiFormStringMultiple: as large as the value, so never truncated. */
  method NormalText(e: FormEntry) returns (text: string)
    ensures text == Normal(CStr(e.value), true)
  {
    var max := |CStr(e.value)| + 1;
    var buffer := new char[max](_ => '\0');
    SpaceNeededIsEnough(e.value, true);
    CStrFacts(e.value);
    NormalHasNoNul(CStr(e.value), 0, 0);
    PendingNone(CStr(e.value), true);
    ghost var before, normal := buffer[..], Normal(CStr(e.value), true);
    var status := FormEntryString(e, buffer, max, true);
    assert buffer[..][..|normal|] == normal;
    CStrStops(buffer[..], |normal|);
    CStrFacts(normal);
    text := CStr(buffer[..]);
  }
}
