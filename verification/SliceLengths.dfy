/** Rewriting Annex-B start codes into big-endian lengths: mp4_common.cpp. */
module SliceLengths {
  import opened CStrings

  type byte = b: int | 0 <= b < 0x100
  type uint32 = w: int | 0 <= w < 0x1_0000_0000

  // ---------- Words ----------

  /** The bytes of a word, least significant first: a mask and a shift each. */
  function Byte0(n: uint32): byte { n % 0x100 }
  function Byte1(n: uint32): byte { n / 0x100 % 0x100 }
  function Byte2(n: uint32): byte { n / 0x1_0000 % 0x100 }
  function Byte3(n: uint32): byte { n / 0x100_0000 }

  function Word(b0: byte, b1: byte, b2: byte, b3: byte): uint32 {
    var high: int := b3 * 0x100_0000 + b2 * 0x1_0000;
    var low: int := b1 * 0x100 + b0;
    high + low
  }

  function Swap32(n: uint32): uint32 { Word(Byte3(n), Byte2(n), Byte1(n), Byte0(n)) }

  /** A word in memory: the CPU is little-endian. */
  function Store(n: uint32): (s: seq<byte>)
    ensures |s| == 4
  {
    [Byte0(n), Byte1(n), Byte2(n), Byte3(n)]
  }

  function BigEndian(s: seq<byte>): uint32
    requires |s| == 4
  {
    Word(s[3], s[2], s[1], s[0])
  }

  lemma {:induction false} WordBytes(b0: byte, b1: byte, b2: byte, b3: byte)
    ensures var n := Word(b0, b1, b2, b3);
            Byte0(n) == b0 && Byte1(n) == b1 && Byte2(n) == b2 && Byte3(n) == b3
  {
    var n: int := Word(b0, b1, b2, b3);
    assert n == b0 + 0x100 * (b1 + 0x100 * (b2 + 0x100 * b3));
    assert n / 0x100 == b1 + 0x100 * (b2 + 0x100 * b3);
    assert n / 0x1_0000 == b2 + 0x100 * b3;
  }

  lemma {:induction false} BytesWord(n: uint32)
    ensures Word(Byte0(n), Byte1(n), Byte2(n), Byte3(n)) == n
  {
    assert n / 0x1_0000 == n / 0x100 / 0x100;
    assert n / 0x100_0000 == n / 0x1_0000 / 0x100;
  }

  /** A stored swapped word reads as the word itself in big-endian order. */
  lemma {:induction false} SwapStoresBigEndian(n: uint32)
    ensures BigEndian(Store(Swap32(n))) == n && Swap32(Swap32(n)) == n
  {
    WordBytes(Byte3(n), Byte2(n), Byte1(n), Byte0(n));
    BytesWord(n);
  }

  /** What four bytes mean. */
  lemma {:induction false} BigEndianIs(s: seq<byte>)
    requires |s| == 4
    ensures BigEndian(s) as int
         == 16777216 * (s[0] as int) + 65536 * (s[1] as int) + 256 * (s[2] as int) + s[3] as int
  {
  }

  lemma {:induction false} StoreIs(n: uint32)
    ensures var t := Store(n);
            n as int == t[0] as int + 256 * (t[1] as int) + 65536 * (t[2] as int) + 16777216 * (t[3] as int)
  {
    assert n / 0x1_0000 == n / 0x100 / 0x100;
    assert n / 0x100_0000 == n / 0x1_0000 / 0x100;
  }

  // ---------- Start codes and slices ----------

  predicate StartCode(f: seq<byte>, i: nat) {
    i + 4 <= |f| && f[i] == 0 && f[i + 1] == 0 && f[i + 2] == 0 && f[i + 3] == 1
  }

  lemma {:induction false} StartCodeIs(f: seq<byte>, i: nat)
    ensures StartCode(f, i) <==> i + 4 <= |f| && f[i..i + 4] == [0, 0, 0, 1]
  {
    if i + 4 <= |f| {
      assert f[i..i + 4] == [f[i], f[i + 1], f[i + 2], f[i + 3]];
    }
  }

  /** The start codes that the scan finds from `i` on. It stops four bytes before the end. */
  function Codes(f: seq<byte>, i: nat): seq<nat>
    decreases |f| - i
  {
    if i + 4 >= |f| then [] else if StartCode(f, i) then [i] + Codes(f, i + 1) else Codes(f, i + 1)
  }

  /** Positions in a frame whose four bytes do not overlap. */
  predicate Apart(f: seq<byte>, c: seq<nat>) {
    (forall k :: 0 <= k < |c| ==> c[k] + 4 <= |f|) && forall k, l :: 0 <= k < l < |c| ==> c[k] + 4 <= c[l]
  }

  lemma {:induction false} CodesAreCodes(f: seq<byte>, i: nat)
    ensures forall x :: x in Codes(f, i) ==> i <= x && x + 4 < |f| && StartCode(f, x)
    decreases |f| - i
  {
    if i + 4 < |f| {
      CodesAreCodes(f, i + 1);
    }
  }

  /** Two start codes never overlap, because 00 00 00 01 has no border. */
  lemma {:induction false} CodesAreApart(f: seq<byte>, i: nat)
    ensures Apart(f, Codes(f, i))
    decreases |f| - i
  {
    if i + 4 < |f| {
      CodesAreApart(f, i + 1);
      if StartCode(f, i) {
        CodesAreCodes(f, i + 1);
        PutInFront(f, i, Codes(f, i + 1));
      }
    }
  }

  lemma {:induction false} PutInFront(f: seq<byte>, i: nat, c: seq<nat>)
    requires Apart(f, c) && StartCode(f, i) && forall x :: x in c ==> i < x && StartCode(f, x)
    ensures Apart(f, [i] + c)
  {
    var d := [i] + c;
    forall k, l | 0 <= k < l < |d| ensures d[k] + 4 <= d[l] {
      assert d[l] == c[l - 1] && d[l] in c;
    }
  }

  function End(f: seq<byte>, c: seq<nat>, k: nat): nat {
    if k + 1 < |c| then c[k + 1] else |f|
  }

  /** What the start codes separate. */
  function Payloads(f: seq<byte>, c: seq<nat>, k: nat): seq<seq<byte>>
    requires Apart(f, c) && k <= |c|
    decreases |c| - k
  {
    if k == |c| then [] else [f[c[k] + 4..End(f, c, k)]] + Payloads(f, c, k + 1)
  }

  /** Reading a buffer of slices, each behind its length. */
  function Walk(g: seq<byte>): Option<seq<seq<byte>>> {
    if g == [] then Some([])
    else if |g| < 4 then None
    else
      var end := 4 + BigEndian(g[..4]);
      if end > |g| then None
      else
        match Walk(g[end..])
        case None => None
        case Some(rest) => Some([g[4..end]] + rest)
  }

  // ---------- What the code computes ----------

  /** The distance between two start codes. */
  function Gap(c: seq<nat>, k: nat): int
    requires k + 1 < |c|
  {
    var next: int := c[k + 1];
    next - c[k] - 4
  }

  /** uiBeforeTotal: the lengths of the slices in front of the last one. */
  function BeforeTotal(c: seq<nat>, k: nat): int
    requires k < |c|
  {
    if k == 0 then 0 else BeforeTotal(c, k - 1) + Gap(c, k - 1)
  }

  /** The length computed for the last slice. If there are several, four bytes are taken off for
      three start codes, however many there are. */
  function LastLength(size: uint32, c: seq<nat>): uint32
    requires c != [] && size >= 4
  {
    if |c| == 1 then size - 4 else (size - BeforeTotal(c, |c| - 1) - 4 * 3) % 0x1_0000_0000
  }

  /** The lengths computed for all slices. */
  predicate Computed(size: uint32, c: seq<nat>, n: seq<uint32>)
    requires c != [] && size >= 4
  {
    |n| == |c| && n[|c| - 1] == LastLength(size, c) && forall k :: 0 <= k < |c| - 1 ==> n[k] == Gap(c, k)
  }

  /** `g` holds slice `k` of `f` with its start code replaced by the length `n` in big-endian order. */
  predicate SliceAt(f: seq<byte>, g: seq<byte>, c: seq<nat>, k: nat, n: uint32)
    requires Apart(f, c) && k < |c| && |g| == |f|
  {
    BigEndian(g[c[k]..c[k] + 4]) == n && g[c[k] + 4..End(f, c, k)] == f[c[k] + 4..End(f, c, k)]
  }

  /** The first `m` start codes have been replaced, and everything behind them is as it was. */
  predicate Replaced(f: seq<byte>, g: seq<byte>, c: seq<nat>, n: seq<uint32>, m: nat)
    requires Apart(f, c) && m <= |c| == |n|
  {
    && |g| == |f|
    && (forall j :: 0 <= j < |f| && (m == 0 || c[m - 1] + 4 <= j) ==> g[j] == f[j])
    && forall k :: 0 <= k < m ==> SliceAt(f, g, c, k, n[k])
  }

  function Write(f: seq<byte>, p: nat, word: seq<byte>): (g: seq<byte>)
    requires p + 4 <= |f| && |word| == 4
    ensures |g| == |f|
  {
    f[p := word[0]][p + 1 := word[1]][p + 2 := word[2]][p + 3 := word[3]]
  }

  lemma {:induction false} WriteKeeps(g: seq<byte>, p: nat, word: seq<byte>, a: nat, b: nat)
    requires p + 4 <= |g| && |word| == 4 && a <= b <= |g| && (b <= p || p + 4 <= a)
    ensures Write(g, p, word)[a..b] == g[a..b] && Write(g, p, word)[p..p + 4] == word
  {
  }

  lemma {:induction false} SliceKept(f: seq<byte>, g: seq<byte>, c: seq<nat>, k: nat, n: uint32,
                                     p: nat, word: seq<byte>)
    requires Apart(f, c) && k < |c| && |g| == |f| && SliceAt(f, g, c, k, n)
    requires p + 4 <= |g| && |word| == 4 && End(f, c, k) <= p
    ensures SliceAt(f, Write(g, p, word), c, k, n)
  {
    WriteKeeps(g, p, word, c[k], c[k] + 4);
    WriteKeeps(g, p, word, c[k] + 4, End(f, c, k));
  }

  lemma {:induction false} BehindKept(f: seq<byte>, g: seq<byte>, c: seq<nat>, m: nat, word: seq<byte>)
    requires Apart(f, c) && m < |c| && |g| == |f| && |word| == 4
    requires forall j :: 0 <= j < |f| && (m == 0 || c[m - 1] + 4 <= j) ==> g[j] == f[j]
    ensures forall j :: 0 <= j < |f| && c[m] + 4 <= j ==> Write(g, c[m], word)[j] == f[j]
    ensures g[c[m] + 4..End(f, c, m)] == f[c[m] + 4..End(f, c, m)]
  {
    assert m > 0 ==> c[m - 1] + 4 <= c[m];
  }

  lemma {:induction false} SlicesKept(f: seq<byte>, g: seq<byte>, c: seq<nat>, n: seq<uint32>, m: nat, word: seq<byte>)
    requires Apart(f, c) && m < |c| == |n| && Replaced(f, g, c, n, m) && |word| == 4
    ensures forall k :: 0 <= k < m ==> SliceAt(f, Write(g, c[m], word), c, k, n[k])
  {
    forall k | 0 <= k < m ensures SliceAt(f, Write(g, c[m], word), c, k, n[k]) {
      SliceKept(f, g, c, k, n[k], c[m], word);
    }
  }

  lemma {:induction false} NewSlice(f: seq<byte>, g: seq<byte>, c: seq<nat>, m: nat, n: uint32, word: seq<byte>)
    requires Apart(f, c) && m < |c| && |g| == |f| && |word| == 4 && BigEndian(word) == n
    requires g[c[m] + 4..End(f, c, m)] == f[c[m] + 4..End(f, c, m)]
    ensures SliceAt(f, Write(g, c[m], word), c, m, n)
  {
    WriteKeeps(g, c[m], word, c[m] + 4, End(f, c, m));
  }

  /** Replacing one more start code neither disturbs the slices before it nor the bytes behind it. */
  lemma {:induction false} ReplaceOne(f: seq<byte>, g: seq<byte>, c: seq<nat>, n: seq<uint32>, m: nat, word: seq<byte>)
    requires Apart(f, c) && m < |c| == |n| && Replaced(f, g, c, n, m)
    requires |word| == 4 && BigEndian(word) == n[m]
    ensures Replaced(f, Write(g, c[m], word), c, n, m + 1)
  {
    BehindKept(f, g, c, m, word);
    SlicesKept(f, g, c, n, m, word);
    NewSlice(f, g, c, m, n[m], word);
  }

  // ---------- When the rewritten frame can be read back ----------

  lemma {:induction false} WalkOne(head: seq<byte>, n: uint32, payload: seq<byte>, rest: seq<byte>)
    requires |head| == 4 && BigEndian(head) == n == |payload|
    ensures Walk(head + payload + rest)
         == match Walk(rest) case None => None case Some(r) => Some([payload] + r)
  {
    var g := head + payload + rest;
    assert g[..4] == head && g[4..4 + n] == payload && g[4 + n..] == rest;
  }

  lemma {:induction false} WalkLast(head: seq<byte>, n: uint32, payload: seq<byte>)
    requires |head| == 4 && BigEndian(head) == n
    ensures Walk(head + payload) == Some([payload]) <==> n == |payload|
  {
    var g := head + payload;
    assert g[..4] == head;
    if n == |payload| {
      WalkOne(head, n, payload, []);
      assert g + [] == g && [payload] + [] == [payload];
    } else if n < |payload| && Walk(g[4 + n..]).Some? {
      assert |g[4..4 + n]| != |payload|;
      assert ([g[4..4 + n]] + Walk(g[4 + n..]).value)[0] != [payload][0];
    }
  }

  lemma {:induction false} BeforeTotalIs(c: seq<nat>, k: nat)
    requires k < |c|
    ensures BeforeTotal(c, k) == c[k] - c[0] - 4 * k
  {
    if k > 0 {
      BeforeTotalIs(c, k - 1);
    }
  }

  /** The last length is right exactly for one start code and for three. */
  lemma {:induction false} LastLengthIff(f: seq<byte>, c: seq<nat>)
    requires Apart(f, c) && 0 < |c| <= 5 && c[0] == 0 && |f| < 0x1_0000_0000
    ensures c[|c| - 1] + 4 + LastLength(|f|, c) == |f| <==> |c| == 1 || |c| == 3
  {
    BeforeTotalIs(c, |c| - 1);
  }

  /** The rewritten frame from slice `k` on: a length, the payload, and the later slices. */
  lemma {:induction false} AtSlice(f: seq<byte>, g: seq<byte>, c: seq<nat>, n: seq<uint32>, k: nat)
    requires Apart(f, c) && k < |c| == |n| && Replaced(f, g, c, n, |c|)
    ensures var head, payload := g[c[k]..c[k] + 4], f[c[k] + 4..End(f, c, k)];
            && BigEndian(head) == n[k] && g[c[k]..] == head + payload + g[End(f, c, k)..]
            && (k + 1 == |c| ==> g[c[k]..] == head + payload)
  {
    assert SliceAt(f, g, c, k, n[k]);
    SliceSplit(g, c[k], End(f, c, k), g[c[k]..c[k] + 4], f[c[k] + 4..End(f, c, k)]);
  }

  lemma {:induction false} WalkFrom(f: seq<byte>, g: seq<byte>, c: seq<nat>, n: seq<uint32>, k: nat)
    requires Apart(f, c) && k < |c| == |n| && Replaced(f, g, c, n, |c|)
    requires forall l :: 0 <= l < |c| - 1 ==> n[l] == Gap(c, l)
    ensures Walk(g[c[k]..]) == Some(Payloads(f, c, k)) <==> c[|c| - 1] + 4 + n[|c| - 1] == |f|
    decreases |c| - k
  {
    var head, payload := g[c[k]..c[k] + 4], f[c[k] + 4..End(f, c, k)];
    AtSlice(f, g, c, n, k);
    if k + 1 < |c| {
      WalkFrom(f, g, c, n, k + 1);
      WalkPast(head, n[k], payload, g[c[k + 1]..], Payloads(f, c, k + 1));
    } else {
      WalkLast(head, n[k], payload);
      assert Payloads(f, c, k) == [payload] + Payloads(f, c, k + 1) == [payload];
    }
  }

  lemma {:induction false} WalkPast(head: seq<byte>, n: uint32, payload: seq<byte>,
                                    later: seq<byte>, rest: seq<seq<byte>>)
    requires |head| == 4 && BigEndian(head) == n == |payload|
    ensures Walk(head + payload + later) == Some([payload] + rest) <==> Walk(later) == Some(rest)
  {
    WalkOne(head, n, payload, later);
    ConsSame(payload, Walk(later), rest);
  }

  lemma {:induction false} SliceSplit(g: seq<byte>, a: nat, e: nat, head: seq<byte>, payload: seq<byte>)
    requires a + 4 <= e <= |g| && g[a..a + 4] == head && g[a + 4..e] == payload
    ensures g[a..] == head + payload + g[e..]
    ensures e == |g| ==> g[a..] == head + payload
  {
  }

  lemma {:induction false} ConsSame(x: seq<byte>, walked: Option<seq<seq<byte>>>, rest: seq<seq<byte>>)
    ensures walked == Some(rest) <==> walked.Some? && [x] + walked.value == [x] + rest
  {
    if walked.Some? && [x] + walked.value == [x] + rest {
      assert ([x] + walked.value)[1..] == walked.value && ([x] + rest)[1..] == rest;
    }
  }

  /** The frame that CalcSliceLen leaves holds the same slices, each behind its length and up to
      the very end, if and only if there are one or three of them. */
  lemma {:induction false} RewritingPreservesSlicesIff(f: seq<byte>, g: seq<byte>, n: seq<uint32>)
    requires 4 < |f| < 0x1_0000_0000 && StartCode(f, 0) && |Codes(f, 0)| <= 5
    requires Apart(f, Codes(f, 0)) && Computed(|f|, Codes(f, 0), n) && Replaced(f, g, Codes(f, 0), n, |n|)
    ensures var c := Codes(f, 0);
            Walk(g) == Some(Payloads(f, c, 0)) <==> |c| == 1 || |c| == 3
  {
    var c := Codes(f, 0);
    assert c[0] == 0 && g[0..] == g;
    WalkFrom(f, g, c, n, 0);
    LastLengthIff(f, c);
  }

  // ---------- The code ----------

  method StoreWord(frame: array<byte>, p: nat, word: seq<byte>)
    requires p + 4 <= frame.Length && |word| == 4
    modifies frame
    ensures frame[..] == Write(old(frame[..]), p, word)
  {
    frame[p], frame[p + 1], frame[p + 2], frame[p + 3] := word[0], word[1], word[2], word[3];
  }

  method ConvertSliceLen(frame: array<byte>, p: nat, sliceLen: uint32)
    requires p + 4 <= frame.Length
    modifies frame
    ensures frame[..] == Write(old(frame[..]), p, Store(Swap32(sliceLen)))
  {
    var len := Swap32(sliceLen);
    StoreWord(frame, p, Store(len));
  }

  /** ConvertSliceLen on the next start code to replace. */
  method ReplaceCode(frame: array<byte>, p: nat, sliceLen: uint32,
                     ghost f: seq<byte>, ghost c: seq<nat>, ghost n: seq<uint32>, ghost m: nat)
    requires Apart(f, c) && m < |c| == |n| && p == c[m] && sliceLen == n[m]
    requires Replaced(f, frame[..], c, n, m)
    modifies frame
    ensures Replaced(f, frame[..], c, n, m + 1)
  {
    SwapStoresBigEndian(sliceLen);
    ReplaceOne(f, frame[..], c, n, m, Store(Swap32(sliceLen)));
    ConvertSliceLen(frame, p, sliceLen);
  }

  lemma {:induction false} CodesAreComplete(f: seq<byte>, i: nat, j: nat)
    requires i <= j && j + 4 < |f| && StartCode(f, j)
    ensures j in Codes(f, i)
    decreases |f| - i
  {
    if i < j {
      CodesAreComplete(f, i + 1, j);
      var k :| 0 <= k < |Codes(f, i + 1)| && Codes(f, i + 1)[k] == j;
      if StartCode(f, i) {
        assert Codes(f, i)[k + 1] == j;
      }
    } else {
      assert Codes(f, i)[0] == j;
    }
  }

  /** The next start code is the next element of the list of them. */
  lemma {:induction false} NextCode(f: seq<byte>, i: nat, num: nat)
    requires i + 4 < |f| && num <= |Codes(f, 0)|
    requires num > 0 ==> Codes(f, 0)[num - 1] < i
    requires num < |Codes(f, 0)| ==> i <= Codes(f, 0)[num]
    ensures StartCode(f, i) <==> num < |Codes(f, 0)| && Codes(f, 0)[num] == i
  {
    var c := Codes(f, 0);
    CodesAreApart(f, 0);
    CodesAreCodes(f, 0);
    if num < |c| && c[num] == i {
      assert c[num] in c;
    }
    if StartCode(f, i) {
      CodesAreComplete(f, 0, i);
      var k :| 0 <= k < |c| && c[k] == i;
      Increasing(f, c, k, num);
    }
  }

  lemma {:induction false} Increasing(f: seq<byte>, c: seq<nat>, k: nat, num: nat)
    requires Apart(f, c) && k < |c| && num <= |c|
    ensures k < num ==> c[k] <= c[num - 1]
    ensures num < k ==> c[num] < c[k]
  {
  }

  /** Replaces the start codes in place while the same frame is still being scanned. The frame
      begins with a start code, as its caller checks, and holds no more than auiPos has room for. */
  method CalcSliceLen(frame: array<byte>, sliceLen: array<uint32>) returns (num: nat)
    requires 4 < frame.Length < 0x1_0000_0000 && StartCode(frame[..], 0)
    requires |Codes(frame[..], 0)| <= 5 && |Codes(frame[..], 0)| <= sliceLen.Length
    modifies frame, sliceLen
    ensures num == |Codes(old(frame[..]), 0)| <= sliceLen.Length && Apart(old(frame[..]), Codes(old(frame[..]), 0))
    ensures Computed(frame.Length, Codes(old(frame[..]), 0), sliceLen[..num])
    ensures Replaced(old(frame[..]), frame[..], Codes(old(frame[..]), 0), sliceLen[..num], num)
    ensures Walk(frame[..]) == Some(Payloads(old(frame[..]), Codes(old(frame[..]), 0), 0)) <==> num == 1 || num == 3
  {
    ghost var f := frame[..];
    ghost var c := Codes(f, 0);
    CodesFit(f);
    ghost var n := ComputeLengths(f, c);
    num := ReplaceAll(frame, sliceLen, f, c, n);
    RewritingPreservesSlicesIff(f, frame[..], n);
  }

  method ReplaceAll(frame: array<byte>, sliceLen: array<uint32>,
                    ghost f: seq<byte>, ghost c: seq<nat>, ghost n: seq<uint32>) returns (num: nat)
    requires 4 < frame.Length < 0x1_0000_0000 && frame[..] == f && c == Codes(f, 0) && Apart(f, c)
    requires StartCode(f, 0) && forall k :: 0 <= k < |c| ==> c[k] + 4 < |f|
    requires 0 < |c| <= 5 && |c| <= sliceLen.Length && Computed(|f|, c, n)
    modifies frame, sliceLen
    ensures num == |c| <= sliceLen.Length && sliceLen[..num] == n && Replaced(f, frame[..], c, n, num)
  {
    var auiPos := new uint32[5];
    num := Scan(frame, auiPos, sliceLen, f, c, n);
    LastSlice(frame, auiPos, sliceLen, num, f, c, n);
  }

  lemma {:induction false} CodesFit(f: seq<byte>)
    ensures forall k :: 0 <= k < |Codes(f, 0)| ==> Codes(f, 0)[k] + 4 < |f|
    ensures Apart(f, Codes(f, 0))
    ensures |f| > 4 && StartCode(f, 0) ==> Codes(f, 0) != []
  {
    CodesAreApart(f, 0);
    CodesAreCodes(f, 0);
    forall k | 0 <= k < |Codes(f, 0)| ensures Codes(f, 0)[k] + 4 < |f| {
      assert Codes(f, 0)[k] in Codes(f, 0);
    }
  }

  lemma {:induction false} ComputeLengths(f: seq<byte>, c: seq<nat>) returns (n: seq<uint32>)
    requires c != [] && 4 <= |f| < 0x1_0000_0000 && Apart(f, c)
    ensures Computed(|f|, c, n)
  {
    var last := LastLength(|f|, c);
    n := seq(|c| - 1, k requires 0 <= k < |c| - 1 => GapOf(f, c, k)) + [last];
  }

  function GapOf(f: seq<byte>, c: seq<nat>, k: nat): (gap: uint32)
    requires |f| < 0x1_0000_0000 && Apart(f, c) && k + 1 < |c|
    ensures gap == Gap(c, k)
  {
    Gap(c, k)
  }

  /** `num` codes are in front of `i`. */
  predicate Between(c: seq<nat>, i: nat, num: nat) {
    num <= |c| && (num > 0 ==> c[num - 1] < i) && (num < |c| ==> i <= c[num])
  }

  /** One position further. */
  lemma {:induction false} Advance(f: seq<byte>, i: nat, num: nat)
    requires i + 4 < |f| && Between(Codes(f, 0), i, num)
    ensures Between(Codes(f, 0), i + 1, if StartCode(f, i) then num + 1 else num)
    ensures StartCode(f, i) ==> num < |Codes(f, 0)| && Codes(f, 0)[num] == i
  {
    var c := Codes(f, 0);
    NextCode(f, i, num);
    if StartCode(f, i) && num + 1 < |c| {
      CodesAreApart(f, 0);
      Increasing(f, c, num + 1, num);
    }
  }

  /** The scan has reached `i` with `num` start codes found, and all of them but the last replaced. */
  ghost predicate Scanned(frame: array<byte>, auiPos: array<uint32>, sliceLen: array<uint32>, i: nat, num: nat,
                          f: seq<byte>, c: seq<nat>, n: seq<uint32>)
    requires Apart(f, c) && |c| == |n| <= auiPos.Length && |c| <= sliceLen.Length
    reads frame, auiPos, sliceLen
  {
    && Between(c, i, num)
    && Replaced(f, frame[..], c, n, if num == 0 then 0 else num - 1)
    && (forall k :: 0 <= k < num ==> auiPos[k] == c[k])
    && forall k :: 0 <= k < num - 1 ==> sliceLen[k] == n[k]
  }

  method Scan(frame: array<byte>, auiPos: array<uint32>, sliceLen: array<uint32>,
              ghost f: seq<byte>, ghost c: seq<nat>, ghost n: seq<uint32>) returns (num: nat)
    requires 4 < frame.Length < 0x1_0000_0000 && frame[..] == f && c == Codes(f, 0) && Apart(f, c)
    requires forall k :: 0 <= k < |c| ==> c[k] + 4 < |f|
    requires |n| == |c| <= auiPos.Length && |c| <= sliceLen.Length && auiPos != sliceLen
    requires forall k :: 0 <= k < |c| - 1 ==> n[k] == Gap(c, k)
    modifies frame, sliceLen, auiPos
    ensures num == |c| && Scanned(frame, auiPos, sliceLen, |f| - 4, num, f, c, n)
  {
    var i := 0;
    num := 0;
    while i < frame.Length - 4
      invariant 0 <= i <= frame.Length - 4 && Scanned(frame, auiPos, sliceLen, i, num, f, c, n)
    {
      num := ScanOne(frame, auiPos, sliceLen, i, num, f, c, n);
      i := i + 1;
    }
  }

  /** One position of the scan. */
  method ScanOne(frame: array<byte>, auiPos: array<uint32>, sliceLen: array<uint32>, i: nat, num0: nat,
                 ghost f: seq<byte>, ghost c: seq<nat>, ghost n: seq<uint32>) returns (num: nat)
    requires frame.Length == |f| < 0x1_0000_0000 && i + 4 < |f| && c == Codes(f, 0) && Apart(f, c)
    requires |n| == |c| <= auiPos.Length && |c| <= sliceLen.Length && auiPos != sliceLen
    requires forall k :: 0 <= k < |c| - 1 ==> n[k] == Gap(c, k)
    requires Scanned(frame, auiPos, sliceLen, i, num0, f, c, n)
    modifies frame, sliceLen, auiPos
    ensures Scanned(frame, auiPos, sliceLen, i + 1, num, f, c, n)
  {
    num := num0;
    Advance(f, i, num);
    ScanSeesOriginal(f, frame[..], c, n, i, num);
    if frame[i] == 0 && frame[i + 1] == 0 && frame[i + 2] == 0 && frame[i + 3] == 1 {
      NoteCode(frame, auiPos, sliceLen, i, num, f, c, n);
      num := num + 1;
    }
  }

  /** The scan sees the original bytes, although codes before them have been replaced. */
  lemma {:induction false} ScanSeesOriginal(f: seq<byte>, g: seq<byte>, c: seq<nat>, n: seq<uint32>, i: nat, num: nat)
    requires Apart(f, c) && |c| == |n| && i + 4 < |f| && Between(c, i, num)
    requires Replaced(f, g, c, n, if num == 0 then 0 else num - 1)
    ensures StartCode(g, i) <==> StartCode(f, i)
  {
    if num > 1 {
      assert c[num - 2] + 4 <= c[num - 1];
    }
  }

  /** Records the start code at `i`, and replaces the one before it. */
  method NoteCode(frame: array<byte>, auiPos: array<uint32>, sliceLen: array<uint32>, i: nat, num: nat,
                  ghost f: seq<byte>, ghost c: seq<nat>, ghost n: seq<uint32>)
    requires frame.Length == |f| < 0x1_0000_0000 && Apart(f, c)
    requires num < |c| == |n| <= auiPos.Length && |c| <= sliceLen.Length && auiPos != sliceLen && i == c[num]
    requires num > 0 ==> n[num - 1] == Gap(c, num - 1)
    requires Replaced(f, frame[..], c, n, if num == 0 then 0 else num - 1)
    requires forall k :: 0 <= k < num ==> auiPos[k] == c[k]
    requires forall k :: 0 <= k < num - 1 ==> sliceLen[k] == n[k]
    modifies frame, sliceLen, auiPos
    ensures Replaced(f, frame[..], c, n, num)
    ensures forall k :: 0 <= k < num + 1 ==> auiPos[k] == c[k]
    ensures forall k :: 0 <= k < num ==> sliceLen[k] == n[k]
  {
    auiPos[num] := i;
    if num != 0 {
      sliceLen[num - 1] := auiPos[num] - auiPos[num - 1] - 4;
      ReplaceCode(frame, auiPos[num - 1], sliceLen[num - 1], f, c, n, num - 1);
    }
  }

  /** Stores the last length and replaces the last start code. */
  method PutLast(frame: array<byte>, sliceLen: array<uint32>, p: nat, last: uint32, num: nat,
                 ghost f: seq<byte>, ghost c: seq<nat>, ghost n: seq<uint32>)
    requires frame.Length == |f| && Apart(f, c) && 0 < num == |c| == |n| && num <= sliceLen.Length
    requires p == c[num - 1] && last == n[num - 1] && Replaced(f, frame[..], c, n, num - 1)
    requires forall k :: 0 <= k < num - 1 ==> sliceLen[k] == n[k]
    modifies frame, sliceLen
    ensures Replaced(f, frame[..], c, n, num)
    ensures forall k :: 0 <= k < num ==> sliceLen[k] == n[k]
  {
    sliceLen[num - 1] := last;
    ReplaceCode(frame, p, last, f, c, n, num - 1);
  }

  /** The branch behind the scan. */
  method LastSlice(frame: array<byte>, auiPos: array<uint32>, sliceLen: array<uint32>, num: nat,
                   ghost f: seq<byte>, ghost c: seq<nat>, ghost n: seq<uint32>)
    requires 4 < frame.Length == |f| < 0x1_0000_0000 && Apart(f, c) && c != [] && c[0] == 0
    requires num == |c| <= auiPos.Length && num <= sliceLen.Length && Computed(|f|, c, n)
    requires Replaced(f, frame[..], c, n, num - 1)
    requires forall k :: 0 <= k < num ==> auiPos[k] == c[k]
    requires forall k :: 0 <= k < num - 1 ==> sliceLen[k] == n[k]
    modifies frame, sliceLen
    ensures Replaced(f, frame[..], c, n, num)
    ensures forall k :: 0 <= k < num ==> sliceLen[k] == n[k]
  {
    if num == 1 {
      PutLast(frame, sliceLen, 0, frame.Length - 4, num, f, c, n);
    } else {
      var last := SumLast(frame.Length, sliceLen, num, c, n);
      PutLast(frame, sliceLen, auiPos[num - 1], last, num, f, c, n);
    }
  }

  method SumLast(frameLen: uint32, sliceLen: array<uint32>, num: nat, ghost c: seq<nat>, ghost n: seq<uint32>)
    returns (last: uint32)
    requires 1 < num == |c| <= sliceLen.Length && frameLen >= 4 && Computed(frameLen, c, n)
    requires forall k :: 0 <= k < num - 1 ==> sliceLen[k] == n[k]
    ensures last == n[num - 1]
  {
    var uiBeforeTotal: int := 0;
    for i := 0 to num - 1
      invariant uiBeforeTotal == BeforeTotal(c, i)
    {
      uiBeforeTotal := uiBeforeTotal + sliceLen[i];
    }
    last := (frameLen - uiBeforeTotal - 4 * 3) % 0x1_0000_0000;
  }
}
