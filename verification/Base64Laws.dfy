/** Laws of the Base64 encoder and decoder. */
module Base64Laws {
  import opened Base64
  import CStrings

  // ---------- The alphabet of section 4 of RFC 4648 ----------

  const ALPHABET := CStrings.UPPER + CStrings.LOWER + CStrings.DIGITS + "+/"

  function Code(k: nat): nat {
    if k < 26 then k + 65 else if k < 52 then k + 71 else if k < 62 then k - 4 else if k == 62 then 43 else 47
  }

  lemma {:induction false} CharCode(i: byte)
    requires i < 64
    ensures i as int < 64 && Char(i) as int == Code(i as int)
  {
  }

  lemma {:induction false} UpperCode(k: nat)
    requires k < 26
    ensures CStrings.UPPER[k] as int == k + 65
  {
  }

  lemma {:induction false} LowerCode(k: nat)
    requires k < 26
    ensures CStrings.LOWER[k] as int == k + 97
  {
  }

  lemma {:induction false} DigitCode(k: nat)
    requires k < 10
    ensures CStrings.DIGITS[k] as int == k + 48
  {
  }

  lemma {:induction false} AlphabetCode(k: nat)
    requires k < 64
    ensures |ALPHABET| == 64 && ALPHABET[k] as int == Code(k)
  {
    if k < 26 {
      UpperCode(k);
    } else if k < 52 {
      LowerCode(k - 26);
    } else if k < 62 {
      DigitCode(k - 52);
    }
  }

  /** Value `i` is written as the character at `i` of the alphabet. */
  lemma {:induction false} AlphabetIs(i: byte)
    requires i < 64
    ensures i as int < |ALPHABET| && Char(i) as char == ALPHABET[i as int]
  {
    CharCode(i);
    AlphabetCode(i as int);
  }

  lemma {:induction false} AlphabetRanges(c: byte)
    ensures InAlphabet(c) <==> 'A' <= c as char <= 'Z' || 'a' <= c as char <= 'z' || '0' <= c as char <= '9'
                               || c as char == '+' || c as char == '/'
  {
  }

  /** The decoder takes exactly the characters of the alphabet for data, and the equals sign for
      padding. */
  lemma {:induction false} DataIs(c: byte)
    ensures InAlphabet(c) <==> c as char in ALPHABET
    ensures c == PAD <==> c as char == '='
    ensures c == CR <==> c as char == '\r'
    ensures c == LF <==> c as char == '\n'
  {
    AlphabetRanges(c);
    CStrings.InUpper(c as char);
    CStrings.InLower(c as char);
    CStrings.InDigits(c as char);
  }

  /** One byte behind the last whole group ends the text in two equals signs, and two in one. */
  lemma {:induction false} PaddingIs(src: seq<byte>)
    ensures |src| % 3 == 1 ==> |Text(src)| >= 4 && Text(src)[|Text(src)| - 2..] == [61, 61]
    ensures |src| % 3 == 2 ==> |Text(src)| >= 4 && Text(src)[|Text(src)| - 1..] == [61]
  {
    if |src| >= 3 {
      PaddingIs(src[3..]);
    }
  }

  /** Four characters carry the 24 bits of three bytes, most significant first. */
  lemma {:induction false} BitGroups(a: byte, b: byte, c: byte)
    ensures var i := Sextets(a, b, c);
            (a as bv32 << 16) | (b as bv32 << 8) | c as bv32
            == (i[0] as bv32 << 18) | (i[1] as bv32 << 12) | (i[2] as bv32 << 6) | i[3] as bv32
  {
  }

  // ---------- The tables and one quantum ----------

  lemma {:induction false} TablesInverse(i: byte, c: byte)
    ensures i < 64 ==> Index(Char(i)) == i && Char(i) != PAD
    ensures Index(c) != NONE ==> Index(c) < 64 && Char(Index(c)) == c
    ensures Index(PAD) == Index(CR) == Index(LF) == NONE
  {
  }

  function QuadOf(i: seq<byte>): seq<byte>
    requires |i| == 4
  {
    [Char(i[0]), Char(i[1]), Char(i[2]), Char(i[3])]
  }

  /** The four six-bit values of three bytes, as the encoder computes them. */
  function Sextets(a: byte, b: byte, c: byte): (i: seq<byte>)
    ensures |i| == 4 && i[0] < 64 && i[1] < 64 && i[2] < 64 && i[3] < 64
    ensures Quad(a, b, c) == QuadOf(i)
  {
    [(a & 0xfc) >> 2, ((a & 0x03) << 4) + ((b & 0xf0) >> 4), ((b & 0x0f) << 2) + ((c & 0xc0) >> 6), c & 0x3f]
  }

  lemma {:induction false} BitsBack(a: byte, b: byte, c: byte)
    ensures var i0, i1 := (a & 0xfc) >> 2, ((a & 0x03) << 4) + ((b & 0xf0) >> 4);
            var i2, i3 := ((b & 0x0f) << 2) + ((c & 0xc0) >> 6), c & 0x3f;
            && (i0 << 2) + ((i1 & 0x30) >> 4) == a
            && ((i1 & 0x0f) << 4) + ((i2 & 0x3c) >> 2) == b
            && ((i2 & 0x03) << 6) + i3 == c
  {
  }

  lemma {:induction false} SextetsBack(a: byte, b: byte, c: byte)
    ensures Triple(Sextets(a, b, c), 0) == [a, b, c]
  {
    BitsBack(a, b, c);
  }

  lemma {:induction false} SextetsBackTwo(a: byte, b: byte)
    ensures var i := Sextets(a, b, 0); Triple([i[0], i[1], i[2], 0], 1) == [a, b]
  {
    BitsBack(a, b, 0);
  }

  lemma {:induction false} SextetsBackOne(a: byte)
    ensures var i := Sextets(a, 0, 0); Triple([i[0], i[1], 0, 0], 2) == [a]
  {
    BitsBack(a, 0, 0);
  }

  lemma {:induction false} TripleBack(i: seq<byte>)
    requires |i| == 4 && i[0] < 64 && i[1] < 64 && i[2] < 64 && i[3] < 64
    ensures var t := Triple(i, 0); |t| == 3 && Sextets(t[0], t[1], t[2]) == i
  {
  }

  lemma {:induction false} TripleBackPadded(i: seq<byte>)
    requires |i| == 4 && i[0] < 64 && i[1] < 64 && i[2] < 64 && i[3] < 64
    ensures i[2] & 3 == 0 && i[3] == 0 ==> var t := Triple(i, 1); |t| == 2 && Sextets(t[0], t[1], 0) == i
    ensures i[1] & 15 == 0 && i[2] == 0 && i[3] == 0 ==> var t := Triple(i, 2); |t| == 1 && Sextets(t[0], 0, 0) == i
  {
  }

  // ---------- Runs of the decoder ----------

  lemma {:induction false} RunCons(c: byte, rest: seq<byte>, st: State, flags: Flags)
    requires st.Collecting? && |st.indexes| < 4
    ensures Run([c] + rest, st, flags) == Run(rest, Step(st, c, |rest| + 1, flags), flags)
  {
    assert ([c] + rest)[1..] == rest;
  }

  lemma {:induction false} RunQuad(i: seq<byte>, rest: seq<byte>, out: seq<byte>, flags: Flags)
    requires |i| == 4 && i[0] < 64 && i[1] < 64 && i[2] < 64 && i[3] < 64
    ensures Run(QuadOf(i) + rest, Collecting([], 0, out), flags)
         == Run(rest, Collecting([], 0, out + Triple(i, 0)), flags)
  {
    assert QuadOf(i) + rest == [Char(i[0])] + ([Char(i[1])] + ([Char(i[2])] + ([Char(i[3])] + rest)));
    RunTwo(i, [Char(i[2])] + ([Char(i[3])] + rest), out, flags);
    RunLastTwo(i, rest, out, flags);
  }

  lemma {:induction false} RunLastTwo(i: seq<byte>, rest: seq<byte>, out: seq<byte>, flags: Flags)
    requires |i| == 4 && i[2] < 64 && i[3] < 64
    ensures Run([Char(i[2])] + ([Char(i[3])] + rest), Collecting([i[0], i[1]], 0, out), flags)
         == Run(rest, Collecting([], 0, out + Triple(i, 0)), flags)
  {
    TablesInverse(i[2], 0);
    TablesInverse(i[3], 0);
    RunCons(Char(i[2]), [Char(i[3])] + rest, Collecting([i[0], i[1]], 0, out), flags);
    assert [i[0], i[1]] + [i[2]] == [i[0], i[1], i[2]];
    RunCons(Char(i[3]), rest, Collecting([i[0], i[1], i[2]], 0, out), flags);
    assert [i[0], i[1], i[2]] + [i[3]] == i;
  }

  lemma {:induction false} RunTwo(i: seq<byte>, rest: seq<byte>, out: seq<byte>, flags: Flags)
    requires |i| == 4 && i[0] < 64 && i[1] < 64
    ensures Run([Char(i[0])] + ([Char(i[1])] + rest), Collecting([], 0, out), flags)
         == Run(rest, Collecting([i[0], i[1]], 0, out), flags)
  {
    TablesInverse(i[0], 0);
    TablesInverse(i[1], 0);
    RunCons(Char(i[0]), [Char(i[1])] + rest, Collecting([], 0, out), flags);
    assert [] + [i[0]] == [i[0]];
    RunCons(Char(i[1]), rest, Collecting([i[0]], 0, out), flags);
    assert [i[0]] + [i[1]] == [i[0], i[1]];
  }

  lemma {:induction false} RunPaddedOne(i: seq<byte>, out: seq<byte>, flags: Flags)
    requires |i| == 4 && i[0] < 64 && i[1] < 64 && i[2] < 64
    ensures Run(QuadOf(i)[..3] + [PAD], Collecting([], 0, out), flags)
         == Complete(out + Triple([i[0], i[1], i[2], 0], 1))
  {
    assert QuadOf(i)[..3] + [PAD] == [Char(i[0])] + ([Char(i[1])] + ([Char(i[2])] + [PAD]));
    RunTwo(i, [Char(i[2])] + [PAD], out, flags);
    TablesInverse(i[2], 0);
    RunCons(Char(i[2]), [PAD], Collecting([i[0], i[1]], 0, out), flags);
    assert [i[0], i[1]] + [i[2]] == [i[0], i[1], i[2]];
    RunCons(PAD, [], Collecting([i[0], i[1], i[2]], 0, out), flags);
    assert [PAD] + [] == [PAD] && [i[0], i[1], i[2]] + [0] == [i[0], i[1], i[2], 0];
  }

  lemma {:induction false} RunPaddedTwo(i: seq<byte>, out: seq<byte>, flags: Flags)
    requires |i| == 4 && i[0] < 64 && i[1] < 64
    ensures Run(QuadOf(i)[..2] + [PAD, PAD], Collecting([], 0, out), flags)
         == Complete(out + Triple([i[0], i[1], 0, 0], 2))
  {
    assert QuadOf(i)[..2] + [PAD, PAD] == [Char(i[0])] + ([Char(i[1])] + ([PAD] + [PAD]));
    RunTwo(i, [PAD] + [PAD], out, flags);
    RunCons(PAD, [PAD], Collecting([i[0], i[1]], 0, out), flags);
    assert [i[0], i[1]] + [0] == [i[0], i[1], 0];
    RunCons(PAD, [], Collecting([i[0], i[1], 0], 1, out), flags);
    assert [PAD] + [] == [PAD] && [i[0], i[1], 0] + [0] == [i[0], i[1], 0, 0];
  }

  /** The decoder undoes the encoder on a text without line breaks, under all flags. */
  lemma {:induction false} TextDecodes(src: seq<byte>, out: seq<byte>, flags: Flags)
    ensures Run(Text(src), Collecting([], 0, out), flags)
         == if |src| % 3 == 0 then Collecting([], 0, out + src) else Complete(out + src)
  {
    if |src| >= 3 {
      var i := Sextets(src[0], src[1], src[2]);
      SextetsBack(src[0], src[1], src[2]);
      RunQuad(i, Text(src[3..]), out, flags);
      TextDecodes(src[3..], out + src[..3], flags);
      assert src[..3] == [src[0], src[1], src[2]] && out + src[..3] + src[3..] == out + src;
    } else if |src| > 0 {
      LastDecodes(src, out, flags);
    } else {
      assert out + src == out;
    }
  }

  lemma {:induction false} LastDecodes(src: seq<byte>, out: seq<byte>, flags: Flags)
    requires 0 < |src| < 3
    ensures Run(Text(src), Collecting([], 0, out), flags) == Complete(out + src)
  {
    if |src| == 2 {
      SextetsBackTwo(src[0], src[1]);
      RunPaddedOne(Sextets(src[0], src[1], 0), out, flags);
      assert src == [src[0], src[1]];
    } else {
      SextetsBackOne(src[0]);
      RunPaddedTwo(Sextets(src[0], 0, 0), out, flags);
      assert src == [src[0]];
    }
  }

  // ---------- Characters that do not count ----------

  function DataOnly(text: seq<byte>): seq<byte> {
    if text == [] then [] else (if IsData(text[0]) then [text[0]] else []) + DataOnly(text[1..])
  }

  /** Decoding is insensitive to every character that is not data, unless the flags stop at it. */
  lemma {:induction false} JunkIsIgnored(text: seq<byte>, st: State, flags: Flags)
    requires st.Collecting? ==> |st.indexes| < 4
    requires forall c :: c in text ==> !Stops(c, flags)
    ensures Run(text, st, flags) == Run(DataOnly(text), st, flags)
  {
    if text != [] && st.Collecting? {
      var c, rest := text[0], text[1..];
      JunkIsIgnored(rest, Step(st, c, |text|, flags), flags);
      if IsData(c) {
        RunCons(c, DataOnly(rest), st, flags);
        assert Step(st, c, |text|, flags) == Step(st, c, |DataOnly(rest)| + 1, flags);
      } else {
        assert [] + DataOnly(rest) == DataOnly(rest);
      }
    }
  }

  /** Which characters the flags stop at: blanks with B64_F_STOP_ON_UNEXPECTED_WS, others that are
      neither data nor line breaks with B64_F_STOP_ON_UNKNOWN_CHAR. */
  lemma {:induction false} StopsIff(c: byte, flags: Flags)
    ensures Stops(c, flags)
        <==> c as char !in ALPHABET && c as char != '=' && c as char != '\r' && c as char != '\n'
             && if c as char == ' ' || c as char == '\t' || c == 8 || c == 11 then flags & 0x0200 != 0
                else flags & 0x0100 != 0
  {
    DataIs(c);
  }

  /** The first character that the flags stop at, if no padding comes before it, is reported. */
  lemma {:induction false} FirstBadCharacter(good: seq<byte>, c: byte, rest: seq<byte>, st: State, flags: Flags)
    requires st.Collecting? && |st.indexes| < 4 && st.pads == 0 && Stops(c, flags)
    requires forall d :: d in good ==> d != PAD && !Stops(d, flags)
    ensures var final := Run(good + ([c] + rest), st, flags);
            final.Rejected? && final.left == |rest| + 1
  {
    if good == [] {
      assert good + ([c] + rest) == [c] + rest;
      RunCons(c, rest, st, flags);
    } else {
      assert good[0] in good && forall d :: d in good[1..] ==> d in good;
      var later := good[1..] + ([c] + rest);
      assert good + ([c] + rest) == [good[0]] + later;
      RunCons(good[0], later, st, flags);
      FirstBadCharacter(good[1..], c, rest, Step(st, good[0], |later| + 1, flags), flags);
    }
  }

  /** The bound on the decoded size: three bytes for every four characters, rounded up. */
  lemma {:induction false} MaxDecodedIs(srcLen: nat)
    ensures MaxDecoded(srcLen) == (srcLen + 3) / 4 * 3
  {
  }

  /** With B64_F_STOP_ON_NOTHING the decoder stops at no character at all. */
  lemma {:induction false} StopOnNothing(c: byte)
    ensures !Stops(c, 0)
  {
  }

  lemma {:induction false} TextIsData(src: seq<byte>)
    ensures forall c :: c in Text(src) ==> IsData(c)
  {
    if |src| >= 3 {
      QuadIsData(src[0], src[1], src[2]);
      TextIsData(src[3..]);
    } else if |src| == 2 {
      QuadIsData(src[0], src[1], 0);
    } else if |src| == 1 {
      QuadIsData(src[0], 0, 0);
    }
  }

  lemma {:induction false} QuadIsData(a: byte, b: byte, c: byte)
    ensures forall d :: d in Quad(a, b, c) ==> IsData(d)
  {
    var i := Sextets(a, b, c);
    TablesInverse(i[0], 0);
    TablesInverse(i[1], 0);
    TablesInverse(i[2], 0);
    TablesInverse(i[3], 0);
  }

  lemma {:induction false} DataOnlyJoin(a: seq<byte>, b: seq<byte>)
    ensures DataOnly(a + b) == DataOnly(a) + DataOnly(b)
  {
    if a == [] {
      assert a + b == b && [] + DataOnly(b) == DataOnly(b);
    } else {
      assert (a + b)[1..] == a[1..] + b;
      DataOnlyJoin(a[1..], b);
      var head := if IsData(a[0]) then [a[0]] else [];
      assert head + (DataOnly(a[1..]) + DataOnly(b)) == head + DataOnly(a[1..]) + DataOnly(b);
    }
  }

  lemma {:induction false} AllData(a: seq<byte>)
    requires forall c :: c in a ==> IsData(c)
    ensures DataOnly(a) == a
  {
    if a != [] {
      AllData(a[1..]);
      assert IsData(a[0]) && [a[0]] + a[1..] == a;
    }
  }

  lemma {:induction false} WrapIsTransparent(text: seq<byte>, n: nat)
    requires forall c :: c in text ==> IsData(c)
    ensures DataOnly(Wrap(text, n)) == text
    ensures forall c :: c in Wrap(text, n) ==> IsData(c) || c == CR || c == LF
    decreases |text|
  {
    if n == 0 || |text| <= n {
      AllData(text);
    } else {
      WrapIsTransparent(text[n..], n);
      LineIsTransparent(text[..n], Wrap(text[n..], n));
      assert text[..n] + text[n..] == text;
    }
  }

  lemma {:induction false} LineIsTransparent(line: seq<byte>, rest: seq<byte>)
    requires forall c :: c in line ==> IsData(c)
    ensures DataOnly(line + [CR, LF] + rest) == line + DataOnly(rest)
  {
    AllData(line);
    DataOnlyJoin(line, [CR, LF] + rest);
    DataOnlyJoin([CR, LF], rest);
    BreakIsJunk();
    assert line + [CR, LF] + rest == line + ([CR, LF] + rest);
    assert [] + DataOnly(rest) == DataOnly(rest);
  }

  lemma {:induction false} BreakIsJunk()
    ensures !IsData(CR) && !IsData(LF) && DataOnly([CR, LF]) == []
  {
    assert [CR, LF][1..] == [LF] && [LF][1..] == [];
    assert DataOnly([LF]) == [] + DataOnly([]) == [];
    assert DataOnly([CR, LF]) == [] + DataOnly([LF]);
  }

  lemma {:induction false} WrittenIsTransparent(src: seq<byte>, n: nat, destLen: nat)
    ensures DataOnly(Written(src, n, destLen)) == Text(src)
    ensures forall c :: c in Written(src, n, destLen) ==> IsData(c) || c == CR || c == LF
  {
    TextIsData(src);
    WrapIsTransparent(Text(src), n);
    var trailer := if TrailingBreak(src, n, destLen) then [CR, LF] else [];
    DataOnlyJoin(Wrap(Text(src), n), trailer);
    BreakIsJunk();
    assert Text(src) + [] == Text(src);
  }

  /** Decoding what the encoder writes returns the input, whatever the line length and the flags,
      and whether or not the buffer left room for a CRLF behind a full last line. */
  lemma {:induction false} Base64RoundTrip(src: seq<byte>, n: nat, destLen: nat, flags: Flags)
    ensures var final := Run(Written(src, n, destLen), START, flags);
            !final.Rejected? && final.out == src
  {
    WrittenIsTransparent(src, n, destLen);
    forall c | c in Written(src, n, destLen) ensures !Stops(c, flags) {}
    JunkIsIgnored(Written(src, n, destLen), START, flags);
    TextDecodes(src, [], flags);
    assert [] + src == src;
  }

  /** Encoding into one buffer and decoding as many characters as the encoder reports into another:
      the input is in the second buffer, and nothing behind it has been touched. */
  method EncodeAndDecode(src: seq<byte>, text: array<byte>, bytes: array<byte>, flags: Flags, lineLen: int)
    returns (size: nat)
    requires LineLength(flags, lineLen) % 4 == 0 && text != bytes
    requires var n := LineLength(flags, lineLen);
             && EncodedSize(|src|, n) == |Wrap(Text(src), n)| && Takes(src, n, text.Length)
             && MaxDecoded(EncodedSize(|src|, n)) <= bytes.Length
    modifies text, bytes
    ensures size == |src| <= bytes.Length && bytes[..size] == src && bytes[size..] == old(bytes[size..])
  {
    ghost var n := LineLength(flags, lineLen);
    var total, rc, overrun := AppB64Encode2(src, text, flags, lineLen);
    TakenText(src, n, text[..], total);
    Base64RoundTrip(src, n, total, flags);
    var badChar;
    size, badChar, rc := B64Decode(text[..total], bytes, flags);
  }

  lemma {:induction false} TakenText(src: seq<byte>, n: nat, text: seq<byte>, total: nat)
    requires Takes(src, n, |text|) && text[..|Written(src, n, |text|)|] == Written(src, n, |text|)
    requires total == |Wrap(Text(src), n)|
    ensures total <= |text| && text[..total] == Wrap(Text(src), n) == Written(src, n, total)
  {
    var written := Written(src, n, |text|);
    assert written[..total] == Wrap(Text(src), n) && text[..total] == text[..|written|][..total];
    assert Wrap(Text(src), n) + [] == Wrap(Text(src), n);
  }

  // ---------- The layout of lines ----------

  lemma {:induction false} FirstLine(text: seq<byte>, n: nat, col: nat)
    requires n > 0 && col < n + 2 && col < |Wrap(text, n)|
    ensures if col < n then col < |text| && Wrap(text, n)[col] == text[col]
            else n < |text| && Wrap(text, n)[col] == if col == n then CR else LF
  {
  }

  lemma {:induction false} LaterLine(text: seq<byte>, n: nat, i: nat)
    requires n > 0 && n + 2 <= i < |Wrap(text, n)|
    ensures |text| > n && i - (n + 2) < |Wrap(text[n..], n)|
    ensures Wrap(text, n)[i] == Wrap(text[n..], n)[i - (n + 2)]
  {
  }

  lemma {:induction false} OneLineLess(line: nat, n: nat)
    requires line > 0
    ensures line * n == (line - 1) * n + n && (line - 1) * n >= 0
  {
    MulMono(0, line - 1, n);
  }

  /** Column `col` of line `line`: every line but the last has exactly `n` characters and a CRLF,
      and what follows a CRLF is not empty. */
  lemma {:induction false} WrapLayout(text: seq<byte>, n: nat, line: nat, col: nat, i: nat)
    requires n > 0 && col < n + 2 && i == line * (n + 2) + col < |Wrap(text, n)|
    ensures var j := line * n + col;
            if col < n then j < |text| && Wrap(text, n)[i] == text[j]
            else line * n + n < |text| && Wrap(text, n)[i] == if col == n then CR else LF
    decreases line
  {
    if line == 0 {
      FirstLine(text, n, col);
    } else {
      OneLineLess(line, n);
      OneLineLess(line, n + 2);
      LaterLine(text, n, i);
      WrapLayout(text[n..], n, line - 1, col, i - (n + 2));
    }
  }

  // ---------- Canonical texts ----------

  /** Whole quanta of alphabet characters; the last one may be padded, with zero spare bits
      (section 3.5 of RFC 4648). */
  predicate Canonical(t: seq<byte>) {
    if t == [] then true
    else if |t| < 4 || !InAlphabet(t[0]) || !InAlphabet(t[1]) then false
    else if InAlphabet(t[2]) && InAlphabet(t[3]) then Canonical(t[4..])
    else if |t| > 4 || t[3] != PAD then false
    else if t[2] == PAD then Index(t[1]) & 15 == 0
    else InAlphabet(t[2]) && Index(t[2]) & 3 == 0
  }

  lemma {:induction false} CanonicalQuantum(q: seq<byte>, rest: seq<byte>)
    requires |q| == 4 && InAlphabet(q[0]) && InAlphabet(q[1]) && InAlphabet(q[2]) && InAlphabet(q[3])
    ensures Canonical(q + rest) <==> Canonical(rest)
  {
    assert (q + rest)[4..] == rest && (q + rest)[0] == q[0] && (q + rest)[1] == q[1];
    assert (q + rest)[2] == q[2] && (q + rest)[3] == q[3];
  }

  lemma {:induction false} EncodedIsCanonical(src: seq<byte>)
    ensures Canonical(Text(src))
  {
    if |src| >= 3 {
      var q := Quad(src[0], src[1], src[2]);
      QuadInAlphabet(src[0], src[1], src[2]);
      EncodedIsCanonical(src[3..]);
      CanonicalQuantum(q, Text(src[3..]));
    } else if |src| > 0 {
      LastIsCanonical(src);
    }
  }

  lemma {:induction false} LastIsCanonical(src: seq<byte>)
    requires 0 < |src| < 3
    ensures Canonical(Text(src))
  {
    if |src| == 2 {
      QuadInAlphabet(src[0], src[1], 0);
      SpareBits(src[0], src[1]);
    } else {
      QuadInAlphabet(src[0], 0, 0);
      SpareBits(src[0], 0);
    }
  }

  lemma {:induction false} QuadInAlphabet(a: byte, b: byte, c: byte)
    ensures var q, i := Quad(a, b, c), Sextets(a, b, c);
            && InAlphabet(q[0]) && InAlphabet(q[1]) && InAlphabet(q[2]) && InAlphabet(q[3])
            && Index(q[0]) == i[0] && Index(q[1]) == i[1] && Index(q[2]) == i[2] && Index(q[3]) == i[3]
    ensures Index(PAD) == NONE
  {
    var i := Sextets(a, b, c);
    TablesInverse(i[0], 0);
    TablesInverse(i[1], 0);
    TablesInverse(i[2], 0);
    TablesInverse(i[3], 0);
  }

  lemma {:induction false} SpareBits(a: byte, b: byte)
    ensures Sextets(a, b, 0)[2] & 3 == 0 && Sextets(a, 0, 0)[1] & 15 == 0
  {
  }

  /** The bytes that a canonical text stands for. */
  function Bytes(t: seq<byte>): seq<byte>
    requires Canonical(t)
  {
    if t == [] then []
    else if InAlphabet(t[2]) && InAlphabet(t[3]) then
      Triple([Index(t[0]), Index(t[1]), Index(t[2]), Index(t[3])], 0) + Bytes(t[4..])
    else if t[2] == PAD then Triple([Index(t[0]), Index(t[1]), 0, 0], 2)
    else Triple([Index(t[0]), Index(t[1]), Index(t[2]), 0], 1)
  }

  /** A canonical text is what its bytes encode to. */
  lemma {:induction false} CanonicalIsEncoded(t: seq<byte>)
    requires Canonical(t)
    ensures Text(Bytes(t)) == t
  {
    if t == [] {
    } else if InAlphabet(t[2]) && InAlphabet(t[3]) {
      var i := [Index(t[0]), Index(t[1]), Index(t[2]), Index(t[3])];
      IndexesBack(t[..4]);
      CanonicalIsEncoded(t[4..]);
      FullQuantum(i, Bytes(t[4..]));
      assert t == t[..4] + t[4..];
    } else {
      PaddedIsEncoded(t);
    }
  }

  lemma {:induction false} IndexesBack(q: seq<byte>)
    requires |q| == 4 && InAlphabet(q[0]) && InAlphabet(q[1]) && InAlphabet(q[2]) && InAlphabet(q[3])
    ensures var i := [Index(q[0]), Index(q[1]), Index(q[2]), Index(q[3])];
            i[0] < 64 && i[1] < 64 && i[2] < 64 && i[3] < 64 && QuadOf(i) == q
  {
    TablesInverse(0, q[0]);
    TablesInverse(0, q[1]);
    TablesInverse(0, q[2]);
    TablesInverse(0, q[3]);
  }

  lemma {:induction false} PaddedIsEncoded(t: seq<byte>)
    requires t != [] && Canonical(t) && !(InAlphabet(t[2]) && InAlphabet(t[3]))
    ensures Text(Bytes(t)) == t
  {
    TablesInverse(0, t[0]);
    TablesInverse(0, t[1]);
    TablesInverse(0, t[2]);
    if t[2] == PAD {
      TripleBackPadded([Index(t[0]), Index(t[1]), 0, 0]);
    } else {
      TripleBackPadded([Index(t[0]), Index(t[1]), Index(t[2]), 0]);
    }
  }

  lemma {:induction false} FullQuantum(i: seq<byte>, rest: seq<byte>)
    requires |i| == 4 && i[0] < 64 && i[1] < 64 && i[2] < 64 && i[3] < 64
    ensures Text(Triple(i, 0) + rest) == QuadOf(i) + Text(rest)
  {
    TripleBack(i);
    var t := Triple(i, 0);
    assert (t + rest)[3..] == rest && (t + rest)[0] == t[0] && (t + rest)[1] == t[1] && (t + rest)[2] == t[2];
  }

  /** A text re-encodes to itself from its decoded bytes if and only if it is canonical. */
  lemma {:induction false} CanonicalIffReencodes(t: seq<byte>, flags: Flags)
    ensures Canonical(t) <==> Text(Run(t, START, flags).out) == t
  {
    if Canonical(t) {
      CanonicalIsEncoded(t);
      TextDecodes(Bytes(t), [], flags);
      assert [] + Bytes(t) == Bytes(t);
    }
    if Text(Run(t, START, flags).out) == t {
      EncodedIsCanonical(Run(t, START, flags).out);
    }
  }
}
