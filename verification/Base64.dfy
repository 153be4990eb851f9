/** The Base64 encoder and decoder of b64.c (section 4 of RFC 4648, section 6.8 of RFC 2045). */
module Base64 {

  type byte = bv8

  const PAD: byte := 61     // '='
  const CR: byte := 13
  const LF: byte := 10
  const NONE: byte := 0xff  // -1 in a signed char

  /** size_t of the 32-bit target. */
  const SIZE_T: nat := 0x1_0000_0000

  // ---------- The tables ----------

  /** b64_chars: A-Z, a-z, 0-9, + and /. */
  function Char(i: byte): byte {
    if i < 26 then i + 65
    else if i < 52 then i + 71
    else if i < 62 then i - 4
    else if i == 62 then 43
    else 47
  }

  /** b64_indexes. */
  function Index(c: byte): byte {
    if 65 <= c <= 90 then c - 65
    else if 97 <= c <= 122 then c - 71
    else if 48 <= c <= 57 then c + 4
    else if c == 43 then 62
    else if c == 47 then 63
    else NONE
  }

  predicate InAlphabet(c: byte) { Index(c) != NONE }

  // ---------- What the encoder should write ----------

  /** The four characters of three bytes. */
  function Quad(a: byte, b: byte, c: byte): (q: seq<byte>)
    ensures |q| == 4
  {
    [ Char((a & 0xfc) >> 2),
      Char(((a & 0x03) << 4) + ((b & 0xf0) >> 4)),
      Char(((b & 0x0f) << 2) + ((c & 0xc0) >> 6)),
      Char(c & 0x3f) ]
  }

  function Text(src: seq<byte>): seq<byte> {
    if |src| >= 3 then Quad(src[0], src[1], src[2]) + Text(src[3..])
    else if |src| == 2 then Quad(src[0], src[1], 0)[..3] + [PAD]
    else if |src| == 1 then Quad(src[0], 0, 0)[..2] + [PAD, PAD]
    else []
  }

  /** Lines of `n` characters with CRLF between them; zero means one line. */
  function Wrap(text: seq<byte>, n: nat): seq<byte> {
    if n == 0 || |text| <= n then text else text[..n] + [CR, LF] + Wrap(text[n..], n)
  }

  function TextSize(size: nat): nat { (size + 2) / 3 * 4 }

  /** The size the encoder computes, each step in the arithmetic of size_t. */
  function EncodedSize(size: nat, lineLen: nat): (total: nat)
    ensures total < SIZE_T
  {
    var total := (size + 2) % SIZE_T / 3 * 4 % SIZE_T;
    if lineLen == 0 then total
    else
      var numLines := (total + (lineLen - 1)) % SIZE_T / lineLen;
      (total + 2 * (numLines - 1)) % SIZE_T
  }

  lemma {:induction false} TextLength(src: seq<byte>)
    ensures |Text(src)| == TextSize(|src|)
  {
    if |src| >= 3 {
      TextLength(src[3..]);
    }
  }

  lemma {:induction false} MulMono(a: int, b: int, n: nat)
    requires a <= b
    ensures a * n <= b * n
  {
  }

  lemma {:induction false} DivUnique(a: int, n: int, q: int)
    requires n > 0 && q * n <= a < q * n + n
    ensures a / n == q
  {
    var d := a / n;
    assert a == d * n + a % n && (d + 1) * n == d * n + n && (q + 1) * n == q * n + n;
    if d < q {
      MulMono(d + 1, q, n);
    }
    if d > q {
      MulMono(q + 1, d, n);
    }
  }

  lemma {:induction false} DivStep(x: int, n: int)
    requires n > 0
    ensures (x + n) / n == x / n + 1
  {
    var q := x / n;
    assert x == q * n + x % n;
    assert (q + 1) * n == q * n + n;
    DivUnique(x + n, n, q + 1);
  }

  lemma {:induction false} WrapLength(text: seq<byte>, n: nat)
    requires n > 0 && text != []
    ensures |Wrap(text, n)| == |text| + 2 * ((|text| + (n - 1)) / n - 1)
    decreases |text|
  {
    var x := |text| - 1;
    assert |text| + (n - 1) == x + n;
    DivStep(x, n);
    if |text| <= n {
      DivUnique(x, n, 0);
    } else {
      WrapLength(text[n..], n);
      assert |text| - n + (n - 1) == x;
      DivStep(x - n, n);
    }
  }

  // ---------- The encoder ----------

  datatype ReturnCode = OK | INSUFFICIENT_BUFFER | DATA_ERROR

  /** The encoder writes CRLF behind every full line unless the buffer ends there. What is still
      written of `src` when `len` characters are on the line and `room` fit into the buffer. */
  function Emit(src: seq<byte>, len: nat, n: nat, room: int): seq<byte> {
    if |src| < 3 then Text(src)
    else
      Quad(src[0], src[1], src[2]) +
      if len + 4 == n && room != 4 then [CR, LF] + Emit(src[3..], 0, n, room - 6)
      else Emit(src[3..], len + 4, n, room - 4)
  }

  /** The last three bytes end a line. */
  predicate LastLineFull(src: seq<byte>, len: nat, n: nat) {
    if |src| < 3 then false
    else if |src| == 3 then len + 4 == n
    else LastLineFull(src[3..], if len + 4 == n then 0 else len + 4, n)
  }

  /** `Wrap` when `len` characters are already on the first line. */
  function WrapFrom(text: seq<byte>, len: nat, n: nat): seq<byte>
    requires n == 0 || len <= n
  {
    if n == 0 || len + |text| <= n then text else text[..n - len] + [CR, LF] + Wrap(text[n - len..], n)
  }

  predicate OnLine(len: nat, n: nat) {
    n == 0 || (len < n && len % 4 == 0 && n % 4 == 0)
  }

  /** The same, quantum by quantum and with no regard to the buffer. */
  function Lines(src: seq<byte>, len: nat, n: nat): seq<byte> {
    if |src| < 3 then Text(src)
    else
      Quad(src[0], src[1], src[2]) +
      if len + 4 == n && |src| > 3 then [CR, LF] + Lines(src[3..], 0, n) else Lines(src[3..], len + 4, n)
  }

  function Trailer(src: seq<byte>, len: nat, n: nat, extra: int): seq<byte> {
    if LastLineFull(src, len, n) && extra > 0 then [CR, LF] else []
  }

  lemma {:induction false} EmitStep(src: seq<byte>, len: nat, n: nat, room: int, written: seq<byte>)
    requires |src| >= 3
    ensures var q := Quad(src[0], src[1], src[2]);
            written + Emit(src, len, n, room) ==
            if len + 4 == n && room != 4 then written + q + [CR, LF] + Emit(src[3..], 0, n, room - 6)
            else written + q + Emit(src[3..], len + 4, n, room - 4)
  {
  }

  /** Up to a CRLF at the end, the output is the lines. */
  ghost predicate EmitsLines(src: seq<byte>, len: nat, n: nat, room: int) {
    Emit(src, len, n, room) == Lines(src, len, n) + Trailer(src, len, n, room - |Lines(src, len, n)|)
  }

  lemma {:induction false} EmitIsLines(src: seq<byte>, len: nat, n: nat, room: int)
    requires room >= |Lines(src, len, n)|
    ensures EmitsLines(src, len, n, room)
  {
    if |src| > 3 {
      MoreLines(src, len, n);
      if len + 4 == n {
        EmitIsLines(src[3..], 0, n, room - 6);
        LineEnds(src, len, n, room);
      } else {
        EmitIsLines(src[3..], len + 4, n, room - 4);
        LineGoesOn(src, len, n, room);
      }
    } else {
      LastEmitted(src, len, n, room);
    }
  }

  lemma {:induction false} MoreLines(src: seq<byte>, len: nat, n: nat)
    requires |src| > 3
    ensures |Lines(src, len, n)|
         == if len + 4 == n then 6 + |Lines(src[3..], 0, n)| else 4 + |Lines(src[3..], len + 4, n)|
    ensures |Lines(src[3..], 0, n)| > 0
  {
    NotYetFull(src[3..], 0, n);
  }

  lemma {:induction false} LastEmitted(src: seq<byte>, len: nat, n: nat, room: int)
    requires |src| <= 3 && room >= |Lines(src, len, n)|
    ensures EmitsLines(src, len, n, room)
  {
    if |src| == 3 {
      assert Text(src[3..]) == [];
    }
  }

  lemma {:induction false} LineEnds(src: seq<byte>, len: nat, n: nat, room: int)
    requires |src| > 3 && len + 4 == n && room > 4 && EmitsLines(src[3..], 0, n, room - 6)
    ensures EmitsLines(src, len, n, room)
  {
    var l := Lines(src[3..], 0, n);
    Regroup(Quad(src[0], src[1], src[2]), [CR, LF], l, Trailer(src[3..], 0, n, room - 6 - |l|));
  }

  lemma {:induction false} LineGoesOn(src: seq<byte>, len: nat, n: nat, room: int)
    requires |src| > 3 && len + 4 != n && EmitsLines(src[3..], len + 4, n, room - 4)
    ensures EmitsLines(src, len, n, room)
  {
    var l := Lines(src[3..], len + 4, n);
    Regroup(Quad(src[0], src[1], src[2]), [], l, Trailer(src[3..], len + 4, n, room - 4 - |l|));
  }

  lemma {:induction false} Regroup(q: seq<byte>, b: seq<byte>, l: seq<byte>, t: seq<byte>)
    ensures q + (b + (l + t)) == q + (b + l) + t
    ensures b == [] ==> q + (l + t) == q + l + t
  {
  }

  lemma {:induction false} NotYetFull(src: seq<byte>, len: nat, n: nat)
    requires src != []
    ensures Lines(src, len, n) != []
  {
  }

  lemma {:induction false} LinesAreWrapped(src: seq<byte>, len: nat, n: nat)
    requires OnLine(len, n)
    ensures Lines(src, len, n) == WrapFrom(Text(src), len, n)
  {
    if |src| < 3 {
      TextLength(src);
    } else if n == 0 || len + 4 < n {
      LinesAreWrapped(src[3..], len + 4, n);
      WrapQuad(Quad(src[0], src[1], src[2]), Text(src[3..]), len, n);
    } else if |src| == 3 {
      WrapLastQuad(Quad(src[0], src[1], src[2]), [], len, n);
      assert Text(src[3..]) == [];
    } else {
      LinesAreWrapped(src[3..], 0, n);
      TextLength(src[3..]);
      WrapLastQuad(Quad(src[0], src[1], src[2]), Text(src[3..]), len, n);
    }
  }

  lemma {:induction false} WrapQuad(q: seq<byte>, t: seq<byte>, len: nat, n: nat)
    requires |q| == 4 && (n == 0 || len + 4 < n)
    ensures WrapFrom(q + t, len, n) == q + WrapFrom(t, len + 4, n)
  {
    if n > 0 && len + 4 + |t| > n {
      LineFrom(q, t, n - len - 4);
      var line, later := t[..n - len - 4], Wrap(t[n - len - 4..], n);
      assert q + line + [CR, LF] + later == q + (line + [CR, LF] + later);
    }
  }

  lemma {:induction false} LineFrom(q: seq<byte>, t: seq<byte>, k: nat)
    requires k <= |t|
    ensures (q + t)[..|q| + k] == q + t[..k] && (q + t)[|q| + k..] == t[k..]
  {
  }

  lemma {:induction false} WrapLastQuad(q: seq<byte>, t: seq<byte>, len: nat, n: nat)
    requires |q| == 4 && len + 4 == n
    ensures WrapFrom(q + t, len, n) == q + if t == [] then [] else [CR, LF] + WrapFrom(t, 0, n)
  {
    assert (q + t)[..4] == q && (q + t)[4..] == t;
  }

  /** The write pointer `p` into the destination. Nothing behind `high` has been touched. */
  class Cursor {
    const dest: array<byte>
    ghost const before: seq<byte>
    var p: nat
    ghost var high: nat

    ghost predicate Valid()
      reads this, dest
    {
      p <= high <= dest.Length == |before| && dest[high..] == before[high..]
    }

    ghost function Written(): seq<byte>
      requires p <= dest.Length
      reads this, dest
    {
      dest[..p]
    }

    constructor (dest: array<byte>)
      ensures Valid() && this.dest == dest && before == dest[..] && p == high == 0
    {
      this.dest := dest;
      before := dest[..];
      p, high := 0, 0;
    }

    method Put(c: byte)
      requires Valid() && p < dest.Length
      modifies this, dest
      ensures Valid() && p == old(p) + 1 && high == (if old(high) < p then p else old(high))
      ensures Written() == old(Written()) + [c]
      ensures dest[p..] == old(dest[p + 1..])
    {
      dest[p] := c;
      p := p + 1;
      high := if high < p then p else high;
    }

    method PutQuad(q: seq<byte>)
      requires Valid() && p == high && p + 4 <= dest.Length && |q| == 4
      modifies this, dest
      ensures Valid() && p == high == old(p) + 4
      ensures Written() == old(Written()) + q
    {
      Put(q[0]);
      Put(q[1]);
      Put(q[2]);
      Put(q[3]);
    }

    method PutBreak()
      requires Valid() && p == high && p + 2 <= dest.Length
      modifies this, dest
      ensures Valid() && p == high == old(p) + 2
      ensures Written() == old(Written()) + [CR, LF]
    {
      Put(CR);
      Put(LF);
    }

    /** The last one or two bytes, as a quantum whose surplus characters are overwritten. */
    method PutTail(src: seq<byte>)
      requires Valid() && p == high && p + 4 <= dest.Length && 0 < |src| < 3
      modifies this, dest
      ensures Valid() && p == high == old(p) + 4
      ensures Written() == old(Written()) + Text(src)
    {
      var dummy := src + seq(3 - |src|, _ => 0);
      ghost var q := Quad(dummy[0], dummy[1], dummy[2]);
      PutQuad(Quad(dummy[0], dummy[1], dummy[2]));
      p := p - (3 - |src|);
      assert Written() == old(Written()) + q[..1 + |src|];
      var size := |src|;
      while size < 3
        invariant Valid() && |src| <= size <= 3 && p == old(p) + 1 + size && high == old(p) + 4
        invariant Written() == old(Written()) + (q[..1 + |src|] + seq(size - |src|, _ => PAD))
      {
        Put(PAD);
        size := size + 1;
      }
    }
  }

  /** What has been written and what is still to come make up the whole output. */
  ghost predicate Encoding(out: Cursor, final: seq<byte>, src: seq<byte>, len: nat, n: nat)
    reads out, out.dest
  {
    && out.Valid() && out.p == out.high && len % 4 == 0
    && final == out.Written() + Emit(src, len, n, out.dest.Length - out.p)
  }

  /** One round of the encoder. Overrun stands for a write behind the buffer. */
  method EncodeQuantum(out: Cursor, src: seq<byte>, len0: nat, lineLen: nat, ghost final: seq<byte>)
    returns (len: nat, overrun: bool)
    requires Encoding(out, final, src, len0, lineLen) && |src| >= 3 && lineLen % 4 == 0
    modifies out, out.dest
    ensures overrun ==> |final| > out.dest.Length
    ensures !overrun ==> Encoding(out, final, src[3..], len, lineLen)
  {
    len := len0;
    overrun := out.p + 4 > out.dest.Length;
    if overrun {
      return;
    }
    EmitStep(src, len, lineLen, out.dest.Length - out.p, out.Written());
    out.PutQuad(Quad(src[0], src[1], src[2]));
    assert len + 1 != lineLen && len + 2 != lineLen && len + 3 != lineLen;
    len := len + 4;
    if len == lineLen && out.p != out.dest.Length {
      overrun := out.p + 2 > out.dest.Length;
      if overrun {
        return;
      }
      out.PutBreak();
      len := 0;
    }
  }

  /** The encoder proper writes what it should and touches nothing behind it, unless it overruns. */
  method EncodeInto(src: seq<byte>, dest: array<byte>, lineLen: nat) returns (overrun: bool)
    requires lineLen % 4 == 0
    modifies dest
    ensures var final := Emit(src, 0, lineLen, dest.Length);
            && overrun == (|final| > dest.Length)
            && (!overrun ==> dest[..|final|] == final && dest[|final|..] == old(dest[|final|..]))
  {
    ghost var final := Emit(src, 0, lineLen, dest.Length);
    var out := new Cursor(dest);
    var len: nat, s := 0, src;
    while 3 <= |s|
      invariant out.dest == dest && out.before == old(dest[..]) && fresh(out)
      invariant Encoding(out, final, s, len, lineLen)
      decreases |s|
    {
      len, overrun := EncodeQuantum(out, s, len, lineLen, final);
      if overrun {
        return;
      }
      s := s[3..];
    }
    if |s| != 0 {
      overrun := out.p + 4 > dest.Length;
      if overrun {
        return;
      }
      out.PutTail(s);
    }
    overrun := false;
  }

  /** Whether a CRLF follows the last line, because it is full and the buffer goes on. */
  predicate TrailingBreak(src: seq<byte>, lineLen: nat, destLen: nat) {
    LastLineFull(src, 0, lineLen) && destLen > |Wrap(Text(src), lineLen)|
  }

  lemma {:induction false} EmittedText(src: seq<byte>, n: nat, destLen: nat)
    requires n % 4 == 0 && destLen >= |Wrap(Text(src), n)|
    ensures Emit(src, 0, n, destLen)
         == Wrap(Text(src), n) + if TrailingBreak(src, n, destLen) then [CR, LF] else []
  {
    LinesAreWrapped(src, 0, n);
    EmitIsLines(src, 0, n, destLen);
  }

  /** A text that is too long for the buffer is not cut short. */
  lemma {:induction false} TooLong(src: seq<byte>, len: nat, n: nat, room: int)
    requires |Emit(src, len, n, room)| <= room
    ensures |Lines(src, len, n)| <= room
  {
    if |src| > 3 {
      if len + 4 == n && room != 4 {
        TooLong(src[3..], 0, n, room - 6);
      } else {
        assert |Emit(src[3..], len + 4, n, room - 4)| > 0;
        TooLong(src[3..], len + 4, n, room - 4);
      }
    }
  }

  lemma {:induction false} ModStep(x: nat, n: nat)
    requires n > 0
    ensures (x + n) % n == x % n
  {
    DivStep(x, n);
    assert x == x / n * n + x % n && x + n == (x + n) / n * n + (x + n) % n;
    assert (x / n + 1) * n == x / n * n + n;
  }

  lemma {:induction false} LineFits(len: nat, n: nat)
    requires len < n && len % 4 == n % 4 == 0
    ensures len + 4 <= n && (len + 4) % 4 == 0
  {
  }

  lemma {:induction false} LineEnd(len: nat, n: nat)
    requires len + 4 <= n
    ensures (len + 4) % n == 0 <==> len + 4 == n
  {
    if len + 4 == n {
      ModStep(0, n);
    } else {
      DivUnique(len + 4, n, 0);
      assert len + 4 == (len + 4) / n * n + (len + 4) % n;
    }
  }

  /** Whole quanta, and enough of them to end a line. */
  predicate EndsLine(size: nat, len: nat, n: nat)
    requires n > 0
  {
    size > 0 && size % 3 == 0 && (len + size / 3 * 4) % n == 0
  }

  /** One quantum further, and possibly one line. */
  lemma {:induction false} QuantumFurther(size: nat, len: nat, n: nat)
    requires size > 3 && n > 0
    ensures EndsLine(size, len, n) <==> EndsLine(size - 3, if len + 4 == n then 0 else len + 4, n)
  {
    var x := (size - 3) / 3 * 4;
    assert size / 3 * 4 == x + 4 && size % 3 == (size - 3) % 3;
    if len + 4 == n {
      ModStep(x, n);
    }
  }

  lemma {:induction false} FewBytes(src: seq<byte>, len: nat, n: nat)
    requires |src| <= 3 && n > 0 && len + 4 <= n
    ensures LastLineFull(src, len, n) <==> EndsLine(|src|, len, n)
  {
    LineEnd(len, n);
  }

  /** Whether the last line is full can be told from the sizes alone. */
  lemma {:induction false} LastLineFullIff(src: seq<byte>, len: nat, n: nat)
    requires n > 0 && len < n && len % 4 == n % 4 == 0
    ensures LastLineFull(src, len, n) <==> EndsLine(|src|, len, n)
  {
    LineFits(len, n);
    if |src| <= 3 {
      FewBytes(src, len, n);
    } else {
      QuantumFurther(|src|, len, n);
      LastLineFullIff(src[3..], if len + 4 == n then 0 else len + 4, n);
    }
  }

  lemma {:induction false} OneLine(src: seq<byte>, len: nat)
    ensures !LastLineFull(src, len, 0)
  {
    if |src| > 3 {
      OneLine(src[3..], len + 4);
    }
  }

  /** A CRLF at the end, in terms of the sizes alone. */
  lemma {:induction false} TrailingBreakIff(src: seq<byte>, n: nat, destLen: nat)
    requires n % 4 == 0
    ensures TrailingBreak(src, n, destLen)
        <==> destLen > |Wrap(Text(src), n)| && n > 0 && EndsLine(|src|, 0, n)
  {
    if n == 0 {
      OneLine(src, 0);
    } else {
      LastLineFullIff(src, 0, n);
    }
  }

  /** The encoder writes past the buffer if the text does not fit, and if the buffer ends between
      the CR and the LF behind a full last line. */
  lemma {:induction false} OverrunIff(src: seq<byte>, n: nat, destLen: nat)
    requires n % 4 == 0
    ensures |Emit(src, 0, n, destLen)| > destLen
        <==> destLen < |Wrap(Text(src), n)|
             || (destLen == |Wrap(Text(src), n)| + 1 && n > 0 && EndsLine(|src|, 0, n))
  {
    TrailingBreakIff(src, n, destLen);
    LinesAreWrapped(src, 0, n);
    if destLen >= |Wrap(Text(src), n)| {
      EmittedText(src, n, destLen);
    } else if |Emit(src, 0, n, destLen)| <= destLen {
      TooLong(src, 0, n, destLen);
    }
  }

  /** Three bytes in lines of four characters need four characters, and overrun a buffer of five. */
  lemma {:induction false} OverrunOfFive(a: byte, b: byte, c: byte)
    ensures EncodedSize(3, 4) == 4 && |Emit([a, b, c], 0, 4, 5)| == 6
  {
    assert Emit([a, b, c], 0, 4, 5) == Quad(a, b, c) + ([CR, LF] + Emit([], 0, 4, -1));
  }

  lemma {:induction false} DivMono(a: int, b: int, n: nat)
    requires n > 0 && a <= b
    ensures a / n <= b / n
  {
    var qa, qb := a / n, b / n;
    assert a == qa * n + a % n && b == qb * n + b % n && (qb + 1) * n == qb * n + n;
    if qa > qb {
      MulMono(qb + 1, qa, n);
    }
  }

  lemma {:induction false} SmallSize(x: int)
    requires 0 <= x < SIZE_T
    ensures x % SIZE_T == x
  {
  }

  /** Subtracting SIZE_T from a sum loses at least one line. */
  lemma {:induction false} NumLinesIff(sum: nat, n: nat)
    requires 0 < n < SIZE_T && n <= sum < 2 * SIZE_T
    ensures 0 <= sum % SIZE_T / n <= sum / n
    ensures sum % SIZE_T / n == sum / n <==> sum < SIZE_T
  {
    if sum < SIZE_T {
      SmallSize(sum);
      DivMono(0, sum, n);
    } else {
      var wrapped := sum - SIZE_T;
      SmallSize(wrapped);
      assert sum % SIZE_T == wrapped;
      DivStep(wrapped, n);
      DivMono(wrapped + n, sum, n);
      DivMono(0, wrapped, n);
    }
  }

  lemma {:induction false} TotalIff(t: nat, numLines: nat, exact: nat)
    requires 4 <= t && numLines <= exact && 0 < exact && t + 2 * (exact - 1) < SIZE_T
    ensures (t + 2 * (numLines - 1)) % SIZE_T == t + 2 * (exact - 1) <==> numLines == exact
  {
    SmallSize(t + 2 * (numLines - 1));
  }

  lemma {:induction false} TextSizeIff(size: nat)
    requires size < SIZE_T && TextSize(size) < SIZE_T
    ensures (size + 2) % SIZE_T / 3 * 4 % SIZE_T == TextSize(size)
  {
    SmallSize(size + 2);
    SmallSize(TextSize(size));
  }

  lemma {:induction false} SizeInLinesIff(size: nat, n: nat)
    requires 0 < size < SIZE_T && 0 < n < SIZE_T
    ensures var lines := TextSize(size) + 2 * ((TextSize(size) + (n - 1)) / n - 1);
            && lines >= TextSize(size)
            && (EncodedSize(size, n) == lines <==> lines < SIZE_T && TextSize(size) + (n - 1) < SIZE_T)
  {
    var t := TextSize(size);
    var sum := t + (n - 1);
    TextSizeBound(size);
    DivStep(t - 1, n);
    DivMono(0, t - 1, n);
    var exact := sum / n;
    if t + 2 * (exact - 1) < SIZE_T {
      SizeInLines(size, n);
      NumLinesIff(sum, n);
      TotalIff(t, sum % SIZE_T / n, exact);
    }
  }

  lemma {:induction false} SizeInLines(size: nat, n: nat)
    requires 0 < n && size < SIZE_T && TextSize(size) < SIZE_T
    ensures EncodedSize(size, n) == (TextSize(size) + 2 * ((TextSize(size) + (n - 1)) % SIZE_T / n - 1)) % SIZE_T
  {
    TextSizeIff(size);
  }

  lemma {:induction false} TextSizeBound(size: nat)
    requires size > 0
    ensures TextSize(size) >= 4
  {
  }

  /** The computed size is exact precisely if it and the rounded-up text size can be represented,
      and the text is not empty when there are lines. */
  lemma {:induction false} EncodedSizeIff(src: seq<byte>, lineLen: nat)
    requires |src| < SIZE_T && lineLen < SIZE_T
    ensures EncodedSize(|src|, lineLen) == |Wrap(Text(src), lineLen)|
        <==> |Wrap(Text(src), lineLen)| < SIZE_T
             && (lineLen > 0 ==> src != [] && |Text(src)| + (lineLen - 1) < SIZE_T)
  {
    TextLength(src);
    if lineLen == 0 {
      if TextSize(|src|) < SIZE_T {
        TextSizeIff(|src|);
      }
    } else if src == [] {
      EmptyInLines(lineLen);
    } else {
      WrapLength(Text(src), lineLen);
      SizeInLinesIff(|src|, lineLen);
    }
  }

  /** For an empty text in lines the size wraps around. */
  lemma {:induction false} EmptyInLines(lineLen: nat)
    requires 0 < lineLen < SIZE_T
    ensures EncodedSize(0, lineLen) == 0xFFFF_FFFE
  {
    assert TextSize(0) == 0;
    SizeInLines(0, lineLen);
    SmallSize(lineLen - 1);
    DivUnique(lineLen - 1, lineLen, 0);
    MinusTwo();
  }

  lemma {:induction false} MinusTwo()
    ensures (-2) % SIZE_T == 0xFFFF_FFFE
  {
  }

  /** What the encoder writes into a buffer of this length. */
  function Written(src: seq<byte>, lineLen: nat, destLen: nat): seq<byte> {
    Wrap(Text(src), lineLen) + if TrailingBreak(src, lineLen, destLen) then [CR, LF] else []
  }

  /** The buffer takes the text, and either both characters of a trailing CRLF or neither. */
  predicate Takes(src: seq<byte>, lineLen: nat, destLen: nat) {
    |Written(src, lineLen, destLen)| <= destLen
  }

  /** b64_encode_: a null destination only asks for the size. */
  method B64Encode(src: seq<byte>, dest: array?<byte>, lineLen: nat)
    returns (total: nat, rc: ReturnCode, overrun: bool)
    requires lineLen % 4 == 0
    modifies dest
    ensures total == if rc == OK then EncodedSize(|src|, lineLen) else 0
    ensures rc == if dest != null && dest.Length < EncodedSize(|src|, lineLen) then INSUFFICIENT_BUFFER else OK
    ensures overrun == (dest != null && rc == OK && !Takes(src, lineLen, dest.Length))
    ensures dest != null && rc == OK && !overrun ==>
              var text := Written(src, lineLen, dest.Length);
              dest[..|text|] == text && dest[|text|..] == old(dest[|text|..])
    ensures dest != null && rc != OK ==> dest[..] == old(dest[..])
  {
    total, rc, overrun := EncodedSize(|src|, lineLen), OK, false;
    if dest == null {
      return;
    }
    if dest.Length < total {
      return 0, INSUFFICIENT_BUFFER, false;
    }
    EmittedFits(src, lineLen, dest.Length);
    overrun := EncodeInto(src, dest, lineLen);
  }

  lemma {:induction false} EmittedFits(src: seq<byte>, n: nat, destLen: nat)
    requires n % 4 == 0
    ensures |Emit(src, 0, n, destLen)| <= destLen <==> Takes(src, n, destLen)
    ensures Takes(src, n, destLen) ==> Emit(src, 0, n, destLen) == Written(src, n, destLen)
  {
    if destLen >= |Wrap(Text(src), n)| {
      EmittedText(src, n, destLen);
    } else {
      OverrunIff(src, n, destLen);
    }
  }

  type Flags = bv16

  /** How app_b64_encode2 chooses the line length: from the parameter unless it is negative, or 64,
      76 or unlimited. */
  function LineLength(flags: Flags, lineLen: int): (n: nat)
    ensures flags & 0x000f == 0 && lineLen >= 0 ==> n == lineLen
    ensures flags & 0x000f == 2 || (flags & 0x000f == 0 && lineLen < 0) ==> n == 64
    ensures flags & 0x000f == 3 ==> n == 76
    ensures flags & 0x000f != 0 && flags & 0x000f != 2 && flags & 0x000f != 3 ==> n == 0
  {
    var choice := flags & 0x000f;
    if choice == 0 && lineLen >= 0 then lineLen
    else if choice == 0 || choice == 2 then 64
    else if choice == 3 then 76
    else 0
  }

  method AppB64Encode2(src: seq<byte>, dest: array?<byte>, flags: Flags, lineLen: int)
    returns (total: nat, rc: ReturnCode, overrun: bool)
    requires LineLength(flags, lineLen) % 4 == 0
    modifies dest
    ensures var n := LineLength(flags, lineLen);
            && total == (if rc == OK then EncodedSize(|src|, n) else 0)
            && rc == (if dest != null && dest.Length < EncodedSize(|src|, n) then INSUFFICIENT_BUFFER else OK)
            && overrun == (dest != null && rc == OK && !Takes(src, n, dest.Length))
            && (dest != null && rc == OK && !overrun ==>
                  var text := Written(src, n, dest.Length);
                  dest[..|text|] == text && dest[|text|..] == old(dest[|text|..]))
            && (dest != null && rc != OK ==> dest[..] == old(dest[..]))
  {
    var length := lineLen;
    var choice := flags & 0x000f;
    if choice == 0 {
      if length < 0 {
        length := 64;
      }
    } else if choice == 2 {
      length := 64;
    } else if choice == 3 {
      length := 76;
    } else {
      length := 0;
    }
    total, rc, overrun := B64Encode(src, dest, length);
  }

  // ---------- The decoder ----------

  const STOP_ON_UNKNOWN_CHAR: Flags := 0x0100
  const STOP_ON_UNEXPECTED_WS: Flags := 0x0200

  /** A blank that the decoder calls unexpected: space, tab, backspace or vertical tab. */
  predicate IsBlank(c: byte) { c == 32 || c == 9 || c == 8 || c == 11 }

  predicate IsData(c: byte) { c == PAD || InAlphabet(c) }

  /** The decoder gives up on this character under these flags. */
  predicate Stops(c: byte, flags: Flags) {
    !IsData(c) && c != CR && c != LF &&
    if IsBlank(c) then flags & STOP_ON_UNEXPECTED_WS != 0 else flags & STOP_ON_UNKNOWN_CHAR != 0
  }

  /** Up to three bytes from four six-bit values of which the last `pads` are padding. */
  function Triple(i: seq<byte>, pads: nat): (t: seq<byte>)
    requires |i| == 4
    ensures 1 <= |t| <= 3
  {
    [(i[0] << 2) + ((i[1] & 0x30) >> 4)] +
    if pads == 2 then []
    else
      [((i[1] & 0x0f) << 4) + ((i[2] & 0x3c) >> 2)] +
      if pads == 1 then [] else [((i[2] & 0x03) << 6) + i[3]]
  }

  /** Collecting a quantum, finished by padding, or given up with `left` characters left. */
  datatype State =
    | Collecting(indexes: seq<byte>, pads: nat, out: seq<byte>)
    | Complete(out: seq<byte>)
    | Rejected(out: seq<byte>, left: nat)

  const START := Collecting([], 0, [])

  function Push(st: State, index: byte, pads: nat): State
    requires st.Collecting? && |st.indexes| < 4
  {
    var indexes := st.indexes + [index];
    if |indexes| < 4 then Collecting(indexes, pads, st.out)
    else if pads != 0 then Complete(st.out + Triple(indexes, pads))
    else Collecting([], 0, st.out + Triple(indexes, 0))
  }

  function Step(st: State, c: byte, left: nat, flags: Flags): State
    requires st.Collecting? && |st.indexes| < 4
  {
    if c == PAD then Push(st, 0, st.pads + 1)
    else if InAlphabet(c) then Push(st, Index(c), 0)
    else if Stops(c, flags) then Rejected(st.out, left)
    else st
  }

  function Run(text: seq<byte>, st: State, flags: Flags): State
    requires st.Collecting? ==> |st.indexes| < 4
  {
    if text == [] || !st.Collecting? then st
    else Run(text[1..], Step(st, text[0], |text|, flags), flags)
  }

  lemma {:induction false} RunStep(src: seq<byte>, begin: nat, st: State, flags: Flags)
    requires begin < |src| && st.Collecting? && |st.indexes| < 4
    ensures Run(src[begin..], st, flags)
         == Run(src[begin + 1..], Step(st, src[begin], |src| - begin, flags), flags)
  {
    assert src[begin..][1..] == src[begin + 1..];
  }

  function MaxDecoded(srcLen: nat): nat {
    (srcLen / 4 + if srcLen % 4 != 0 then 1 else 0) * 3
  }

  /** b64_decode_: a null destination only asks for an upper bound of the size. */
  method B64Decode(src: seq<byte>, dest: array?<byte>, flags: Flags)
    returns (size: nat, badChar: int, rc: ReturnCode)
    modifies dest
    ensures dest == null ==> size == MaxDecoded(|src|) && rc == OK && badChar == -1
    ensures dest != null && dest.Length < MaxDecoded(|src|) ==>
              size == 0 && rc == INSUFFICIENT_BUFFER && badChar == -1 && dest[..] == old(dest[..])
    ensures dest != null && dest.Length >= MaxDecoded(|src|) ==>
              var final := Run(src, START, flags);
              && |final.out| <= MaxDecoded(|src|)
              && dest[..|final.out|] == final.out && dest[|final.out|..] == old(dest[|final.out|..])
              && (if final.Rejected? then size == 0 && rc == DATA_ERROR && badChar == |src| - final.left
                  else size == |final.out| && rc == OK && badChar == -1)
  {
    size, badChar, rc := MaxDecoded(|src|), -1, OK;
    if dest == null {
      return;
    }
    if dest.Length < size {
      return 0, -1, INSUFFICIENT_BUFFER;
    }
    size, badChar := DecodeInto(src, dest, flags);
    rc := if badChar == -1 then OK else DATA_ERROR;
  }

  method DecodeInto(src: seq<byte>, dest: array<byte>, flags: Flags) returns (size: nat, badChar: int)
    requires dest.Length >= MaxDecoded(|src|)
    modifies dest
    ensures var final := Run(src, START, flags);
            && |final.out| <= MaxDecoded(|src|)
            && dest[..|final.out|] == final.out && dest[|final.out|..] == old(dest[|final.out|..])
            && (if final.Rejected? then size == 0 && 0 <= badChar == |src| - final.left
                else size == |final.out| && badChar == -1)
  {
    var out := new Cursor(dest);
    badChar := Scan(out, src, flags);
    size := if badChar == -1 then out.p else 0;
  }

  /** What has been decoded and what the rest decodes to make up the whole output. */
  ghost predicate Decoding(out: Cursor, src: seq<byte>, begin: nat, indexes: seq<byte>, numPads: nat,
                           flags: Flags, final: State)
    reads out, out.dest
  {
    && out.Valid() && out.p == out.high && begin <= |src| && |indexes| < 4
    && 4 * out.p + 3 * |indexes| <= 3 * begin
    && final == Run(src[begin..], Collecting(indexes, numPads, out.Written()), flags)
  }

  /** One round of the decoding loop: the text is given up, or complete, or goes on. */
  method ScanOne(out: Cursor, ch: byte, left: nat, indexes: seq<byte>, numPads: nat, flags: Flags)
    returns (indexes': seq<byte>, numPads': nat, bad: bool, stop: bool)
    requires out.Valid() && out.p == out.high && |indexes| < 4
    requires |indexes| == 3 ==> out.p + 3 <= out.dest.Length
    modifies out, out.dest
    ensures out.Valid() && out.p == out.high && |indexes'| < 4
    ensures 4 * out.p + 3 * |indexes'| <= 4 * old(out.p) + 3 * (|indexes| + 1)
    ensures Step(Collecting(indexes, numPads, old(out.Written())), ch, left, flags)
         == if bad then Rejected(out.Written(), left)
            else if stop then Complete(out.Written())
            else Collecting(indexes', numPads', out.Written())
  {
    indexes', numPads', bad, stop := indexes, numPads, false, false;
    ghost var st := Collecting(indexes, numPads, out.Written());
    if ch == PAD {
      numPads' := numPads + 1;
      indexes', stop := Collect(out, indexes, 0, numPads', st);
    } else if Index(ch) != NONE {
      numPads' := 0;
      indexes', stop := Collect(out, indexes, Index(ch), numPads', st);
    } else {
      bad := Stops(ch, flags);
    }
  }

  /** The decoding loop. */
  method Scan(out: Cursor, src: seq<byte>, flags: Flags) returns (badChar: int)
    requires out.Valid() && out.p == out.high == 0 && out.dest.Length >= MaxDecoded(|src|)
    modifies out, out.dest
    ensures out.Valid() && out.p == out.high <= MaxDecoded(|src|)
    ensures var final := Run(src, START, flags);
            && final.out == out.Written()
            && (if final.Rejected? then 0 <= badChar == |src| - final.left else badChar == -1)
  {
    badChar := -1;
    ghost var final := Run(src, START, flags);
    var begin: nat, numPads: nat, indexes := 0, 0, [];
    assert src[0..] == src && out.Written() == [];
    while begin != |src|
      invariant Decoding(out, src, begin, indexes, numPads, flags, final)
      decreases |src| - begin
    {
      RoomForTriple(out.p, |indexes|, begin, |src|);
      RunStep(src, begin, Collecting(indexes, numPads, out.Written()), flags);
      var bad, stop;
      indexes, numPads, bad, stop := ScanOne(out, src[begin], |src| - begin, indexes, numPads, flags);
      if bad {
        RoomForTriple(out.p, 0, begin + 1, |src|);
        return begin;
      }
      begin := begin + 1;
      if stop {
        break;
      }
    }
    RoomForTriple(out.p, 0, begin, |src|);
  }

  /** The output bound, in terms of the characters read so far. */
  lemma {:induction false} RoomForTriple(p: nat, collected: nat, begin: nat, srcLen: nat)
    requires begin <= srcLen && 4 * p + 3 * collected <= 3 * begin
    ensures p <= MaxDecoded(srcLen)
    ensures collected == 3 && begin < srcLen ==> p + 3 <= MaxDecoded(srcLen)
  {
  }

  /** Stores one six-bit value; the fourth one writes out the quantum, and padding ends the text. */
  method Collect(out: Cursor, indexes: seq<byte>, index: byte, numPads: nat, ghost st: State)
    returns (indexes': seq<byte>, stop: bool)
    requires out.Valid() && out.p == out.high && |indexes| < 4
    requires |indexes| == 3 ==> out.p + 3 <= out.dest.Length
    requires st.Collecting? && st.indexes == indexes && st.out == out.Written()
    modifies out, out.dest
    ensures out.Valid() && out.p == out.high && |indexes'| < 4
    ensures 4 * out.p + 3 * |indexes'| <= 4 * old(out.p) + 3 * (|indexes| + 1)
    ensures Push(st, index, numPads)
         == if stop then Complete(out.Written()) else Collecting(indexes', numPads, out.Written())
  {
    indexes', stop := indexes + [index], false;
    if |indexes'| == 4 {
      PutTriple(out, indexes', numPads);
      indexes', stop := [], numPads != 0;
    }
  }

  method PutTriple(out: Cursor, indexes: seq<byte>, numPads: nat)
    requires out.Valid() && out.p == out.high && |indexes| == 4 && out.p + 3 <= out.dest.Length
    modifies out, out.dest
    ensures out.Valid() && out.p == out.high == old(out.p) + |Triple(indexes, numPads)|
    ensures out.Written() == old(out.Written()) + Triple(indexes, numPads)
  {
    out.Put((indexes[0] << 2) + ((indexes[1] & 0x30) >> 4));
    if numPads != 2 {
      out.Put(((indexes[1] & 0x0f) << 4) + ((indexes[2] & 0x3c) >> 2));
      if numPads != 1 {
        out.Put(((indexes[2] & 0x03) << 6) + indexes[3]);
      }
    }
  }
}
