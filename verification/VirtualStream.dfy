/** The put-back stream of cgic.c: a 400-slot ring buffer layered over the request body.
    A C `char` is a Dafny `char`; a buffer that a call fills is returned as a string. */
module VirtualStream {

  const BUFFER_MIN: nat := 400
  const EOF: int := -1

  function Min(a: int, b: int): int { if a < b then a else b }

  /** The queued characters of a ring whose oldest slot is `r` and whose next free slot is `w`.
      Equal positions mean an empty queue, so one slot always stays unused. */
  function Ring(slots: string, r: nat, w: nat): string
    requires r < |slots| && w < |slots|
  {
    if r <= w then slots[r..w] else slots[r..] + slots[..w]
  }

  /** Advancing a position, without the remainder operator. */
  function Next(i: nat): (j: nat)
    requires i < BUFFER_MIN
    ensures j < BUFFER_MIN && j == (i + 1) % BUFFER_MIN
  {
    if i + 1 == BUFFER_MIN then 0 else i + 1
  }

  lemma {:induction false} RingPop(slots: string, r: nat, w: nat)
    requires |slots| == BUFFER_MIN && r < BUFFER_MIN && w < BUFFER_MIN && r != w
    ensures Ring(slots, r, w) != "" && Ring(slots, r, w)[0] == slots[r]
    ensures Ring(slots, Next(r), w) == Ring(slots, r, w)[1..]
  {
  }

  lemma {:induction false} RingPush(slots: string, r: nat, w: nat, c: char)
    requires |slots| == BUFFER_MIN && r < BUFFER_MIN && w < BUFFER_MIN && |Ring(slots, r, w)| + 1 < BUFFER_MIN
    ensures Ring(slots[w := c], r, Next(w)) == Ring(slots, r, w) + [c]
  {
  }

  /** An un-read is exact precisely when the ring holds nothing but copies of the un-read
      character, so in general only when the ring is empty: the ring is a queue, not a stack. */
  lemma {:induction false} UnreadIsExactIff(queue: string, d: char, rest: string)
    ensures queue + [d] + rest == [d] + queue + rest <==> forall i :: 0 <= i < |queue| ==> queue[i] == d
  {
    var appended, pushed := queue + [d] + rest, [d] + queue + rest;
    if appended == pushed {
      UnreadShift(queue, d, rest, |queue|);
    }
    if forall i :: 0 <= i < |queue| ==> queue[i] == d {
      assert appended == pushed;
    }
  }

  lemma {:induction false} UnreadShift(queue: string, d: char, rest: string, n: nat)
    requires n <= |queue| && queue + [d] + rest == [d] + queue + rest
    ensures forall i :: 0 <= i < n ==> queue[i] == d
  {
    if n > 0 {
      UnreadShift(queue, d, rest, n - 1);
      assert (queue + [d] + rest)[n - 1] == ([d] + queue + rest)[n - 1];
    }
  }

  /** Serving `len` characters from the ring and then from the body serves their concatenation. */
  lemma {:induction false} ReadSplit(queue: string, rest: string, len: nat)
    ensures var g := Min(len, |queue|);
            var f := Min(len - g, |rest|);
            var n := Min(len, |queue + rest|);
            && n == g + f && (queue + rest)[..n] == queue[..g] + rest[..f]
            && (queue + rest)[n..] == queue[g..] + rest[f..]
  {
  }

  /** What mpRead takes from a body of this size when it still wants `left` characters. */
  function FromBody(left: nat, offset: int, contentLength: int, available: nat): (f: nat)
    requires offset <= contentLength
  {
    Min(Min(left, contentLength - offset), available)
  }

  /** Reads beyond the declared length go as far as `offset` lags behind, and happen exactly if it
      lags, the body goes on, and more is wanted than was declared. */
  lemma {:induction false} OverreadIff(left: nat, pos: nat, offset: int, contentLength: int, inputLength: nat)
    requires offset <= pos <= contentLength && pos <= inputLength
    ensures var pos' := pos + FromBody(left, offset, contentLength, inputLength - pos);
            && pos' - contentLength <= pos - offset
            && (pos' > contentLength <==> offset < pos && inputLength > contentLength && left > contentLength - pos)
  {
  }

  /** The three effects of reading one character from ring and body. */
  function Front(queue: string, rest: string): char
    requires queue != "" || rest != ""
  {
    if queue != "" then queue[0] else rest[0]
  }

  function QueueTail(queue: string): string { if queue != "" then queue[1..] else "" }

  function BodyTail(queue: string, rest: string): string
    requires queue != "" || rest != ""
  {
    if queue != "" then rest else rest[1..]
  }

  lemma {:induction false} ReadOne(queue: string, rest: string)
    requires queue != "" || rest != ""
    ensures queue + rest == [Front(queue, rest)] + (QueueTail(queue) + BodyTail(queue, rest))
  {
  }

  class MpStream {
    const input: string        // everything cgiIn will deliver
    const contentLength: int   // cgiContentLength
    var pos: nat               // characters of cgiIn consumed so far
    const putback: array<char>
    var readPos: nat
    var writePos: nat
    var offset: int

    ghost predicate Shaped()
      reads this
    {
      putback.Length == 400 && readPos < BUFFER_MIN && writePos < BUFFER_MIN && pos <= |input|
    }

    ghost function Queue(): string
      requires Shaped()
      reads this, putback
    {
      Ring(putback[..], readPos, writePos)
    }

    /** What further reads will see. */
    ghost function Virtual(): string
      requires Shaped()
      reads this, putback
    {
      Queue() + Body()
    }

    /** What cgiIn still holds. */
    ghost function Body(): string
      requires pos <= |input|
      reads this
    {
      input[pos..]
    }

    /** `offset` never runs ahead of the logical position. */
    ghost predicate Tracked()
      reads this, putback
    {
      Shaped() && offset <= pos - |Queue()|
    }

    /** A body that is no longer than declared. Then no declared byte is refused, and no other read. */
    ghost predicate Valid()
      reads this, putback
    {
      Tracked() && |input| <= contentLength
    }

    constructor (input: string, contentLength: int)
      ensures Tracked() && fresh(putback)
      ensures this.input == input && this.contentLength == contentLength
      ensures Queue() == "" && Virtual() == input && pos == offset == 0
    {
      this.input, this.contentLength := input, contentLength;
      pos, readPos, writePos, offset := 0, 0, 0, 0;
      putback := new char[BUFFER_MIN](_ => '\0');
    }

    /** The first loop of mpRead: serves up to `len` characters from the ring. */
    method TakeQueued(len: nat) returns (buffer: string)
      requires Shaped()
      modifies this`readPos
      ensures Shaped()
      ensures var g := Min(len, |old(Queue())|); buffer == old(Queue())[..g] && Queue() == old(Queue())[g..]
    {
      ghost var queue := Queue();
      var left := len;
      buffer := "";
      while left > 0
        invariant Shaped() && 0 <= left && |buffer| + left == len && |buffer| <= |queue|
        invariant buffer == queue[..|buffer|] && Queue() == queue[|buffer|..]
      {
        if readPos != writePos {
          RingPop(putback[..], readPos, writePos);
          buffer := buffer + [putback[readPos]];
          readPos := Next(readPos);
          left := left - 1;
        } else {
          break;
        }
      }
    }

    /** Reads up to `len` characters: ring first, then the request body as far as `offset` allows. */
    method MpRead(len: nat) returns (got: int, buffer: string)
      requires Tracked() && offset <= contentLength
      modifies this
      ensures Tracked()
      ensures var g := Min(len, |old(Queue())|);
              var f := FromBody(len - g, old(offset), contentLength, |old(Body())|);
              && buffer == old(Queue())[..g] + old(Body())[..f]
              && Queue() == old(Queue())[g..] && pos == old(pos) + f
              && got == (if g == 0 < len && old(offset) == contentLength then -1 else g + f)
              && offset == if len > g && old(offset) < contentLength then old(offset) + g + f else old(offset)
    {
      ghost var queue, rest := Queue(), input[pos..];
      buffer := TakeQueued(len);
      got := |buffer|;
      var left := len - got;
      if left > contentLength - offset {
        left := contentLength - offset;
      }
      if left != 0 {
        var fgot := Min(left, |input| - pos);
        assert input[pos..pos + fgot] == rest[..fgot];
        buffer := buffer + input[pos..pos + fgot];
        pos := pos + fgot;
        offset := offset + got + fgot;
        got := got + fgot;
      } else {
        assert buffer + rest[..0] == buffer;
        if got != 0 {
        } else if len != 0 {
          got := EOF;
        }
      }
    }

    /** mpRead on a body that is no longer than declared: the first min(len, available) characters of
        ring and body. */
    method Read(len: nat) returns (got: int, buffer: string)
      requires Valid()
      modifies this
      ensures Valid()
      ensures var n := Min(len, |old(Virtual())|);
              && buffer == old(Virtual())[..n]
              && Virtual() == old(Virtual())[n..]
              && (n > 0 || len == 0 ==> got == n)
              && (n == 0 < len ==> got == if old(offset) == contentLength then -1 else 0)
      ensures var g := Min(len, |old(Queue())|);
              Queue() == old(Queue())[g..] && Body() == old(Body())[Min(len - g, |old(Body())|)..]
    {
      ghost var queue, rest := Queue(), Body();
      ReadSplit(queue, rest, len);
      got, buffer := MpRead(len);
      ghost var g := Min(len, |queue|);
      assert Body() == rest[Min(len - g, |rest|)..];
    }

    /** Queues `data` behind whatever the ring already holds. */
    method MpPutBack(data: string)
      requires Tracked() && |Queue()| + |data| < BUFFER_MIN
      modifies this, putback
      ensures Tracked()
      ensures Queue() == old(Queue()) + data && Body() == old(Body()) && pos == old(pos)
      ensures offset == old(offset) - |data|
    {
      offset := offset - |data|;
      var i := 0;
      while i < |data|
        invariant Shaped() && pos == old(pos) && offset == old(offset) - |data|
        invariant 0 <= i <= |data| && Queue() == old(Queue()) + data[..i]
      {
        RingPush(putback[..], readPos, writePos, data[i]);
        ghost var before := putback[..];
        putback[writePos] := data[i];
        assert putback[..] == before[writePos := data[i]];
        writePos := Next(writePos);
        i := i + 1;
        assert data[..i] == data[..i - 1] + [data[i - 1]];
      }
    }

    /** mpRead of one character. */
    method ReadChar() returns (got: int, d: char)
      requires Valid()
      modifies this
      ensures Valid()
      ensures got == 1 <==> old(Queue() != "" || Body() != "")
      ensures got == 1 ==> d == Front(old(Queue()), old(Body()))
                           && Queue() == QueueTail(old(Queue())) && Body() == BodyTail(old(Queue()), old(Body()))
      ensures got != 1 ==> Queue() == "" && Body() == ""
    {
      var buffer;
      got, buffer := Read(1);
      d := if got == 1 then buffer[0] else '\0';
    }

    /** The same, for callers that do not care where the character comes from. */
    method ReadVirtual() returns (got: int, d: char)
      requires Valid()
      modifies this
      ensures Valid() && |Queue()| <= |old(Queue())| && (old(Queue()) != "" ==> |Queue()| < |old(Queue())|)
      ensures got == 1 <==> old(Virtual()) != ""
      ensures got == 1 ==> old(Virtual()) == [d] + Virtual() && Virtual() == old(Virtual())[1..]
      ensures got != 1 ==> Virtual() == ""
    {
      got, d := ReadChar();
    }

    /** mpPutBack of the character read last, onto an empty ring: an exact un-read. */
    method Unread(d: char)
      requires Valid() && Queue() == ""
      modifies this, putback
      ensures Valid() && |Queue()| == 1 && Virtual() == [d] + old(Virtual())
    {
      MpPutBack([d]);
    }
  }

  /** With a longer body the guard of mpRead fails: after one un-read, a read of three characters takes
      one more than declared, and `offset` passes the declared length, so that the next read would ask
      for a negative number of characters. */
  method ReadBeyondDeclared(input: string) returns (mpp: MpStream)
    requires |input| >= 3
    ensures mpp.input == input && mpp.contentLength == 2 && mpp.pos == 3 && mpp.offset == 3
  {
    mpp := new MpStream(input, 2);
    var got, buffer := mpp.MpRead(1);
    mpp.MpPutBack(buffer);
    got, buffer := mpp.MpRead(3);
  }
}
