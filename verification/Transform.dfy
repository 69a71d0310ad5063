/** Block transforms over readers and rangers (encryption/transform.go). */
module Transforms {
  import opened Prelude
  import opened Numerals

  /** A Transformer: what it makes of a block and its number, or a refusal. */
  datatype TransformerRaw = TransformerRaw(inSize: nat, outSize: nat, transform: (Bytes, int) -> Option<Bytes>) {
    ghost predicate Lawful() {
      && inSize > 0 && outSize > 0
      && forall b, n :: |b| == inSize && transform(b, n).Some? ==> |transform(b, n).value| == outSize
    }
  }

  const NOOP := TransformerRaw(1, 1, (b: Bytes, n: int) => Some(b))

  type Transformer = t: TransformerRaw | t.Lawful() witness NOOP

  datatype ReadError = EOF | UnexpectedEOF | SourceFailed | TransformFailed | RangerFailed

  /** What an underlying reader still delivers, and whether it then fails instead of ending. */
  datatype Source = Source(data: Bytes, broken: bool)

  /** What a reader delivers up to its first error, and that error. */
  datatype Stream = Stream(bytes: Bytes, ending: ReadError)

  /** Block by block: the stream of a reader that has `src` still to read. */
  function Transformed(t: Transformer, src: Source, blockNum: int, bytesRead: nat, expected: int): Stream
    decreases |src.data|
  {
    if |src.data| < t.inSize then
      Stream([], if src.broken then SourceFailed
                 else if src.data != [] || bytesRead < expected then UnexpectedEOF
                 else EOF)
    else
      match t.transform(src.data[..t.inSize], blockNum)
      case None => Stream([], TransformFailed)
      case Some(block) =>
        var rest := Transformed(t, src.(data := src.data[t.inSize..]), blockNum + 1, bytesRead + t.inSize, expected);
        Stream(block + rest.bytes, rest.ending)
  }

  class TransformedReader {
    const t: Transformer
    const expectedSize: int
    var source: Source
    var blockNum: int
    var outbuf: Bytes
    var bytesRead: nat

    /** What is still to come, buffered or not. */
    ghost function Left(): Stream
      reads this
    {
      var rest := Transformed(t, source, blockNum, bytesRead, expectedSize);
      Stream(outbuf + rest.bytes, rest.ending)
    }

    constructor (source: Source, t: Transformer, startingBlockNum: int, expectedSize: int)
      ensures this.t == t && this.expectedSize == expectedSize
      ensures Left() == Transformed(t, source, startingBlockNum, 0, expectedSize)
    {
      this.source, this.t, blockNum, this.expectedSize := source, t, startingBlockNum, expectedSize;
      outbuf, bytesRead := [], 0;
    }

    /** io.ReadFull into the input buffer. */
    method ReadFull() returns (block: Bytes, err: Option<ReadError>)
      modifies this`source, this`bytesRead
      ensures block + source.data == old(source.data) && source.broken == old(source.broken)
      ensures bytesRead == old(bytesRead) + |block|
      ensures err.None? <==> |block| == t.inSize
      ensures err.Some? ==> |block| < t.inSize && source.data == []
      ensures err.Some? ==> err.value == if source.broken then SourceFailed else if block != [] then UnexpectedEOF else EOF
    {
      var n := Min(|source.data|, t.inSize);
      block := source.data[..n];
      source := source.(data := source.data[n..]);
      bytesRead := bytesRead + n;
      if n == t.inSize {
        return block, None;
      }
      return block, Some(if source.broken then SourceFailed else if n > 0 then UnexpectedEOF else EOF);
    }

    /** Read into p[..want]. It delivers the next part of the stream, at least one byte when there is
        room and no error, and it reports an error only after everything before it was delivered.
        A clean end stays the end. */
    method Read(p: array<byte>, want: nat) returns (n: nat, err: Option<ReadError>)
      requires want <= p.Length
      modifies this, p
      ensures n <= want && p[n..] == old(p[n..])
      ensures err.None? ==> old(Left()) == Stream(p[..n] + Left().bytes, Left().ending)
      ensures err.None? && want > 0 ==> n > 0
      ensures err.Some? ==> n == 0 && old(Left()) == Stream([], err.value)
      ensures err == Some(EOF) ==> Left() == old(Left())
    {
      if |outbuf| == 0 {
        err := Fill();
        if err.Some? {
          return 0, err;
        }
      }
      n := Min(want, |outbuf|);
      forall i | 0 <= i < n {
        p[i] := outbuf[i];
      }
      hide Transformed;
      assert p[..n] == outbuf[..n];
      ghost var rest := Transformed(t, source, blockNum, bytesRead, expectedSize);
      assert outbuf + rest.bytes == outbuf[..n] + (outbuf[n..] + rest.bytes);
      outbuf := outbuf[n..];
      return n, None;
    }

    /** The first half of Read: the next block is transformed into the empty output buffer. */
    method Fill() returns (err: Option<ReadError>)
      requires outbuf == []
      modifies this
      ensures err.None? ==> Left() == old(Left()) && outbuf != []
      ensures err.Some? ==> old(Left()) == Stream([], err.value)
      ensures err == Some(EOF) ==> Left() == old(Left())
    {
      var block, failure := ReadFull();
      if failure == Some(EOF) && bytesRead < expectedSize {
        return Some(UnexpectedEOF);
      } else if failure.Some? {
        return failure;
      }
      assert old(source.data)[..t.inSize] == block && old(source.data)[t.inSize..] == source.data;
      assert old(source).(data := source.data) == source;
      match t.transform(block, blockNum) {
        case None =>
          outbuf := [];
          return Some(TransformFailed);
        case Some(out) =>
          outbuf := out;
      }
      blockNum := blockNum + 1;
      return None;
    }

    /** io.CopyN to nowhere: skips k bytes of the stream, or reports why it cannot. */
    method Discard(k: int) returns (err: Option<ReadError>)
      modifies this
      ensures err.None? <==> |old(Left().bytes)| >= k
      ensures err.None? ==> Left() == Stream(old(Left().bytes)[if k < 0 then 0 else k..], old(Left().ending))
      ensures err.Some? ==> err.value == old(Left().ending)
    {
      var buf := new byte[8192];
      var todo := k;
      ghost var all := Left();
      ghost var done: Bytes := [];
      while todo > 0
        invariant k >= 0 ==> todo >= 0 && |done| == k - todo
        invariant k < 0 ==> todo == k && done == []
        invariant all == Stream(done + Left().bytes, Left().ending)
      {
        ghost var before := Left();
        var n, e := Read(buf, Min(todo, buf.Length));
        if e.Some? {
          assert done + [] == done;
          return e;
        }
        ConcatAssociative(done, buf[..n], Left().bytes);
        done := done + buf[..n];
        todo := todo - n;
      }
      assert all.bytes[|done|..] == Left().bytes;
      return None;
    }
  }

  /** At most n bytes of a stream, then a clean end. */
  function Limited(s: Stream, n: int): (r: Stream)
    ensures n >= 0 ==> |r.bytes| <= n
  {
    if n <= 0 then Stream([], EOF)
    else if |s.bytes| >= n then Stream(s.bytes[..n], EOF)
    else s
  }

  class LimitedReader {
    const r: TransformedReader
    var n: int

    constructor (r: TransformedReader, n: int)
      ensures this.r == r && this.n == n
    {
      this.r, this.n := r, n;
    }

    ghost function Left(): Stream
      reads this, r
    {
      Limited(r.Left(), n)
    }

    method Read(p: array<byte>) returns (k: nat, err: Option<ReadError>)
      modifies this, r, p
      ensures k <= p.Length && p[k..] == old(p[k..])
      ensures err.None? ==> old(Left()) == Stream(p[..k] + Left().bytes, Left().ending)
      ensures err.None? && p.Length > 0 ==> k > 0
      ensures err.Some? ==> k == 0 && old(Left()) == Stream([], err.value)
    {
      if n <= 0 {
        return 0, Some(EOF);
      }
      k, err := r.Read(p, Min(p.Length, n));
      if err.None? {
        LimitedAfter(p[..k], r.Left(), n);
      }
      n := n - k;
    }

    /** Whatever buffer sizes the caller chooses, reading to the end delivers the stream. */
    method ReadAll(sizes: nat -> nat) returns (got: Bytes, err: ReadError)
      requires forall i :: sizes(i) > 0
      modifies this, r
      ensures old(Left()) == Stream(got, err)
    {
      got := [];
      ghost var all := Left();
      var turn := 0;
      while true
        invariant all == Stream(got + Left().bytes, Left().ending)
        decreases |Left().bytes|
      {
        var p := new byte[sizes(turn)];
        var k, e := Read(p);
        if e.Some? {
          assert got + [] == got;
          return got, e.value;
        }
        ConcatAssociative(got, p[..k], Left().bytes);
        got := got + p[..k];
        turn := turn + 1;
      }
    }
  }

  lemma LimitedAfter(head: Bytes, s: Stream, n: nat)
    requires |head| <= n
    ensures Limited(Stream(head + s.bytes, s.ending), n).ending == Limited(s, n - |head|).ending
    ensures Limited(Stream(head + s.bytes, s.ending), n).bytes == head + Limited(s, n - |head|).bytes
  {
    if |head + s.bytes| >= n {
      assert (head + s.bytes)[..n] == head + s.bytes[..n - |head|];
    }
  }

  // ---------- windows of blocks ----------

  /** Where block n starts when every block has `size` bytes. */
  function Start(n: int, size: nat): int {
    n * size
  }

  lemma StartAdds(a: int, b: int, size: nat)
    ensures Start(a + b, size) == Start(a, size) + Start(b, size)
    ensures Start(a - b, size) == Start(a, size) - Start(b, size)
    ensures Start(0, size) == 0 && Start(1, size) == size
  {
  }

  lemma StartOrders(a: int, b: int, size: nat)
    requires size > 0
    ensures a <= b <==> Start(a, size) <= Start(b, size)
  {
    if a <= b {
      MulMonotone(0, b - a, size);
      assert (b - a) * size == b * size - a * size;
    } else {
      MulAtLeast(a - b, size);
      assert (a - b) * size == a * size - b * size;
    }
  }

  lemma StartOfQuotient(x: nat, size: nat)
    requires size > 0
    ensures Start(x / size, size) <= x < Start(x / size, size) + size
  {
    assert x == x / size * size + x % size;
  }

  /** Go's integer division truncates towards zero. */
  function GoDiv(a: int, b: nat): (q: int)
    requires b > 0
    ensures a >= 0 ==> q == a / b
  {
    if a >= 0 then a / b else -((-a) / b)
  }

  function GoMod(a: int, b: nat): int
    requires b > 0
  {
    a - Start(GoDiv(a, b), b)
  }

  datatype Window = Window(first: int, count: int)

  function CalcEncompassingBlocks(offset: int, length: int, blockSize: nat): Window
    requires blockSize > 0
  {
    var first := GoDiv(offset, blockSize);
    if length <= 0 then Window(first, 0)
    else
      var last := GoDiv(offset + length, blockSize);
      if GoMod(offset + length, blockSize) == 0 then Window(first, last - first)
      else Window(first, 1 + last - first)
  }

  /** The window starts in the block of the first byte and ends with the block of the last. */
  lemma WindowBounds(offset: nat, length: nat, blockSize: nat)
    requires blockSize > 0 && length > 0
    ensures var w := CalcEncompassingBlocks(offset, length, blockSize);
            && w.first >= 0 && w.count > 0
            && Start(w.first, blockSize) <= offset < Start(w.first + 1, blockSize)
            && Start(w.first + w.count - 1, blockSize) < offset + length <= Start(w.first + w.count, blockSize)
  {
    hide Start, GoDiv;
    var w := CalcEncompassingBlocks(offset, length, blockSize);
    QuotientNatural(offset, blockSize);
    StartOfQuotient(offset, blockSize);
    StartOfQuotient(offset + length, blockSize);
    StartAdds(w.first, 1, blockSize);
    StartAdds((offset + length) / blockSize, 1, blockSize);
    StartOrders(w.first + w.count, w.first, blockSize);
  }

  lemma QuotientNatural(x: nat, size: nat)
    requires size > 0
    ensures x / size >= 0
  {
  }

  /** The window covers the range, and every window that covers it contains this one. */
  lemma WindowIsMinimal(offset: nat, length: nat, blockSize: nat, first: int, count: int)
    requires blockSize > 0 && length > 0
    ensures var w := CalcEncompassingBlocks(offset, length, blockSize);
            (first <= w.first && w.first + w.count <= first + count) <==>
            (Start(first, blockSize) <= offset && offset + length <= Start(first + count, blockSize))
  {
    hide Start, CalcEncompassingBlocks;
    var w := CalcEncompassingBlocks(offset, length, blockSize);
    WindowBounds(offset, length, blockSize);
    StartOrders(first, w.first, blockSize);
    StartOrders(w.first + 1, first, blockSize);
    StartOrders(w.first + w.count, first + count, blockSize);
    StartOrders(first + count, w.first + w.count - 1, blockSize);
  }

  // ---------- the whole file ----------

  /** The simple transform: the blocks of `data`, numbered from `first`, transformed and joined. */
  function Whole(t: Transformer, data: Bytes, first: int): Option<Bytes>
  {
    if |data| < t.inSize then Some([])
    else
      var head, tail := t.transform(data[..t.inSize], first), Whole(t, data[t.inSize..], first + 1);
      if head.Some? && tail.Some? then Some(head.value + tail.value) else None
  }

  ghost predicate Blocks(t: Transformer, data: Bytes, n: nat) {
    |data| == Start(n, t.inSize)
  }

  lemma TailBlocks(t: Transformer, data: Bytes, n: nat)
    requires Blocks(t, data, n)
    ensures n == 0 <==> |data| < t.inSize
    ensures n > 0 ==> Blocks(t, data[t.inSize..], n - 1)
  {
    hide Start;
    StartAdds(n, 1, t.inSize);
    StartAdds(0, 0, t.inSize);
    StartOrders(1, n, t.inSize);
  }

  lemma {:induction false} WholeSize(t: Transformer, data: Bytes, first: int, n: nat)
    requires Blocks(t, data, n) && Whole(t, data, first).Some?
    ensures |Whole(t, data, first).value| == Start(n, t.outSize)
    decreases n
  {
    hide Start;
    TailBlocks(t, data, n);
    StartAdds(n, 1, t.outSize);
    if n > 0 {
      WholeSize(t, data[t.inSize..], first + 1, n - 1);
    }
  }

  lemma {:induction false} WholeJoin(t: Transformer, a: Bytes, b: Bytes, first: int, n: nat)
    requires Blocks(t, a, n)
    ensures Whole(t, a + b, first).Some? <==> Whole(t, a, first).Some? && Whole(t, b, first + n).Some?
    ensures Whole(t, a + b, first).Some? ==>
              Whole(t, a + b, first).value == Whole(t, a, first).value + Whole(t, b, first + n).value
    decreases n
  {
    hide Start;
    TailBlocks(t, a, n);
    if n == 0 {
      assert a + b == b by { StartAdds(0, 0, t.inSize); }
      if Whole(t, b, first).Some? {
        assert [] + Whole(t, b, first).value == Whole(t, b, first).value;
      }
    } else {
      var rest := a[t.inSize..];
      assert (a + b)[..t.inSize] == a[..t.inSize] && (a + b)[t.inSize..] == rest + b;
      WholeJoin(t, rest, b, first + 1, n - 1);
      assert first + n == first + 1 + (n - 1);
    }
  }

  /** A reader over a complete source delivers the simple transform. */
  lemma {:induction false} TransformedIsWhole(t: Transformer, data: Bytes, first: int, bytesRead: nat, expected: int, n: nat)
    requires Blocks(t, data, n) && bytesRead + |data| >= expected
    ensures Whole(t, data, first).Some? ==>
              Transformed(t, Source(data, false), first, bytesRead, expected) == Stream(Whole(t, data, first).value, EOF)
    ensures Whole(t, data, first).None? ==>
              Transformed(t, Source(data, false), first, bytesRead, expected).ending == TransformFailed
    decreases n
  {
    hide Start;
    TailBlocks(t, data, n);
    if n > 0 {
      TransformedIsWhole(t, data[t.inSize..], first + 1, bytesRead + t.inSize, expected, n - 1);
      assert Source(data, false).(data := data[t.inSize..]) == Source(data[t.inSize..], false);
    } else {
      StartAdds(0, 0, t.inSize);
    }
  }

  /** A clean end means that all expected bytes were there, in whole blocks, whatever the source. */
  lemma {:induction false} CleanEndIsComplete(t: Transformer, src: Source, first: int, bytesRead: nat, expected: int) returns (n: nat)
    requires Transformed(t, src, first, bytesRead, expected).ending == EOF
    ensures !src.broken && Blocks(t, src.data, n) && bytesRead + |src.data| >= expected
    ensures Whole(t, src.data, first) == Some(Transformed(t, src, first, bytesRead, expected).bytes)
    decreases |src.data|
  {
    hide Start;
    if |src.data| < t.inSize {
      StartAdds(0, 0, t.inSize);
      return 0;
    }
    var m := CleanEndIsComplete(t, src.(data := src.data[t.inSize..]), first + 1, bytesRead + t.inSize, expected);
    StartAdds(m, 1, t.inSize);
    return m + 1;
  }

  // ---------- ranges ----------

  datatype Ranger = Ranger(size: nat, range: (int, int) -> Option<Source>)

  function ByteRanger(data: Bytes): Ranger {
    Ranger(|data|, (offset: int, length: int) =>
      if offset < 0 || length < 0 || offset + length > |data| then None
      else Some(Source(data[offset..offset + length], false)))
  }

  function RangerSize(t: Transformer, rr: Ranger): int {
    Start(rr.size / t.inSize, t.outSize)
  }

  function From(s: Stream, skip: int): Stream
    requires skip <= |s.bytes|
  {
    Stream(s.bytes[if skip < 0 then 0 else skip..], s.ending)
  }

  /** What reading the ranged reader delivers, or the error of Range itself. */
  function RangeStream(t: Transformer, rr: Ranger, offset: int, length: int): Result<Stream, ReadError> {
    var w := CalcEncompassingBlocks(offset, length, t.outSize);
    if w.count == 0 then Ok(Stream([], EOF))
    else
      match rr.range(Start(w.first, t.inSize), Start(w.count, t.inSize))
      case None => Err(RangerFailed)
      case Some(src) =>
        var s := Transformed(t, src, w.first, 0, Start(w.count, t.inSize));
        var skip := offset - Start(w.first, t.outSize);
        if |s.bytes| < skip then Err(if s.ending == EOF then UnexpectedEOF else s.ending)
        else Ok(Limited(From(s, skip), length))
  }

  /** transformedRanger.Range; no reader stands for the reader of nothing. */
  method Range(t: Transformer, rr: Ranger, offset: int, length: int) returns (r: Result<Option<LimitedReader>, ReadError>)
    ensures RangeStream(t, rr, offset, length).Err? ==> r == Err(RangeStream(t, rr, offset, length).error)
    ensures RangeStream(t, rr, offset, length).Ok? ==> r.Ok?
    ensures r == Ok(None) ==> RangeStream(t, rr, offset, length) == Ok(Stream([], EOF))
    ensures r.Ok? && r.value.Some? ==>
              && fresh(r.value.value) && fresh(r.value.value.r)
              && RangeStream(t, rr, offset, length) == Ok(r.value.value.Left())
  {
    hide Start;
    var w := CalcEncompassingBlocks(offset, length, t.outSize);
    if w.count == 0 {
      return Ok(None);
    }
    match rr.range(Start(w.first, t.inSize), Start(w.count, t.inSize)) {
      case None =>
        return Err(RangerFailed);
      case Some(src) =>
        var tr := new TransformedReader(src, t, w.first, Start(w.count, t.inSize));
        var err := tr.Discard(offset - Start(w.first, t.outSize));
        match err {
          case Some(e) =>
            return Err(if e == EOF then UnexpectedEOF else e);
          case None =>
            var limited := new LimitedReader(tr, length);
            return Ok(Some(limited));
        }
    }
  }

  /** The window of an in-bounds range lies in the data. */
  lemma WindowInData(t: Transformer, data: Bytes, n: nat, offset: nat, length: nat, w: Window)
    requires Blocks(t, data, n) && length > 0 && w == CalcEncompassingBlocks(offset, length, t.outSize)
    ensures w.first >= 0 && w.count > 0
    ensures offset + length <= Start(n, t.outSize) <==> w.first + w.count <= n
    ensures w.first + w.count <= n <==> Start(w.first, t.inSize) + Start(w.count, t.inSize) <= |data|
    ensures Start(w.first, t.inSize) >= 0 && Start(w.count, t.inSize) >= 0
  {
    hide Start, CalcEncompassingBlocks;
    WindowBounds(offset, length, t.outSize);
    WindowIsMinimal(offset, length, t.outSize, 0, n);
    StartAdds(w.first, w.count, t.inSize);
    StartAdds(0, 0, t.outSize);
    StartOrders(w.first + w.count, n, t.inSize);
    StartOrders(0, w.first, t.inSize);
    StartOrders(0, w.count, t.inSize);
  }

  function Part(data: Bytes, from: int, length: int): Bytes
    requires 0 <= from <= from + length <= |data|
  {
    data[from..from + length]
  }

  /** Only the blocks of the window matter: when they can be transformed, the range is a slice of
      their transforms. */
  lemma RangeOfWindow(t: Transformer, data: Bytes, n: nat, offset: nat, length: nat, w: Window)
    requires Blocks(t, data, n) && length > 0 && w == CalcEncompassingBlocks(offset, length, t.outSize)
    ensures offset + length > Start(n, t.outSize) ==> RangeStream(t, ByteRanger(data), offset, length) == Err(RangerFailed)
    ensures offset + length <= Start(n, t.outSize) ==>
              && 0 <= Start(w.first, t.inSize) <= Start(w.first, t.inSize) + Start(w.count, t.inSize) <= |data|
              && var out := Whole(t, Part(data, Start(w.first, t.inSize), Start(w.count, t.inSize)), w.first);
                 var skip := offset - Start(w.first, t.outSize);
                 out.Some? ==>
                   && 0 <= skip <= skip + length <= |out.value|
                   && RangeStream(t, ByteRanger(data), offset, length) == Ok(Stream(Part(out.value, skip, length), EOF))
  {
    hide Start, CalcEncompassingBlocks, Whole, Transformed;
    WindowInData(t, data, n, offset, length, w);
    var from, size := Start(w.first, t.inSize), Start(w.count, t.inSize);
    if offset + length <= Start(n, t.outSize) {
      WindowBounds(offset, length, t.outSize);
      var part := Part(data, from, size);
      TransformedIsWhole(t, part, w.first, 0, size, w.count);
      assert ByteRanger(data).range(from, size) == Some(Source(part, false));
      var out := Whole(t, part, w.first);
      if out.Some? {
        WholeSize(t, part, w.first, w.count);
        StartAdds(w.first, w.count, t.outSize);
        var skip := offset - Start(w.first, t.outSize);
        assert out.value[skip..][..length] == Part(out.value, skip, length);
      }
    }
  }

  /** The transform of a window of blocks is a slice of the whole. */
  lemma WindowOfWhole(t: Transformer, data: Bytes, n: nat, first: nat, count: nat)
    requires Blocks(t, data, n) && Whole(t, data, 0).Some? && first + count <= n
    ensures 0 <= Start(first, t.inSize) <= Start(first, t.inSize) + Start(count, t.inSize) <= |data|
    ensures 0 <= Start(first, t.outSize) <= Start(first, t.outSize) + Start(count, t.outSize) <= |Whole(t, data, 0).value|
    ensures Whole(t, Part(data, Start(first, t.inSize), Start(count, t.inSize)), first)
         == Some(Part(Whole(t, data, 0).value, Start(first, t.outSize), Start(count, t.outSize)))
  {
    hide Start, Whole;
    WindowFits(first, count, n, t.inSize);
    var from, size := Start(first, t.inSize), Start(count, t.inSize);
    var before, part, after := data[..from], Part(data, from, size), data[from + size..];
    assert data == before + (part + after);
    WholeJoin(t, before, part + after, 0, first);
    WholeJoin(t, part, after, first, count);
    WholeSize(t, before, 0, first);
    WholeSize(t, part, first, count);
    WholeSize(t, data, 0, n);
    WindowFits(first, count, n, t.outSize);
    var a, b, c := Whole(t, before, 0).value, Whole(t, part, first).value, Whole(t, after, first + count).value;
    assert Whole(t, data, 0).value == a + (b + c);
    assert Part(a + (b + c), |a|, |b|) == b;
  }

  lemma WindowFits(first: nat, count: nat, n: nat, size: nat)
    requires first + count <= n && size > 0
    ensures 0 <= Start(first, size) <= Start(first, size) + Start(count, size) <= Start(n, size)
  {
    hide Start;
    StartAdds(first, count, size);
    StartOrders(0, first, size);
    StartOrders(0, count, size);
    StartOrders(first + count, n, size);
  }

  /** A ranged read is a slice of the whole: from offsets that are not negative, exactly the ranges
      within the size are served. What negative offsets give is said by NegativeOffset. */
  lemma RangeIsSlice(t: Transformer, data: Bytes, n: nat, offset: int, length: int)
    requires Blocks(t, data, n) && Whole(t, data, 0).Some?
    ensures |Whole(t, data, 0).value| == RangerSize(t, ByteRanger(data))
    ensures length <= 0 ==> RangeStream(t, ByteRanger(data), offset, length) == Ok(Stream([], EOF))
    ensures length > 0 && offset < 0 ==> ReadsFromStart(t, data, n, offset, length)
    ensures length > 0 && offset >= 0 ==>
              RangeStream(t, ByteRanger(data), offset, length) ==
              if offset + length <= |Whole(t, data, 0).value| then
                Ok(Stream(Part(Whole(t, data, 0).value, offset, length), EOF))
              else Err(RangerFailed)
  {
    hide Start, Whole, RangeStream, ReadsFromStart;
    assert |data| / t.inSize == n by { BlockCount(n, t.inSize); }
    WholeSize(t, data, 0, n);
    if length <= 0 {
      RangeOfNothing(t, ByteRanger(data), offset, length);
    } else if offset < 0 {
      NegativeOffset(t, data, n, offset, length);
    } else {
      var w := CalcEncompassingBlocks(offset, length, t.outSize);
      hide CalcEncompassingBlocks;
      RangeOfWindow(t, data, n, offset, length, w);
      WindowInData(t, data, n, offset, length, w);
      if offset + length <= Start(n, t.outSize) {
        WindowOfWhole(t, data, n, w.first, w.count);
        PartOfPart(Whole(t, data, 0).value, Start(w.first, t.outSize), Start(w.count, t.outSize), offset - Start(w.first, t.outSize), length);
      }
    }
  }

  /** The range ignores how far a negative offset lies before the beginning: it is refused exactly when
      its window has blocks and one of them is not in the data. Otherwise it delivers nothing when the
      window is empty, and else the first blocks of the whole, up to the length; both end cleanly. */
  ghost predicate ReadsFromStart(t: Transformer, data: Bytes, n: nat, offset: int, length: nat)
    requires Whole(t, data, 0).Some?
  {
    var w := CalcEncompassingBlocks(offset, length, t.outSize);
    var r := RangeStream(t, ByteRanger(data), offset, length);
    var whole := Whole(t, data, 0).value;
    && (r.Err? <==> w.count != 0 && (w.first < 0 || w.count > n))
    && (r.Err? ==> r == Err(RangerFailed))
    && (r.Ok? && w.count == 0 ==> r == Ok(Stream([], EOF)))
    && (r.Ok? && w.count != 0 ==>
          && 0 <= Start(w.count, t.outSize) <= |whole|
          && r == Ok(Limited(Stream(whole[..Start(w.count, t.outSize)], EOF), length)))
  }

  lemma NegativeOffset(t: Transformer, data: Bytes, n: nat, offset: int, length: nat)
    requires Blocks(t, data, n) && Whole(t, data, 0).Some? && offset < 0 && length > 0
    ensures ReadsFromStart(t, data, n, offset, length)
  {
    var w := CalcEncompassingBlocks(offset, length, t.outSize);
    NegativeWindow(offset, length, t.outSize);
    hide Start, Whole, Transformed, CalcEncompassingBlocks;
    StartAdds(0, 0, t.inSize);
    StartOrders(0, w.first, t.inSize);
    StartOrders(0, w.count, t.inSize);
    StartOrders(w.count, n, t.inSize);
    if w.count != 0 && w.first >= 0 && w.count <= n {
      var size := Start(w.count, t.inSize);
      var part := Part(data, 0, size);
      StartAdds(0, 0, t.outSize);
      WindowOfWhole(t, data, n, 0, w.count);
      TransformedIsWhole(t, part, 0, 0, size, w.count);
      assert ByteRanger(data).range(0, size) == Some(Source(part, false));
      var out := Part(Whole(t, data, 0).value, 0, Start(w.count, t.outSize));
      assert out[0..] == out == Whole(t, data, 0).value[..Start(w.count, t.outSize)];
    }
  }

  /** From a negative offset, the window starts at or before the first block and nothing is skipped. */
  lemma NegativeWindow(offset: int, length: nat, blockSize: nat)
    requires blockSize > 0 && offset < 0
    ensures var w := CalcEncompassingBlocks(offset, length, blockSize);
            w.first <= 0 && w.count >= 0 && offset <= Start(w.first, blockSize)
  {
    hide Start, GoDiv;
    GoDivOfNegative(offset, blockSize);
    GoDivMonotone(offset, offset + length, blockSize);
  }

  lemma GoDivOfNegative(a: int, b: nat)
    requires b > 0 && a < 0
    ensures GoDiv(a, b) <= 0 && a <= Start(GoDiv(a, b), b) < a + b
  {
    hide Start;
    QuotientNatural(-a, b);
    StartOfQuotient(-a, b);
    StartAdds(0, (-a) / b, b);
  }

  lemma GoDivMonotone(a: int, c: int, b: nat)
    requires b > 0 && a <= c
    ensures GoDiv(a, b) <= GoDiv(c, b)
  {
    hide Start;
    if a >= 0 {
      QuotientMonotone(a, c, b);
    } else if c < 0 {
      QuotientMonotone(-c, -a, b);
    } else {
      QuotientNatural(-a, b);
      QuotientNatural(c, b);
    }
  }

  lemma QuotientMonotone(a: nat, c: nat, b: nat)
    requires b > 0 && a <= c
    ensures a / b <= c / b
  {
    hide Start;
    StartOfQuotient(a, b);
    StartOfQuotient(c, b);
    StartAdds(c / b, 1, b);
    StartOrders(c / b + 1, a / b, b);
  }

  lemma BlockCount(n: nat, size: nat)
    requires size > 0
    ensures Start(n, size) >= 0 && Start(n, size) / size == n
  {
    DivModOf(n, 0, size);
  }

  lemma RangeOfNothing(t: Transformer, rr: Ranger, offset: int, length: int)
    requires length <= 0
    ensures RangeStream(t, rr, offset, length) == Ok(Stream([], EOF))
  {
  }

  lemma PartOfPart(data: Bytes, from: int, size: int, skip: int, length: int)
    requires 0 <= from <= from + size <= |data| && 0 <= skip <= skip + length <= size
    ensures Part(Part(data, from, size), skip, length) == Part(data, from + skip, length)
  {
    var part, piece := Part(data, from, size), Part(data, from + skip, length);
    var slice := Part(part, skip, length);
    assert |slice| == |piece|;
    forall i | 0 <= i < |slice| ensures slice[i] == piece[i] {
      assert slice[i] == part[skip + i] == data[from + (skip + i)];
    }
  }

  /** How many bytes from the offset on the window holds. */
  function Reach(offset: int, length: int, blockSize: nat): int
    requires blockSize > 0
  {
    var w := CalcEncompassingBlocks(offset, length, blockSize);
    var skip := offset - Start(w.first, blockSize);
    Start(w.count, blockSize) - if skip < 0 then 0 else skip
  }

  /** Whatever the underlying ranger hands out, also less or more than it was asked for: when the window
      reaches as far as the length, a ranged reader ends cleanly exactly when it has delivered all that
      was requested. The window always does, unless the offset is negative; and then a clean end still
      means that the bytes of the window were there. */
  lemma NeverShortAndClean(t: Transformer, rr: Ranger, offset: int, length: nat)
    requires RangeStream(t, rr, offset, length).Ok?
    ensures offset >= 0 ==> Reach(offset, length, t.outSize) >= length || length == 0
    ensures var s, reach := RangeStream(t, rr, offset, length).value, Reach(offset, length, t.outSize);
            && |s.bytes| <= length
            && (s.ending == EOF <== |s.bytes| == length)
            && (s.ending == EOF ==> |s.bytes| >= Min(length, reach))
            && (length <= reach ==> (s.ending == EOF <==> |s.bytes| == length))
  {
    if length > 0 {
      var w := CalcEncompassingBlocks(offset, length, t.outSize);
      if offset >= 0 {
        WindowBounds(offset, length, t.outSize);
      } else {
        NegativeWindow(offset, length, t.outSize);
      }
      hide Start, Transformed, CalcEncompassingBlocks;
      StartAdds(w.first, w.count, t.outSize);
      if w.count != 0 {
        var size := Start(w.count, t.inSize);
        var src := rr.range(Start(w.first, t.inSize), size).value;
        if Transformed(t, src, w.first, 0, size).ending == EOF {
          CleanEndIsLong(t, src, w);
        }
      }
    } else {
      RangeOfNothing(t, rr, offset, length);
      NothingReached(offset, t.outSize);
    }
  }

  lemma NothingReached(offset: int, blockSize: nat)
    requires blockSize > 0
    ensures Reach(offset, 0, blockSize) <= 0
  {
    hide GoDiv;
    StartAdds(0, 0, blockSize);
  }

  lemma CleanEndIsLong(t: Transformer, src: Source, w: Window)
    requires Transformed(t, src, w.first, 0, Start(w.count, t.inSize)).ending == EOF
    ensures |Transformed(t, src, w.first, 0, Start(w.count, t.inSize)).bytes| >= Start(w.count, t.outSize)
  {
    hide Start, Transformed, Whole;
    var n := CleanEndIsComplete(t, src, w.first, 0, Start(w.count, t.inSize));
    WholeSize(t, src.data, w.first, n);
    StartOrders(w.count, n, t.inSize);
    StartOrders(w.count, n, t.outSize);
  }

  /** Three negative offsets, the size of a block being 4: one reads from the beginning and is short
      and clean, one in front of the first block delivers nothing, cleanly, and one is refused. */
  lemma NegativeOffsetIsNotAlwaysRefused(t: Transformer, data: Bytes)
    requires t.inSize == 4 && t.outSize == 4 && |data| == 4 && t.transform(data, 0) == Some(data)
    ensures RangeStream(t, ByteRanger(data), -3, 5) == Ok(Stream(data, EOF))
    ensures RangeStream(t, ByteRanger(data), -5, 1) == Ok(Stream([], EOF))
    ensures RangeStream(t, ByteRanger(data), -5, 3) == Err(RangerFailed)
  {
    assert CalcEncompassingBlocks(-3, 5, 4) == Window(0, 1);
    assert CalcEncompassingBlocks(-5, 1, 4) == Window(-1, 0);
    assert CalcEncompassingBlocks(-5, 3, 4) == Window(-1, 2);
    assert data[..4] == data && data[4..] == [] && data + [] == data;
    assert Whole(t, [], 1) == Some([]) && Whole(t, data, 0) == Some(data + []);
    NegativeOffset(t, data, 1, -3, 5);
    NegativeOffset(t, data, 1, -5, 1);
    NegativeOffset(t, data, 1, -5, 3);
  }
}
