/** The bloom filter over piece ids (bloomfilter/filter.go). */
module BloomFilter {
  import opened Prelude
  import opened Numerals
  import opened Bits

  const ID_SIZE := 32
  const WINDOW := 9
  const VERSION1 := 1
  const RANGE_OFFSETS := [9, 13, 19, 23]

  type PieceID = b: Bytes | |b| == ID_SIZE witness Zeros(32)

  // ---------- bits of a byte ----------

  /** b & 1 << bit != 0. */
  predicate HasBit(b: nat, bit: nat) {
    if bit == 0 then b % 2 == 1 else HasBit(b / 2, bit - 1)
  }

  /** b | 1 << bit. */
  function SetBit(b: nat, bit: nat): nat {
    if bit == 0 then b / 2 * 2 + 1 else b % 2 + 2 * SetBit(b / 2, bit - 1)
  }

  lemma {:induction false} SetBitSetsOne(b: nat, bit: nat, other: nat)
    ensures HasBit(SetBit(b, bit), other) <==> other == bit || HasBit(b, other)
  {
    if bit > 0 && other > 0 {
      SetBitSetsOne(b / 2, bit - 1, other - 1);
    }
  }

  /** The bits of a byte stay in the byte. */
  lemma {:induction false} SetBitFits(b: nat, bit: nat, width: nat)
    requires bit < width && b < Pow(2, width)
    ensures SetBit(b, bit) < Pow(2, width)
  {
    PowSuccessor(2, width - 1);
    hide Pow;
    if bit > 0 {
      SetBitFits(b / 2, bit - 1, width - 1);
    }
  }

  function SetByteBit(b: byte, bit: nat): (r: byte)
    requires bit < 8
    ensures r as int == SetBit(b, bit)
  {
    SetBitFits(b, bit, 8);
    assert Pow(2, 4) == 16 && Pow(2, 8) == 256;
    SetBit(b, bit)
  }

  // ---------- probes ----------

  /** The window of nine bytes of an id from a position on, as the code unwraps it. */
  function Unwrapped(seed: nat, id: PieceID): Bytes
    requires seed < ID_SIZE
  {
    if seed > ID_SIZE - WINDOW then id[seed..] + id[..WINDOW - (ID_SIZE - seed)] else id[seed..seed + WINDOW]
  }

  /** The window is cyclic. */
  lemma WindowIsCyclic(seed: nat, id: PieceID, i: nat)
    requires seed < ID_SIZE && i < WINDOW
    ensures |Unwrapped(seed, id)| == WINDOW && Unwrapped(seed, id)[i] == id[(seed + i) % ID_SIZE]
  {
  }

  datatype Probe = Probe(hash: nat, bit: byte)

  method Subrange(seed: nat, id: PieceID) returns (p: Probe)
    requires seed < ID_SIZE
    ensures p == ProbeAt(seed, id)
  {
    if seed > ID_SIZE - WINDOW {
      var unwrap := new byte[WINDOW](_ => 0);
      var n := ID_SIZE - seed;
      forall i | 0 <= i < n {
        unwrap[i] := id[seed + i];
      }
      forall i | n <= i < WINDOW {
        unwrap[i] := id[i - n];
      }
      assert unwrap[..] == Unwrapped(seed, id);
      assert unwrap[..][..8] == unwrap[..8];
      return Probe(LittleEndian(unwrap[..8]), unwrap[8]);
    }
    assert Unwrapped(seed, id)[..8] == id[seed..seed + 8];
    return Probe(LittleEndian(id[seed..seed + 8]), id[seed + 8]);
  }

  function ProbeAt(seed: nat, id: PieceID): Probe
    requires seed < ID_SIZE
  {
    var w := Unwrapped(seed, id);
    Probe(LittleEndian(w[..8]), w[8])
  }

  function InitialOffset(seed: byte): nat {
    seed % 32
  }

  function RangeOffset(seed: byte): (r: nat)
    ensures r in {9, 13, 19, 23}
  {
    RANGE_OFFSETS[seed / 32 % |RANGE_OFFSETS|]
  }

  /** The offset of the k-th probe, as the loops of Add and Contains step it. */
  function OffsetAt(seed: byte, k: nat): (offset: nat)
    ensures offset < ID_SIZE
  {
    if k == 0 then InitialOffset(seed)
    else
      var next := OffsetAt(seed, k - 1) + RangeOffset(seed);
      if next >= ID_SIZE then next - ID_SIZE else next
  }

  /** From one probe to a later one, the offset advances by so many steps, less whole rounds. */
  lemma {:induction false} OffsetAdvances(seed: byte, j: nat, k: nat) returns (rounds: nat)
    requires j <= k
    ensures OffsetAt(seed, k) == OffsetAt(seed, j) + RangeOffset(seed) * (k - j) - ID_SIZE * rounds
  {
    if j == k {
      return 0;
    }
    hide RangeOffset;
    rounds := OffsetAdvances(seed, j, k - 1);
    Distribute(RangeOffset(seed), k - 1 - j, 1);
    assert k - j == k - 1 - j + 1;
    if OffsetAt(seed, k - 1) + RangeOffset(seed) >= ID_SIZE {
      rounds := rounds + 1;
    }
  }

  /** Every step is odd, so the first 32 probes of a seed look at different windows. */
  lemma OffsetsDistinct(seed: byte, j: nat, k: nat)
    requires j < k < 32
    ensures OffsetAt(seed, j) != OffsetAt(seed, k)
  {
    var rounds := OffsetAdvances(seed, j, k);
    OddStepsDiffer(RangeOffset(seed), k - j, rounds);
  }

  /** Modulo 32 each of the steps has an inverse. */
  lemma OddStepsDiffer(step: nat, d: nat, rounds: nat)
    requires step in {9, 13, 19, 23} && 0 < d < 32
    ensures step * d != 32 * rounds
  {
  }

  // ---------- the table ----------

  /** The byte and the bit that the k-th probe of an id meets in a table of n bytes. */
  function BucketAt(seed: byte, k: nat, id: PieceID, n: nat): (bucket: nat)
    requires n > 0
    ensures bucket < n
  {
    ProbeAt(OffsetAt(seed, k), id).hash % n
  }

  function BitAt(seed: byte, k: nat, id: PieceID): (bit: nat)
    ensures bit < 8
  {
    ProbeAt(OffsetAt(seed, k), id).bit % 8
  }

  /** The k-th probe of an id finds its bit set. */
  predicate Hit(table: Bytes, seed: byte, k: nat, id: PieceID) {
    table != [] && HasBit(table[BucketAt(seed, k, id, |table|)], BitAt(seed, k, id))
  }

  ghost predicate Member(table: Bytes, seed: byte, hashCount: nat, id: PieceID) {
    forall k: nat :: k < hashCount ==> Hit(table, seed, k, id)
  }

  /** Bit b of byte i is met by one of the first n probes of an id. */
  ghost predicate Probed(size: nat, seed: byte, n: nat, id: PieceID, i: nat, b: nat) {
    size > 0 && exists k: nat :: k < n && BucketAt(seed, k, id, size) == i && BitAt(seed, k, id) == b
  }

  /** Exactly the probed bits are set in addition. */
  ghost predicate Added(before: Bytes, after: Bytes, seed: byte, n: nat, id: PieceID) {
    && |after| == |before|
    && forall i: nat, b: nat {:trigger HasBit(after[i], b)} :: i < |before| && b < 8 ==>
         (HasBit(after[i], b) <==> HasBit(before[i], b) || Probed(|before|, seed, n, id, i, b))
  }

  class Filter {
    const seed: byte
    const hashCount: byte
    const table: array<byte>

    constructor (seed: byte, hashCount: byte, table: array<byte>)
      ensures this.seed == seed && this.hashCount == hashCount && this.table == table
    {
      this.seed, this.hashCount, this.table := seed, hashCount, table;
    }

    method Add(id: PieceID)
      requires hashCount > 0 ==> table.Length > 0
      modifies table
      ensures Added(old(table[..]), table[..], seed, hashCount, id)
    {
      hide LittleEndian, Unwrapped, RangeOffset, InitialOffset, HasBit, SetByteBit, Added;
      var offset, rangeOffset := InitialOffset(seed), RangeOffset(seed);
      ghost var before := table[..];
      var k := 0;
      NothingProbed(before, seed, id);
      while k < hashCount
        invariant k <= hashCount && offset == OffsetAt(seed, k)
        invariant |before| == table.Length && Added(before, table[..], seed, k, id)
      {
        var p := Subrange(offset, id);
        offset := offset + rangeOffset;
        if offset >= ID_SIZE {
          offset := offset - ID_SIZE;
        }
        var bucket := p.hash % table.Length;
        ghost var now := table[..];
        table[bucket] := SetByteBit(table[bucket], p.bit % 8);
        assert table[..] == now[bucket := SetByteBit(now[bucket], p.bit % 8)];
        OneMoreProbe(before, now, seed, k, id);
        k := k + 1;
      }
    }

    method Contains(id: PieceID) returns (found: bool)
      requires hashCount > 0 ==> table.Length > 0
      ensures found <==> Member(table[..], seed, hashCount, id)
    {
      hide LittleEndian, Unwrapped, RangeOffset, InitialOffset, HasBit;
      var offset, rangeOffset := InitialOffset(seed), RangeOffset(seed);
      var k := 0;
      while k < hashCount
        invariant k <= hashCount && offset == OffsetAt(seed, k)
        invariant Member(table[..], seed, k, id)
      {
        var p := Subrange(offset, id);
        offset := offset + rangeOffset;
        if offset >= ID_SIZE {
          offset := offset - ID_SIZE;
        }
        var bucket := p.hash % table.Length;
        if !HasBit(table[bucket], p.bit % 8) {
          assert !Hit(table[..], seed, k, id);
          return false;
        }
        assert Hit(table[..], seed, k, id);
        k := k + 1;
      }
      return true;
    }

    method Serialize() returns (bytes: array<byte>)
      ensures fresh(bytes) && bytes[..] == Encoded(seed, hashCount, table[..])
    {
      bytes := new byte[3 + table.Length](_ => 0);
      bytes[0] := VERSION1;
      bytes[1] := seed;
      bytes[2] := hashCount;
      forall i | 0 <= i < table.Length {
        bytes[3 + i] := table[i];
      }
      assert bytes[..] == Encoded(seed, hashCount, table[..]);
    }
  }

  lemma NothingProbed(before: Bytes, seed: byte, id: PieceID)
    ensures Added(before, before, seed, 0, id)
  {
  }

  lemma OneMoreProbe(before: Bytes, now: Bytes, seed: byte, k: nat, id: PieceID)
    requires before != [] && Added(before, now, seed, k, id)
    ensures var bucket, bit := BucketAt(seed, k, id, |before|), BitAt(seed, k, id);
            Added(before, now[bucket := SetByteBit(now[bucket], bit)], seed, k + 1, id)
  {
    var bucket, bit := BucketAt(seed, k, id, |before|), BitAt(seed, k, id);
    var after := now[bucket := SetByteBit(now[bucket], bit)];
    hide HasBit, SetBit, SetByteBit, BucketAt, BitAt;
    forall i: nat, b: nat | i < |before| && b < 8
      ensures HasBit(after[i], b) <==> HasBit(before[i], b) || Probed(|before|, seed, k + 1, id, i, b)
    {
      SetBitSetsOne(now[bucket], bit, b);
      ProbedOneMore(|before|, seed, k, id, i, b);
    }
  }

  lemma ProbedOneMore(size: nat, seed: byte, k: nat, id: PieceID, i: nat, b: nat)
    requires size > 0
    ensures Probed(size, seed, k + 1, id, i, b) <==>
              Probed(size, seed, k, id, i, b) || (BucketAt(seed, k, id, size) == i && BitAt(seed, k, id) == b)
  {
    hide BucketAt, BitAt;
  }

  // ---------- no false negatives ----------

  /** What was added is a member, and stays one whatever is added later. */
  lemma AddedIsMember(before: Bytes, after: Bytes, seed: byte, hashCount: nat, id: PieceID, other: PieceID)
    requires (hashCount > 0 ==> before != []) && Added(before, after, seed, hashCount, id)
    ensures Member(after, seed, hashCount, id)
    ensures Member(before, seed, hashCount, other) ==> Member(after, seed, hashCount, other)
  {
    hide HasBit, BucketAt, BitAt;
    forall k: nat | k < hashCount ensures Hit(after, seed, k, id) {
      assert Probed(|before|, seed, hashCount, id, BucketAt(seed, k, id, |before|), BitAt(seed, k, id));
    }
    if Member(before, seed, hashCount, other) {
      forall k: nat | k < hashCount ensures Hit(after, seed, k, other) {
        assert Hit(before, seed, k, other);
      }
    }
  }

  /** A run of Adds: the tables in between, from the first to the last. */
  ghost predicate AddRun(tables: seq<Bytes>, ids: seq<PieceID>, seed: byte, hashCount: nat) {
    && |tables| == |ids| + 1 && (hashCount > 0 ==> tables[0] != [])
    && forall i :: 0 <= i < |ids| ==> (hashCount > 0 ==> tables[i] != []) && Added(tables[i], tables[i + 1], seed, hashCount, ids[i])
  }

  lemma {:induction false} NoFalseNegatives(tables: seq<Bytes>, ids: seq<PieceID>, seed: byte, hashCount: nat, i: nat)
    requires AddRun(tables, ids, seed, hashCount) && i < |ids|
    ensures Member(tables[|ids|], seed, hashCount, ids[i])
    decreases |ids|
  {
    var last := |ids| - 1;
    if i == last {
      AddedIsMember(tables[last], tables[last + 1], seed, hashCount, ids[last], ids[last]);
    } else {
      assert tables[..|ids|][last] == tables[last];
      NoFalseNegatives(tables[..|ids|], ids[..last], seed, hashCount, i);
      AddedIsMember(tables[last], tables[last + 1], seed, hashCount, ids[last], ids[i]);
    }
  }

  /** Exactly: after a run of Adds, an id is found when each of its probes found its bit set before the run,
      or meets a bit that a probe of an added id meets. */
  lemma FoundExactly(tables: seq<Bytes>, ids: seq<PieceID>, seed: byte, hashCount: nat, id: PieceID)
    requires AddRun(tables, ids, seed, hashCount)
    ensures Member(tables[|ids|], seed, hashCount, id) <==>
              forall k: nat :: k < hashCount ==> Hit(tables[0], seed, k, id) || Met(ids, seed, hashCount, |tables[0]|, k, id)
  {
    hide HasBit, BucketAt, BitAt, Met, Hit, Added;
    TableKeepsSize(tables, ids, seed, hashCount);
    forall k: nat | k < hashCount
      ensures Hit(tables[|ids|], seed, k, id) <==> Hit(tables[0], seed, k, id) || Met(ids, seed, hashCount, |tables[0]|, k, id)
    {
      HitExactly(tables, ids, seed, hashCount, k, id);
    }
  }

  /** A probe of one of the ids meets the bit that the k-th probe of `id` looks at. */
  ghost predicate Met(ids: seq<PieceID>, seed: byte, hashCount: nat, size: nat, k: nat, id: PieceID) {
    size > 0 && exists i :: 0 <= i < |ids| && Probed(size, seed, hashCount, ids[i], BucketAt(seed, k, id, size), BitAt(seed, k, id))
  }

  lemma {:induction false} TableKeepsSize(tables: seq<Bytes>, ids: seq<PieceID>, seed: byte, hashCount: nat)
    requires AddRun(tables, ids, seed, hashCount)
    ensures |tables[|ids|]| == |tables[0]|
    decreases |ids|
  {
    if ids != [] {
      TableKeepsSize(tables[..|ids|], ids[..|ids| - 1], seed, hashCount);
      assert Added(tables[|ids| - 1], tables[|ids|], seed, hashCount, ids[|ids| - 1]);
    }
  }

  lemma {:induction false} HitExactly(tables: seq<Bytes>, ids: seq<PieceID>, seed: byte, hashCount: nat, k: nat, id: PieceID)
    requires AddRun(tables, ids, seed, hashCount) && k < hashCount
    ensures Hit(tables[|ids|], seed, k, id) <==> Hit(tables[0], seed, k, id) || Met(ids, seed, hashCount, |tables[0]|, k, id)
    decreases |ids|
  {
    hide HasBit, BucketAt, BitAt, Probed;
    if ids != [] {
      var n := |ids| - 1;
      HitExactly(tables[..n + 1], ids[..n], seed, hashCount, k, id);
      TableKeepsSize(tables[..n + 1], ids[..n], seed, hashCount);
      var size := |tables[0]|;
      assert Added(tables[n], tables[n + 1], seed, hashCount, ids[n]);
      assert HasBit(tables[n + 1][BucketAt(seed, k, id, size)], BitAt(seed, k, id)) <==>
             HasBit(tables[n][BucketAt(seed, k, id, size)], BitAt(seed, k, id)) ||
             Probed(size, seed, hashCount, ids[n], BucketAt(seed, k, id, size), BitAt(seed, k, id));
      assert Met(ids, seed, hashCount, size, k, id) <==>
             Met(ids[..n], seed, hashCount, size, k, id) ||
             Probed(size, seed, hashCount, ids[n], BucketAt(seed, k, id, size), BitAt(seed, k, id)) by {
        assert forall i :: 0 <= i < n ==> ids[..n][i] == ids[i];
      }
    }
  }

  // ---------- probes in bytes of the id ----------

  /** The k-th probe starts at the seed modulo 32, k steps on, where the step is one of four by the three
      high bits of the seed. */
  lemma ProbeOffsets(seed: byte, k: nat)
    ensures OffsetAt(seed, 0) == seed % 32
    ensures var next := OffsetAt(seed, k) + (if seed / 32 % 4 == 0 then 9 else if seed / 32 % 4 == 1 then 13
                                              else if seed / 32 % 4 == 2 then 19 else 23);
            OffsetAt(seed, k + 1) == next % 32
  {
  }

  /** It hashes eight bytes of the id in little-endian order, cyclically, and takes the bit from the ninth. */
  lemma ProbeBytes(o: nat, id: PieceID)
    requires o < 32
    ensures ProbeAt(o, id).bit == id[(o + 8) % 32]
    ensures ProbeAt(o, id).hash ==
              id[o] as nat + 256 * (id[(o + 1) % 32] as nat + 256 * (id[(o + 2) % 32] as nat + 256 * (id[(o + 3) % 32] as nat +
              256 * (id[(o + 4) % 32] as nat + 256 * (id[(o + 5) % 32] as nat + 256 * (id[(o + 6) % 32] as nat +
              256 * (id[(o + 7) % 32] as nat)))))))
  {
    var w := Unwrapped(o, id);
    WindowIsCyclic(o, id, 0);
    WindowIsCyclic(o, id, 1);
    WindowIsCyclic(o, id, 2);
    WindowIsCyclic(o, id, 3);
    WindowIsCyclic(o, id, 4);
    WindowIsCyclic(o, id, 5);
    WindowIsCyclic(o, id, 6);
    WindowIsCyclic(o, id, 7);
    WindowIsCyclic(o, id, 8);
    hide Unwrapped, LittleEndian;
    LittleEndianOfEight(w);
  }

  lemma LittleEndianOfEight(w: Bytes)
    requires |w| >= 8
    ensures LittleEndian(w[..8]) ==
              w[0] as nat + 256 * (w[1] as nat + 256 * (w[2] as nat + 256 * (w[3] as nat +
              256 * (w[4] as nat + 256 * (w[5] as nat + 256 * (w[6] as nat + 256 * (w[7] as nat)))))))
  {
    hide LittleEndian;
    LittleEndianFrom(w, 0, 8);
    LittleEndianFrom(w, 1, 8);
    LittleEndianFrom(w, 2, 8);
    LittleEndianFrom(w, 3, 8);
    LittleEndianFrom(w, 4, 8);
    LittleEndianFrom(w, 5, 8);
    LittleEndianFrom(w, 6, 8);
    LittleEndianFrom(w, 7, 8);
    assert w[0..8] == w[..8];
  }

  lemma LittleEndianFrom(w: Bytes, i: nat, n: nat)
    requires i < n <= |w|
    ensures LittleEndian(w[i..n]) == w[i] as nat + 256 * LittleEndian(w[i + 1..n]) && LittleEndian([]) == 0
    ensures i + 1 == n ==> w[i + 1..n] == []
  {
    assert w[i..n][1..] == w[i + 1..n];
  }

  // ---------- the wire format ----------

  function Encoded(seed: byte, hashCount: byte, table: Bytes): Bytes {
    [VERSION1, seed, hashCount] + table
  }

  datatype DecodeError = NotEnoughData | UnsupportedVersion | InvalidHashCount

  datatype FilterValue = FilterValue(seed: byte, hashCount: byte, table: Bytes)

  function FromBytes(data: Bytes): Result<FilterValue, DecodeError> {
    if |data| < 3 then Err(NotEnoughData)
    else if data[0] != VERSION1 then Err(UnsupportedVersion)
    else if data[2] == 0 then Err(InvalidHashCount)
    else Ok(FilterValue(data[1], data[2], data[3..]))
  }

  /** Decoding undoes encoding exactly when there is a hash to compute, and encoding undoes decoding
      always. */
  lemma BytesRoundTrip(seed: byte, hashCount: byte, table: Bytes, data: Bytes)
    ensures FromBytes(Encoded(seed, hashCount, table)) == Ok(FilterValue(seed, hashCount, table)) <==> hashCount != 0
    ensures FromBytes(data).Ok? ==>
              var f := FromBytes(data).value; Encoded(f.seed, f.hashCount, f.table) == data
  {
    assert Encoded(seed, hashCount, table)[3..] == table;
    if FromBytes(data).Ok? {
      assert data == [data[0], data[1], data[2]] + data[3..];
    }
  }
}
