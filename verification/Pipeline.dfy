/** Padding to whole blocks (encryption/pad.go). */
module Padding {
  import opened Prelude
  import opened Numerals
  import opened Transforms

  const UINT32_SIZE := 4
  const UINT32_LIMIT := 0x1_0000_0000

  function PaddingAmount(dataLen: nat, blockSize: nat): (padding: nat)
    requires blockSize > 0
  {
    var r := (dataLen + UINT32_SIZE) % blockSize;
    UINT32_SIZE + if r > 0 then blockSize - r else 0
  }

  /** Big-endian, after the conversion to uint32. */
  function BigEndian32(n: nat): (b: Bytes)
    ensures |b| == UINT32_SIZE
  {
    var u := n % UINT32_LIMIT;
    [u / 0x100_0000, u / 0x1_0000 % 256, u / 0x100 % 256, u % 256]
  }

  function FromBigEndian32(b: Bytes): nat
    requires |b| == UINT32_SIZE
  {
    var (b0: nat, b1: nat, b2: nat, b3: nat) := (b[0], b[1], b[2], b[3]);
    b0 * 0x100_0000 + b1 * 0x1_0000 + b2 * 0x100 + b3
  }

  lemma BigEndianRoundTrip(n: nat)
    ensures FromBigEndian32(BigEndian32(n)) == n % UINT32_LIMIT
  {
    var u := n % UINT32_LIMIT;
    var v := u / 0x100;
    assert u == v * 0x100 + u % 0x100;
    assert u / 0x1_0000 == v / 0x100 && v == v / 0x100 * 0x100 + v % 0x100;
    assert u / 0x100_0000 == u / 0x1_0000 / 0x100;
  }

  /** The most significant byte comes first, and what does not fit in four bytes is lost. */
  lemma BigEndianBytes(n: nat)
    ensures var b := BigEndian32(n);
            (b[0] as int * 0x100_0000 + b[1] as int * 0x1_0000 + b[2] as int * 0x100 + b[3] as int) == n % 0x1_0000_0000
    ensures n < 256 ==> BigEndian32(n) == [0, 0, 0, n]
  {
    BigEndianRoundTrip(n);
  }

  function PaddingBytes(dataLen: nat, blockSize: nat): Bytes
    requires blockSize > 0
  {
    var padding := PaddingAmount(dataLen, blockSize);
    Zeros(padding - UINT32_SIZE) + BigEndian32(padding)
  }

  method MakePadding(dataLen: nat, blockSize: nat) returns (paddingBytes: array<byte>)
    requires blockSize > 0
    ensures fresh(paddingBytes) && paddingBytes[..] == PaddingBytes(dataLen, blockSize)
  {
    var amount := dataLen + UINT32_SIZE;
    var r := amount % blockSize;
    var padding := UINT32_SIZE;
    if r > 0 {
      padding := padding + (blockSize - r);
    }
    paddingBytes := new byte[padding](_ => 0);
    var count := BigEndian32(padding);
    assert paddingBytes[..padding - 4] == Zeros(padding - 4);
    paddingBytes[padding - 4] := count[0];
    paddingBytes[padding - 3] := count[1];
    paddingBytes[padding - 2] := count[2];
    paddingBytes[padding - 1] := count[3];
    assert paddingBytes[..] == paddingBytes[..padding - 4] + count;
  }

  /** The padding fills the last block, with the least room that holds its own length. */
  lemma PaddingFills(dataLen: nat, blockSize: nat, k: nat)
    requires blockSize > 0
    ensures (dataLen + PaddingAmount(dataLen, blockSize)) % blockSize == 0
    ensures UINT32_SIZE <= PaddingAmount(dataLen, blockSize) < blockSize + UINT32_SIZE
    ensures k >= UINT32_SIZE && (dataLen + k) % blockSize == 0 ==> k >= PaddingAmount(dataLen, blockSize)
  {
    var amount := dataLen + UINT32_SIZE;
    var q, r := amount / blockSize, amount % blockSize;
    StartOfQuotient(amount, blockSize);
    assert amount == Start(q, blockSize) + r;
    StartAdds(q, 1, blockSize);
    var total := dataLen + PaddingAmount(dataLen, blockSize);
    assert total == Start(if r > 0 then q + 1 else q, blockSize);
    DivModOf(if r > 0 then q + 1 else q, 0, blockSize);
    if k >= UINT32_SIZE && (dataLen + k) % blockSize == 0 && r > 0 {
      var m := (dataLen + k) / blockSize;
      assert dataLen + k == Start(m, blockSize);
      StartOrders(m, q, blockSize);
      StartOrders(q + 1, m, blockSize);
    }
  }

  function Pad(data: Bytes, blockSize: nat): Bytes
    requires blockSize > 0
  {
    data + PaddingBytes(|data|, blockSize)
  }

  datatype UnpadError = InvalidLength | NotEnoughData

  /** ranger.Subrange from the beginning: the length may also be negative. */
  datatype View = View(data: Bytes, length: int) {
    /** The bytes, when the view can be read at all. */
    function Contents(): Option<Bytes> {
      match ByteRanger(data).range(0, length)
      case None => None
      case Some(src) => Some(src.data)
    }
  }

  function Unpad(data: Bytes, padding: int): Result<View, UnpadError> {
    if |data| - padding > |data| then Err(InvalidLength) else Ok(View(data, |data| - padding))
  }

  function UnpadSlow(data: Bytes): Result<View, UnpadError> {
    match ByteRanger(data).range(|data| - UINT32_SIZE, UINT32_SIZE)
    case None => Err(NotEnoughData)
    case Some(src) => Unpad(data, FromBigEndian32(src.data))
  }

  /** Unpadding with the known amount always gives the data back. Without it, that is so exactly when
      the amount fits into the four bytes written for it. */
  lemma UnpadUndoesPad(data: Bytes, blockSize: nat)
    requires blockSize > 0
    ensures var padding := PaddingAmount(|data|, blockSize);
            && Unpad(Pad(data, blockSize), padding).Ok?
            && Unpad(Pad(data, blockSize), padding).value.Contents() == Some(data)
            && UnpadSlow(Pad(data, blockSize)).Ok?
            && (UnpadSlow(Pad(data, blockSize)).value.Contents() == Some(data) <==> padding < UINT32_LIMIT)
  {
    hide BigEndian32, FromBigEndian32, PaddingAmount, Zeros, Pad, UnpadSlow;
    PaddingFills(|data|, blockSize, 0);
    var padding := PaddingAmount(|data|, blockSize);
    var padded := Pad(data, blockSize);
    PaddedParts(data, blockSize);
    BigEndianRoundTrip(padding);
    UnpadSlowOfAnything(padded);
  }

  lemma PaddedParts(data: Bytes, blockSize: nat)
    requires blockSize > 0 && PaddingAmount(|data|, blockSize) >= UINT32_SIZE
    ensures var padding := PaddingAmount(|data|, blockSize);
            var padded := Pad(data, blockSize);
            && |padded| == |data| + padding && padded[..|data|] == data && padded[0..|data|] == data
            && padded[|padded| - UINT32_SIZE..] == BigEndian32(padding)
  {
    hide BigEndian32, PaddingAmount, Zeros;
  }

  /** UnpadSlow accepts every input of four bytes or more, but when the input claims more padding
      than it is long, the result has a negative size and cannot be read. */
  lemma UnpadSlowOfAnything(data: Bytes)
    ensures UnpadSlow(data).Ok? <==> |data| >= UINT32_SIZE
    ensures UnpadSlow(data).Ok? ==>
              var claimed := FromBigEndian32(data[|data| - UINT32_SIZE..]);
              && (UnpadSlow(data).value.Contents().Some? <==> claimed <= |data|)
              && (claimed <= |data| ==> UnpadSlow(data).value.Contents() == Some(data[..|data| - claimed]))
  {
    if |data| >= UINT32_SIZE {
      assert data[|data| - UINT32_SIZE..|data|] == data[|data| - UINT32_SIZE..];
      hide FromBigEndian32;
    }
  }
}

/** The transformers of the cipher suites and the whole encryption pipeline (encryption/encryption.go,
    encryption/aesgcm.go, encryption/secretbox.go). */
module Pipeline {
  import opened Prelude
  import opened Crypto
  import opened Numerals
  import opened Transforms
  import opened Bits
  import opened Padding

  function SealGcm(p: Primitives, key: Key, start: GcmNonce, block: Bytes, blockNum: int): (r: Option<Bytes>)
    ensures r.Some? ==> |r.value| == |block| + OVERHEAD
  {
    if blockNum < 0 then None else Some(p.gcmSeal(key, GcmNonceAt(start, blockNum), block))
  }

  function OpenGcm(p: Primitives, key: Key, start: GcmNonce, block: Bytes, blockNum: int): (r: Option<Bytes>)
    ensures r.Some? ==> |block| == |r.value| + OVERHEAD
  {
    if blockNum < 0 then None else p.gcmOpen(key, GcmNonceAt(start, blockNum), block)
  }

  function SealBox(p: Primitives, key: Key, start: Nonce, block: Bytes, blockNum: int): (r: Option<Bytes>)
    ensures r.Some? ==> |r.value| == |block| + OVERHEAD
  {
    if blockNum < 0 then None else Some(p.boxSeal(key, BoxNonceAt(start, blockNum), block))
  }

  function OpenBox(p: Primitives, key: Key, start: Nonce, block: Bytes, blockNum: int): (r: Option<Bytes>)
    ensures r.Some? ==> |block| == |r.value| + OVERHEAD
  {
    if blockNum < 0 then None else p.boxOpen(key, BoxNonceAt(start, blockNum), block)
  }

  function GcmEncrypter(p: Primitives, key: Key, start: GcmNonce, blockSize: nat): Transformer
    requires blockSize > OVERHEAD
  {
    var raw := TransformerRaw(blockSize - OVERHEAD, blockSize, (b: Bytes, n: int) => SealGcm(p, key, start, b, n));
    assert forall b, n :: raw.transform(b, n) == SealGcm(p, key, start, b, n);
    raw
  }

  function GcmDecrypter(p: Primitives, key: Key, start: GcmNonce, blockSize: nat): Transformer
    requires blockSize > OVERHEAD
  {
    var raw := TransformerRaw(blockSize, blockSize - OVERHEAD, (b: Bytes, n: int) => OpenGcm(p, key, start, b, n));
    assert forall b, n :: raw.transform(b, n) == OpenGcm(p, key, start, b, n);
    raw
  }

  function BoxEncrypter(p: Primitives, key: Key, start: Nonce, blockSize: nat): Transformer
    requires blockSize > OVERHEAD
  {
    var raw := TransformerRaw(blockSize - OVERHEAD, blockSize, (b: Bytes, n: int) => SealBox(p, key, start, b, n));
    assert forall b, n :: raw.transform(b, n) == SealBox(p, key, start, b, n);
    raw
  }

  function BoxDecrypter(p: Primitives, key: Key, start: Nonce, blockSize: nat): Transformer
    requires blockSize > OVERHEAD
  {
    var raw := TransformerRaw(blockSize, blockSize - OVERHEAD, (b: Bytes, n: int) => OpenBox(p, key, start, b, n));
    assert forall b, n :: raw.transform(b, n) == OpenBox(p, key, start, b, n);
    raw
  }

  function NewEncrypter(p: Primitives, cipher: CipherSuite, key: Key, start: Nonce, blockSize: int): Result<Transformer, Error> {
    match cipher
    case EncNull => Ok(NOOP)
    case EncAESGCM =>
      if blockSize <= OVERHEAD then Err(InvalidConfig) else Ok(GcmEncrypter(p, key, ToAESGCMNonce(start), blockSize))
    case EncSecretBox =>
      if blockSize <= OVERHEAD then Err(InvalidConfig) else Ok(BoxEncrypter(p, key, start, blockSize))
    case EncNullBase64URL => Err(InvalidConfig)
    case EncUnspecified => Err(InvalidConfig)
  }

  function NewDecrypter(p: Primitives, cipher: CipherSuite, key: Key, start: Nonce, blockSize: int): Result<Transformer, Error> {
    match cipher
    case EncNull => Ok(NOOP)
    case EncAESGCM =>
      if blockSize <= OVERHEAD then Err(InvalidConfig) else Ok(GcmDecrypter(p, key, ToAESGCMNonce(start), blockSize))
    case EncSecretBox =>
      if blockSize <= OVERHEAD then Err(InvalidConfig) else Ok(BoxDecrypter(p, key, start, blockSize))
    case EncNullBase64URL => Err(InvalidConfig)
    case EncUnspecified => Err(InvalidConfig)
  }

  /** What the encrypters seal with: the block under the starting nonce plus the number of the block, added
      in little-endian order; under AES-GCM the nonce starts with the first twelve bytes. Every block grows
      by sixteen bytes, and blocks not larger than that are refused. */
  lemma EncrypterSeals(p: Primitives, cipher: CipherSuite, key: Key, start: Nonce, blockSize: int, block: Bytes, i: int)
    ensures cipher == EncNull ==>
              && NewEncrypter(p, cipher, key, start, blockSize).Ok?
              && var enc := NewEncrypter(p, cipher, key, start, blockSize).value;
                 enc.inSize == 1 == enc.outSize && enc.transform(block, i) == Some(block)
    ensures cipher == EncAESGCM || cipher == EncSecretBox ==>
              (NewEncrypter(p, cipher, key, start, blockSize).Ok? <==> blockSize > 16)
    ensures (cipher == EncAESGCM || cipher == EncSecretBox) && blockSize > 16 ==>
              var enc := NewEncrypter(p, cipher, key, start, blockSize).value;
              && enc.outSize == blockSize && enc.inSize == blockSize - 16
              && (i < 0 ==> enc.transform(block, i) == None)
              && (i >= 0 ==> enc.transform(block, i) == Some(
                   if cipher == EncAESGCM then p.gcmSeal(key, NonceOf(cipher, start, i), block)
                   else p.boxSeal(key, NonceOf(cipher, start, i), block)))
    ensures cipher == EncNullBase64URL || cipher == EncUnspecified ==> NewEncrypter(p, cipher, key, start, blockSize).Err?
  {
  }

  /** The nonce of block i. */
  function NonceOf(cipher: CipherSuite, start: Nonce, i: nat): (n: Bytes)
    ensures |n| == if cipher == EncAESGCM then 12 else 24
  {
    if cipher == EncAESGCM then GcmNonceAt(start[..12], i) else BoxNonceAt(start, i)
  }

  /** As a number, it is the start plus i; and two blocks of one stream never share a nonce. */
  lemma NoncesOfBlocks(cipher: CipherSuite, start: Nonce, i: nat, j: nat)
    ensures var size := if cipher == EncAESGCM then 12 else 24;
            && Pow(256, size) > 0
            && LittleEndian(NonceOf(cipher, start, i)) == (LittleEndian(start[..size]) + i) % Pow(256, size)
    ensures i != j && i < 0x8000_0000_0000_0000 && j < 0x8000_0000_0000_0000 ==> NonceOf(cipher, start, i) != NonceOf(cipher, start, j)
  {
    hide AddTo, LittleEndian, Pow;
    assert start[..24] == start;
    IncrementIsModular(if cipher == EncAESGCM then start[..12] else start, i);
    if i != j && i < 0x8000_0000_0000_0000 && j < 0x8000_0000_0000_0000 {
      NoncesAreUnique(start[..12], start, i, j);
    }
  }

  /** `dec` reads what `enc` writes, block by block with the same block numbers. */
  ghost predicate Undoes(dec: Transformer, enc: Transformer) {
    && dec.inSize == enc.outSize && dec.outSize == enc.inSize
    && forall b, n {:trigger enc.transform(b, n)} :: |b| == enc.inSize && n >= 0 ==>
         enc.transform(b, n).Some? && dec.transform(enc.transform(b, n).value, n) == Some(b)
  }

  lemma DecrypterUndoesEncrypter(p: Primitives, cipher: CipherSuite, key: Key, start: Nonce, blockSize: int)
    ensures var enc, dec := NewEncrypter(p, cipher, key, start, blockSize), NewDecrypter(p, cipher, key, start, blockSize);
            (enc.Ok? <==> dec.Ok?) && (enc.Ok? ==> Undoes(dec.value, enc.value))
  {
    hide GcmNonceAt, BoxNonceAt;
    match cipher
    case EncNull =>
    case EncAESGCM =>
      GcmUndone(p, key, ToAESGCMNonce(start));
    case EncSecretBox =>
      BoxUndone(p, key, start);
    case EncNullBase64URL =>
    case EncUnspecified =>
  }

  lemma GcmUndone(p: Primitives, key: Key, start: GcmNonce)
    ensures forall b, n {:trigger SealGcm(p, key, start, b, n)} :: n >= 0 ==>
              SealGcm(p, key, start, b, n).Some? && OpenGcm(p, key, start, SealGcm(p, key, start, b, n).value, n) == Some(b)
  {
    hide GcmNonceAt;
  }

  lemma BoxUndone(p: Primitives, key: Key, start: Nonce)
    ensures forall b, n {:trigger SealBox(p, key, start, b, n)} :: n >= 0 ==>
              SealBox(p, key, start, b, n).Some? && OpenBox(p, key, start, SealBox(p, key, start, b, n).value, n) == Some(b)
  {
    hide BoxNonceAt;
  }

  lemma {:induction false} WholeUndone(dec: Transformer, enc: Transformer, data: Bytes, first: nat, n: nat)
    requires Undoes(dec, enc) && Blocks(enc, data, n)
    ensures Whole(enc, data, first).Some?
    ensures Blocks(dec, Whole(enc, data, first).value, n)
    ensures Whole(dec, Whole(enc, data, first).value, first) == Some(data)
    decreases n
  {
    hide Start;
    TailBlocks(enc, data, n);
    if n == 0 {
      StartAdds(0, 0, enc.inSize);
      StartAdds(0, 0, dec.inSize);
    } else {
      WholeUndone(dec, enc, data[enc.inSize..], first + 1, n - 1);
      var head := enc.transform(data[..enc.inSize], first).value;
      var tail := Whole(enc, data[enc.inSize..], first + 1).value;
      StartAdds(n, 1, dec.inSize);
      assert (head + tail)[..dec.inSize] == head && (head + tail)[dec.inSize..] == tail;
      assert data == data[..enc.inSize] + data[enc.inSize..];
    }
  }

  /** What is stored for `data`. */
  function Stored(enc: Transformer, data: Bytes): Option<Bytes> {
    Whole(enc, Pad(data, enc.inSize), 0)
  }

  function PaddedBlocks(dataLen: nat, blockSize: nat): nat
    requires blockSize > 0
  {
    (dataLen + PaddingAmount(dataLen, blockSize)) / blockSize
  }

  lemma PadIsBlocks(t: Transformer, data: Bytes)
    ensures Blocks(t, Pad(data, t.inSize), PaddedBlocks(|data|, t.inSize))
  {
    hide PaddingAmount, Start;
    PaddingFills(|data|, t.inSize, 0);
    WholeBlocks(|data| + PaddingAmount(|data|, t.inSize), t.inSize);
  }

  lemma WholeBlocks(total: nat, size: nat)
    requires size > 0 && total % size == 0
    ensures total == Start(total / size, size)
  {
  }

  /** The whole pipeline: padding, encrypting, and decrypting any range. The parts of the padded data
      come back as they were; and without the padding, the whole is the data. */
  lemma DecryptedRange(p: Primitives, cipher: CipherSuite, key: Key, start: Nonce, blockSize: int, data: Bytes, offset: nat, length: nat)
    requires NewEncrypter(p, cipher, key, start, blockSize).Ok?
    ensures NewDecrypter(p, cipher, key, start, blockSize).Ok?
    ensures var enc, dec := NewEncrypter(p, cipher, key, start, blockSize).value, NewDecrypter(p, cipher, key, start, blockSize).value;
            var padded := Pad(data, enc.inSize);
            && Stored(enc, data).Some?
            && RangerSize(dec, ByteRanger(Stored(enc, data).value)) == |padded|
            && RangeStream(dec, ByteRanger(Stored(enc, data).value), offset, length) ==
                 if length == 0 then Ok(Stream([], EOF))
                 else if offset + length <= |padded| then Ok(Stream(Part(padded, offset, length), EOF))
                 else Err(RangerFailed)
  {
    hide NewEncrypter, NewDecrypter, Pad, Whole, RangeStream, PaddedBlocks, Undoes;
    DecrypterUndoesEncrypter(p, cipher, key, start, blockSize);
    var enc, dec := NewEncrypter(p, cipher, key, start, blockSize).value, NewDecrypter(p, cipher, key, start, blockSize).value;
    PadIsBlocks(enc, data);
    WholeUndone(dec, enc, Pad(data, enc.inSize), 0, PaddedBlocks(|data|, enc.inSize));
    RangeIsSlice(dec, Stored(enc, data).value, PaddedBlocks(|data|, enc.inSize), offset, length);
  }

  function CalcEncryptedSize(p: Primitives, dataSize: int, cipher: CipherSuite, blockSize: int): Result<int, Error> {
    match NewEncrypter(p, cipher, Zeros(KEY_SIZE), Zeros(NONCE_SIZE), blockSize)
    case Err(e) => Err(e)
    case Ok(t) =>
      var blocks := GoDiv(dataSize + UINT32_SIZE + t.inSize - 1, t.inSize);
      Ok(Start(blocks, t.outSize))
  }

  /** The calculated size is the size of what is stored, whatever key and nonce. */
  lemma CalcEncryptedSizeIsExact(p: Primitives, cipher: CipherSuite, key: Key, start: Nonce, blockSize: int, data: Bytes)
    ensures var enc := NewEncrypter(p, cipher, key, start, blockSize);
            && (enc.Err? ==> CalcEncryptedSize(p, |data|, cipher, blockSize) == Err(enc.error))
            && (enc.Ok? ==> Stored(enc.value, data).Some?
                            && CalcEncryptedSize(p, |data|, cipher, blockSize) == Ok(|Stored(enc.value, data).value|))
  {
    var made := NewEncrypter(p, cipher, key, start, blockSize);
    SizesDoNotDependOnKeys(p, cipher, key, start, blockSize);
    if made.Ok? {
      hide NewEncrypter, NewDecrypter, Pad, Whole, PaddedBlocks, Undoes, Start;
      var enc := made.value;
      DecrypterUndoesEncrypter(p, cipher, key, start, blockSize);
      var n := PaddedBlocks(|data|, enc.inSize);
      PadIsBlocks(enc, data);
      WholeUndone(NewDecrypter(p, cipher, key, start, blockSize).value, enc, Pad(data, enc.inSize), 0, n);
      WholeSize(enc, Pad(data, enc.inSize), 0, n);
      BlocksRoundUp(|data|, enc.inSize);
    }
  }

  lemma SizesDoNotDependOnKeys(p: Primitives, cipher: CipherSuite, key: Key, start: Nonce, blockSize: int)
    ensures var a, b := NewEncrypter(p, cipher, key, start, blockSize), NewEncrypter(p, cipher, Zeros(KEY_SIZE), Zeros(NONCE_SIZE), blockSize);
            && (a.Err? ==> b == a)
            && (a.Ok? ==> b.Ok? && b.value.inSize == a.value.inSize && b.value.outSize == a.value.outSize)
  {
  }

  /** Rounding up counts the blocks that padding fills. */
  lemma BlocksRoundUp(dataLen: nat, size: nat)
    requires size > 0
    ensures PaddedBlocks(dataLen, size) == (dataLen + UINT32_SIZE + size - 1) / size
  {
    var amount := dataLen + UINT32_SIZE;
    var q, r := amount / size, amount % size;
    assert amount == q * size + r;
    assert (q + 1) * size == q * size + size;
    if r == 0 {
      DivModOf(q, 0, size);
      DivModOf(q, size - 1, size);
    } else {
      DivModOf(q + 1, 0, size);
      DivModOf(q + 1, r - 1, size);
    }
  }
}
