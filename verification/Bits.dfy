/** Little-endian counters and block nonces (encryption/bits.go, encryption/aesgcm.go,
    encryption/secretbox.go). */
module Bits {
  import opened Prelude
  import opened Crypto
  import opened Numerals

  /** The little-endian value of a byte string. */
  function LittleEndian(b: Bytes): nat {
    if b == [] then 0 else b[0] + 256 * LittleEndian(b[1..])
  }

  lemma {:induction false} LittleEndianBound(b: Bytes)
    ensures LittleEndian(b) < Pow(256, |b|)
  {
    if b != [] {
      LittleEndianBound(b[1..]);
    }
  }

  lemma {:induction false} LittleEndianInjective(a: Bytes, b: Bytes)
    requires |a| == |b| && LittleEndian(a) == LittleEndian(b)
    ensures a == b
  {
    if a != [] {
      LittleEndianInjective(a[1..], b[1..]);
      assert a == [a[0]] + a[1..] && b == [b[0]] + b[1..];
    }
  }

  /** The bytes after adding `amount`, and what does not fit any more. */
  datatype Sum = Sum(bytes: Bytes, carry: nat)

  function AddTo(b: Bytes, amount: nat): (r: Sum)
    ensures |r.bytes| == |b|
  {
    if b == [] then Sum([], amount)
    else
      var rest := AddTo(b[1..], (b[0] + amount) / 256);
      Sum([(b[0] + amount) % 256] + rest.bytes, rest.carry)
  }

  /** Incrementing is addition modulo 256^n, and the carry is exactly what the modulus takes away. */
  lemma {:induction false} AddToIsAddition(b: Bytes, amount: nat)
    ensures LittleEndian(b) + amount == LittleEndian(AddTo(b, amount).bytes) + Pow(256, |b|) * AddTo(b, amount).carry
  {
    if b != [] {
      var d, c := (b[0] + amount) % 256, (b[0] + amount) / 256;
      var rest := AddTo(b[1..], c);
      AddToIsAddition(b[1..], c);
      assert AddTo(b, amount).bytes[1..] == rest.bytes;
      hide AddTo;
      MulAssociates(256, Pow(256, |b| - 1), rest.carry);
    }
  }

  lemma MulAssociates(a: int, b: int, c: int)
    ensures (a * b) * c == a * (b * c)
  {
  }

  lemma IncrementIsModular(b: Bytes, amount: nat)
    ensures Pow(256, |b|) > 0
    ensures LittleEndian(AddTo(b, amount).bytes) == (LittleEndian(b) + amount) % Pow(256, |b|)
    ensures AddTo(b, amount).carry != 0 <==> LittleEndian(b) + amount >= Pow(256, |b|)
  {
    PowPositive(256, |b|);
    var r, p := AddTo(b, amount), Pow(256, |b|);
    AddToIsAddition(b, amount);
    LittleEndianBound(r.bytes);
    assert p * r.carry == r.carry * p;
    DivModOf(r.carry, LittleEndian(r.bytes), p);
    if r.carry != 0 {
      MulAtLeast(r.carry, p);
    }
  }

  /** The sum is determined by its value. */
  lemma {:induction false} SumUnique(b: Bytes, amount: nat, bytes: Bytes, carry: nat)
    requires |bytes| == |b| && LittleEndian(b) + amount == LittleEndian(bytes) + Pow(256, |b|) * carry
    ensures AddTo(b, amount) == Sum(bytes, carry)
  {
    hide LittleEndian, AddTo;
    var p, r := Pow(256, |b|), AddTo(b, amount);
    AddToIsAddition(b, amount);
    LittleEndianBound(bytes);
    LittleEndianBound(r.bytes);
    MulCommutes(p, carry);
    MulCommutes(p, r.carry);
    DivModOf(carry, LittleEndian(bytes), p);
    DivModOf(r.carry, LittleEndian(r.bytes), p);
    LittleEndianInjective(bytes, r.bytes);
  }

  lemma MulCommutes(a: int, b: int)
    ensures a * b == b * a
  {
  }

  /** Increments compose, and so do their carries. */
  lemma {:induction false} IncrementsCompose(b: Bytes, m: nat, n: nat)
    ensures AddTo(AddTo(b, m).bytes, n).bytes == AddTo(b, m + n).bytes
    ensures AddTo(b, m).carry + AddTo(AddTo(b, m).bytes, n).carry == AddTo(b, m + n).carry
  {
    hide LittleEndian, AddTo;
    var v := AddTo(b, m);
    var w := AddTo(v.bytes, n);
    AddToIsAddition(b, m);
    AddToIsAddition(v.bytes, n);
    Distribute(Pow(256, |b|), v.carry, w.carry);
    SumUnique(b, m + n, w.bytes, v.carry + w.carry);
  }

  lemma Distribute(p: int, a: int, b: int)
    ensures p * (a + b) == p * a + p * b
  {
  }

  /** Different increments below the size of the counter give different bytes. */
  lemma IncrementsDistinct(b: Bytes, m: nat, n: nat)
    requires m < n < Pow(256, |b|)
    ensures AddTo(b, m).bytes != AddTo(b, n).bytes
  {
    var p := Pow(256, |b|);
    var v, w := AddTo(b, m), AddTo(b, n);
    AddToIsAddition(b, m);
    AddToIsAddition(b, n);
    if v.bytes == w.bytes {
      assert p * (w.carry - v.carry) == p * w.carry - p * v.carry == n - m;
      NoMultipleBetween(p, w.carry - v.carry, n - m);
    }
  }

  lemma NoMultipleBetween(p: nat, k: int, d: nat)
    requires 0 < d < p
    ensures p * k != d
  {
    if k >= 1 {
      assert p * k == k * p;
      MulAtLeast(k, p);
    } else {
      assert p * (-k) >= 0;
      assert p * k == -(p * (-k));
    }
  }

  datatype IncrementError = AmountNegative

  method IncrementBytes(buf: array<byte>, amount: int) returns (r: Result<bool, IncrementError>)
    modifies buf
    ensures amount < 0 ==> r == Err(AmountNegative) && buf[..] == old(buf[..])
    ensures amount >= 0 ==>
              && buf[..] == AddTo(old(buf[..]), amount).bytes
              && r == Ok(AddTo(old(buf[..]), amount).carry != 0)
  {
    if amount < 0 {
      return Err(AmountNegative);
    }
    hide AddTo, SumFrom, PartlyDone, SumByte, SumRest;
    ghost var before := buf[..];
    var left: nat := amount;
    var idx := 0;
    ghost var done: Bytes := [];
    SumFromStart(before, left);
    while left > 0 && idx < buf.Length
      invariant idx <= |before| == buf.Length && PartlyDone(buf[..], done, before, idx)
      invariant AddTo(before, amount) == SumFrom(done, before, idx, left)
      decreases buf.Length - idx
    {
      IncrementStep(buf[..], done, before, idx, left);
      done := done + [SumByte(buf[idx], left)];
      left := IncrementByte(buf, idx, left);
      idx := idx + 1;
    }
    SumFromEnd(buf[..], done, before, idx, left);
    return Ok(left != 0);
  }

  /** The body of the loop: the byte at `idx` takes the lowest byte of what is left, and the carry goes to
      the rest. */
  method IncrementByte(buf: array<byte>, idx: nat, left: nat) returns (rest: nat)
    requires idx < buf.Length
    modifies buf
    ensures buf[..] == old(buf[..])[idx := SumByte(old(buf[idx]), left)]
    ensures rest == SumRest(old(buf[idx]), left)
  {
    hide Wrap8;
    var inc: byte := left % 256;
    rest := left / 256;
    var prev := buf[idx];
    var sum := Wrap8(prev as int + inc as int);
    if sum < prev {
      rest := rest + 1;
    }
    ghost var bytes := buf[..];
    buf[idx] := sum;
    assert buf[..] == bytes[idx := sum];
  }

  function SumByte(prev: byte, left: nat): byte {
    Wrap8(prev as int + left % 256)
  }

  function SumRest(prev: byte, left: nat): nat {
    left / 256 + if SumByte(prev, left) < prev then 1 else 0
  }

  /** The first i bytes are done, and the others are as before. */
  ghost predicate PartlyDone(bytes: Bytes, done: Bytes, before: Bytes, i: nat) {
    i == |done| && i <= |before| && bytes == done + before[i..]
  }

  /** The sum when the first i bytes are done and `left` is still to be added to the others. */
  function SumFrom(done: Bytes, b: Bytes, i: nat, left: nat): Sum
    requires i <= |b|
  {
    var rest := AddTo(b[i..], left);
    Sum(done + rest.bytes, rest.carry)
  }

  lemma SumFromStart(b: Bytes, amount: nat)
    ensures PartlyDone(b, [], b, 0) && SumFrom([], b, 0, amount) == AddTo(b, amount)
  {
    assert b[0..] == b && [] + AddTo(b, amount).bytes == AddTo(b, amount).bytes;
  }

  lemma SumFromEnd(bytes: Bytes, done: Bytes, b: Bytes, i: nat, left: nat)
    requires PartlyDone(bytes, done, b, i) && (left == 0 || i == |b|)
    ensures SumFrom(done, b, i, left) == Sum(bytes, left)
  {
    if left == 0 {
      AddNothing(b[i..]);
    } else {
      assert b[i..] == [];
      AddToNothing(left);
    }
  }

  /** One turn of the loop: the byte it reads, the byte it writes, and what is left to be added. */
  lemma IncrementStep(bytes: Bytes, done: Bytes, b: Bytes, i: nat, left: nat)
    requires i < |b| && PartlyDone(bytes, done, b, i)
    ensures i < |bytes| == |b| && bytes[i] == b[i]
    ensures var sum := SumByte(bytes[i], left);
            && PartlyDone(bytes[i := sum], done + [sum], b, i + 1)
            && SumFrom(done + [sum], b, i + 1, SumRest(bytes[i], left)) == SumFrom(done, b, i, left)
  {
    hide AddTo, Wrap8;
    WrapCarries(b[i], left);
    AddToStep(b, i, left, done);
    UpdateNext(done, b, i, SumByte(b[i], left));
  }

  lemma UpdateNext(done: Bytes, b: Bytes, i: nat, x: byte)
    requires i == |done| && i < |b|
    ensures (done + b[i..])[i := x] == (done + [x]) + b[i + 1..]
  {
  }

  lemma AddToNothing(amount: nat)
    ensures AddTo([], amount) == Sum([], amount)
  {
  }

  /** The code's carry test is the carry of the addition. */
  lemma WrapCarries(prev: byte, amount: nat)
    ensures (prev as int + amount) % 256 == Wrap8(prev as int + amount % 256) as int
    ensures (prev as int + amount) / 256 == amount / 256 + (if Wrap8(prev as int + amount % 256) < prev then 1 else 0)
  {
  }

  lemma AddToStep(b: Bytes, i: nat, amount: nat, done: Bytes)
    requires i < |b|
    ensures var d: byte, c: nat := (b[i] + amount) % 256, (b[i] + amount) / 256;
            && done + AddTo(b[i..], amount).bytes == (done + [d]) + AddTo(b[i + 1..], c).bytes
            && AddTo(b[i..], amount).carry == AddTo(b[i + 1..], c).carry
  {
    assert b[i..][1..] == b[i + 1..];
    var d: byte, c: nat := (b[i] + amount) % 256, (b[i] + amount) / 256;
    ConcatAssociative(done, [d], AddTo(b[i + 1..], c).bytes);
  }

  lemma {:induction false} AddNothing(b: Bytes)
    ensures AddTo(b, 0) == Sum(b, 0)
  {
    if b != [] {
      AddNothing(b[1..]);
      assert b == [b[0]] + b[1..];
    }
  }

  // ---------- nonces ----------

  function GcmNonceAt(start: GcmNonce, blockNum: nat): GcmNonce {
    AddTo(start, blockNum).bytes
  }

  function BoxNonceAt(start: Nonce, blockNum: nat): Nonce {
    AddTo(start, blockNum).bytes
  }

  /** calcGCMNonce: the starting nonce is copied, so it stays as it is. */
  method CalcGCMNonce(start: GcmNonce, blockNum: int) returns (r: Result<GcmNonce, IncrementError>)
    ensures r == if blockNum < 0 then Err(AmountNegative) else Ok(GcmNonceAt(start, blockNum))
  {
    var rv := new byte[AESGCM_NONCE_SIZE](i requires 0 <= i < AESGCM_NONCE_SIZE => start[i]);
    assert rv[..] == start;
    var err := IncrementBytes(rv, blockNum);
    if err.Err? {
      return Err(err.error);
    }
    return Ok(rv[..]);
  }

  /** No two blocks of one stream share a nonce, whatever the starting nonce: block numbers are below
      2^63. */
  lemma NoncesAreUnique(gcm: GcmNonce, box: Nonce, i: nat, j: nat)
    requires i != j && i < 0x8000_0000_0000_0000 && j < 0x8000_0000_0000_0000
    ensures GcmNonceAt(gcm, i) != GcmNonceAt(gcm, j)
    ensures BoxNonceAt(box, i) != BoxNonceAt(box, j)
  {
    Pow256();
    if i < j {
      IncrementsDistinct(gcm, i, j);
      IncrementsDistinct(box, i, j);
    } else {
      IncrementsDistinct(gcm, j, i);
      IncrementsDistinct(box, j, i);
    }
  }

  lemma Pow256()
    ensures Pow(256, 12) >= 0x8000_0000_0000_0000
    ensures Pow(256, 24) >= 0x8000_0000_0000_0000
  {
    assert Pow(256, 1) == 256 && Pow(256, 2) == 65536 && Pow(256, 3) == 0x100_0000 && Pow(256, 4) == 0x1_0000_0000;
    assert Pow(256, 5) == 0x100_0000_0000 && Pow(256, 6) == 0x1_0000_0000_0000 && Pow(256, 7) == 0x100_0000_0000_0000;
    assert Pow(256, 8) == 0x1_0000_0000_0000_0000;
    PowGrows(8, 12);
    PowGrows(8, 24);
  }

  lemma {:induction false} PowGrows(m: nat, n: nat)
    requires m <= n
    ensures Pow(256, m) <= Pow(256, n)
    decreases n
  {
    if m < n {
      PowGrows(m, n - 1);
      PowPositive(256, n - 1);
    }
  }
}
