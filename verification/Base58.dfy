/** Positional numerals: digit strings, most significant digit first, in any base. */
module Numerals {
  type Digits = seq<nat>

  ghost predicate InBase(base: nat, ds: Digits) {
    forall i :: 0 <= i < |ds| ==> ds[i] < base
  }

  /** One digit at a time, as in x = x * base + d. */
  function ToNat(base: nat, ds: Digits): nat
    decreases |ds|
  {
    if ds == [] then 0 else ToNat(base, ds[..|ds| - 1]) * base + ds[|ds| - 1]
  }

  /** The shortest numeral; zero has none. */
  function FromNat(base: nat, n: nat): Digits
    requires base >= 2
    decreases n
  {
    if n == 0 then [] else DivSmaller(n, base); FromNat(base, n / base) + [n % base]
  }

  function LeadingZeros(ds: Digits): (z: nat)
    ensures z <= |ds| && (forall i :: 0 <= i < z ==> ds[i] == 0) && (z < |ds| ==> ds[z] != 0)
  {
    if ds == [] || ds[0] != 0 then 0 else 1 + LeadingZeros(ds[1..])
  }

  function ZeroDigits(n: nat): (z: Digits)
    ensures |z| == n && forall i :: 0 <= i < n ==> z[i] == 0
  {
    seq(n, _ => 0)
  }

  /** Base conversion that keeps leading zeros one for one. */
  function Convert(from: nat, to: nat, ds: Digits): Digits
    requires to >= 2
  {
    ZeroDigits(LeadingZeros(ds)) + FromNat(to, ToNat(from, ds))
  }

  lemma MulMonotone(a: nat, b: nat, c: nat)
    requires a <= b
    ensures a * c <= b * c
  {
    assert b * c == a * c + (b - a) * c;
  }

  lemma MulRotate(a: nat, b: nat, c: nat)
    ensures a * (b * c) == (a * c) * b
  {
  }

  lemma DivSmaller(n: nat, base: nat)
    requires base >= 2 && n > 0
    ensures n / base < n
  {
    var q := n / base;
    assert n == q * base + n % base;
    assert q * base == q * 2 + q * (base - 2);
  }

  lemma MulAtLeast(a: nat, b: nat)
    requires a >= 1
    ensures a * b >= b
  {
    MulMonotone(1, a, b);
  }

  /** Quotient and remainder are unique. */
  lemma DivModOf(t: nat, d: nat, base: nat)
    requires d < base
    ensures (t * base + d) / base == t && (t * base + d) % base == d
  {
    var x := t * base + d;
    var q, r := x / base, x % base;
    assert q * base + r == t * base + d;
    if q < t {
      assert (t - q) * base == t * base - q * base;
      MulAtLeast(t - q, base);
    }
    if t < q {
      assert (q - t) * base == q * base - t * base;
      MulAtLeast(q - t, base);
    }
  }

  lemma {:induction false} ToNatOfFromNat(base: nat, n: nat)
    requires base >= 2
    ensures ToNat(base, FromNat(base, n)) == n
    ensures InBase(base, FromNat(base, n))
    ensures FromNat(base, n) != [] ==> FromNat(base, n)[0] != 0
    decreases n
  {
    if n > 0 {
      DivSmaller(n, base);
      var q, d := n / base, n % base;
      assert n == q * base + d;
      ToNatOfFromNat(base, q);
      ToNatSnoc(base, FromNat(base, q), d);
      assert FromNat(base, n) == FromNat(base, q) + [d];
    }
  }

  lemma ToNatSnoc(base: nat, ds: Digits, d: nat)
    ensures ToNat(base, ds + [d]) == ToNat(base, ds) * base + d
  {
    assert (ds + [d])[..|ds|] == ds;
  }

  lemma {:induction false} ToNatPositive(base: nat, ds: Digits)
    requires base >= 2 && ds != [] && ds[0] != 0
    ensures ToNat(base, ds) > 0
    decreases |ds|
  {
    if |ds| > 1 {
      ToNatPositive(base, ds[..|ds| - 1]);
      MulAtLeast(ToNat(base, ds[..|ds| - 1]), base);
    }
  }

  lemma {:induction false} FromNatOfToNat(base: nat, ds: Digits)
    requires base >= 2 && InBase(base, ds) && (ds == [] || ds[0] != 0)
    ensures FromNat(base, ToNat(base, ds)) == ds
    decreases |ds|
  {
    if ds != [] {
      ToNatPositive(base, ds);
      var init := ds[..|ds| - 1];
      FromNatOfToNat(base, init);
      DivModOf(ToNat(base, init), ds[|ds| - 1], base);
      assert ds == init + [ds[|ds| - 1]];
    }
  }

  lemma {:induction false} LeadingZerosDoNotCount(base: nat, z: nat, ds: Digits)
    ensures ToNat(base, ZeroDigits(z) + ds) == ToNat(base, ds)
    decreases |ds|, z
  {
    var all := ZeroDigits(z) + ds;
    if ds != [] {
      LeadingZerosDoNotCount(base, z, ds[..|ds| - 1]);
      assert all[..|all| - 1] == ZeroDigits(z) + ds[..|ds| - 1];
    } else if z > 0 {
      LeadingZerosDoNotCount(base, z - 1, []);
      assert all[..|all| - 1] == ZeroDigits(z - 1) + [];
    }
  }

  lemma LeadingZerosOf(z: nat, ds: Digits)
    requires ds == [] || ds[0] != 0
    ensures LeadingZeros(ZeroDigits(z) + ds) == z
  {
    var all := ZeroDigits(z) + ds;
    assert |all| > z ==> all[z] == ds[0];
    assert forall i :: 0 <= i < z ==> all[i] == 0;
  }

  /** Converting there and back is the identity on every digit string. */
  lemma ConvertRoundTrip(from: nat, to: nat, ds: Digits)
    requires from >= 2 && to >= 2 && InBase(from, ds)
    ensures InBase(to, Convert(from, to, ds))
    ensures Convert(to, from, Convert(from, to, ds)) == ds
  {
    var z := LeadingZeros(ds);
    var n := ToNat(from, ds);
    assert ds == ZeroDigits(z) + ds[z..];
    LeadingZerosDoNotCount(from, z, ds[z..]);
    FromNatOfToNat(from, ds[z..]);
    ToNatOfFromNat(to, n);
    LeadingZerosDoNotCount(to, z, FromNat(to, n));
    LeadingZerosOf(z, FromNat(to, n));
  }

  // ---------- several digits at a time ----------

  function Pow(base: nat, k: nat): nat {
    if k == 0 then 1 else base * Pow(base, k - 1)
  }

  lemma OneMoreDigit(base: nat, x: nat, p: nat, d: nat)
    requires x < p && d < base
    ensures x * base + d < base * p
  {
    MulMonotone(x + 1, p, base);
    assert (x + 1) * base == x * base + base;
  }

  lemma {:induction false} ToNatBound(base: nat, ds: Digits)
    requires InBase(base, ds)
    ensures ToNat(base, ds) < Pow(base, |ds|)
    decreases |ds|
  {
    if ds != [] {
      var init := ds[..|ds| - 1];
      ToNatBound(base, init);
      OneMoreDigit(base, ToNat(base, init), Pow(base, |init|), ds[|ds| - 1]);
    }
  }

  /** Appending a chunk multiplies by the power of its length and adds its value. */
  lemma {:induction false} ToNatAppend(base: nat, a: Digits, b: Digits)
    ensures ToNat(base, a + b) == ToNat(base, a) * Pow(base, |b|) + ToNat(base, b)
    decreases |b|
  {
    if b == [] {
      assert a + b == a;
    } else {
      hide ToNat, Pow;
      var init, last := b[..|b| - 1], b[|b| - 1];
      ToNatAppend(base, a, init);
      assert b == init + [last] && a + b == (a + init) + [last];
      ToNatSnoc(base, a + init, last);
      ToNatSnoc(base, init, last);
      PowSuccessor(base, |init|);
      ShiftDigits(ToNat(base, a), Pow(base, |init|), ToNat(base, init), base);
    }
  }

  lemma PowSuccessor(base: nat, k: nat)
    ensures Pow(base, k + 1) == base * Pow(base, k)
  {
  }

  lemma ShiftDigits(x: nat, p: nat, y: nat, base: nat)
    ensures (x * p + y) * base == x * (base * p) + y * base
  {
    MulRotate(x, base, p);
  }

  /** The numeral with its least significant digit first. */
  function LowFirst(base: nat, n: nat): Digits
    requires base >= 2
    decreases n
  {
    if n == 0 then [] else DivSmaller(n, base); [n % base] + LowFirst(base, n / base)
  }

  /** The `k` lowest digits, also the zeros among them. */
  function LowDigits(base: nat, n: nat, k: nat): Digits
    requires base >= 2
  {
    if k == 0 then [] else [n % base] + LowDigits(base, n / base, k - 1)
  }

  lemma {:induction false} LowFirstSplit(base: nat, q: nat, m: nat, k: nat)
    requires base >= 2 && q > 0 && m < Pow(base, k)
    ensures LowFirst(base, q * Pow(base, k) + m) == LowDigits(base, m, k) + LowFirst(base, q)
    decreases k
  {
    if k > 0 {
      hide Pow;
      var p := Pow(base, k - 1);
      PowStep(base, k);
      SplitStep(base, q, p, m);
      LowFirstSplit(base, q, m / base, k - 1);
    } else {
      assert Pow(base, 0) == 1 && m == 0;
    }
  }

  lemma PowStep(base: nat, k: nat)
    requires base >= 1 && k > 0
    ensures Pow(base, k) == base * Pow(base, k - 1) && Pow(base, k - 1) >= 1
  {
    PowPositive(base, k - 1);
  }

  /** One digit off a number in two parts. */
  lemma SplitStep(base: nat, q: nat, p: nat, m: nat)
    requires base >= 2 && q > 0 && p >= 1 && m < base * p
    ensures m / base < p && q * (base * p) + m > 0
    ensures (q * (base * p) + m) / base == q * p + m / base
    ensures (q * (base * p) + m) % base == m % base
  {
    MulRotate(q, base, p);
    QuotientBound(m, base, p);
    var t, r := q * p, m / base;
    assert m == r * base + m % base;
    assert (t + r) * base == t * base + r * base;
    DivModOf(t + r, m % base, base);
    MulAtLeast(q, p);
    MulAtLeast(t, base);
  }

  lemma {:induction false} PowPositive(base: nat, k: nat)
    requires base >= 1
    ensures Pow(base, k) >= 1
  {
    if k > 0 {
      PowPositive(base, k - 1);
      MulAtLeast(base, Pow(base, k - 1));
    }
  }

  lemma QuotientBound(m: nat, base: nat, p: nat)
    requires base >= 1 && m < base * p
    ensures m / base < p
  {
    var q := m / base;
    assert m == q * base + m % base;
    if p <= q {
      MulMonotone(p, q, base);
    }
  }

  function Reverse<T>(s: seq<T>): (r: seq<T>)
    ensures |r| == |s| && forall i :: 0 <= i < |s| ==> r[i] == s[|s| - 1 - i]
  {
    seq(|s|, i requires 0 <= i < |s| => s[|s| - 1 - i])
  }

  lemma {:induction false} ReverseLowFirst(base: nat, n: nat)
    requires base >= 2
    ensures Reverse(LowFirst(base, n)) == FromNat(base, n)
    decreases n
  {
    if n > 0 {
      DivSmaller(n, base);
      ReverseLowFirst(base, n / base);
      var low := LowFirst(base, n);
      assert low[1..] == LowFirst(base, n / base);
      assert Reverse(low) == Reverse(low[1..]) + [low[0]];
    }
  }
}

/** base58/base58.go, base58/base58check.go and the alphabet. */
module Base58 {
  import opened Prelude
  import opened Numerals

  const RADIX := 58
  const CHUNK := 10
  const ALPHABET_IDX0: byte := 49
  const NO_DIGIT := 255
  const TWO64 := 0x1_0000_0000_0000_0000

  // ---------- the alphabet ----------

  /** The table b58, by its runs: '1'-'9', 'A'-'H', 'J'-'N', 'P'-'Z', 'a'-'k', 'm'-'z'. */
  function B58(c: byte): (d: nat)
    ensures d < RADIX || d == NO_DIGIT
  {
    if 49 <= c <= 57 then c - 49
    else if 65 <= c <= 72 then c - 56
    else if 74 <= c <= 78 then c - 57
    else if 80 <= c <= 90 then c - 58
    else if 97 <= c <= 107 then c - 64
    else if 109 <= c <= 122 then c - 65
    else NO_DIGIT
  }

  /** The string alphabet, by the same runs. */
  function Alphabet(d: nat): (c: byte)
    requires d < RADIX
  {
    if d <= 8 then d + 49
    else if d <= 16 then d + 56
    else if d <= 21 then d + 57
    else if d <= 32 then d + 58
    else if d <= 43 then d + 64
    else d + 65
  }

  /** The two tables are inverse to each other, and digit zero is '1'. */
  lemma AlphabetInverse(c: byte, d: nat)
    ensures d < RADIX ==> B58(Alphabet(d)) == d
    ensures B58(c) != NO_DIGIT ==> Alphabet(B58(c)) == c
    ensures B58(c) == 0 <==> c == ALPHABET_IDX0
  {
  }

  /** The alphabet is the digits and letters without 0, I, O and l, in the order of their bytes. */
  lemma AlphabetInOrder(c: byte, d: nat, e: nat)
    requires d < e < 58
    ensures Alphabet(d) < Alphabet(e) && Alphabet(0) == 49 && Alphabet(57) == 122
    ensures B58(c) != NO_DIGIT <==>
              (48 <= c <= 57 || 65 <= c <= 90 || 97 <= c <= 122) && c != 48 && c != 73 && c != 79 && c != 108
  {
  }

  predicate OverAlphabet(s: Bytes) {
    forall i :: 0 <= i < |s| ==> B58(s[i]) != NO_DIGIT
  }

  function DigitsOf(s: Bytes): (ds: Digits)
    ensures |ds| == |s| && forall i :: 0 <= i < |s| ==> ds[i] == B58(s[i])
  {
    seq(|s|, i requires 0 <= i < |s| => B58(s[i]))
  }

  function Spell(ds: Digits): (s: Bytes)
    requires InBase(RADIX, ds)
    ensures |s| == |ds| && forall i :: 0 <= i < |ds| ==> s[i] == Alphabet(ds[i])
  {
    seq(|ds|, i requires 0 <= i < |ds| => Alphabet(ds[i]))
  }

  function ByteDigits(b: Bytes): (ds: Digits)
    ensures |ds| == |b| && InBase(256, ds) && forall i :: 0 <= i < |b| ==> ds[i] == b[i]
  {
    seq(|b|, i requires 0 <= i < |b| => b[i] as nat)
  }

  function AsBytes(ds: Digits): (b: Bytes)
    requires InBase(256, ds)
    ensures |b| == |ds| && forall i :: 0 <= i < |ds| ==> b[i] == ds[i]
  {
    seq(|ds|, i requires 0 <= i < |ds| => ds[i] as byte)
  }

  // ---------- specification ----------

  ghost function Encode(b: Bytes): Bytes {
    ConvertRoundTrip(256, RADIX, ByteDigits(b));
    Spell(Convert(256, RADIX, ByteDigits(b)))
  }

  ghost function Decode(s: Bytes): Bytes {
    if !OverAlphabet(s) then []
    else
      ConvertRoundTrip(RADIX, 256, DigitsOf(s));
      AsBytes(Convert(RADIX, 256, DigitsOf(s)))
  }

  /** Decoding undoes encoding on every byte string. */
  lemma DecodeUndoesEncode(b: Bytes)
    ensures OverAlphabet(Encode(b)) && Decode(Encode(b)) == b
  {
    var ds := Convert(256, RADIX, ByteDigits(b));
    ConvertRoundTrip(256, RADIX, ByteDigits(b));
    SpellDigits(ds);
    assert AsBytes(ByteDigits(b)) == b;
  }

  lemma SpellDigits(ds: Digits)
    requires InBase(RADIX, ds)
    ensures OverAlphabet(Spell(ds)) && DigitsOf(Spell(ds)) == ds
  {
    forall i | 0 <= i < |ds|
      ensures B58(Spell(ds)[i]) == ds[i]
    {
      AlphabetInverse(0, ds[i]);
    }
  }

  /** Encoding undoes decoding exactly on the strings over the alphabet. */
  lemma EncodeUndoesDecode(s: Bytes)
    ensures Encode(Decode(s)) == s <==> OverAlphabet(s)
  {
    DecodeUndoesEncode(Decode(s));
    if OverAlphabet(s) {
      ConvertRoundTrip(RADIX, 256, DigitsOf(s));
      assert ByteDigits(Decode(s)) == Convert(RADIX, 256, DigitsOf(s));
      forall i | 0 <= i < |s|
        ensures Alphabet(B58(s[i])) == s[i]
      {
        AlphabetInverse(s[i], 0);
      }
      assert Spell(DigitsOf(s)) == s;
    }
  }

  // ---------- the chunked loops ----------

  lemma ChunkFits(ds: Digits)
    requires InBase(RADIX, ds) && |ds| <= CHUNK
    ensures ToNat(RADIX, ds) < Pow(RADIX, CHUNK) <= 0x7fff_ffff_ffff_ffff
  {
    ToNatBound(RADIX, ds);
    PowMonotone(|ds|);
    PowTen();
  }

  lemma PowTen()
    ensures Pow(RADIX, CHUNK) == 430804206899405824
  {
    assert Pow(58, 1) == 58 && Pow(58, 2) == 3364 && Pow(58, 3) == 195112 && Pow(58, 4) == 11316496;
    assert Pow(58, 5) == 656356768 && Pow(58, 6) == 38068692544 && Pow(58, 7) == 2207984167552;
    assert Pow(58, 8) == 128063081718016 && Pow(58, 9) == 7427658739644928;
  }

  lemma {:induction false} PowMonotone(k: nat)
    requires k <= CHUNK
    ensures Pow(RADIX, k) <= Pow(RADIX, CHUNK)
    decreases CHUNK - k
  {
    if k < CHUNK {
      PowMonotone(k + 1);
    }
  }

  lemma ChunkStep(t: Bytes, k: nat)
    requires k < |t| && k < CHUNK && OverAlphabet(t[..k]) && B58(t[k]) != NO_DIGIT
    ensures OverAlphabet(t[..k + 1])
    ensures ToNat(RADIX, DigitsOf(t[..k + 1])) == ToNat(RADIX, DigitsOf(t[..k])) * RADIX + B58(t[k])
    ensures ToNat(RADIX, DigitsOf(t[..k + 1])) <= 0x7fff_ffff_ffff_ffff
  {
    assert DigitsOf(t[..k + 1]) == DigitsOf(t[..k]) + [B58(t[k])];
    ToNatSnoc(RADIX, DigitsOf(t[..k]), B58(t[k]));
    ChunkFits(DigitsOf(t[..k + 1]));
  }

  /** The value of up to ten characters in a uint64, or None at a character outside the alphabet. */
  method ChunkValue(t: Bytes) returns (total: Option<nat>)
    requires |t| <= CHUNK
    ensures total.Some? <==> OverAlphabet(t)
    ensures total.Some? ==> total.value == ToNat(RADIX, DigitsOf(t)) <= 0x7fff_ffff_ffff_ffff
  {
    hide ToNat, Pow;
    var sum: nat := 0;
    assert t[..0] == [];
    EmptyValue();
    for k := 0 to |t|
      invariant OverAlphabet(t[..k]) && sum == ToNat(RADIX, DigitsOf(t[..k])) <= 0x7fff_ffff_ffff_ffff
    {
      var tmp := B58(t[k]);
      if tmp == NO_DIGIT {
        return None;
      }
      ChunkStep(t, k);
      sum := (sum * RADIX + tmp) % TWO64;
    }
    assert t[..|t|] == t;
    return Some(sum);
  }

  lemma EmptyValue()
    ensures forall ds :: |ds| == 0 ==> ToNat(RADIX, ds) == 0
  {
  }

  lemma NextChunk(b: Bytes, done: nat, n: nat)
    requires done + n <= |b| && OverAlphabet(b[..done])
    ensures OverAlphabet(b[..done + n]) <==> OverAlphabet(b[done..done + n])
    ensures !OverAlphabet(b[..done + n]) ==> !OverAlphabet(b)
    ensures ToNat(RADIX, DigitsOf(b[..done + n])) ==
            ToNat(RADIX, DigitsOf(b[..done])) * Pow(RADIX, n) + ToNat(RADIX, DigitsOf(b[done..done + n]))
  {
    hide ToNat, Pow, OverAlphabet, DigitsOf;
    assert b[..done + n] == b[..done] + b[done..done + n] && b == b[..done + n] + b[done + n..];
    OverAppend(b[..done], b[done..done + n]);
    OverAppend(b[..done + n], b[done + n..]);
    ToNatAppend(RADIX, DigitsOf(b[..done]), DigitsOf(b[done..done + n]));
  }

  lemma OverAppend(a: Bytes, b: Bytes)
    ensures OverAlphabet(a + b) <==> OverAlphabet(a) && OverAlphabet(b)
    ensures DigitsOf(a + b) == DigitsOf(a) + DigitsOf(b)
  {
    hide B58;
    assert forall i :: 0 <= i < |a| ==> a[i] == (a + b)[i];
    assert forall i :: 0 <= i < |b| ==> b[i] == (a + b)[|a| + i];
  }

  /** The loop over the chunks. */
  method DecodeValue(b: Bytes) returns (answer: Option<nat>)
    ensures answer.Some? <==> OverAlphabet(b)
    ensures answer.Some? ==> answer.value == ToNat(RADIX, DigitsOf(b))
  {
    hide ToNat, Pow;
    var x: nat := 0;
    var done := 0;
    assert b[..0] == [];
    EmptyValue();
    while done < |b|
      invariant done <= |b| && OverAlphabet(b[..done])
      invariant x == ToNat(RADIX, DigitsOf(b[..done]))
      decreases |b| - done
    {
      var n := if |b| - done > CHUNK then CHUNK else |b| - done;
      var t := b[done..done + n];
      var total := ChunkValue(t);
      NextChunk(b, done, n);
      if total.None? {
        return None;
      }
      x := x * Pow(RADIX, n) + total.value;
      done := done + n;
    }
    assert b[..done] == b;
    return Some(x);
  }

  method CountOnes(b: Bytes) returns (numZeros: nat)
    requires OverAlphabet(b)
    ensures numZeros == LeadingZeros(DigitsOf(b))
  {
    numZeros := 0;
    while numZeros < |b| && b[numZeros] == ALPHABET_IDX0
      invariant numZeros <= LeadingZeros(DigitsOf(b))
      decreases |b| - numZeros
    {
      numZeros := numZeros + 1;
    }
    if numZeros < |b| {
      AlphabetInverse(b[numZeros], 0);
    }
  }

  method DecodeLoop(b: Bytes) returns (val: Bytes)
    ensures val == Decode(b)
  {
    var answer := DecodeValue(b);
    if answer.None? {
      return [];
    }
    ToNatOfFromNat(256, answer.value);
    var tmpval := AsBytes(FromNat(256, answer.value));
    var numZeros := CountOnes(b);
    val := Zeros(numZeros) + tmpval;
  }

  /** Ten digits when more are to come, and no leading zeros in the last chunk. */
  method ChunkDigits(mod: nat, last: bool) returns (chars: Bytes)
    requires mod < Pow(RADIX, CHUNK)
    ensures InBase(RADIX, LowFirst(RADIX, mod)) && InBase(RADIX, LowDigits(RADIX, mod, CHUNK))
    ensures chars == Spell(if last then LowFirst(RADIX, mod) else LowDigits(RADIX, mod, CHUNK))
  {
    LowInBase(mod);
    LowDigitsInBase(mod, CHUNK);
    hide InBase, LowFirst, LowDigits, Spell, Pow;
    chars := [];
    var m: nat := mod;
    if last {
      while m > 0
        invariant InBase(RADIX, LowFirst(RADIX, m))
        invariant chars + Spell(LowFirst(RADIX, m)) == Spell(LowFirst(RADIX, mod))
      {
        NextLowFirst(m, chars);
        chars := chars + [Alphabet(m % RADIX)];
        m := m / RADIX;
      }
      NoMoreDigits(chars);
    } else {
      for i := 0 to CHUNK
        invariant InBase(RADIX, LowDigits(RADIX, m, CHUNK - i))
        invariant chars + Spell(LowDigits(RADIX, m, CHUNK - i)) == Spell(LowDigits(RADIX, mod, CHUNK))
      {
        NextLowDigit(m, CHUNK - i, chars);
        chars := chars + [Alphabet(m % RADIX)];
        m := m / RADIX;
      }
      NoMoreDigits(chars);
    }
  }

  lemma NoMoreDigits(chars: Bytes)
    ensures LowFirst(RADIX, 0) == [] && forall m :: LowDigits(RADIX, m, 0) == []
    ensures Spell([]) == [] && chars + [] == chars
  {
  }

  lemma NextLowFirst(m: nat, chars: Bytes)
    requires m > 0
    ensures InBase(RADIX, LowFirst(RADIX, m)) && InBase(RADIX, LowFirst(RADIX, m / RADIX))
    ensures chars + Spell(LowFirst(RADIX, m)) == (chars + [Alphabet(m % RADIX)]) + Spell(LowFirst(RADIX, m / RADIX))
  {
    LowInBase(m);
    LowInBase(m / RADIX);
    SpellCons(m % RADIX, LowFirst(RADIX, m / RADIX));
    ConcatAssociative(chars, [Alphabet(m % RADIX)], Spell(LowFirst(RADIX, m / RADIX)));
  }

  lemma NextLowDigit(m: nat, n: nat, chars: Bytes)
    requires n > 0
    ensures InBase(RADIX, LowDigits(RADIX, m, n)) && InBase(RADIX, LowDigits(RADIX, m / RADIX, n - 1))
    ensures chars + Spell(LowDigits(RADIX, m, n)) ==
            (chars + [Alphabet(m % RADIX)]) + Spell(LowDigits(RADIX, m / RADIX, n - 1))
  {
    LowDigitsInBase(m, n);
    LowDigitsInBase(m / RADIX, n - 1);
    SpellCons(m % RADIX, LowDigits(RADIX, m / RADIX, n - 1));
    ConcatAssociative(chars, [Alphabet(m % RADIX)], Spell(LowDigits(RADIX, m / RADIX, n - 1)));
  }

  lemma SpellCons(d: nat, ds: Digits)
    requires d < RADIX && InBase(RADIX, ds)
    ensures InBase(RADIX, [d] + ds) && Spell([d] + ds) == [Alphabet(d)] + Spell(ds)
  {
  }

  lemma {:induction false} LowInBase(n: nat)
    ensures InBase(RADIX, LowFirst(RADIX, n))
    decreases n
  {
    if n > 0 {
      LowInBase(n / RADIX);
    }
  }

  lemma {:induction false} LowDigitsInBase(n: nat, k: nat)
    ensures InBase(RADIX, LowDigits(RADIX, n, k))
    decreases k
  {
    if k > 0 {
      LowDigitsInBase(n / RADIX, k - 1);
    }
  }

  /** The loop over the chunks, least significant digit first. */
  method EncodeDigits(n: nat) returns (answer: Bytes)
    ensures InBase(RADIX, LowFirst(RADIX, n)) && answer == Spell(LowFirst(RADIX, n))
  {
    hide Pow, LowFirst, LowDigits;
    var x: nat := n;
    answer := [];
    LowInBase(n);
    LowFirstOfZero();
    while x > 0
      invariant InBase(RADIX, LowFirst(RADIX, x))
      invariant answer + Spell(LowFirst(RADIX, x)) == Spell(LowFirst(RADIX, n))
      decreases x
    {
      PowTen();
      var q: nat, mod: nat := x / Pow(RADIX, CHUNK), x % Pow(RADIX, CHUNK);
      var chars := ChunkDigits(mod, q == 0);
      LowInBase(q);
      if q > 0 {
        LowFirstSplit(RADIX, q, mod, CHUNK);
        SpellAppend(LowDigits(RADIX, mod, CHUNK), LowFirst(RADIX, q));
        ConcatAssociative(answer, chars, Spell(LowFirst(RADIX, q)));
      }
      answer := answer + chars;
      x := q;
    }
  }

  lemma LowFirstOfZero()
    ensures LowFirst(RADIX, 0) == []
  {
  }

  method EncodeLoop(b: Bytes) returns (s: Bytes)
    ensures s == Encode(b)
  {
    hide ToNat, Encode, LowFirst;
    var answer := EncodeDigits(ToNat(256, ByteDigits(b)));
    ghost var digits := answer;
    for i := 0 to |b|
      invariant i <= LeadingZeros(ByteDigits(b))
      invariant answer == digits + Ones(i)
    {
      if b[i] != 0 {
        break;
      }
      answer := answer + [ALPHABET_IDX0];
    }
    assert answer == digits + Ones(LeadingZeros(ByteDigits(b)));
    var buffer := new byte[|answer|](i requires 0 <= i < |answer| => answer[i]);
    assert buffer[..] == answer;
    ReverseInPlace(buffer);
    s := buffer[..];
    ReversedIsEncode(b, digits);
  }

  function Ones(n: nat): (s: Bytes)
    ensures |s| == n && forall i :: 0 <= i < n ==> s[i] == ALPHABET_IDX0
  {
    seq(n, _ => ALPHABET_IDX0)
  }

  lemma SpellAppend(a: Digits, b: Digits)
    requires InBase(RADIX, a) && InBase(RADIX, b)
    ensures InBase(RADIX, a + b) && Spell(a + b) == Spell(a) + Spell(b)
  {
  }

  lemma ReversedIsEncode(b: Bytes, digits: Bytes)
    requires InBase(RADIX, LowFirst(RADIX, ToNat(256, ByteDigits(b))))
    requires digits == Spell(LowFirst(RADIX, ToNat(256, ByteDigits(b))))
    ensures Reverse(digits + Ones(LeadingZeros(ByteDigits(b)))) == Encode(b)
  {
    hide ToNat, FromNat, LowFirst;
    var n, z := ToNat(256, ByteDigits(b)), LeadingZeros(ByteDigits(b));
    ReverseLowFirst(RADIX, n);
    ConvertRoundTrip(256, RADIX, ByteDigits(b));
    assert Reverse(digits + Ones(z)) == Ones(z) + Reverse(digits);
    SpellReverse(LowFirst(RADIX, n));
    assert Ones(z) == Spell(ZeroDigits(z));
    SpellAppend(ZeroDigits(z), FromNat(RADIX, n));
  }

  lemma SpellReverse(ds: Digits)
    requires InBase(RADIX, ds)
    ensures InBase(RADIX, Reverse(ds)) && Reverse(Spell(ds)) == Spell(Reverse(ds))
  {
  }

  method ReverseInPlace(a: array<byte>)
    modifies a
    ensures a[..] == Reverse(old(a[..]))
  {
    ghost var before := a[..];
    var n := a.Length;
    for i := 0 to n / 2
      invariant forall k :: 0 <= k < i ==> a[k] == before[n - 1 - k] && a[n - 1 - k] == before[k]
      invariant forall k :: i <= k < n - i ==> a[k] == before[k]
    {
      a[i], a[n - 1 - i] := a[n - 1 - i], a[i];
    }
  }

  // ---------- Base58Check ----------

  datatype CheckError = ErrInvalidFormat | ErrChecksum

  datatype Payload = Payload(data: Bytes, version: byte)

  /** The first four bytes of a double SHA-256, as an unknown function. */
  type Checksum = Bytes -> Bytes

  ghost predicate FourBytes(checksum: Checksum) {
    forall b :: |checksum(b)| == 4
  }

  ghost function CheckEncode(checksum: Checksum, input: Bytes, version: byte): Bytes {
    var b := [version] + input;
    Encode(b + checksum(b))
  }

  ghost function CheckDecode(checksum: Checksum, input: Bytes): Result<Payload, CheckError> {
    var decoded := Decode(input);
    if |decoded| < 5 then Err(ErrInvalidFormat)
    else
      var body := decoded[..|decoded| - 4];
      if checksum(body) != decoded[|decoded| - 4..] then Err(ErrChecksum)
      else Ok(Payload(body[1..], decoded[0]))
  }

  /** The bytes under a checked text: the version, the input, and the checksum of both. */
  lemma CheckEncodedBytes(checksum: Checksum, input: Bytes, version: byte)
    ensures Decode(CheckEncode(checksum, input, version)) == [version] + input + checksum([version] + input)
  {
    DecodeUndoesEncode([version] + input + checksum([version] + input));
  }

  lemma ForeignDecodesToNothing(s: Bytes)
    requires !OverAlphabet(s)
    ensures Decode(s) == []
  {
  }

  /** CheckDecode inverts CheckEncode, and accepts no other spelling of a payload. */
  lemma CheckDecodeIsInverse(checksum: Checksum, input: Bytes, payload: Payload)
    requires FourBytes(checksum)
    ensures CheckDecode(checksum, input) == Ok(payload) <==> input == CheckEncode(checksum, payload.data, payload.version)
  {
    hide Encode, Decode, OverAlphabet;
    var b := [payload.version] + payload.data;
    var full := b + checksum(b);
    DecodeUndoesEncode(full);
    assert full[..|full| - 4] == b && full[|full| - 4..] == checksum(b) && b[1..] == payload.data;
    var decoded := Decode(input);
    if CheckDecode(checksum, input) == Ok(payload) {
      if !OverAlphabet(input) {
        ForeignDecodesToNothing(input);
      }
      EncodeUndoesDecode(input);
      assert decoded[..|decoded| - 4] == b;
      assert decoded == full;
    }
  }

  method CheckEncodeIn(checksum: Checksum, input: Bytes, version: byte) returns (s: Bytes)
    ensures s == CheckEncode(checksum, input, version)
  {
    var b := [version];
    b := b + input;
    var cksum := checksum(b);
    b := b + cksum;
    s := EncodeLoop(b);
  }

  method CheckDecodeIn(checksum: Checksum, input: Bytes) returns (r: Result<Payload, CheckError>)
    ensures r == CheckDecode(checksum, input)
  {
    var decoded := DecodeLoop(input);
    if |decoded| < 5 {
      return Err(ErrInvalidFormat);
    }
    var cksum := decoded[|decoded| - 4..];
    if checksum(decoded[..|decoded| - 4]) != cksum {
      return Err(ErrChecksum);
    }
    assert decoded[..|decoded| - 4][1..] == decoded[1..|decoded| - 4];
    return Ok(Payload(decoded[1..|decoded| - 4], decoded[0]));
  }
}
