/** Encrypting, decrypting and deriving keys along a sequence of components
    (encryption/path.go, the functions that do not touch a store). */
module PathCipher {
  import opened Prelude
  import opened Crypto
  import opened Paths
  import Segment

  const PATH_COLON: Bytes := [112, 97, 116, 104, 58]  // "path:"
  const NONCE: Bytes := [110, 111, 110, 99, 101]  // "nonce"

  type PathResult = Result<Path, Error>

  /** The ciphers whose path encryption can be undone. */
  predicate IsPathCipher(c: CipherSuite) {
    c == EncNull || c == EncAESGCM || c == EncSecretBox
  }

  lemma ReversibleCiphers(c: CipherSuite)
    ensures IsPathCipher(c) <==> c in {EncNull, EncAESGCM, EncSecretBox}
  {
  }

  // ---------- one component ----------

  function DerivePathKeyComponent(p: Primitives, key: Key, component: Bytes): Key {
    DeriveKey(p, key, PATH_COLON + component)
  }

  function NonceSize(cipher: CipherSuite): (n: nat)
    ensures 0 < n <= NONCE_SIZE
  {
    if cipher == EncAESGCM then AESGCM_NONCE_SIZE else NONCE_SIZE
  }

  function ComponentNonce(p: Primitives, key: Key, component: Bytes): Nonce {
    p.hmacSha512(DerivePathKeyComponent(p, key, component), NONCE)[..NONCE_SIZE]
  }

  function EncryptPathComponent(p: Primitives, comp: Bytes, cipher: CipherSuite, key: Key): Result<Bytes, Error> {
    if cipher == EncNull then Ok(comp)
    else if cipher == EncNullBase64URL then
      match p.base64Decode(comp)
      case None => Err(InvalidBase64)
      case Some(d) => Ok(d)
    else
      var nonce := ComponentNonce(p, key, comp);
      match Encrypt(p, comp, cipher, key, nonce)
      case Err(e) => Err(e)
      case Ok(cipherText) => Ok(Segment.Encoded(nonce[..NonceSize(cipher)] + cipherText))
  }

  function DecryptPathComponent(p: Primitives, comp: Bytes, cipher: CipherSuite, key: Key): Result<Bytes, Error> {
    if comp == [] then Ok([])
    else if cipher == EncNull then Ok(comp)
    else if cipher == EncNullBase64URL then Ok(p.base64Encode(comp))
    else if !Segment.ValidSegment(comp) then Err(InvalidSegment)
    else
      var data := Segment.Decoded(comp);
      var nonceSize := NonceSize(cipher);
      if |data| < nonceSize then Err(ShortNonce)
      else
        var nonce: Nonce := data[..nonceSize] + Zeros(NONCE_SIZE - nonceSize);
        Decrypt(p, data[nonceSize..], cipher, key, nonce)
  }

  /** The encrypted component is one path component, is not empty unless the cipher is null, and
      decrypts to the original. */
  lemma ComponentRoundTrip(p: Primitives, comp: Bytes, cipher: CipherSuite, key: Key)
    requires IsPathCipher(cipher) && SLASH !in comp
    ensures EncryptPathComponent(p, comp, cipher, key).Ok?
    ensures var e := EncryptPathComponent(p, comp, cipher, key).value;
            && SLASH !in e
            && (e == [] <==> comp == [] && cipher == EncNull)
            && DecryptPathComponent(p, e, cipher, key) == Ok(comp)
  {
    if cipher != EncNull {
      var nonce := ComponentNonce(p, key, comp);
      var n := NonceSize(cipher);
      var nonce' := nonce[..n] + Zeros(NONCE_SIZE - n);
      assert nonce'[..n] == nonce[..n];
      if n == NONCE_SIZE {
        assert nonce' == nonce;
      }
      DecryptEncrypt(p, comp, cipher, key, nonce, nonce');
      var data := nonce[..n] + Encrypt(p, comp, cipher, key, nonce).value;
      Segment.DecodedEncoded(data);
      Segment.EncodedBytes(data);
      assert data[..n] == nonce[..n] && data[n..] == Encrypt(p, comp, cipher, key, nonce).value;
    }
  }

  // ---------- sequences of components ----------

  /** The key below `cs`. */
  function Derive(p: Primitives, key: Key, cs: Path): Key
    decreases cs
  {
    if cs == [] then key else Derive(p, DerivePathKeyComponent(p, key, cs[0]), cs[1..])
  }

  /** Every component is encrypted with the key of its parent. */
  function Encrypted(p: Primitives, cipher: CipherSuite, key: Key, cs: Path): (r: PathResult)
    ensures r.Ok? ==> |r.value| == |cs|
    decreases cs
  {
    if cs == [] then Ok([])
    else
      match EncryptPathComponent(p, cs[0], cipher, key)
      case Err(e) => Err(e)
      case Ok(head) =>
        match Encrypted(p, cipher, DerivePathKeyComponent(p, key, cs[0]), cs[1..])
        case Err(e) => Err(e)
        case Ok(tail) => Ok([head] + tail)
  }

  function Decrypted(p: Primitives, cipher: CipherSuite, key: Key, es: Path): (r: PathResult)
    ensures r.Ok? ==> |r.value| == |es|
    decreases es
  {
    if es == [] then Ok([])
    else
      match DecryptPathComponent(p, es[0], cipher, key)
      case Err(e) => Err(e)
      case Ok(head) =>
        match Decrypted(p, cipher, DerivePathKeyComponent(p, key, head), es[1..])
        case Err(e) => Err(e)
        case Ok(tail) => Ok([head] + tail)
  }

  lemma {:induction false} EncryptedOk(p: Primitives, cipher: CipherSuite, key: Key, cs: Path)
    requires IsPathCipher(cipher) && NoSlashes(cs)
    ensures Encrypted(p, cipher, key, cs).Ok?
    ensures NoSlashes(Encrypted(p, cipher, key, cs).value)
    ensures cs != [[]] ==> Encrypted(p, cipher, key, cs).value != [[]]
    decreases cs
  {
    if cs != [] {
      ComponentRoundTrip(p, cs[0], cipher, key);
      EncryptedOk(p, cipher, DerivePathKeyComponent(p, key, cs[0]), cs[1..]);
    }
  }

  /** Encryption under a reversible cipher cannot fail. */
  function E(p: Primitives, cipher: CipherSuite, key: Key, cs: Path): (es: Path)
    requires IsPathCipher(cipher) && NoSlashes(cs)
    ensures Encrypted(p, cipher, key, cs) == Ok(es)
    ensures |es| == |cs| && NoSlashes(es)
    ensures IsRaw(cs) ==> IsRaw(es)
  {
    EncryptedOk(p, cipher, key, cs);
    Encrypted(p, cipher, key, cs).value
  }

  lemma {:induction false} DeriveAppend(p: Primitives, key: Key, a: Path, b: Path)
    ensures Derive(p, key, a + b) == Derive(p, Derive(p, key, a), b)
    decreases a
  {
    if a == [] {
      assert a + b == b;
    } else {
      assert (a + b)[1..] == a[1..] + b;
      DeriveAppend(p, DerivePathKeyComponent(p, key, a[0]), a[1..], b);
    }
  }

  /** Encrypting from further down with the derived key gives the rest of the same encryption. */
  lemma {:induction false} EAppend(p: Primitives, cipher: CipherSuite, key: Key, a: Path, b: Path)
    requires IsPathCipher(cipher) && NoSlashes(a) && NoSlashes(b)
    ensures E(p, cipher, key, a + b) == E(p, cipher, key, a) + E(p, cipher, Derive(p, key, a), b)
    decreases a
  {
    if a == [] {
      assert a + b == b;
    } else {
      assert (a + b)[1..] == a[1..] + b;
      EAppend(p, cipher, DerivePathKeyComponent(p, key, a[0]), a[1..], b);
    }
  }

  lemma {:induction false} DecryptedE(p: Primitives, cipher: CipherSuite, key: Key, cs: Path)
    requires IsPathCipher(cipher) && NoSlashes(cs)
    ensures Decrypted(p, cipher, key, E(p, cipher, key, cs)) == Ok(cs)
    decreases cs
  {
    if cs != [] {
      ComponentRoundTrip(p, cs[0], cipher, key);
      var below := DerivePathKeyComponent(p, key, cs[0]);
      DecryptedE(p, cipher, below, cs[1..]);
      assert E(p, cipher, key, cs)[1..] == E(p, cipher, below, cs[1..]);
      assert [cs[0]] + cs[1..] == cs;
    }
  }

  lemma EPrefix(p: Primitives, cipher: CipherSuite, key: Key, cs: Path, n: nat)
    requires IsPathCipher(cipher) && NoSlashes(cs) && n <= |cs|
    ensures E(p, cipher, key, cs)[..n] == E(p, cipher, key, cs[..n])
    ensures E(p, cipher, key, cs)[n..] == E(p, cipher, Derive(p, key, cs[..n]), cs[n..])
  {
    assert cs == cs[..n] + cs[n..];
    EAppend(p, cipher, key, cs[..n], cs[n..]);
  }

  lemma EInjective(p: Primitives, cipher: CipherSuite, key: Key, a: Path, b: Path)
    requires IsPathCipher(cipher) && NoSlashes(a) && NoSlashes(b)
    requires E(p, cipher, key, a) == E(p, cipher, key, b)
    ensures a == b
  {
    DecryptedE(p, cipher, key, a);
    DecryptedE(p, cipher, key, b);
  }

  /** Under one root key, encryption neither merges nor separates component-wise prefixes. */
  lemma EReflectsPrefix(p: Primitives, cipher: CipherSuite, key: Key, a: Path, b: Path)
    requires IsPathCipher(cipher) && NoSlashes(a) && NoSlashes(b)
    ensures E(p, cipher, key, a) <= E(p, cipher, key, b) <==> a <= b
  {
    if |a| <= |b| {
      EPrefix(p, cipher, key, b, |a|);
      var ea, eb := E(p, cipher, key, a), E(p, cipher, key, b);
      assert (ea <= eb <==> ea == eb[..|a|]) && (a <= b <==> a == b[..|a|]);
      if ea == eb[..|a|] {
        EInjective(p, cipher, key, a, b[..|a|]);
      }
    }
  }

  // ---------- in terms of the primitives ----------

  /** The key of a component is the truncated MAC of the labelled component under the key of its parent. */
  lemma DeriveIsMac(p: Primitives, key: Key, cs: Path, c: Bytes)
    ensures Derive(p, key, []) == key
    ensures Derive(p, key, cs + [c]) == p.hmacSha512(Derive(p, key, cs), [112, 97, 116, 104, 58] + c)[..32]
  {
    DeriveAppend(p, key, cs, [c]);
    var one: Path := [c];
    assert one[1..] == [];
  }

  /** The MACs along a path, innermost component last. */
  function MacChain(p: Primitives, key: Key, cs: Path): Key
    decreases |cs|
  {
    if cs == [] then key
    else p.hmacSha512(MacChain(p, key, cs[..|cs| - 1]), [112, 97, 116, 104, 58] + cs[|cs| - 1])[..32]
  }

  lemma {:induction false} DeriveIsMacChain(p: Primitives, key: Key, cs: Path)
    ensures Derive(p, key, cs) == MacChain(p, key, cs)
    decreases |cs|
  {
    if cs != [] {
      var init, last := cs[..|cs| - 1], cs[|cs| - 1];
      assert cs == init + [last];
      DeriveIsMac(p, key, init, last);
      DeriveIsMacChain(p, key, init);
    }
  }

  /** The encryption of the i-th component: sealed under the key of its parent, with the nonce that the
      key of the component itself gives, in front of it. */
  lemma EncryptedComponent(p: Primitives, cipher: CipherSuite, key: Key, cs: Path, i: nat)
    requires IsPathCipher(cipher) && NoSlashes(cs) && i < |cs|
    ensures var parent, own := Derive(p, key, cs[..i]), Derive(p, key, cs[..i + 1]);
            var nonce := p.hmacSha512(own, [110, 111, 110, 99, 101])[..24];
            E(p, cipher, key, cs)[i] ==
              match cipher
              case EncAESGCM =>
                Segment.Encoded(nonce[..12] + if cs[i] == [] then [] else p.gcmSeal(parent, nonce[..12], cs[i]))
              case EncSecretBox =>
                Segment.Encoded(nonce + if cs[i] == [] then [] else p.boxSeal(parent, nonce, cs[i]))
              case _ => cs[i]
  {
    var parent, rest := Derive(p, key, cs[..i]), cs[i..];
    EPrefix(p, cipher, key, cs, i);
    assert E(p, cipher, key, cs)[i] == E(p, cipher, key, cs)[i..][0];
    assert EncryptPathComponent(p, rest[0], cipher, parent) == Ok(E(p, cipher, parent, rest)[0]);
    assert cs[..i + 1] == cs[..i] + [cs[i]];
    DeriveIsMac(p, key, cs[..i], cs[i]);
    SealedComponent(p, cs[i], cipher, parent);
  }

  lemma SealedComponent(p: Primitives, c: Bytes, cipher: CipherSuite, parent: Key)
    requires IsPathCipher(cipher)
    ensures var own := p.hmacSha512(parent, [112, 97, 116, 104, 58] + c)[..32];
            var nonce := p.hmacSha512(own, [110, 111, 110, 99, 101])[..24];
            EncryptPathComponent(p, c, cipher, parent) == Ok(
              match cipher
              case EncAESGCM => Segment.Encoded(nonce[..12] + if c == [] then [] else p.gcmSeal(parent, nonce[..12], c))
              case EncSecretBox => Segment.Encoded(nonce + if c == [] then [] else p.boxSeal(parent, nonce, c))
              case _ => c)
  {
    var own := p.hmacSha512(parent, [112, 97, 116, 104, 58] + c)[..32];
    var nonce := p.hmacSha512(own, [110, 111, 110, 99, 101])[..24];
    assert nonce[..24] == nonce;
  }

  /** Keys separate: when two different paths of one length lead to the same key, two different inputs of
      the MAC have the same truncated MAC, at the depth n. */
  lemma {:induction false} KeysSeparate(p: Primitives, key: Key, key': Key, a: Path, b: Path) returns (n: nat)
    requires |a| == |b| && (key, a) != (key', b) && a != []
    requires Derive(p, key, a) == Derive(p, key', b)
    ensures n < |a|
    ensures var k, k' := Derive(p, key, a[..n]), Derive(p, key', b[..n]);
            && (k, a[n]) != (k', b[n])
            && p.hmacSha512(k, [112, 97, 116, 104, 58] + a[n])[..32] == p.hmacSha512(k', [112, 97, 116, 104, 58] + b[n])[..32]
    decreases |a|
  {
    n := |a| - 1;
    var a', b' := a[..n], b[..n];
    assert a == a' + [a[n]] && b == b' + [b[n]];
    DeriveIsMac(p, key, a', a[n]);
    DeriveIsMac(p, key', b', b[n]);
    if Derive(p, key, a') == Derive(p, key', b') && a[n] == b[n] && a' != [] {
      var m := KeysSeparate(p, key, key', a', b');
      assert a'[..m] == a[..m] && b'[..m] == b[..m];
      n := m;
    }
  }

  // ---------- the loops ----------

  method EncryptIterator(p: Primitives, iter: Iterator, cipher: CipherSuite, key: Key)
    returns (r: Result<Bytes, Error>)
    requires iter.Valid()
    modifies iter
    ensures iter.Valid()
    ensures r == JoinedResult(Encrypted(p, cipher, key, old(iter.Rest())))
  {
    ghost var whole := iter.Rest();
    var pb := new PathBuilder();
    var current := key;
    ContinueNone(Encrypted(p, cipher, key, whole));
    while !iter.Done()
      invariant iter.Valid() && pb.Valid() && fresh(pb)
      invariant ContinuesWith(Encrypted(p, cipher, key, whole), pb.parts, Encrypted(p, cipher, current, iter.Rest()))
      decreases |iter.Rest()|
    {
      ghost var rest, done := iter.Rest(), pb.parts;
      var component := iter.Next();
      assert rest[0] == component && rest[1..] == iter.Rest();
      var encComponent := EncryptPathComponent(p, component, cipher, current);
      if encComponent.Err? {
        return Err(encComponent.error);
      }
      current := DerivePathKeyComponent(p, current, component);
      pb.Append(encComponent.value);
      ContinueOne(Encrypted(p, cipher, key, whole), done, encComponent.value, Encrypted(p, cipher, current, iter.Rest()));
    }
    assert pb.parts + [] == pb.parts;
    return Ok(pb.b);
  }

  method DecryptIterator(p: Primitives, iter: Iterator, cipher: CipherSuite, key: Key)
    returns (r: Result<Bytes, Error>)
    requires iter.Valid()
    modifies iter
    ensures iter.Valid()
    ensures r == JoinedResult(Decrypted(p, cipher, key, old(iter.Rest())))
  {
    ghost var whole := iter.Rest();
    var pb := new PathBuilder();
    var current := key;
    ContinueNone(Decrypted(p, cipher, key, whole));
    while !iter.Done()
      invariant iter.Valid() && pb.Valid() && fresh(pb)
      invariant ContinuesWith(Decrypted(p, cipher, key, whole), pb.parts, Decrypted(p, cipher, current, iter.Rest()))
      decreases |iter.Rest()|
    {
      ghost var rest, done := iter.Rest(), pb.parts;
      var component := iter.Next();
      assert rest[0] == component && rest[1..] == iter.Rest();
      var unencComponent := DecryptPathComponent(p, component, cipher, current);
      if unencComponent.Err? {
        return Err(unencComponent.error);
      }
      current := DerivePathKeyComponent(p, current, unencComponent.value);
      pb.Append(unencComponent.value);
      ContinueOne(Decrypted(p, cipher, key, whole), done, unencComponent.value, Decrypted(p, cipher, current, iter.Rest()));
    }
    assert pb.parts + [] == pb.parts;
    return Ok(pb.b);
  }

  function JoinedResult(r: PathResult): Result<Bytes, Error> {
    match r
    case Err(e) => Err(e)
    case Ok(cs) => Ok(Join(cs))
  }

  /** `whole` is what remains to be computed, `rest`, after the components in `done`. */
  ghost predicate ContinuesWith(whole: PathResult, done: Path, rest: PathResult) {
    match rest
    case Err(e) => whole == Err(e)
    case Ok(cs) => whole == Ok(done + cs)
  }

  lemma ContinueNone(r: PathResult)
    ensures ContinuesWith(r, [], r)
  {
    if r.Ok? {
      assert [] + r.value == r.value;
    }
  }

  lemma ContinueOne(whole: PathResult, done: Path, c: Bytes, rest: PathResult)
    requires ContinuesWith(whole, done, if rest.Err? then rest else Ok([c] + rest.value))
    ensures ContinuesWith(whole, done + [c], rest)
  {
    if rest.Ok? {
      ConcatAssociative(done, [c], rest.value);
    }
  }

  /** EncryptPathRaw followed by DecryptPathRaw is the identity on every raw path. */
  lemma RawPathRoundTrip(p: Primitives, raw: Bytes, cipher: CipherSuite, key: Key)
    requires IsPathCipher(cipher)
    ensures JoinedResult(Encrypted(p, cipher, key, Split(raw))).Ok?
    ensures var enc := JoinedResult(Encrypted(p, cipher, key, Split(raw))).value;
            JoinedResult(Decrypted(p, cipher, key, Split(enc))) == Ok(raw)
  {
    JoinSplit(raw);
    var es := E(p, cipher, key, Split(raw));
    SplitJoin(es);
    DecryptedE(p, cipher, key, Split(raw));
  }
}
