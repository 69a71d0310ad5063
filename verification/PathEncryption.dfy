/** encryptPath, decryptPath and DerivePathKey of encryption/path.go: path encryption through a
    store. */
module PathEncryption {
  import opened Prelude
  import opened Crypto
  import opened Paths
  import opened PathCipher
  import opened KeyTrie
  import opened StoreModel
  import opened KeyStore

  // ---------- what the functions compute ----------

  /** The key of a base; the default key still needs the bucket name mixed in. */
  function BaseKey(p: Primitives, base: Base, bucket: Bytes): Key {
    if base.isDefault then DerivePathKeyComponent(p, base.key, bucket) else base.key
  }

  /** What the pathBuilder makes of a base path and the components below it. */
  function Extend(raw: Bytes, below: Path): Bytes {
    Join((if raw != [] then [raw] else []) + (if below != [] then [Join(below)] else []))
  }

  function CipherOf(base: Base, pathCipher: Option<CipherSuite>): CipherSuite {
    if pathCipher.Some? then pathCipher.value else base.pathCipher
  }

  function EncryptBelow(p: Primitives, bucket: Bytes, base: Base, pathCipher: Option<CipherSuite>, remaining: Path): Result<Bytes, Error> {
    match Encrypted(p, CipherOf(base, pathCipher), BaseKey(p, base, bucket), remaining)
    case Err(e) => Err(e)
    case Ok(es) => Ok(Extend(base.encrypted, es))
  }

  function DecryptBelow(p: Primitives, bucket: Bytes, base: Base, pathCipher: Option<CipherSuite>, remaining: Path): Result<Bytes, Error> {
    match Decrypted(p, CipherOf(base, pathCipher), BaseKey(p, base, bucket), remaining)
    case Err(e) => Err(e)
    case Ok(us) => Ok(Extend(base.unencrypted, us))
  }

  /** encryptPath; `pathCipher` is None to use the cipher of the base. */
  function EncryptPath(p: Primitives, s: Model, bucket: Bytes, path: Bytes, pathCipher: Option<CipherSuite>): Result<Bytes, Error> {
    if path == [] then Ok([])
    else
      var found := LookupIn(s, bucket, path, true);
      if found.base.None? then Err(MissingBase)
      else EncryptBelow(p, bucket, found.base.value, pathCipher, found.remaining)
  }

  function DecryptPath(p: Primitives, s: Model, bucket: Bytes, path: Bytes, pathCipher: Option<CipherSuite>): Result<Bytes, Error> {
    if path == [] then Ok([])
    else
      var found := LookupIn(s, bucket, path, false);
      if found.base.None? then Err(MissingBase)
      else DecryptBelow(p, bucket, found.base.value, pathCipher, found.remaining)
  }

  function DerivePathKey(p: Primitives, s: Model, bucket: Bytes, path: Bytes): Result<Key, Error> {
    var found := LookupIn(s, bucket, path, true);
    match found.base
    case None => Err(MissingBase)
    case Some(base) =>
      if path == [] then Ok(BaseKey(p, base, bucket))
      else Ok(Derive(p, BaseKey(p, base, bucket), found.remaining))
  }

  lemma ExtendIsJoin(raw: Bytes, below: Path)
    ensures Extend(raw, below) == Join(Split(raw) + below)
  {
    JoinSplit(raw);
    if raw == [] {
      assert Split(raw) + below == below;
    } else if below == [] {
      assert Split(raw) + below == Split(raw);
    } else {
      JoinAppend(Split(raw), below);
      JoinAppend([raw], [Join(below)]);
      assert Join([Join(below)]) == Join(below) && Join([raw]) == raw;
    }
  }

  // ---------- stores from one key tree ----------

  /** The root key of every bucket. */
  type KeyTree = Bytes -> Key

  /** The entry is what the tree gives at its path. */
  ghost predicate FromTree(p: Primitives, cipher: CipherSuite, tree: KeyTree, flat: Flat, k: (Bytes, Path))
    requires IsPathCipher(cipher)
  {
    k in flat ==>
      && NoSlashes(k.1)
      && flat[k].enc == E(p, cipher, tree(k.0), k.1)
      && flat[k].base.key == Derive(p, tree(k.0), k.1)
      && flat[k].base.pathCipher == cipher
  }

  /** All bases of the store, and the default key if it has one, come from one key tree under the
      default path cipher. */
  ghost predicate InKeyTree(p: Primitives, s: Model, flat: Flat, tree: KeyTree) {
    && IsPathCipher(s.defaultPathCipher) && !s.encryptionBypass
    && Represents(s, flat)
    && (forall k {:trigger FromTree(p, s.defaultPathCipher, tree, flat, k)} ::
          FromTree(p, s.defaultPathCipher, tree, flat, k))
    && (s.defaultKey.Some? ==> forall b :: tree(b) == DerivePathKeyComponent(p, s.defaultKey.value, b))
  }

  /** A path the store can encrypt: there is a default key, or an entry above the path. */
  ghost predicate Covered(s: Model, flat: Flat, bucket: Bytes, path: Path) {
    s.defaultKey.Some? || exists n :: 0 <= n <= |path| && (bucket, path[..n]) in flat
  }

  function TreeEncryption(p: Primitives, s: Model, tree: KeyTree, bucket: Bytes, path: Bytes): Bytes
    requires IsPathCipher(s.defaultPathCipher)
  {
    Join(E(p, s.defaultPathCipher, tree(bucket), Split(path)))
  }

  /** A lookup that found a base at depth `n` of the path found the key of the tree at that depth. */
  ghost predicate FindsTreeKey(p: Primitives, s: Model, tree: KeyTree, bucket: Bytes, path: Path, base: Base, n: nat)
    requires IsPathCipher(s.defaultPathCipher)
  {
    && n <= |path| && NoSlashes(path)
    && base.pathCipher == s.defaultPathCipher
    && BaseKey(p, base, bucket) == Derive(p, tree(bucket), path[..n])
    && Split(base.unencrypted) == path[..n]
    && Split(base.encrypted) == E(p, s.defaultPathCipher, tree(bucket), path[..n])
  }

  lemma EntryFindsTreeKey(p: Primitives, s: Model, flat: Flat, tree: KeyTree, bucket: Bytes, path: Path, n: nat)
    requires InKeyTree(p, s, flat, tree) && NoSlashes(path)
    requires n <= |path| && (bucket, path[..n]) in flat
    ensures FindsTreeKey(p, s, tree, bucket, path, flat[(bucket, path[..n])].base, n)
  {
    assert FromTree(p, s.defaultPathCipher, tree, flat, (bucket, path[..n]));
    assert Named(s, flat, (bucket, path[..n]));
  }

  lemma DefaultFindsTreeKey(p: Primitives, s: Model, flat: Flat, tree: KeyTree, bucket: Bytes, path: Path)
    requires InKeyTree(p, s, flat, tree) && NoSlashes(path) && s.defaultKey.Some?
    ensures FindsTreeKey(p, s, tree, bucket, path, DefaultBase(s), 0)
  {
    assert path[..0] == [];
  }

  lemma LookupFindsTreeKey(p: Primitives, s: Model, flat: Flat, tree: KeyTree, bucket: Bytes, path: Bytes)
    returns (n: nat)
    requires InKeyTree(p, s, flat, tree)
    ensures var r := LookupIn(s, bucket, path, true);
            && (r.base.Some? <==> Covered(s, flat, bucket, Split(path)))
            && (r.base.Some? ==> FindsTreeKey(p, s, tree, bucket, Split(path), r.base.value, n))
            && (r.base.Some? ==> r.remaining == Split(path)[n..])
  {
    var cs := Split(path);
    var k := LookupIsLongestPrefix(s, flat, bucket, path, true);
    n := 0;
    if k.Some? {
      n := |k.value.1|;
      assert EntryAt(flat, bucket, cs[..n], true, k.value);
      EntryFindsTreeKey(p, s, flat, tree, bucket, cs, n);
    } else if s.defaultKey.Some? {
      DefaultFindsTreeKey(p, s, flat, tree, bucket, cs);
    } else {
      forall m | 0 <= m <= |cs|
        ensures (bucket, cs[..m]) !in flat
      {
        assert !EntryAt(flat, bucket, cs[..m], true, (bucket, cs[..m]));
      }
    }
  }

  /** From a base of the tree at any depth, the path encrypts as from the top, its encryption
      decrypts to it, and the key derives as from the top. */
  lemma BelowAnyBase(p: Primitives, s: Model, tree: KeyTree, bucket: Bytes, cs: Path, base: Base, n: nat)
    requires IsPathCipher(s.defaultPathCipher) && FindsTreeKey(p, s, tree, bucket, cs, base, n)
    ensures var es := E(p, s.defaultPathCipher, tree(bucket), cs);
            && EncryptBelow(p, bucket, base, None, cs[n..]) == Ok(Join(es))
            && DecryptBelow(p, bucket, base, None, es[n..]) == Ok(Join(cs))
    ensures Derive(p, BaseKey(p, base, bucket), cs[n..]) == Derive(p, tree(bucket), cs)
  {
    hide Extend, Join, Encrypted, Decrypted, Derive, Components, IsPathCipher;
    var cipher := s.defaultPathCipher;
    var es := E(p, cipher, tree(bucket), cs);
    EPrefix(p, cipher, tree(bucket), cs, n);
    assert es == es[..n] + es[n..] && cs == cs[..n] + cs[n..];
    ExtendIsJoin(base.encrypted, es[n..]);
    DecryptedE(p, cipher, Derive(p, tree(bucket), cs[..n]), cs[n..]);
    ExtendIsJoin(base.unencrypted, cs[n..]);
    DeriveAppend(p, tree(bucket), cs[..n], cs[n..]);
  }

  /** Whichever base a lookup picks, a path encrypts to the same bytes and derives the same key:
      those of the tree. Without a base both fail. */
  lemma TreeDecides(p: Primitives, s: Model, flat: Flat, tree: KeyTree, bucket: Bytes, path: Bytes)
    requires InKeyTree(p, s, flat, tree)
    ensures EncryptPath(p, s, bucket, path, None) ==
            if path == [] || Covered(s, flat, bucket, Split(path))
            then Ok(TreeEncryption(p, s, tree, bucket, path)) else Err(MissingBase)
    ensures DerivePathKey(p, s, bucket, path) ==
            if Covered(s, flat, bucket, Split(path))
            then Ok(Derive(p, tree(bucket), Split(path))) else Err(MissingBase)
  {
    var n := LookupFindsTreeKey(p, s, flat, tree, bucket, path);
    var r := LookupIn(s, bucket, path, true);
    if r.base.Some? {
      BelowAnyBase(p, s, tree, bucket, Split(path), r.base.value, n);
    }
  }

  // ---------- decryption ----------

  /** The two sides of a key tree store have their entries at the same depths of a path. */
  lemma SameEntries(p: Primitives, s: Model, flat: Flat, tree: KeyTree, bucket: Bytes, path: Path, n: nat, k: (Bytes, Path))
    requires InKeyTree(p, s, flat, tree) && NoSlashes(path) && n <= |path|
    ensures EntryAt(flat, bucket, E(p, s.defaultPathCipher, tree(bucket), path)[..n], false, k) <==>
            EntryAt(flat, bucket, path[..n], true, k)
  {
    assert FromTree(p, s.defaultPathCipher, tree, flat, k);
    EPrefix(p, s.defaultPathCipher, tree(bucket), path, n);
    if k in flat && k.0 == bucket && E(p, s.defaultPathCipher, tree(bucket), k.1) == E(p, s.defaultPathCipher, tree(bucket), path[..n]) {
      EInjective(p, s.defaultPathCipher, tree(bucket), k.1, path[..n]);
    }
  }

  ghost predicate IsFound(flat: Flat, bucket: Bytes, path: Path, unenc: bool, k: Option<(Bytes, Path)>) {
    if k.Some? then LongestEntry(flat, bucket, path, unenc, k.value) else NoEntry(flat, bucket, path, unenc)
  }

  lemma SameLongest(p: Primitives, s: Model, flat: Flat, tree: KeyTree, bucket: Bytes, path: Path,
                    k: Option<(Bytes, Path)>, k': Option<(Bytes, Path)>)
    requires InKeyTree(p, s, flat, tree) && NoSlashes(path)
    requires IsFound(flat, bucket, path, true, k)
    requires IsFound(flat, bucket, E(p, s.defaultPathCipher, tree(bucket), path), false, k')
    ensures k == k'
  {
    var es := E(p, s.defaultPathCipher, tree(bucket), path);
    if k.Some? {
      SameEntries(p, s, flat, tree, bucket, path, |k.value.1|, k.value);
      assert EntryAt(flat, bucket, es[..|k.value.1|], false, k.value);
    }
    if k'.Some? {
      SameEntries(p, s, flat, tree, bucket, path, |k'.value.1|, k'.value);
      assert EntryAt(flat, bucket, path[..|k'.value.1|], true, k'.value);
    }
  }

  /** Looking a path up and looking its encryption up selects the same base, at the same depth. */
  lemma SameBase(p: Primitives, s: Model, flat: Flat, tree: KeyTree, bucket: Bytes, path: Bytes)
    requires InKeyTree(p, s, flat, tree)
    ensures var plain := LookupIn(s, bucket, path, true);
            var enc := LookupIn(s, bucket, TreeEncryption(p, s, tree, bucket, path), false);
            && plain.base == enc.base
            && (plain.base.Some? ==>
                  && |plain.remaining| == |enc.remaining| <= |Split(path)|
                  && enc.remaining ==
                     E(p, s.defaultPathCipher, tree(bucket), Split(path))[|Split(path)| - |plain.remaining|..])
  {
    hide Represents, FromTree, E, LookupIn;
    var cs, es := Split(path), E(p, s.defaultPathCipher, tree(bucket), Split(path));
    JoinSplit(path);
    SplitJoin(es);
    var k := LookupIsLongestPrefix(s, flat, bucket, path, true);
    var k' := LookupIsLongestPrefix(s, flat, bucket, Join(es), false);
    SameLongest(p, s, flat, tree, bucket, cs, k, k');
  }

  /** Decrypting an encrypted path gives the path back, for every path the store can encrypt. */
  lemma DecryptUndoesEncrypt(p: Primitives, s: Model, flat: Flat, tree: KeyTree, bucket: Bytes, path: Bytes)
    requires InKeyTree(p, s, flat, tree) && (path == [] || Covered(s, flat, bucket, Split(path)))
    ensures EncryptPath(p, s, bucket, path, None).Ok?
    ensures DecryptPath(p, s, bucket, EncryptPath(p, s, bucket, path, None).value, None) == Ok(path)
  {
    hide Represents, FromTree, E, Join, LookupIn, Derive;
    TreeDecides(p, s, flat, tree, bucket, path);
    if path != [] {
      JoinSplit(path);
      SplitJoin(E(p, s.defaultPathCipher, tree(bucket), Split(path)));
      SameBase(p, s, flat, tree, bucket, path);
      var n := LookupFindsTreeKey(p, s, flat, tree, bucket, path);
      BelowAnyBase(p, s, tree, bucket, Split(path), LookupIn(s, bucket, path, true).base.value, n);
    }
  }

  // ---------- a default key alone ----------

  /** Under a default key, every path key is the chain of MACs over the bucket and the components. */
  lemma DefaultStoreDerives(p: Primitives, key: Key, cipher: CipherSuite, bypass: bool, bucket: Bytes, path: Bytes)
    ensures DerivePathKey(p, Model(map[], Some(key), cipher, bypass), bucket, path) ==
            Ok(MacChain(p, p.hmacSha512(key, [112, 97, 116, 104, 58] + bucket)[..32], Split(path)))
  {
    DeriveIsMac(p, key, [], bucket);
    DeriveIsMacChain(p, p.hmacSha512(key, [112, 97, 116, 104, 58] + bucket)[..32], Split(path));
  }

  // ---------- an overriding cipher ----------

  /** The encrypted components under the cipher c: those above the base as the base has them, and those
      below it under c. */
  function Overridden(p: Primitives, s: Model, tree: KeyTree, c: CipherSuite, bucket: Bytes, cs: Path, n: nat): (es: Path)
    requires IsPathCipher(s.defaultPathCipher) && IsPathCipher(c) && NoSlashes(cs) && n <= |cs|
    ensures |es| == |cs| && NoSlashes(es)
  {
    E(p, s.defaultPathCipher, tree(bucket), cs[..n]) + E(p, c, Derive(p, tree(bucket), cs[..n]), cs[n..])
  }

  /** EncryptPath uses the cipher it is given, from the base of the path on. */
  lemma OverrideDecides(p: Primitives, s: Model, flat: Flat, tree: KeyTree, c: CipherSuite, bucket: Bytes, path: Bytes)
    returns (n: nat)
    requires InKeyTree(p, s, flat, tree) && IsPathCipher(c)
    ensures n <= |Split(path)|
    ensures Covered(s, flat, bucket, Split(path)) ==> LookupIn(s, bucket, path, true).remaining == Split(path)[n..]
    ensures EncryptPath(p, s, bucket, path, Some(c)) ==
            if path == [] then Ok([])
            else if Covered(s, flat, bucket, Split(path)) then Ok(Join(Overridden(p, s, tree, c, bucket, Split(path), n)))
            else Err(MissingBase)
  {
    hide Represents, FromTree, LookupIn, Extend, Join, Covered, Derive;
    var cs := Split(path);
    n := LookupFindsTreeKey(p, s, flat, tree, bucket, path);
    if Covered(s, flat, bucket, cs) {
      var base := LookupIn(s, bucket, path, true).base.value;
      ExtendIsJoin(base.encrypted, E(p, c, Derive(p, tree(bucket), cs[..n]), cs[n..]));
      assert Encrypted(p, c, BaseKey(p, base, bucket), cs[n..]) == Ok(E(p, c, Derive(p, tree(bucket), cs[..n]), cs[n..]));
      hide E, Encrypted;
    } else {
      n := 0;
    }
  }

  lemma ExtendKeepsPrefix(raw: Bytes, below: Path)
    ensures Split(raw) <= Split(Extend(raw, below))
  {
    if raw != [] && below != [] {
      var parts: Path := [raw, Join(below)];
      assert Extend(raw, below) == Join(parts) == raw + [SLASH] + Join(below) by {
        assert parts[1..] == [Join(below)];
      }
      ComponentsAppend(raw, Join(below));
    }
  }

  lemma OverriddenIsRaw(p: Primitives, s: Model, tree: KeyTree, c: CipherSuite, bucket: Bytes, cs: Path, n: nat)
    requires IsPathCipher(s.defaultPathCipher) && IsPathCipher(c) && IsRaw(cs) && n <= |cs|
    ensures IsRaw(Overridden(p, s, tree, c, bucket, cs, n))
    ensures Overridden(p, s, tree, c, bucket, cs, n)[..n] == E(p, s.defaultPathCipher, tree(bucket), cs[..n])
    ensures Overridden(p, s, tree, c, bucket, cs, n)[n..] == E(p, c, Derive(p, tree(bucket), cs[..n]), cs[n..])
  {
    var above, below := E(p, s.defaultPathCipher, tree(bucket), cs[..n]), E(p, c, Derive(p, tree(bucket), cs[..n]), cs[n..]);
    if n == 0 {
      assert cs[n..] == cs && above + below == below;
    } else if n == |cs| {
      assert cs[..n] == cs && above + below == above;
    }
  }

  /** No entry deeper than n has this encrypted path as a prefix. */
  ghost predicate NothingDeeper(flat: Flat, bucket: Bytes, es: Path, n: nat) {
    forall m, k :: n < m <= |es| ==> !EntryAt(flat, bucket, es[..m], false, k)
  }

  /** Decrypting with the overriding cipher gives the path back exactly when no entry below the base
      happens to have the overridden encryption, or a prefix of it, as its encrypted path. */
  lemma DecryptUndoesOverride(p: Primitives, s: Model, flat: Flat, tree: KeyTree, c: CipherSuite, bucket: Bytes, path: Bytes)
    returns (n: nat)
    requires InKeyTree(p, s, flat, tree) && IsPathCipher(c) && path != [] && Covered(s, flat, bucket, Split(path))
    ensures n <= |Split(path)| && LookupIn(s, bucket, path, true).remaining == Split(path)[n..]
    ensures EncryptPath(p, s, bucket, path, Some(c)) == Ok(Join(Overridden(p, s, tree, c, bucket, Split(path), n)))
    ensures DecryptPath(p, s, bucket, EncryptPath(p, s, bucket, path, Some(c)).value, Some(c)) == Ok(path) <==>
            NothingDeeper(flat, bucket, Overridden(p, s, tree, c, bucket, Split(path), n), n)
  {
    hide Represents, FromTree, E, LookupIn, Derive, Join, Overridden, Extend;
    n := OverrideDecides(p, s, flat, tree, c, bucket, path);
    var cs := Split(path);
    JoinSplit(path);
    var es := Overridden(p, s, tree, c, bucket, cs, n);
    OverriddenIsRaw(p, s, tree, c, bucket, cs, n);
    SplitJoin(es);
    assert Join(es) != [];
    if NothingDeeper(flat, bucket, es, n) {
      SameBaseOverridden(p, s, flat, tree, bucket, path, es, n);
      DecryptBelowOverride(p, s, flat, tree, c, bucket, path, es, n);
    } else {
      DeeperBaseDecryptsElsewhere(p, s, flat, c, bucket, path, es, n);
    }
  }

  lemma SameBaseOverridden(p: Primitives, s: Model, flat: Flat, tree: KeyTree, bucket: Bytes, path: Bytes, es: Path, n: nat)
    requires InKeyTree(p, s, flat, tree) && IsRaw(es) && |es| == |Split(path)| && n <= |es|
    requires Covered(s, flat, bucket, Split(path)) && LookupIn(s, bucket, path, true).remaining == Split(path)[n..]
    requires es[..n] == E(p, s.defaultPathCipher, tree(bucket), Split(path)[..n]) && NothingDeeper(flat, bucket, es, n)
    ensures LookupIn(s, bucket, Join(es), false).base == LookupIn(s, bucket, path, true).base
    ensures LookupIn(s, bucket, path, true).base.Some? && LookupIn(s, bucket, Join(es), false).remaining == es[n..]
  {
    hide Represents, FromTree, LookupIn, E, Covered;
    var cs := Split(path);
    var m := LookupFindsTreeKey(p, s, flat, tree, bucket, path);
    SplitJoin(es);
    var k := LookupIsLongestPrefix(s, flat, bucket, path, true);
    var k' := LookupIsLongestPrefix(s, flat, bucket, Join(es), false);
    assert m == n by { assert |cs[m..]| == |cs[n..]|; }
    if k.Some? {
      assert |k.value.1| == n by { assert |cs[|k.value.1|..]| == |cs[n..]|; }
      EntryOfPrefix(p, s, flat, tree, bucket, cs, n, k.value);
      assert EntryAt(flat, bucket, es[..n], false, k.value);
      LongestIs(flat, bucket, es, n, k', k.value);
      SameEntry(p, s, flat, tree, k.value, k'.value);
    } else {
      assert n == 0 by { assert |cs[n..]| == |cs|; }
      NoneFound(flat, bucket, cs, es, k');
    }
  }

  lemma NoneFound(flat: Flat, bucket: Bytes, cs: Path, es: Path, found: Option<(Bytes, Path)>)
    requires NoEntry(flat, bucket, cs, true) && NothingDeeper(flat, bucket, es, 0)
    requires IsFound(flat, bucket, es, false, found)
    ensures found.None?
  {
    forall k | k in flat && k.0 == bucket
      ensures k.1 != []
    {
      assert cs[..0] == [] && !EntryAt(flat, bucket, cs[..0], true, k);
    }
  }

  lemma EntryOfPrefix(p: Primitives, s: Model, flat: Flat, tree: KeyTree, bucket: Bytes, cs: Path, n: nat, k: (Bytes, Path))
    requires InKeyTree(p, s, flat, tree) && NoSlashes(cs) && n <= |cs| && EntryAt(flat, bucket, cs[..n], true, k)
    ensures flat[k].enc == E(p, s.defaultPathCipher, tree(bucket), cs[..n])
  {
    assert FromTree(p, s.defaultPathCipher, tree, flat, k);
  }

  lemma LongestIs(flat: Flat, bucket: Bytes, es: Path, n: nat, found: Option<(Bytes, Path)>, k: (Bytes, Path))
    requires n <= |es| && EntryAt(flat, bucket, es[..n], false, k) && NothingDeeper(flat, bucket, es, n)
    requires IsFound(flat, bucket, es, false, found)
    ensures found.Some? && |found.value.1| == n && EntryAt(flat, bucket, es[..n], false, found.value)
  {
  }

  lemma SameEntry(p: Primitives, s: Model, flat: Flat, tree: KeyTree, k: (Bytes, Path), k': (Bytes, Path))
    requires InKeyTree(p, s, flat, tree) && k in flat && k' in flat && k.0 == k'.0 && flat[k].enc == flat[k'].enc
    ensures k == k'
  {
    assert FromTree(p, s.defaultPathCipher, tree, flat, k) && FromTree(p, s.defaultPathCipher, tree, flat, k');
    EInjective(p, s.defaultPathCipher, tree(k.0), k.1, k'.1);
  }

  lemma DecryptBelowOverride(p: Primitives, s: Model, flat: Flat, tree: KeyTree, c: CipherSuite, bucket: Bytes, path: Bytes, es: Path, n: nat)
    requires InKeyTree(p, s, flat, tree) && IsPathCipher(c) && IsRaw(es) && n <= |Split(path)| == |es|
    requires es[n..] == E(p, c, Derive(p, tree(bucket), Split(path)[..n]), Split(path)[n..]) && Join(es) != []
    requires var plain, enc := LookupIn(s, bucket, path, true), LookupIn(s, bucket, Join(es), false);
             plain.base.Some? && plain.base == enc.base && plain.remaining == Split(path)[n..] && enc.remaining == es[n..]
    ensures DecryptPath(p, s, bucket, Join(es), Some(c)) == Ok(path)
  {
    hide Represents, FromTree, E, LookupIn, Derive, Join, Extend;
    var cs := Split(path);
    var m := LookupFindsTreeKey(p, s, flat, tree, bucket, path);
    assert m == n by { assert |cs[m..]| == |cs[n..]|; }
    var base := LookupIn(s, bucket, path, true).base.value;
    DecryptedE(p, c, Derive(p, tree(bucket), cs[..n]), cs[n..]);
    ExtendIsJoin(base.unencrypted, cs[n..]);
    assert cs[..n] + cs[n..] == cs;
    JoinSplit(path);
  }

  lemma DeeperBaseDecryptsElsewhere(p: Primitives, s: Model, flat: Flat, c: CipherSuite, bucket: Bytes, path: Bytes, es: Path, n: nat)
    requires Represents(s, flat) && IsRaw(es) && |es| == |Split(path)| && n <= |es|
    requires LookupIn(s, bucket, path, true).base.Some? && LookupIn(s, bucket, path, true).remaining == Split(path)[n..]
    requires !NothingDeeper(flat, bucket, es, n) && Join(es) != []
    ensures DecryptPath(p, s, bucket, Join(es), Some(c)) != Ok(path)
  {
    hide Represents, LookupIn, Join, Extend, Decrypted;
    var cs := Split(path);
    SplitJoin(es);
    var k := LookupIsLongestPrefix(s, flat, bucket, path, true);
    var k' := LookupIsLongestPrefix(s, flat, bucket, Join(es), false);
    var m, deeper :| n < m <= |es| && EntryAt(flat, bucket, es[..m], false, deeper);
    assert k'.Some? && |k'.value.1| > n;
    assert |cs[n..]| == |cs| - n;
    EntryName(s, flat, k'.value);
    ProperAt(s, flat, k'.value);
    var j := |k'.value.1|;
    assert !EntryAt(flat, bucket, cs[..j], true, k'.value);
    var r := DecryptPath(p, s, bucket, Join(es), Some(c));
    if r == Ok(path) {
      var base := LookupIn(s, bucket, Join(es), false).base.value;
      var rest := LookupIn(s, bucket, Join(es), false).remaining;
      ExtendKeepsPrefix(base.unencrypted, Decrypted(p, c, BaseKey(p, base, bucket), rest).value);
    }
  }

  lemma ProperAt(s: Model, flat: Flat, k: (Bytes, Path))
    requires Represents(s, flat) && k in flat
    ensures ProperEntry(k, flat[k])
  {
    assert Named(s, flat, k);
  }

  // ---------- the code ----------

  /** The pathBuilder lines of both functions. */
  method BuildPath(raw: Bytes, remaining: Iterator, joined: Bytes, ghost below: Path) returns (path: Bytes)
    requires remaining.Valid() && joined == Join(below) && (remaining.Done() <==> below == [])
    ensures path == Extend(raw, below)
  {
    var pb := new PathBuilder();
    if raw != [] {
      pb.Append(raw);
    }
    if !remaining.Done() {
      pb.Append(joined);
    }
    return pb.b;
  }

  method EncryptFrom(p: Primitives, bucket: Bytes, base: Base, pathCipher: Option<CipherSuite>, remaining: Iterator)
    returns (r: Result<Bytes, Error>)
    requires remaining.Valid()
    ensures r == EncryptBelow(p, bucket, base, pathCipher, remaining.Rest())
  {
    var key := base.key;
    if base.isDefault {
      key := DerivePathKeyComponent(p, key, bucket);
    }
    var copy := new Iterator.Clone(remaining);
    r := EncryptIterator(p, copy, CipherOf(base, pathCipher), key);
    if r.Ok? {
      var path := BuildPath(base.encrypted, remaining, r.value,
                            Encrypted(p, CipherOf(base, pathCipher), key, remaining.Rest()).value);
      r := Ok(path);
    }
  }

  method DecryptFrom(p: Primitives, bucket: Bytes, base: Base, pathCipher: Option<CipherSuite>, remaining: Iterator)
    returns (r: Result<Bytes, Error>)
    requires remaining.Valid()
    ensures r == DecryptBelow(p, bucket, base, pathCipher, remaining.Rest())
  {
    var key := base.key;
    if base.isDefault {
      key := DerivePathKeyComponent(p, key, bucket);
    }
    var copy := new Iterator.Clone(remaining);
    r := DecryptIterator(p, copy, CipherOf(base, pathCipher), key);
    if r.Ok? {
      var path := BuildPath(base.unencrypted, remaining, r.value,
                            Decrypted(p, CipherOf(base, pathCipher), key, remaining.Rest()).value);
      r := Ok(path);
    }
  }

  method EncryptPathIn(p: Primitives, bucket: Bytes, path: Bytes, pathCipher: Option<CipherSuite>, store: Store)
    returns (r: Result<Bytes, Error>)
    requires store.Valid()
    ensures r == EncryptPath(p, store.Model(), bucket, path, pathCipher)
  {
    if path == [] {
      return Ok([]);
    }
    var _, remaining, base := store.Lookup(bucket, path, true);
    if base.None? {
      return Err(MissingBase);
    }
    r := EncryptFrom(p, bucket, base.value, pathCipher, remaining);
  }

  method DecryptPathIn(p: Primitives, bucket: Bytes, path: Bytes, pathCipher: Option<CipherSuite>, store: Store)
    returns (r: Result<Bytes, Error>)
    requires store.Valid()
    ensures r == DecryptPath(p, store.Model(), bucket, path, pathCipher)
  {
    if path == [] {
      return Ok([]);
    }
    var _, remaining, base := store.Lookup(bucket, path, false);
    if base.None? {
      return Err(MissingBase);
    }
    r := DecryptFrom(p, bucket, base.value, pathCipher, remaining);
  }

  method DerivePathKeyIn(p: Primitives, bucket: Bytes, path: Bytes, store: Store) returns (r: Result<Key, Error>)
    requires store.Valid()
    ensures r == DerivePathKey(p, store.Model(), bucket, path)
  {
    hide Represents, Derive, LookupIn;
    var _, remaining, found := store.Lookup(bucket, path, true);
    if found.None? {
      return Err(MissingBase);
    }
    var base := found.value;
    var key := base.key;
    if base.isDefault {
      key := DerivePathKeyComponent(p, key, bucket);
    }
    if path == [] {
      return Ok(key);
    }
    key := DeriveAlong(p, key, remaining);
    return Ok(key);
  }

  /** The loop of DerivePathKey. */
  method DeriveAlong(p: Primitives, start: Key, remaining: Iterator) returns (key: Key)
    requires remaining.Valid()
    modifies remaining
    ensures key == Derive(p, start, old(remaining.Rest()))
  {
    key := start;
    ghost var all := remaining.Rest();
    while !remaining.Done()
      invariant remaining.Valid()
      invariant Derive(p, key, remaining.Rest()) == Derive(p, start, all)
      decreases |remaining.Rest()|
    {
      ghost var rest := remaining.Rest();
      var component := remaining.Next();
      assert rest[1..] == remaining.Rest();
      key := DerivePathKeyComponent(p, key, component);
    }
  }
}
