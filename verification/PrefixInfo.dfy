/** The fused computation of a path, its parent and their keys (encryption/prefix.go). */
module PrefixInfo {
  import opened Prelude
  import opened Crypto
  import opened Paths
  import opened PathCipher
  import opened KeyTrie
  import opened StoreModel
  import opened KeyStore
  import opened PathEncryption

  datatype Info = Info(
    bucket: Bytes,
    cipher: CipherSuite,
    pathUnenc: Bytes,
    pathEnc: Bytes,
    pathKey: Key,
    parentUnenc: Bytes,
    parentEnc: Bytes,
    parentKey: Key)

  /** All but the last component. */
  function Parent(cs: Path): Path {
    if cs == [] then [] else cs[..|cs| - 1]
  }

  /** What the path builders hold before the loop. */
  function Start(base: Base, raw: Bytes): Path {
    if !base.isDefault && base.encrypted != [] then [raw] else []
  }

  function InfoBelow(p: Primitives, bucket: Bytes, base: Base, remaining: Path): Result<Info, Error> {
    var key := BaseKey(p, base, bucket);
    match Encrypted(p, base.pathCipher, key, remaining)
    case Err(e) => Err(e)
    case Ok(es) =>
      Ok(Info(bucket, base.pathCipher,
              Join(Start(base, base.unencrypted) + remaining),
              Join(Start(base, base.encrypted) + es),
              Derive(p, key, remaining),
              Join(Start(base, base.unencrypted) + Parent(remaining)),
              Join(Start(base, base.encrypted) + Parent(es)),
              Derive(p, key, Parent(remaining))))
  }

  function GetPrefixInfo(p: Primitives, s: Model, bucket: Bytes, path: Bytes): Result<Info, Error> {
    var found := LookupIn(s, bucket, path, true);
    if found.base.None? || (path != [] && found.remaining == []) then Err(MissingBase)
    else InfoBelow(p, bucket, found.base.value, found.remaining)
  }

  // ---------- agreement with the separate functions ----------

  lemma {:induction false} EncryptedPrefix(p: Primitives, cipher: CipherSuite, key: Key, cs: Path, n: nat)
    requires Encrypted(p, cipher, key, cs).Ok? && n <= |cs|
    ensures Encrypted(p, cipher, key, cs[..n]) == Ok(Encrypted(p, cipher, key, cs).value[..n])
    decreases n
  {
    if n > 0 {
      EncryptedPrefix(p, cipher, DerivePathKeyComponent(p, key, cs[0]), cs[1..], n - 1);
      assert cs[..n][1..] == cs[1..][..n - 1];
      var es := Encrypted(p, cipher, key, cs).value;
      assert es[..n] == [es[0]] + es[1..][..n - 1];
    }
  }

  lemma RawAndComponents(raw: Bytes, below: Path)
    requires raw != []
    ensures Join([raw] + below) == Join(Split(raw) + below)
  {
    JoinSplit(raw);
    if below == [] {
      assert Split(raw) + below == Split(raw) && [raw] + below == [raw];
    } else {
      JoinAppend(Split(raw), below);
      JoinAppend([raw], below);
    }
  }

  /** The path builders spell the base and what is below it. */
  lemma StartIsBase(flat: Flat, k: (Bytes, Path), below: Path)
    requires k in flat && ProperEntry(k, flat[k])
    ensures Join(Start(flat[k].base, flat[k].base.unencrypted) + below) == Join(k.1 + below)
    ensures Join(Start(flat[k].base, flat[k].base.encrypted) + below) == Extend(flat[k].base.encrypted, below)
  {
    var base := flat[k].base;
    ExtendIsJoin(base.encrypted, below);
    if base.encrypted != [] {
      assert base.unencrypted != [];
      RawAndComponents(base.unencrypted, below);
      RawAndComponents(base.encrypted, below);
    } else {
      assert Split(base.encrypted) + below == below && k.1 + below == below;
      assert [] + below == below;
    }
  }

  /** From the answer of a lookup, the builders spell the prefix of the path that the base stands for. */
  lemma BuildersSpell(s: Model, flat: Flat, bucket: Bytes, cs: Path, r: Lookup, k: Option<(Bytes, Path)>, below: Path)
    requires Represents(s, flat) && !s.encryptionBypass && r.base.Some?
    requires Answer(s, flat, bucket, cs, true, r, k)
    ensures |r.remaining| <= |cs| && r.remaining == cs[|cs| - |r.remaining|..]
    ensures Join(Start(r.base.value, r.base.value.unencrypted) + below) == Join(cs[..|cs| - |r.remaining|] + below)
    ensures Join(Start(r.base.value, r.base.value.encrypted) + below) == Extend(r.base.value.encrypted, below)
  {
    if k.Some? {
      assert Named(s, flat, k.value);
      StartIsBase(flat, k.value, below);
    } else {
      ExtendIsJoin([], below);
      assert [] + below == below && cs[..0] + below == below;
    }
  }

  /** The base found for a path is the base found for its parent, unless it is at the path itself. */
  lemma ParentHasSameBase(s: Model, flat: Flat, bucket: Bytes, path: Bytes)
    returns (k: Option<(Bytes, Path)>)
    requires Represents(s, flat) && path != []
    requires LookupIn(s, bucket, path, true).base.Some? && LookupIn(s, bucket, path, true).remaining != []
    requires Parent(Split(path)) != [[]]
    ensures var r, parent := LookupIn(s, bucket, path, true), LookupIn(s, bucket, Join(Parent(Split(path))), true);
            parent.base == r.base && parent.remaining == Parent(r.remaining)
    ensures Answer(s, flat, bucket, Split(path), true, LookupIn(s, bucket, path, true), k)
  {
    hide Represents, LookupIn, Answer;
    var cs := Split(path);
    SplitJoin(Parent(cs));
    k := LookupIsLongestPrefix(s, flat, bucket, path, true);
    var k' := LookupIsLongestPrefix(s, flat, bucket, Join(Parent(cs)), true);
    SameAnswer(s, flat, bucket, cs, LookupIn(s, bucket, path, true), k, LookupIn(s, bucket, Join(Parent(cs)), true), k');
  }

  /** Leaving the last component away, when it is below the base found, changes nothing but the rest. */
  lemma SameAnswer(s: Model, flat: Flat, bucket: Bytes, cs: Path, r: Lookup, k: Option<(Bytes, Path)>, r': Lookup, k': Option<(Bytes, Path)>)
    requires cs != [] && Answer(s, flat, bucket, cs, true, r, k) && Answer(s, flat, bucket, Parent(cs), true, r', k')
    requires r.base.Some? && r.remaining != []
    ensures r'.base == r.base && r'.remaining == Parent(r.remaining)
  {
    assert forall n :: 0 <= n < |cs| ==> Parent(cs)[..n] == cs[..n];
    if k.Some? {
      assert EntryAt(flat, bucket, Parent(cs)[..|k.value.1|], true, k.value);
      assert Parent(cs)[|k.value.1|..] == Parent(cs[|k.value.1|..]);
    }
    if k'.Some? {
      assert EntryAt(flat, bucket, cs[..|k'.value.1|], true, k'.value);
    }
  }

  /** A base with nothing, or a single component, below it on a path of that length stands for the
      whole bucket. */
  lemma BaseOfWholeBucket(s: Model, flat: Flat, bucket: Bytes, cs: Path, r: Lookup, k: Option<(Bytes, Path)>)
    requires Represents(s, flat) && !s.encryptionBypass && r.base.Some?
    requires Answer(s, flat, bucket, cs, true, r, k) && |cs| == |r.remaining|
    ensures r.base.value.encrypted == []
  {
    if k.Some? {
      assert Named(s, flat, k.value);
    }
  }

  lemma NothingBelow(p: Primitives, cipher: CipherSuite, key: Key)
    ensures Encrypted(p, cipher, key, []) == Ok([]) && Derive(p, key, []) == key && Extend([], []) == []
  {
  }

  /** GetPrefixInfo succeeds exactly when the path can be encrypted and is not itself a base, and then
      agrees with the separate functions on the path. */
  lemma PathAgrees(p: Primitives, s: Model, flat: Flat, bucket: Bytes, path: Bytes)
    requires Represents(s, flat) && !s.encryptionBypass
    ensures var r := GetPrefixInfo(p, s, bucket, path);
            && (r.Ok? <==> EncryptPath(p, s, bucket, path, None).Ok? && DerivePathKey(p, s, bucket, path).Ok? &&
                           (path == [] || LookupIn(s, bucket, path, true).remaining != []))
            && (r.Ok? ==>
                  && r.value.bucket == bucket && r.value.cipher == LookupIn(s, bucket, path, true).base.value.pathCipher
                  && r.value.pathUnenc == path
                  && EncryptPath(p, s, bucket, path, None) == Ok(r.value.pathEnc)
                  && DerivePathKey(p, s, bucket, path) == Ok(r.value.pathKey))
  {
    hide Represents, LookupIn, Answer, Encrypted, Extend, Join, Derive, Start;
    var cs := Split(path);
    JoinSplit(path);
    var k := LookupIsLongestPrefix(s, flat, bucket, path, true);
    var r := LookupIn(s, bucket, path, true);
    if r.base.Some? {
      BuildersSpell(s, flat, bucket, cs, r, k, r.remaining);
      assert cs[..|cs| - |r.remaining|] + r.remaining == cs;
      var es := Encrypted(p, r.base.value.pathCipher, BaseKey(p, r.base.value, bucket), r.remaining);
      if es.Ok? {
        BuildersSpell(s, flat, bucket, cs, r, k, es.value);
      }
      if path == [] {
        BaseOfWholeBucket(s, flat, bucket, cs, r, k);
        NothingBelow(p, r.base.value.pathCipher, BaseKey(p, r.base.value, bucket));
      }
    }
  }

  /** The parent agrees with the separate functions too, unless it is the single empty component, which
      no raw path stands for. */
  lemma ParentAgrees(p: Primitives, s: Model, flat: Flat, bucket: Bytes, path: Bytes)
    requires Represents(s, flat) && !s.encryptionBypass && path != []
    requires GetPrefixInfo(p, s, bucket, path).Ok? && Parent(Split(path)) != [[]]
    ensures var i := GetPrefixInfo(p, s, bucket, path).value;
            && i.parentUnenc == Join(Parent(Split(path)))
            && EncryptPath(p, s, bucket, i.parentUnenc, None) == Ok(i.parentEnc)
            && DerivePathKey(p, s, bucket, i.parentUnenc) == Ok(i.parentKey)
  {
    ParentFields(p, s, bucket, path);
    hide Represents, LookupIn, Answer, Encrypted, Extend, Join, Derive, Start, GetPrefixInfo, EncryptPath, DerivePathKey, BaseKey;
    var k := ParentHasSameBase(s, flat, bucket, path);
    var cs, r := Split(path), LookupIn(s, bucket, path, true);
    var base, rest := r.base.value, r.remaining;
    var key := BaseKey(p, base, bucket);
    ParentSpelled(p, s, flat, bucket, cs, r, k, key);
    if Parent(cs) == [] {
      ParentIsBucket(s, flat, bucket, cs, r, k);
      NothingBelow(p, base.pathCipher, key);
    }
    JoinNothing(Parent(cs));
    FoundAt(p, s, bucket, Join(Parent(cs)), base, Parent(rest));
  }

  lemma ParentSpelled(p: Primitives, s: Model, flat: Flat, bucket: Bytes, cs: Path, r: Lookup, k: Option<(Bytes, Path)>, key: Key)
    requires Represents(s, flat) && !s.encryptionBypass && r.base.Some? && r.remaining != []
    requires Answer(s, flat, bucket, cs, true, r, k) && Encrypted(p, r.base.value.pathCipher, key, r.remaining).Ok?
    ensures var es := Parent(Encrypted(p, r.base.value.pathCipher, key, r.remaining).value);
            && Encrypted(p, r.base.value.pathCipher, key, Parent(r.remaining)) == Ok(es)
            && Join(Start(r.base.value, r.base.value.unencrypted) + Parent(r.remaining)) == Join(Parent(cs))
            && Join(Start(r.base.value, r.base.value.encrypted) + es) == Extend(r.base.value.encrypted, es)
  {
    hide Represents, Answer, Encrypted, Extend, Join, Start;
    var es := Parent(Encrypted(p, r.base.value.pathCipher, key, r.remaining).value);
    EncryptedParent(p, r.base.value.pathCipher, key, r.remaining);
    BuildersSpell(s, flat, bucket, cs, r, k, Parent(r.remaining));
    BuildersSpell(s, flat, bucket, cs, r, k, es);
    ParentSplit(cs, r.remaining);
  }

  lemma ParentSplit(cs: Path, rest: Path)
    requires rest != [] && |rest| <= |cs| && rest == cs[|cs| - |rest|..]
    ensures cs[..|cs| - |rest|] + Parent(rest) == Parent(cs)
  {
  }

  lemma ParentIsBucket(s: Model, flat: Flat, bucket: Bytes, cs: Path, r: Lookup, k: Option<(Bytes, Path)>)
    requires Represents(s, flat) && !s.encryptionBypass && r.base.Some? && r.remaining != []
    requires Answer(s, flat, bucket, cs, true, r, k) && Parent(cs) == []
    ensures Parent(r.remaining) == [] && r.base.value.encrypted == []
  {
    BuildersSpell(s, flat, bucket, cs, r, k, []);
    BaseOfWholeBucket(s, flat, bucket, cs, r, k);
  }

  /** The parent fields in terms of the base found for the path. */
  lemma ParentFields(p: Primitives, s: Model, bucket: Bytes, path: Bytes)
    requires GetPrefixInfo(p, s, bucket, path).Ok? && path != []
    ensures var i, r := GetPrefixInfo(p, s, bucket, path).value, LookupIn(s, bucket, path, true);
            && r.base.Some? && r.remaining != []
            && var base, key := r.base.value, BaseKey(p, r.base.value, bucket);
               var es := Encrypted(p, base.pathCipher, key, r.remaining);
               && es.Ok?
               && i.cipher == base.pathCipher
               && i.parentUnenc == Join(Start(base, base.unencrypted) + Parent(r.remaining))
               && i.parentEnc == Join(Start(base, base.encrypted) + Parent(es.value))
               && i.parentKey == Derive(p, key, Parent(r.remaining))
  {
    hide LookupIn, Encrypted, Join, Start, Derive, Parent;
  }

  /** What the separate functions make of a path whose lookup is known. */
  lemma FoundAt(p: Primitives, s: Model, bucket: Bytes, path: Bytes, base: Base, rest: Path)
    requires LookupIn(s, bucket, path, true).base == Some(base) && LookupIn(s, bucket, path, true).remaining == rest
    requires Encrypted(p, base.pathCipher, BaseKey(p, base, bucket), rest).Ok?
    requires path == [] ==> rest == []
    ensures DerivePathKey(p, s, bucket, path) == Ok(Derive(p, BaseKey(p, base, bucket), rest))
    ensures EncryptPath(p, s, bucket, path, None) ==
            if path == [] then Ok([])
            else Ok(Extend(base.encrypted, Encrypted(p, base.pathCipher, BaseKey(p, base, bucket), rest).value))
  {
    hide LookupIn, Encrypted, Extend;
  }

  lemma EncryptedParent(p: Primitives, cipher: CipherSuite, key: Key, cs: Path)
    requires Encrypted(p, cipher, key, cs).Ok? && cs != []
    ensures Encrypted(p, cipher, key, Parent(cs)) == Ok(Parent(Encrypted(p, cipher, key, cs).value))
  {
    EncryptedPrefix(p, cipher, key, cs, |cs| - 1);
  }

  lemma JoinNothing(cs: Path)
    requires NoSlashes(cs) && cs != [[]]
    ensures Join(cs) == [] <==> cs == []
  {
    SplitJoin(cs);
    assert Split([]) == [];
  }

  /** When the parent is the single empty component, as for "/x", its encryption is that of the empty
      raw path exactly under the null cipher. */
  lemma EmptyComponentParent(p: Primitives, s: Model, flat: Flat, bucket: Bytes, path: Bytes)
    requires Represents(s, flat) && !s.encryptionBypass
    requires GetPrefixInfo(p, s, bucket, path).Ok? && Parent(Split(path)) == [[]]
    requires IsPathCipher(GetPrefixInfo(p, s, bucket, path).value.cipher)
    ensures var i := GetPrefixInfo(p, s, bucket, path).value;
            && i.parentUnenc == []
            && (EncryptPath(p, s, bucket, i.parentUnenc, None) == Ok(i.parentEnc) <==> i.cipher == EncNull)
  {
    var cs := Split(path);
    ParentFields(p, s, bucket, path);
    EmptyPathHasSameBase(s, flat, bucket, path);
    WholeBucketBase(s, flat, bucket, path);
    hide Represents, LookupIn, GetPrefixInfo;
    var base := LookupIn(s, bucket, path, true).base.value;
    var key := BaseKey(p, base, bucket);
    var es := Encrypted(p, base.pathCipher, key, cs).value;
    EncryptedPrefix(p, base.pathCipher, key, cs, 1);
    ComponentRoundTrip(p, [], base.pathCipher, key);
    assert cs[..1] == [[]];
    assert Parent(es) == es[..1] == [EncryptPathComponent(p, [], base.pathCipher, key).value];
    assert [] + Parent(cs) == [[]] && [] + Parent(es) == Parent(es);
  }

  lemma WholeBucketBase(s: Model, flat: Flat, bucket: Bytes, path: Bytes)
    requires Represents(s, flat) && !s.encryptionBypass
    requires LookupIn(s, bucket, path, true).base.Some? && LookupIn(s, bucket, path, true).remaining == Split(path)
    ensures LookupIn(s, bucket, path, true).base.value.encrypted == []
  {
    var k := LookupIsLongestPrefix(s, flat, bucket, path, true);
    BaseOfWholeBucket(s, flat, bucket, Split(path), LookupIn(s, bucket, path, true), k);
  }

  /** The key of such a parent is one derivation below the key of the empty raw path, so the two agree
      exactly when that derivation is a fixed point of the MAC. */
  lemma EmptyComponentParentKey(p: Primitives, s: Model, flat: Flat, bucket: Bytes, path: Bytes)
    requires Represents(s, flat)
    requires GetPrefixInfo(p, s, bucket, path).Ok? && Parent(Split(path)) == [[]]
    ensures var i, key := GetPrefixInfo(p, s, bucket, path).value, DerivePathKey(p, s, bucket, []);
            && key.Ok? && i.parentKey == DerivePathKeyComponent(p, key.value, [])
            && (key == Ok(i.parentKey) <==> DerivePathKeyComponent(p, key.value, []) == key.value)
  {
    hide Represents, Join, Encrypted, LookupIn, Start;
    EmptyPathHasSameBase(s, flat, bucket, path);
    var base := LookupIn(s, bucket, path, true).base.value;
    var key := BaseKey(p, base, bucket);
    var parent := Parent(Split(path));
    assert parent[1..] == [];
    assert Derive(p, key, parent) == Derive(p, DerivePathKeyComponent(p, key, []), parent[1..]);
  }

  /** All of a path like "/x" is below its base, which is also the base of the empty raw path. */
  lemma EmptyPathHasSameBase(s: Model, flat: Flat, bucket: Bytes, path: Bytes)
    requires Represents(s, flat)
    requires LookupIn(s, bucket, path, true).base.Some? && LookupIn(s, bucket, path, true).remaining != []
    requires Parent(Split(path)) == [[]]
    ensures LookupIn(s, bucket, path, true).remaining == Split(path)
    ensures LookupIn(s, bucket, [], true).base == LookupIn(s, bucket, path, true).base
  {
    hide Represents, LookupIn;
    var cs := Split(path);
    var k := LookupIsLongestPrefix(s, flat, bucket, path, true);
    var k' := LookupIsLongestPrefix(s, flat, bucket, [], true);
    var none := Split([]);
    assert none == [] && none[..0] == cs[..0];
    if k.Some? {
      ProperAt(s, flat, k.value);
      ParentlessEntry(flat, k.value, cs, bucket);
      assert EntryAt(flat, bucket, none[..0], true, k.value);
    }
    if k'.Some? {
      assert k'.value.1 == [];
      assert EntryAt(flat, bucket, cs[..0], true, k'.value);
    }
  }

  /** An entry above a path that starts with an empty component is the root of the bucket: no raw path
      is the single empty component. */
  lemma ParentlessEntry(flat: Flat, k: (Bytes, Path), cs: Path, bucket: Bytes)
    requires k in flat && ProperEntry(k, flat[k]) && |cs| == 2 && cs[0] == []
    requires |k.1| < 2 && k.1 == cs[..|k.1|]
    ensures k.1 == [] && flat[k].base.encrypted == []
  {
    JoinSplit(flat[k].base.unencrypted);
    assert cs[..1] == [[]];
  }

  // ---------- the code ----------

  /** The loop over the remaining components. */
  method WalkDown(p: Primitives, bucket: Bytes, base: Base, remaining: Iterator) returns (r: Result<Info, Error>)
    requires remaining.Valid()
    modifies remaining
    ensures r == InfoBelow(p, bucket, base, old(remaining.Rest()))
  {
    hide Join, Components, Encrypted, Derive, Parent, NoSlashes, Split, EncryptPathComponent, DerivePathKeyComponent,
         ContinuesWith, Spell, Start;
    var start := base.key;
    if base.isDefault {
      start := DerivePathKeyComponent(p, start, bucket);
    }
    var pathUnenc, pathEnc := StartBuilders(base);
    var parentUnenc, parentEnc := StartBuilders(base);
    var key, pathKey, parentKey := start, start, start;
    ghost var all := remaining.Rest();
    ghost var us, es: Path := [], [];
    ghost var su, se := Start(base, base.unencrypted), Start(base, base.encrypted);
    ghost var whole := Encrypted(p, base.pathCipher, start, all);
    var componentUnenc: Bytes, componentEnc: Bytes := [], [];
    ContinueNone(whole);
    NothingBelow(p, base.pathCipher, start);
    NoParent();
    assert su + [] == su && se + [] == se;
    var i := 0;
    while !remaining.Done()
      invariant remaining.Valid() && i == |us| == |es| && us + remaining.Rest() == all
      invariant Spell(pathUnenc, pathEnc, su + us, se + es)
      invariant Spell(parentUnenc, parentEnc, su + Parent(us), se + Parent(es))
      invariant key == pathKey == Derive(p, start, us) && parentKey == Derive(p, start, Parent(us))
      invariant i > 0 ==> componentUnenc == us[i - 1] && componentEnc == es[i - 1]
      invariant ContinuesWith(whole, es, Encrypted(p, base.pathCipher, key, remaining.Rest()))
      decreases |remaining.Rest()|
    {
      if i > 0 {
        parentKey := key;
      }
      AppendParent(parentUnenc, parentEnc, i, componentUnenc, componentEnc, su, us, se, es);
      componentUnenc := remaining.Next();
      var enc := EncryptPathComponent(p, componentUnenc, base.pathCipher, key);
      WalkStep(p, base.pathCipher, start, whole, us, es, key, componentUnenc, remaining.Rest());
      if enc.Err? {
        return Err(enc.error);
      }
      componentEnc := enc.value;
      key := DerivePathKeyComponent(p, key, componentUnenc);
      pathKey := key;
      AppendPath(pathUnenc, pathEnc, componentUnenc, componentEnc, su, us, se, es);
      ParentOfAppend(es, componentEnc);
      us, es := us + [componentUnenc], es + [componentEnc];
      i := i + 1;
    }
    assert remaining.Rest() == [] && us + [] == us;
    WalkEnds(p, base.pathCipher, key, whole, es);
    Spelled(pathUnenc, pathEnc, su + us, se + es);
    Spelled(parentUnenc, parentEnc, su + Parent(us), se + Parent(es));
    return Ok(Info(bucket, base.pathCipher, pathUnenc.b, pathEnc.b, pathKey, parentUnenc.b, parentEnc.b, parentKey));
  }

  /** A pair of builders holds these parts. */
  ghost predicate Spell(unenc: PathBuilder, enc: PathBuilder, us: Path, es: Path)
    reads unenc, enc
  {
    unenc.Valid() && enc.Valid() && unenc.parts == us && enc.parts == es
  }

  lemma Spelled(unenc: PathBuilder, enc: PathBuilder, us: Path, es: Path)
    requires Spell(unenc, enc, us, es)
    ensures unenc.b == Join(us) && enc.b == Join(es)
  {
  }

  /** Both builders of a pair begin with the base, when it is below the bucket. */
  method StartBuilders(base: Base) returns (unenc: PathBuilder, enc: PathBuilder)
    ensures fresh(unenc) && fresh(enc) && unenc != enc
    ensures Spell(unenc, enc, Start(base, base.unencrypted), Start(base, base.encrypted))
  {
    hide Join;
    unenc := new PathBuilder();
    enc := new PathBuilder();
    if !base.isDefault && base.encrypted != [] {
      unenc.Append(base.unencrypted);
      enc.Append(base.encrypted);
    }
  }

  method AppendPath(unenc: PathBuilder, enc: PathBuilder, u: Bytes, e: Bytes,
                    ghost su: Path, ghost us: Path, ghost se: Path, ghost es: Path)
    requires unenc != enc && Spell(unenc, enc, su + us, se + es)
    modifies unenc, enc
    ensures Spell(unenc, enc, su + (us + [u]), se + (es + [e]))
  {
    hide Join;
    unenc.Append(u);
    enc.Append(e);
    ConcatAssociative(su, us, [u]);
    ConcatAssociative(se, es, [e]);
  }

  /** From the second component on, the parent builders take the previous component. */
  method AppendParent(unenc: PathBuilder, enc: PathBuilder, i: nat, u: Bytes, e: Bytes,
                      ghost su: Path, ghost us: Path, ghost se: Path, ghost es: Path)
    requires unenc != enc && Spell(unenc, enc, su + Parent(us), se + Parent(es))
    requires i == |us| == |es| && (i > 0 ==> u == us[i - 1] && e == es[i - 1])
    modifies unenc, enc
    ensures Spell(unenc, enc, su + us, se + es)
  {
    hide Join;
    if i > 0 {
      assert us == Parent(us) + [u] && es == Parent(es) + [e];
      AppendPath(unenc, enc, u, e, su, Parent(us), se, Parent(es));
    } else {
      assert us == Parent(us) && es == Parent(es);
    }
  }

  /** One turn of the loop: what it does to the keys and to the part of the encryption still to do. */
  lemma WalkStep(p: Primitives, cipher: CipherSuite, start: Key, whole: PathResult, us: Path, es: Path, key: Key, c: Bytes, rest: Path)
    requires key == Derive(p, start, us) && ContinuesWith(whole, es, Encrypted(p, cipher, key, [c] + rest))
    ensures var enc := EncryptPathComponent(p, c, cipher, key);
            && (enc.Err? ==> whole == Err(enc.error))
            && (enc.Ok? ==> ContinuesWith(whole, es + [enc.value],
                                          Encrypted(p, cipher, DerivePathKeyComponent(p, key, c), rest)))
    ensures Derive(p, start, us + [c]) == DerivePathKeyComponent(p, key, c)
    ensures Parent(us + [c]) == us && us + ([c] + rest) == us + [c] + rest
  {
    EncryptedStep(p, cipher, key, c, rest);
    var enc := EncryptPathComponent(p, c, cipher, key);
    if enc.Ok? {
      ContinueOne(whole, es, enc.value, Encrypted(p, cipher, DerivePathKeyComponent(p, key, c), rest));
    }
    DeriveAppend(p, start, us, [c]);
    var one: Path := [c];
    assert one[1..] == [];
    ConcatAssociative(us, [c], rest);
  }

  lemma ParentOfAppend(cs: Path, c: Bytes)
    ensures Parent(cs + [c]) == cs
  {
  }

  lemma WalkEnds(p: Primitives, cipher: CipherSuite, key: Key, whole: PathResult, es: Path)
    requires ContinuesWith(whole, es, Encrypted(p, cipher, key, []))
    ensures whole == Ok(es)
  {
    assert es + [] == es;
  }

  lemma NoParent()
    ensures Parent([]) == []
  {
  }

  lemma EncryptedStep(p: Primitives, cipher: CipherSuite, key: Key, c: Bytes, rest: Path)
    ensures Encrypted(p, cipher, key, [c] + rest) ==
            match EncryptPathComponent(p, c, cipher, key)
            case Err(e) => Err(e)
            case Ok(head) =>
              match Encrypted(p, cipher, DerivePathKeyComponent(p, key, c), rest)
              case Err(e) => Err(e)
              case Ok(tail) => Ok([head] + tail)
  {
    assert ([c] + rest)[1..] == rest;
  }

  method GetPrefixInfoIn(p: Primitives, bucket: Bytes, path: Bytes, store: Store) returns (r: Result<Info, Error>)
    requires store.Valid()
    ensures r == GetPrefixInfo(p, store.Model(), bucket, path)
  {
    hide Represents;
    var _, remaining, base := store.Lookup(bucket, path, true);
    if base.None? {
      return Err(MissingBase);
    }
    if path != [] && remaining.Done() {
      return Err(MissingBase);
    }
    r := WalkDown(p, bucket, base.value, remaining);
  }
}
