/** Restricting an access grant to prefixes (grant/restrict.go). */
module Grant {
  import opened Prelude
  import opened Crypto
  import opened Paths
  import opened PathCipher
  import opened KeyTrie
  import opened StoreModel
  import opened KeyStore
  import opened PathEncryption
  import opened Caveats
  import opened Macaroons

  datatype SharePrefix = SharePrefix(bucket: Bytes, prefix: Bytes)

  /** Times that are zero are not set. */
  datatype Permission = Permission(
    allowDownload: bool,
    allowUpload: bool,
    allowList: bool,
    allowDelete: bool,
    notBefore: int,
    notAfter: int)

  const NO_PERMISSION := Permission(false, false, false, false, ZERO_TIME, ZERO_TIME)

  datatype GrantError =
    | PermissionEmpty
    | InvalidTimeRange
    | PathError(error: Error)
    | StoreError(addError: AddError)

  /** strings.TrimSuffix(s, "/"). */
  function TrimSlash(s: Bytes): Bytes {
    if s != [] && s[|s| - 1] == SLASH then s[..|s| - 1] else s
  }

  function SharedPath(prefix: SharePrefix): Bytes {
    TrimSlash(prefix.prefix)
  }

  function SetTime(t: int): Option<int> {
    if t == ZERO_TIME then None else Some(t)
  }

  function NewCaveat(permission: Permission, allowedPaths: seq<CaveatPath>, nonce: Bytes): Caveat {
    Caveat(!permission.allowDownload, !permission.allowUpload, !permission.allowList, !permission.allowDelete,
           allowedPaths, SetTime(permission.notAfter), SetTime(permission.notBefore), nonce)
  }

  predicate BadTimeRange(permission: Permission) {
    permission.notBefore != ZERO_TIME && permission.notAfter != ZERO_TIME && permission.notAfter < permission.notBefore
  }

  /** What a permission lets through. */
  predicate Permits(permission: Permission, allowed: seq<CaveatPath>, action: Action) {
    && (permission.notBefore == 0 || permission.notBefore <= action.time)
    && (permission.notAfter == 0 || action.time <= permission.notAfter)
    && if action.op == ActionRead && action.encryptedPath == [] then
         allowed == [] || action.bucket == [] || exists i :: 0 <= i < |allowed| && allowed[i].bucket == action.bucket
       else
         && (match action.op
             case ActionRead => permission.allowDownload
             case ActionWrite => permission.allowUpload
             case ActionList => permission.allowList
             case ActionDelete => permission.allowDelete
             case ActionProjectInfo => true
             case ActionOther(_) => false)
         && (allowed == [] || action.op == ActionProjectInfo ||
             exists i :: 0 <= i < |allowed| && allowed[i].bucket == action.bucket &&
                         allowed[i].encryptedPathPrefix <= action.encryptedPath)
  }

  /** The caveat that Restrict makes allows exactly what the fields of the permission say. */
  lemma CaveatOfPermission(permission: Permission, allowed: seq<CaveatPath>, nonce: Bytes, action: Action)
    ensures Allows(NewCaveat(permission, allowed, nonce), action) <==> Permits(permission, allowed, action)
  {
    AllowsByField(NewCaveat(permission, allowed, nonce), action);
    hide Allows;
  }

  /** So a restricted key authorizes exactly what the valid key before it authorizes and the permission
      lets through, unless its own tail is revoked. */
  lemma RestrictedKeyAuthorizes(p: Primitives, codec: CodecRaw, key: Macaroon, permission: Permission, allowed: seq<CaveatPath>,
                                nonce: Bytes, secret: Bytes, action: Action, revoked: set<Bytes>)
    requires codec.Lawful() && Valid(p, key, secret)
    ensures var r := Macaroons.Restrict(p, codec, key, NewCaveat(permission, allowed, nonce));
            Authorized(p, codec, r, secret, action, revoked) <==>
              && Authorized(p, codec, key, secret, action, revoked)
              && Permits(permission, allowed, action)
              && r.tail !in revoked
  {
    hide Authorized, Allows, NewCaveat, Permits;
    RestrictIsExact(p, codec, key, NewCaveat(permission, allowed, nonce), secret, action, revoked);
    CaveatOfPermission(permission, allowed, nonce, action);
    assert key.(tail := ExpectedTail(p, key, secret)) == key;
  }

  /** One trailing slash of a prefix does not count. */
  lemma TrimmedPrefix(bucket: Bytes, path: Bytes)
    ensures SharedPath(SharePrefix(bucket, path + [47])) == path
    ensures path == [] || path[|path| - 1] != 47 ==> SharedPath(SharePrefix(bucket, path)) == path
  {
    assert (path + [47])[..|path|] == path;
  }

  // ---------- the narrowed store ----------

  /** What one prefix adds to the new store, computed from the old one. */
  function SharedAddition(p: Primitives, s: Model, prefix: SharePrefix): Result<Addition, Error> {
    match EncryptPath(p, s, prefix.bucket, SharedPath(prefix), None)
    case Err(e) => Err(e)
    case Ok(enc) =>
      match DerivePathKey(p, s, prefix.bucket, SharedPath(prefix))
      case Err(e) => Err(e)
      case Ok(key) => Ok(Addition(prefix.bucket, SharedPath(prefix), enc, key, s.defaultPathCipher))
  }

  datatype Narrowed = Narrowed(store: Model, allowedPaths: seq<CaveatPath>)

  /** One turn of the loop over the prefixes. */
  function Share(p: Primitives, s: Model, n: Narrowed, prefix: SharePrefix): Result<Narrowed, GrantError> {
    match SharedAddition(p, s, prefix)
    case Err(e) => Err(PathError(e))
    case Ok(a) =>
      match AddWithCipher(n.store, a)
      case Err(e) => Err(StoreError(e))
      case Ok(store) => Ok(Narrowed(store, n.allowedPaths + [CaveatPath(a.bucket, a.enc)]))
  }

  function Narrow(p: Primitives, s: Model, n: Narrowed, prefixes: seq<SharePrefix>): Result<Narrowed, GrantError>
    decreases prefixes
  {
    if prefixes == [] then Ok(n)
    else
      match Share(p, s, n, prefixes[0])
      case Err(e) => Err(e)
      case Ok(n') => Narrow(p, s, n', prefixes[1..])
  }

  lemma {:induction false} NarrowErrors(p: Primitives, s: Model, n: Narrowed, prefixes: seq<SharePrefix>)
    ensures Narrow(p, s, n, prefixes).Err? ==>
              Narrow(p, s, n, prefixes).error.PathError? || Narrow(p, s, n, prefixes).error.StoreError?
    decreases prefixes
  {
    if prefixes != [] && Share(p, s, n, prefixes[0]).Ok? {
      NarrowErrors(p, s, Share(p, s, n, prefixes[0]).value, prefixes[1..]);
    }
  }

  function Start(s: Model): Narrowed {
    Narrowed(Model(map[], None, s.defaultPathCipher, false), [])
  }

  /** The store of the restricted access and the paths its caveat allows. Without prefixes the default
      key is kept and the entries are not. */
  function RestrictStore(p: Primitives, s: Model, prefixes: seq<SharePrefix>): Result<Narrowed, GrantError> {
    match Narrow(p, s, Start(s), prefixes)
    case Err(e) => Err(e)
    case Ok(n) => Ok(if prefixes == [] then n.(store := n.store.(defaultKey := s.defaultKey)) else n)
  }

  // ---------- coherence ----------

  /** The path is at or component-wise below a trimmed prefix. */
  ghost predicate Shared(prefixes: seq<SharePrefix>, bucket: Bytes, path: Path) {
    exists i :: 0 <= i < |prefixes| && prefixes[i].bucket == bucket && Split(SharedPath(prefixes[i])) <= path
  }

  ghost predicate CoversPrefix(s: Model, flat: Flat, prefix: SharePrefix) {
    Covered(s, flat, prefix.bucket, Split(SharedPath(prefix)))
  }

  function SlotOf(prefix: SharePrefix): (Bytes, Path) {
    (prefix.bucket, Split(SharedPath(prefix)))
  }

  function SlotsOf(prefixes: seq<SharePrefix>): (r: set<(Bytes, Path)>)
    ensures forall i :: 0 <= i < |prefixes| ==> SlotOf(prefixes[i]) in r
  {
    set i | 0 <= i < |prefixes| :: SlotOf(prefixes[i])
  }

  lemma SharedAdditionInTree(p: Primitives, s: Model, flat: Flat, tree: KeyTree, prefix: SharePrefix)
    requires InKeyTree(p, s, flat, tree)
    ensures SharedAddition(p, s, prefix).Ok? <==> CoversPrefix(s, flat, prefix)
    ensures SharedAddition(p, s, prefix).Ok? ==>
              SharedAddition(p, s, prefix).value ==
              Addition(prefix.bucket, SharedPath(prefix),
                       TreeEncryption(p, s, tree, prefix.bucket, SharedPath(prefix)),
                       Derive(p, tree(prefix.bucket), Split(SharedPath(prefix))), s.defaultPathCipher)
  {
    TreeDecides(p, s, flat, tree, prefix.bucket, SharedPath(prefix));
  }

  /** An addition whose encrypted path and key are those of the tree. */
  ghost predicate TreeAddition(p: Primitives, cipher: CipherSuite, tree: KeyTree, a: Addition)
    requires IsPathCipher(cipher)
  {
    && Split(a.enc) == E(p, cipher, tree(a.bucket), Split(a.unenc))
    && a.key == Derive(p, tree(a.bucket), Split(a.unenc))
    && a.pathCipher == cipher
  }

  /** Tree additions never conflict with entries of the tree. */
  lemma TreeAdditionAccepted(p: Primitives, s: Model, flat: Flat, tree: KeyTree, a: Addition)
    requires InKeyTree(p, s, flat, tree) && TreeAddition(p, s.defaultPathCipher, tree, a)
    ensures FlatAccepts(flat, a)
  {
    forall k | k in flat && k.0 == a.bucket
      ensures Agree(Split(a.unenc), Split(a.enc), k.1, flat[k].enc)
    {
      assert FromTree(p, s.defaultPathCipher, tree, flat, k);
      TreeNamesAgree(p, s.defaultPathCipher, tree(a.bucket), Split(a.unenc), k.1);
    }
  }

  lemma TreeNamesAgree(p: Primitives, cipher: CipherSuite, key: Key, u: Path, v: Path)
    requires IsPathCipher(cipher) && NoSlashes(u) && NoSlashes(v)
    ensures Agree(u, E(p, cipher, key, u), v, E(p, cipher, key, v))
  {
    var n := CommonLength(u, v);
    CommonEncrypted(p, cipher, key, u, v, n);
    CommonLengthIs(E(p, cipher, key, u), E(p, cipher, key, v), n);
  }

  /** Encryption keeps the first n components common, and the next ones different. */
  lemma CommonEncrypted(p: Primitives, cipher: CipherSuite, key: Key, u: Path, v: Path, n: nat)
    requires IsPathCipher(cipher) && NoSlashes(u) && NoSlashes(v)
    requires n <= |u| && n <= |v| && u[..n] == v[..n] && (n < |u| && n < |v| ==> u[n] != v[n])
    ensures E(p, cipher, key, u)[..n] == E(p, cipher, key, v)[..n]
    ensures n < |u| && n < |v| ==> E(p, cipher, key, u)[n] != E(p, cipher, key, v)[n]
  {
    hide E, NoSlashes, IsPathCipher;
    EPrefix(p, cipher, key, u, n);
    EPrefix(p, cipher, key, v, n);
    if n < |u| && n < |v| {
      NextDiffers(p, cipher, key, u, v, n);
    }
  }

  lemma NextDiffers(p: Primitives, cipher: CipherSuite, key: Key, u: Path, v: Path, n: nat)
    requires IsPathCipher(cipher) && NoSlashes(u) && NoSlashes(v)
    requires n < |u| && n < |v| && u[..n] == v[..n] && u[n] != v[n]
    ensures E(p, cipher, key, u)[n] != E(p, cipher, key, v)[n]
  {
    hide E, NoSlashes, IsPathCipher;
    var a, b := u[..n + 1], v[..n + 1];
    EPrefix(p, cipher, key, u, n);
    EPrefix(p, cipher, key, v, n);
    EPrefix(p, cipher, key, u, n + 1);
    EPrefix(p, cipher, key, v, n + 1);
    SnocSlice(E(p, cipher, key, u), n);
    SnocSlice(E(p, cipher, key, v), n);
    assert a != b by { assert a[n] != b[n]; }
    NoSlashesIn(u, n + 1);
    NoSlashesIn(v, n + 1);
    if E(p, cipher, key, a) == E(p, cipher, key, b) {
      EInjective(p, cipher, key, a, b);
    }
  }

  lemma NoSlashesIn(cs: Path, n: nat)
    requires NoSlashes(cs) && n <= |cs|
    ensures NoSlashes(cs[..n])
  {
  }

  lemma SnocSlice(cs: Path, n: nat)
    requires n < |cs|
    ensures cs[..n + 1] == cs[..n] + [cs[n]]
  {
  }

  lemma TreeAdditionKeepsTree(p: Primitives, s: Model, flat: Flat, tree: KeyTree, a: Addition)
    requires InKeyTree(p, s, flat, tree) && TreeAddition(p, s.defaultPathCipher, tree, a)
    ensures AddWithCipher(s, a).Ok?
    ensures InKeyTree(p, AddWithCipher(s, a).value, FlatAdd(flat, a), tree)
    ensures FlatAdd(flat, a) == flat[Slot(a) := NewEntry(a)]
  {
    TreeAdditionAccepted(p, s, flat, tree, a);
    AddRefines(s, flat, a);
    forall k
      ensures FromTree(p, s.defaultPathCipher, tree, FlatAdd(flat, a), k)
    {
      assert FromTree(p, s.defaultPathCipher, tree, flat, k);
    }
  }

  lemma SharedAdditionIsTreeAddition(p: Primitives, s: Model, flat: Flat, tree: KeyTree, prefix: SharePrefix)
    requires InKeyTree(p, s, flat, tree) && CoversPrefix(s, flat, prefix)
    ensures SharedAddition(p, s, prefix).Ok?
    ensures TreeAddition(p, s.defaultPathCipher, tree, SharedAddition(p, s, prefix).value)
    ensures Slot(SharedAddition(p, s, prefix).value) == (prefix.bucket, Split(SharedPath(prefix)))
  {
    SharedAdditionInTree(p, s, flat, tree, prefix);
    JoinSplit(SharedPath(prefix));
    SplitJoin(E(p, s.defaultPathCipher, tree(prefix.bucket), Split(SharedPath(prefix))));
  }

  /** The caveat path of a prefix: its encryption in the tree. */
  function AllowedPath(p: Primitives, s: Model, tree: KeyTree, prefix: SharePrefix): CaveatPath
    requires IsPathCipher(s.defaultPathCipher)
  {
    CaveatPath(prefix.bucket, TreeEncryption(p, s, tree, prefix.bucket, SharedPath(prefix)))
  }

  function AllowedPaths(p: Primitives, s: Model, tree: KeyTree, prefixes: seq<SharePrefix>): (r: seq<CaveatPath>)
    requires IsPathCipher(s.defaultPathCipher)
    ensures |r| == |prefixes|
    ensures forall i :: 0 <= i < |prefixes| ==> r[i] == AllowedPath(p, s, tree, prefixes[i])
    decreases prefixes
  {
    if prefixes == [] then []
    else [AllowedPath(p, s, tree, prefixes[0])] + AllowedPaths(p, s, tree, prefixes[1..])
  }

  ghost predicate CoversAll(s: Model, flat: Flat, prefixes: seq<SharePrefix>)
    decreases prefixes
  {
    prefixes == [] || (CoversPrefix(s, flat, prefixes[0]) && CoversAll(s, flat, prefixes[1..]))
  }

  lemma {:induction false} CoversEach(s: Model, flat: Flat, prefixes: seq<SharePrefix>)
    ensures CoversAll(s, flat, prefixes) <==> forall i :: 0 <= i < |prefixes| ==> CoversPrefix(s, flat, prefixes[i])
    decreases prefixes
  {
    if prefixes != [] {
      CoversEach(s, flat, prefixes[1..]);
      assert forall i :: 0 < i < |prefixes| ==> prefixes[i] == prefixes[1..][i - 1];
      assert forall i :: 0 <= i < |prefixes| - 1 ==> prefixes[1..][i] == prefixes[i + 1];
    }
  }

  /** From one turn of the loop to another: the entries and allowed paths that were added. */
  ghost predicate NarrowedBy(n: Narrowed, flat: Flat, n': Narrowed, flat': Flat, slots: set<(Bytes, Path)>, allowed: seq<CaveatPath>) {
    && flat'.Keys == flat.Keys + slots
    && n'.store == n.store.(roots := n'.store.roots)
    && n'.allowedPaths == n.allowedPaths + allowed
  }

  lemma NarrowedTwice(n: Narrowed, flat: Flat, n1: Narrowed, flat1: Flat, slots: set<(Bytes, Path)>, allowed: seq<CaveatPath>,
                      n2: Narrowed, flat2: Flat, slots': set<(Bytes, Path)>, allowed': seq<CaveatPath>)
    requires NarrowedBy(n, flat, n1, flat1, slots, allowed) && NarrowedBy(n1, flat1, n2, flat2, slots', allowed')
    ensures NarrowedBy(n, flat, n2, flat2, slots + slots', allowed + allowed')
  {
    ConcatAssociative(n.allowedPaths, allowed, allowed');
  }

  lemma ShareInTree(p: Primitives, s: Model, flat: Flat, tree: KeyTree, n: Narrowed, flat0: Flat, prefix: SharePrefix)
    returns (flat1: Flat)
    requires InKeyTree(p, s, flat, tree) && InKeyTree(p, n.store, flat0, tree)
    requires n.store.defaultPathCipher == s.defaultPathCipher
    ensures Share(p, s, n, prefix).Ok? <==> CoversPrefix(s, flat, prefix)
    ensures Share(p, s, n, prefix).Ok? ==>
              && InKeyTree(p, Share(p, s, n, prefix).value.store, flat1, tree)
              && NarrowedBy(n, flat0, Share(p, s, n, prefix).value, flat1,
                            {SlotOf(prefix)}, [AllowedPath(p, s, tree, prefix)])
  {
    flat1 := flat0;
    SharedAdditionInTree(p, s, flat, tree, prefix);
    if CoversPrefix(s, flat, prefix) {
      SharedAdditionIsTreeAddition(p, s, flat, tree, prefix);
      var a := SharedAddition(p, s, prefix).value;
      TreeAdditionKeepsTree(p, n.store, flat0, tree, a);
      flat1 := FlatAdd(flat0, a);
    }
  }

  /** Narrowing succeeds exactly when the store covers every prefix; the Adds never conflict. */
  lemma {:induction false} NarrowInTree(p: Primitives, s: Model, flat: Flat, tree: KeyTree, n: Narrowed, flat0: Flat,
                                        prefixes: seq<SharePrefix>)
    returns (flat': Flat)
    requires InKeyTree(p, s, flat, tree) && InKeyTree(p, n.store, flat0, tree)
    requires n.store.defaultPathCipher == s.defaultPathCipher
    ensures Narrow(p, s, n, prefixes).Ok? <==> CoversAll(s, flat, prefixes)
    ensures Narrow(p, s, n, prefixes).Ok? ==>
              && InKeyTree(p, Narrow(p, s, n, prefixes).value.store, flat', tree)
              && NarrowedBy(n, flat0, Narrow(p, s, n, prefixes).value, flat',
                            SlotsOf(prefixes), AllowedPaths(p, s, tree, prefixes))
    decreases prefixes
  {
    flat' := flat0;
    if prefixes != [] {
      var flat1 := ShareInTree(p, s, flat, tree, n, flat0, prefixes[0]);
      if CoversPrefix(s, flat, prefixes[0]) {
        var n1 := Share(p, s, n, prefixes[0]).value;
        flat' := NarrowInTree(p, s, flat, tree, n1, flat1, prefixes[1..]);
        SlotsOfCons(prefixes);
        if Narrow(p, s, n1, prefixes[1..]).Ok? {
          NarrowedTwice(n, flat0, n1, flat1, {SlotOf(prefixes[0])}, [AllowedPath(p, s, tree, prefixes[0])],
                        Narrow(p, s, n1, prefixes[1..]).value, flat', SlotsOf(prefixes[1..]),
                        AllowedPaths(p, s, tree, prefixes[1..]));
        }
      }
    }
  }

  lemma SlotsOfCons(prefixes: seq<SharePrefix>)
    requires prefixes != []
    ensures SlotsOf(prefixes) == {SlotOf(prefixes[0])} + SlotsOf(prefixes[1..])
  {
    var rest := prefixes[1..];
    forall k | k in SlotsOf(prefixes)
      ensures k in {SlotOf(prefixes[0])} + SlotsOf(rest)
    {
      var i :| 0 <= i < |prefixes| && SlotOf(prefixes[i]) == k;
      if i > 0 {
        assert rest[i - 1] == prefixes[i];
      }
    }
    forall k | k in SlotsOf(rest)
      ensures k in SlotsOf(prefixes)
    {
      var i :| 0 <= i < |rest| && SlotOf(rest[i]) == k;
      assert prefixes[i + 1] == rest[i];
    }
  }

  /** What RestrictStore gives in a key tree, in terms of the flat map. */
  lemma RestrictInTree(p: Primitives, s: Model, flat: Flat, tree: KeyTree, prefixes: seq<SharePrefix>)
    returns (flat': Flat)
    requires InKeyTree(p, s, flat, tree) && prefixes != []
    ensures RestrictStore(p, s, prefixes).Ok? <==> CoversAll(s, flat, prefixes)
    ensures RestrictStore(p, s, prefixes).Ok? ==>
              var n := RestrictStore(p, s, prefixes).value;
              && InKeyTree(p, n.store, flat', tree) && flat'.Keys == SlotsOf(prefixes)
              && n.store.defaultKey == None && n.store.defaultPathCipher == s.defaultPathCipher
              && n.allowedPaths == AllowedPaths(p, s, tree, prefixes)
  {
    hide CoversAll, Share;
    EmptyRepresented(Start(s).store);
    flat' := NarrowInTree(p, s, flat, tree, Start(s), map[], prefixes);
    assert [] + AllowedPaths(p, s, tree, prefixes) == AllowedPaths(p, s, tree, prefixes);
  }

  /** Restrict with at least one prefix is coherent. It succeeds exactly when the store covers every
      trimmed prefix. Then every path at or below a trimmed prefix encrypts and derives its key as
      before, every other path has no base, the key tree is kept, and so is the hypothesis of this
      lemma: the theorem holds again for the restricted store. */
  lemma RestrictIsCoherent(p: Primitives, s: Model, flat: Flat, tree: KeyTree, prefixes: seq<SharePrefix>,
                           bucket: Bytes, path: Bytes)
    returns (flat': Flat)
    requires InKeyTree(p, s, flat, tree) && prefixes != []
    ensures RestrictStore(p, s, prefixes).Ok? <==>
            forall i :: 0 <= i < |prefixes| ==> CoversPrefix(s, flat, prefixes[i])
    ensures RestrictStore(p, s, prefixes).Ok? ==>
              var s' := RestrictStore(p, s, prefixes).value.store;
              && InKeyTree(p, s', flat', tree)
              && (LookupIn(s', bucket, path, true).base.Some? <==> Shared(prefixes, bucket, Split(path)))
              && (Shared(prefixes, bucket, Split(path)) ==>
                    && EncryptPath(p, s', bucket, path, None) == EncryptPath(p, s, bucket, path, None)
                    && EncryptPath(p, s', bucket, path, None).Ok?
                    && DerivePathKey(p, s', bucket, path) == DerivePathKey(p, s, bucket, path)
                    && DerivePathKey(p, s', bucket, path).Ok?)
              && (!Shared(prefixes, bucket, Split(path)) ==>
                    && (path != [] ==> EncryptPath(p, s', bucket, path, None) == Err(MissingBase))
                    && DerivePathKey(p, s', bucket, path) == Err(MissingBase))
  {
    flat' := RestrictInTree(p, s, flat, tree, prefixes);
    CoversEach(s, flat, prefixes);
    if RestrictStore(p, s, prefixes).Ok? {
      var s' := RestrictStore(p, s, prefixes).value.store;
      SharedIsCovered(s, flat, s', flat', prefixes, bucket, Split(path));
      TreeDecides(p, s, flat, tree, bucket, path);
      TreeDecides(p, s', flat', tree, bucket, path);
      var n := LookupFindsTreeKey(p, s', flat', tree, bucket, path);
    }
  }

  lemma PrefixCovers(s: Model, flat: Flat, prefix: SharePrefix, path: Path)
    requires CoversPrefix(s, flat, prefix) && Split(SharedPath(prefix)) <= path
    ensures Covered(s, flat, prefix.bucket, path)
  {
    var u := Split(SharedPath(prefix));
    if s.defaultKey.None? {
      var n :| 0 <= n <= |u| && (prefix.bucket, u[..n]) in flat;
      assert path[..n] == u[..n];
    }
  }

  lemma SharedIsCovered(s: Model, flat: Flat, s': Model, flat': Flat, prefixes: seq<SharePrefix>, bucket: Bytes, path: Path)
    requires flat'.Keys == SlotsOf(prefixes) && s'.defaultKey.None?
    requires forall i :: 0 <= i < |prefixes| ==> CoversPrefix(s, flat, prefixes[i])
    ensures Covered(s', flat', bucket, path) <==> Shared(prefixes, bucket, path)
    ensures Shared(prefixes, bucket, path) ==> Covered(s, flat, bucket, path)
  {
    if Shared(prefixes, bucket, path) {
      var i :| 0 <= i < |prefixes| && prefixes[i].bucket == bucket && Split(SharedPath(prefixes[i])) <= path;
      PrefixCovers(s, flat, prefixes[i], path);
      var n := |Split(SharedPath(prefixes[i]))|;
      assert path[..n] == Split(SharedPath(prefixes[i]));
      assert SlotOf(prefixes[i]) == (bucket, path[..n]);
    }
    if Covered(s', flat', bucket, path) {
      var n :| 0 <= n <= |path| && (bucket, path[..n]) in flat';
      assert (bucket, path[..n]) in SlotsOf(prefixes);
      var i :| 0 <= i < |prefixes| && SlotOf(prefixes[i]) == (bucket, path[..n]);
    }
  }

  /** Restrict without prefixes keeps the default key and the tree, and drops every entry: what the
      default key covers is unchanged, and without a default key nothing is covered any more. */
  lemma RestrictWithoutPrefixes(p: Primitives, s: Model, flat: Flat, tree: KeyTree, bucket: Bytes, path: Bytes)
    requires InKeyTree(p, s, flat, tree)
    ensures RestrictStore(p, s, []).Ok?
    ensures var s' := RestrictStore(p, s, []).value.store;
            && InKeyTree(p, s', map[], tree)
            && (s.defaultKey.Some? ==>
                  && EncryptPath(p, s', bucket, path, None) == EncryptPath(p, s, bucket, path, None)
                  && DerivePathKey(p, s', bucket, path) == DerivePathKey(p, s, bucket, path))
            && (s.defaultKey.None? ==> DerivePathKey(p, s', bucket, path) == Err(MissingBase))
  {
    var s' := RestrictStore(p, s, []).value.store;
    EmptyRepresented(s');
    assert InKeyTree(p, s', map[], tree);
    TreeDecides(p, s, flat, tree, bucket, path);
    TreeDecides(p, s', map[], tree, bucket, path);
  }

  /** A store with nothing but a default key is in the tree of that key: the hypothesis holds to begin
      with. */
  lemma DefaultKeyTree(p: Primitives, key: Key, cipher: CipherSuite)
    requires IsPathCipher(cipher)
    ensures InKeyTree(p, Model(map[], Some(key), cipher, false), map[], b => DerivePathKeyComponent(p, key, b))
  {
    EmptyRepresented(Model(map[], Some(key), cipher, false));
  }

  /** The keys handed out are of use: the caveat of the restricted API key lets through exactly by
      encrypted path, and the encryption of every shared path is below an allowed path. */
  lemma SharedPathsAreAllowed(p: Primitives, s: Model, flat: Flat, tree: KeyTree, prefixes: seq<SharePrefix>,
                              permission: Permission, nonce: Bytes, bucket: Bytes, path: Bytes, op: ActionType, time: int)
    requires InKeyTree(p, s, flat, tree) && prefixes != [] && RestrictStore(p, s, prefixes).Ok?
    requires Shared(prefixes, bucket, Split(path))
    ensures var n := RestrictStore(p, s, prefixes).value;
            var caveat := NewCaveat(permission, n.allowedPaths, nonce);
            var action := Action(op, bucket, TreeEncryption(p, s, tree, bucket, path), time);
            InWindow(caveat, time) && OpAllowed(caveat, op) ==> Allows(caveat, action)
  {
    var flat' := RestrictInTree(p, s, flat, tree, prefixes);
    var allowed := RestrictStore(p, s, prefixes).value.allowedPaths;
    var i :| 0 <= i < |prefixes| && prefixes[i].bucket == bucket && Split(SharedPath(prefixes[i])) <= Split(path);
    EReflectsPrefix(p, s.defaultPathCipher, tree(bucket), Split(SharedPath(prefixes[i])), Split(path));
    JoinPrefix(E(p, s.defaultPathCipher, tree(bucket), Split(SharedPath(prefixes[i]))),
               E(p, s.defaultPathCipher, tree(bucket), Split(path)));
    assert Covers(allowed[i], bucket, TreeEncryption(p, s, tree, bucket, path));
    assert allowed[i].bucket == bucket;
  }

  // ---------- the code ----------

  lemma PermissionByField(permission: Permission)
    ensures permission == NO_PERMISSION <==>
              && !permission.allowDownload && !permission.allowUpload && !permission.allowList && !permission.allowDelete
              && permission.notBefore == 0 && permission.notAfter == 0
    ensures BadTimeRange(permission) <==>
              permission.notAfter != 0 && permission.notAfter < permission.notBefore && permission.notBefore != 0
  {
  }

  method Restrict(p: Primitives, codec: CodecRaw, apiKey: Macaroon, access: Store, permission: Permission,
                  prefixes: seq<SharePrefix>, nonce: Bytes)
    returns (r: Result<Macaroon, GrantError>, restricted: Store)
    requires access.Valid()
    ensures fresh(restricted) && fresh(restricted.nodes) && restricted.Valid()
    ensures r == Err(PermissionEmpty) <==>
              && !permission.allowDownload && !permission.allowUpload && !permission.allowList && !permission.allowDelete
              && permission.notBefore == 0 && permission.notAfter == 0
    ensures r == Err(InvalidTimeRange) <==> permission.notAfter != 0 && permission.notAfter < permission.notBefore && permission.notBefore != 0
    ensures r == if permission == NO_PERMISSION then Err(PermissionEmpty)
                 else if BadTimeRange(permission) then Err(InvalidTimeRange)
                 else match RestrictStore(p, access.Model(), prefixes)
                      case Err(e) => Err(e)
                      case Ok(n) => Ok(Macaroons.Restrict(p, codec, apiKey, NewCaveat(permission, n.allowedPaths, nonce)))
    ensures r.Ok? ==> restricted.Model() == RestrictStore(p, access.Model(), prefixes).value.store
  {
    PermissionByField(permission);
    hide Represents, Share, AddWithCipher, NewCaveat, Macaroons.Restrict;
    restricted := new Store();
    if permission == NO_PERMISSION {
      return Err(PermissionEmpty), restricted;
    }
    if BadTimeRange(permission) {
      return Err(InvalidTimeRange), restricted;
    }
    restricted.SetDefaultPathCipher(access.defaultPathCipher);
    if |prefixes| == 0 {
      restricted.SetDefaultKey(access.defaultKey);
    }
    NarrowErrors(p, access.Model(), Start(access.Model()), prefixes);
    var allowed := ShareAll(p, access, restricted, prefixes);
    if allowed.Err? {
      return Err(allowed.error), restricted;
    }
    return Ok(Macaroons.Restrict(p, codec, apiKey, NewCaveat(permission, allowed.value, nonce))), restricted;
  }

  /** The loop over the prefixes, which fills the new store. */
  method ShareAll(p: Primitives, access: Store, restricted: Store, prefixes: seq<SharePrefix>)
    returns (r: Result<seq<CaveatPath>, GrantError>)
    requires access.Valid() && restricted.Valid() && access != restricted && access.nodes !! restricted.nodes
    requires restricted.defaultPathCipher == access.defaultPathCipher
    modifies restricted, restricted.nodes
    ensures restricted.Valid() && fresh(restricted.nodes - old(restricted.nodes))
    ensures match Narrow(p, access.Model(), Narrowed(old(restricted.Model()), []), prefixes)
            case Err(e) => r == Err(e)
            case Ok(n) => r == Ok(n.allowedPaths) && restricted.Model() == n.store
  {
    hide Share, Represents, AddWithCipher, SharedAddition;
    var allowedPaths: seq<CaveatPath> := [];
    ghost var goal := Narrow(p, access.Model(), Narrowed(restricted.Model(), []), prefixes);
    for i := 0 to |prefixes|
      invariant access.Valid() && access.Model() == old(access.Model())
      invariant restricted.Valid() && fresh(restricted.nodes - old(restricted.nodes))
      invariant restricted.defaultPathCipher == access.defaultPathCipher
      invariant goal == Narrow(p, access.Model(), Narrowed(restricted.Model(), allowedPaths), prefixes[i..])
    {
      assert prefixes[i..][1..] == prefixes[i + 1..];
      var shared := ShareOne(p, prefixes[i], access, restricted, allowedPaths);
      if shared.Err? {
        return Err(shared.error);
      }
      allowedPaths := allowedPaths + [shared.value];
    }
    return Ok(allowedPaths);
  }

  method ShareOne(p: Primitives, prefix: SharePrefix, access: Store, restricted: Store, ghost allowed: seq<CaveatPath>)
    returns (r: Result<CaveatPath, GrantError>)
    requires access.Valid() && restricted.Valid() && access != restricted && access.nodes !! restricted.nodes
    requires restricted.defaultPathCipher == access.defaultPathCipher
    modifies restricted, restricted.nodes
    ensures restricted.Valid() && fresh(restricted.nodes - old(restricted.nodes))
    ensures match Share(p, access.Model(), Narrowed(old(restricted.Model()), allowed), prefix)
            case Err(e) => r == Err(e)
            case Ok(n) => r.Ok? && n == Narrowed(restricted.Model(), allowed + [r.value])
    ensures restricted.defaultPathCipher == old(restricted.defaultPathCipher)
  {
    hide Represents, AddWithCipher, EncryptPath, DerivePathKey;
    var a := SharedAdditionIn(p, prefix, access);
    if a.Err? {
      return Err(PathError(a.error));
    }
    var err := AddTo(restricted, a.value);
    if err.Some? {
      return Err(StoreError(err.value));
    }
    return Ok(CaveatPath(a.value.bucket, a.value.enc));
  }

  method AddTo(restricted: Store, a: Addition) returns (err: Option<AddError>)
    requires restricted.Valid() && a.pathCipher == restricted.defaultPathCipher
    modifies restricted, restricted.nodes
    ensures restricted.Valid() && fresh(restricted.nodes - old(restricted.nodes))
    ensures match AddWithCipher(old(restricted.Model()), a)
            case Err(e) => err == Some(e)
            case Ok(m) => err == None && restricted.Model() == m
    ensures restricted.defaultPathCipher == old(restricted.defaultPathCipher)
  {
    err := restricted.Add(a.bucket, a.unenc, a.enc, a.key);
  }

  method SharedAdditionIn(p: Primitives, prefix: SharePrefix, access: Store) returns (r: Result<Addition, Error>)
    requires access.Valid()
    ensures r == SharedAddition(p, access.Model(), prefix)
  {
    hide Represents, EncryptPath, DerivePathKey, LookupIn;
    var path := TrimSlash(prefix.prefix);
    var enc := EncryptPathIn(p, prefix.bucket, path, None, access);
    if enc.Err? {
      return Err(enc.error);
    }
    var key := DerivePathKeyIn(p, prefix.bucket, path, access);
    if key.Err? {
      return Err(key.error);
    }
    return Ok(Addition(prefix.bucket, path, enc.value, key.value, access.defaultPathCipher));
  }
}
