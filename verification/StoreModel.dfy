/** A key store as a value, and its refinement of a flat map from (bucket, plain path) to entries. */
module StoreModel {
  import opened Prelude
  import opened Paths
  import opened Crypto
  import opened KeyTrie

  datatype Model = Model(
    roots: map<Bytes, Trie>,
    defaultKey: Option<Key>,
    defaultPathCipher: CipherSuite,
    encryptionBypass: bool)

  const NEW_STORE := Model(map[], None, EncUnspecified, false)

  /** The arguments of AddWithCipher. */
  datatype Addition = Addition(bucket: Bytes, unenc: Bytes, enc: Bytes, key: Key, pathCipher: CipherSuite)

  function NewBase(a: Addition): Base {
    Base(a.unenc, a.enc, a.key, a.pathCipher, false)
  }

  function Root(s: Model, bucket: Bytes): Trie {
    if bucket in s.roots then s.roots[bucket] else EMPTY
  }

  function AddWithCipher(s: Model, a: Addition): Result<Model, AddError> {
    match Add(Root(s, a.bucket), Split(a.unenc), Split(a.enc), NewBase(a))
    case Err(e) => Err(e)
    case Ok(root) => Ok(s.(roots := s.roots[a.bucket := root]))
  }

  function DefaultBase(s: Model): Base
    requires s.defaultKey.Some?
  {
    Base([], [], s.defaultKey.value, s.defaultPathCipher, true)
  }

  function Bypassed(s: Model, base: Option<Base>): Option<Base> {
    if base.Some? && s.encryptionBypass then Some(base.value.(pathCipher := EncNullBase64URL)) else base
  }

  /** LookupUnencrypted, and LookupEncrypted when `unenc` is false. */
  function LookupIn(s: Model, bucket: Bytes, path: Bytes, unenc: bool): Lookup {
    var found := if bucket in s.roots then Find(s.roots[bucket], Split(path), [], None, unenc)
                 else Lookup(None, [], None);
    if found.base.None? && s.defaultKey.Some?
    then Lookup(None, Split(path), Bypassed(s, Some(DefaultBase(s))))
    else found.(base := Bypassed(s, found.base))
  }

  // ---------- the flat map ----------

  datatype Entry = Entry(enc: Path, base: Base)

  type Flat = map<(Bytes, Path), Entry>

  function NewEntry(a: Addition): Entry {
    Entry(Split(a.enc), NewBase(a))
  }

  function Slot(a: Addition): (Bytes, Path) {
    (a.bucket, Split(a.unenc))
  }

  /** An addition is accepted when both paths have the same number of components and it agrees with
      every entry of its bucket. */
  ghost predicate FlatAccepts(flat: Flat, a: Addition) {
    && |Split(a.unenc)| == |Split(a.enc)|
    && forall k :: k in flat && k.0 == a.bucket ==> Agree(Split(a.unenc), Split(a.enc), k.1, flat[k].enc)
  }

  ghost function FlatAdd(flat: Flat, a: Addition): Flat {
    if FlatAccepts(flat, a) then flat[Slot(a) := NewEntry(a)] else flat
  }

  function BaseOf(s: Model, bucket: Bytes, unenc: Path): Option<Base> {
    if bucket in s.roots then BaseAt(s.roots[bucket], unenc, true) else None
  }

  function NameOf(s: Model, bucket: Bytes, unenc: Path): Option<Path> {
    if bucket in s.roots then EncName(s.roots[bucket], unenc) else None
  }

  /** The entry was made by AddWithCipher under this key. */
  ghost predicate ProperEntry(k: (Bytes, Path), entry: Entry) {
    && Split(entry.base.unencrypted) == k.1
    && Split(entry.base.encrypted) == entry.enc
    && |entry.enc| == |k.1|
    && !entry.base.isDefault
  }

  ghost predicate Named(s: Model, flat: Flat, k: (Bytes, Path)) {
    k in flat ==> ProperEntry(k, flat[k]) && NameOf(s, k.0, k.1) == Some(flat[k].enc)
  }

  ghost predicate Based(s: Model, flat: Flat, b: Bytes, v: Path) {
    BaseOf(s, b, v) == if (b, v) in flat then Some(flat[(b, v)].base) else None
  }

  ghost predicate AboveEntry(s: Model, flat: Flat, b: Bytes, v: Path) {
    NameOf(s, b, v).Some? ==> exists w :: (b, w) in flat && v <= w
  }

  /** `s` holds exactly the entries of `flat`, and no nodes but those above some entry. */
  ghost predicate Represents(s: Model, flat: Flat) {
    && (forall b :: b in s.roots ==> Coherent(s.roots[b]))
    && (forall k :: Named(s, flat, k))
    && (forall b, v :: Based(s, flat, b, v))
    && (forall b, v :: AboveEntry(s, flat, b, v))
  }

  lemma AcceptsWhenOk(s: Model, flat: Flat, a: Addition)
    requires Represents(s, flat) && AddWithCipher(s, a).Ok?
    ensures FlatAccepts(flat, a)
  {
    var t, u, e := Root(s, a.bucket), Split(a.unenc), Split(a.enc);
    AddLengths(t, u, e, NewBase(a));
    forall k | k in flat && k.0 == a.bucket
      ensures Agree(u, e, k.1, flat[k].enc)
    {
      assert Named(s, flat, k);
      AddAgrees(t, u, e, NewBase(a), k.1);
    }
  }

  lemma OkWhenAccepts(s: Model, flat: Flat, a: Addition)
    requires Represents(s, flat) && FlatAccepts(flat, a)
    ensures AddWithCipher(s, a).Ok?
  {
    var t, u, e := Root(s, a.bucket), Split(a.unenc), Split(a.enc);
    if Add(t, u, e, NewBase(a)).Err? {
      var v := AddConflict(t, u, e, NewBase(a));
      EmptyHasNoBase(v);
      if a.bucket in s.roots {
        assert AboveEntry(s, flat, a.bucket, v);
        var w :| (a.bucket, w) in flat && v <= w;
        assert w[..|v|] == v && Named(s, flat, (a.bucket, w));
        NamePrefix(t, w, |v|);
        AgreePrefix(u, e, w, flat[(a.bucket, w)].enc, |v|);
      }
    }
  }

  lemma BasedAfterAdd(s: Model, flat: Flat, a: Addition, b: Bytes, v: Path)
    requires Based(s, flat, b, v) && AddWithCipher(s, a).Ok?
    ensures Based(AddWithCipher(s, a).value, flat[Slot(a) := NewEntry(a)], b, v)
  {
    if b == a.bucket {
      AddBase(Root(s, b), Split(a.unenc), Split(a.enc), NewBase(a), v);
      EmptyHasNoBase(v);
    }
  }

  lemma NameAfterAdd(s: Model, a: Addition, b: Bytes, v: Path)
    requires b in s.roots ==> Coherent(s.roots[b])
    requires AddWithCipher(s, a).Ok?
    ensures |Split(a.unenc)| == |Split(a.enc)|
    ensures NameOf(AddWithCipher(s, a).value, b, v) ==
            if b == a.bucket && v <= Split(a.unenc) then Some(Split(a.enc)[..|v|]) else NameOf(s, b, v)
  {
    AddLengths(Root(s, a.bucket), Split(a.unenc), Split(a.enc), NewBase(a));
    if b == a.bucket {
      AddName(Root(s, b), Split(a.unenc), Split(a.enc), NewBase(a), v);
      EmptyHasNoBase(v);
    }
  }

  lemma NamedAfterAdd(s: Model, flat: Flat, a: Addition, k: (Bytes, Path))
    requires k.0 in s.roots ==> Coherent(s.roots[k.0])
    requires Named(s, flat, k) && AddWithCipher(s, a).Ok?
    ensures Named(AddWithCipher(s, a).value, flat[Slot(a) := NewEntry(a)], k)
  {
    var u, e := Split(a.unenc), Split(a.enc);
    NameAfterAdd(s, a, k.0, k.1);
    assert e[..|u|] == e;
    if k in flat && k.0 == a.bucket && k.1 <= u && k.1 != u {
      AddKeepsNames(Root(s, a.bucket), u, e, NewBase(a), k.1);
    }
  }

  lemma AboveAfterAdd(s: Model, flat: Flat, a: Addition, b: Bytes, v: Path)
    requires b in s.roots ==> Coherent(s.roots[b])
    requires AboveEntry(s, flat, b, v) && AddWithCipher(s, a).Ok?
    ensures AboveEntry(AddWithCipher(s, a).value, flat[Slot(a) := NewEntry(a)], b, v)
  {
    var flat' := flat[Slot(a) := NewEntry(a)];
    NameAfterAdd(s, a, b, v);
    if b == a.bucket && v <= Split(a.unenc) {
      assert (b, Split(a.unenc)) in flat';
    } else if NameOf(s, b, v).Some? {
      var w :| (b, w) in flat && v <= w;
      assert (b, w) in flat';
    }
  }

  lemma RepresentsAfterAdd(s: Model, flat: Flat, a: Addition)
    requires Represents(s, flat) && AddWithCipher(s, a).Ok?
    ensures Represents(AddWithCipher(s, a).value, flat[Slot(a) := NewEntry(a)])
  {
    var s', flat' := AddWithCipher(s, a).value, flat[Slot(a) := NewEntry(a)];
    AddCoherent(Root(s, a.bucket), Split(a.unenc), Split(a.enc), NewBase(a));
    forall k
      ensures Named(s', flat', k)
    {
      assert Named(s, flat, k);
      NamedAfterAdd(s, flat, a, k);
    }
    forall b, v
      ensures Based(s', flat', b, v) && AboveEntry(s', flat', b, v)
    {
      assert Based(s, flat, b, v) && AboveEntry(s, flat, b, v);
      BasedAfterAdd(s, flat, a, b, v);
      AboveAfterAdd(s, flat, a, b, v);
    }
  }

  /** One AddWithCipher on the trie is one addition to the flat map: it succeeds exactly when the
      flat map accepts it. */
  lemma AddRefines(s: Model, flat: Flat, a: Addition)
    requires Represents(s, flat)
    ensures AddWithCipher(s, a).Ok? <==> FlatAccepts(flat, a)
    ensures AddWithCipher(s, a).Ok? ==> Represents(AddWithCipher(s, a).value, FlatAdd(flat, a))
  {
    if AddWithCipher(s, a).Ok? {
      AcceptsWhenOk(s, flat, a);
      RepresentsAfterAdd(s, flat, a);
    } else if FlatAccepts(flat, a) {
      OkWhenAccepts(s, flat, a);
    }
  }

  /** The store after a run of additions, of which the failing ones leave it as it was. */
  function Run(s: Model, adds: seq<Addition>): Model
    decreases |adds|
  {
    if adds == [] then s
    else
      var s' := Run(s, adds[..|adds| - 1]);
      match AddWithCipher(s', adds[|adds| - 1])
      case Err(_) => s'
      case Ok(s'') => s''
  }

  ghost function FlatRun(flat: Flat, adds: seq<Addition>): Flat
    decreases |adds|
  {
    if adds == [] then flat else FlatAdd(FlatRun(flat, adds[..|adds| - 1]), adds[|adds| - 1])
  }

  /** Every reachable store refines the flat map. */
  lemma {:induction false} RunRefines(s: Model, flat: Flat, adds: seq<Addition>)
    requires Represents(s, flat)
    ensures Represents(Run(s, adds), FlatRun(flat, adds))
    ensures Run(s, adds) == s.(roots := Run(s, adds).roots)
    decreases |adds|
  {
    if adds != [] {
      RunRefines(s, flat, adds[..|adds| - 1]);
      AddRefines(Run(s, adds[..|adds| - 1]), FlatRun(flat, adds[..|adds| - 1]), adds[|adds| - 1]);
    }
  }

  // ---------- lookups in the flat map ----------

  /** The entry at `path` of one bucket, found by its plain or by its encrypted path. */
  ghost predicate EntryAt(flat: Flat, bucket: Bytes, path: Path, unenc: bool, k: (Bytes, Path)) {
    k in flat && k.0 == bucket && path == if unenc then k.1 else flat[k].enc
  }

  lemma BaseAtEntry(s: Model, flat: Flat, bucket: Bytes, path: Path, unenc: bool, k: (Bytes, Path))
    requires Represents(s, flat) && EntryAt(flat, bucket, path, unenc, k)
    ensures bucket in s.roots && BaseAt(s.roots[bucket], path, unenc) == Some(flat[k].base)
    ensures ProperEntry(k, flat[k])
  {
    assert Named(s, flat, k) && Based(s, flat, k.0, k.1);
    NodeByEncName(s.roots[bucket], k.1);
  }

  lemma EntryAtBase(s: Model, flat: Flat, bucket: Bytes, path: Path, unenc: bool) returns (k: (Bytes, Path))
    requires Represents(s, flat)
    requires bucket in s.roots && BaseAt(s.roots[bucket], path, unenc).Some?
    ensures EntryAt(flat, bucket, path, unenc, k)
  {
    if unenc {
      k := (bucket, path);
      assert Based(s, flat, bucket, path);
    } else {
      var u := PlainName(s.roots[bucket], path);
      k := (bucket, u);
      NodeByEncName(s.roots[bucket], u);
      assert Based(s, flat, bucket, u) && Named(s, flat, k);
    }
  }

  /** `k` is the entry with the longest component-wise prefix of `path`. */
  ghost predicate LongestEntry(flat: Flat, bucket: Bytes, path: Path, unenc: bool, k: (Bytes, Path)) {
    && |k.1| <= |path|
    && EntryAt(flat, bucket, path[..|k.1|], unenc, k)
    && forall n, k' :: |k.1| < n <= |path| ==> !EntryAt(flat, bucket, path[..n], unenc, k')
  }

  ghost predicate NoEntry(flat: Flat, bucket: Bytes, path: Path, unenc: bool) {
    forall n, k :: 0 <= n <= |path| ==> !EntryAt(flat, bucket, path[..n], unenc, k)
  }

  lemma BestIsLongest(s: Model, flat: Flat, bucket: Bytes, path: Path, unenc: bool) returns (k: (Bytes, Path))
    requires Represents(s, flat) && bucket in s.roots && Best(s.roots[bucket], path, unenc).Some?
    ensures LongestEntry(flat, bucket, path, unenc, k)
    ensures |k.1| == Best(s.roots[bucket], path, unenc).value
    ensures BaseAt(s.roots[bucket], path[..|k.1|], unenc) == Some(flat[k].base)
  {
    var best := Best(s.roots[bucket], path, unenc).value;
    k := EntryAtBase(s, flat, bucket, path[..best], unenc);
    BaseAtEntry(s, flat, bucket, path[..best], unenc, k);
    forall n, k' | best < n <= |path|
      ensures !EntryAt(flat, bucket, path[..n], unenc, k')
    {
      if EntryAt(flat, bucket, path[..n], unenc, k') {
        BaseAtEntry(s, flat, bucket, path[..n], unenc, k');
      }
    }
  }

  lemma NoBestNoEntry(s: Model, flat: Flat, bucket: Bytes, path: Path, unenc: bool)
    requires Represents(s, flat) && (bucket in s.roots ==> Best(s.roots[bucket], path, unenc).None?)
    ensures NoEntry(flat, bucket, path, unenc)
  {
    forall n, k | 0 <= n <= |path|
      ensures !EntryAt(flat, bucket, path[..n], unenc, k)
    {
      if EntryAt(flat, bucket, path[..n], unenc, k) {
        BaseAtEntry(s, flat, bucket, path[..n], unenc, k);
      }
    }
  }

  /** What longest-prefix search in the flat map answers; `k` is the entry found, if there is one. */
  ghost predicate Answer(s: Model, flat: Flat, bucket: Bytes, path: Path, unenc: bool, r: Lookup, k: Option<(Bytes, Path)>) {
    match k
    case Some(slot) =>
      && LongestEntry(flat, bucket, path, unenc, slot)
      && r.base == Bypassed(s, Some(flat[slot].base))
      && r.remaining == path[|slot.1|..]
    case None =>
      && NoEntry(flat, bucket, path, unenc)
      && (s.defaultKey.Some? ==> r == Lookup(None, path, Bypassed(s, Some(DefaultBase(s)))))
      && (s.defaultKey.None? ==> r.base == None)
  }

  /** Both lookups are longest-prefix search: they return the base of the longest entry above the
      path with exactly the unmatched components remaining, and the default base, if any, when
      there is no such entry. */
  lemma LookupIsLongestPrefix(s: Model, flat: Flat, bucket: Bytes, path: Bytes, unenc: bool)
    returns (k: Option<(Bytes, Path)>)
    requires Represents(s, flat)
    ensures Answer(s, flat, bucket, Split(path), unenc, LookupIn(s, bucket, path, unenc), k)
  {
    var cs := Split(path);
    k := None;
    if bucket in s.roots {
      FindBest(s.roots[bucket], cs, [], None, unenc);
      if Best(s.roots[bucket], cs, unenc).Some? {
        var slot := BestIsLongest(s, flat, bucket, cs, unenc);
        return Some(slot);
      }
    }
    NoBestNoEntry(s, flat, bucket, cs, unenc);
  }

  /** The base that answers without an entry, field by field. */
  lemma DefaultAnswer(s: Model, flat: Flat, bucket: Bytes, path: Bytes, unenc: bool)
    requires Represents(s, flat) && NoEntry(flat, bucket, Split(path), unenc)
    ensures s.defaultKey.None? ==> LookupIn(s, bucket, path, unenc).base == None
    ensures s.defaultKey.Some? ==>
              var r := LookupIn(s, bucket, path, unenc);
              && r.revealed == None && r.remaining == Split(path)
              && r.base == Some(Base([], [], s.defaultKey.value, if s.encryptionBypass then EncNullBase64URL else s.defaultPathCipher, true))
  {
    var k := LookupIsLongestPrefix(s, flat, bucket, path, unenc);
  }

  /** Bypassing the encryption changes the cipher of every base found, and nothing else. */
  lemma BypassChangesCipher(s: Model, bucket: Bytes, path: Bytes, unenc: bool)
    requires s.encryptionBypass
    ensures var r, r' := LookupIn(s, bucket, path, unenc), LookupIn(s.(encryptionBypass := false), bucket, path, unenc);
            && r.revealed == r'.revealed && r.remaining == r'.remaining && (r.base.Some? <==> r'.base.Some?)
            && (r.base.Some? ==> r.base.value == r'.base.value.(pathCipher := EncNullBase64URL))
  {
    hide Find;
  }

  // ---------- what a lookup reveals ----------

  /** The entry is at or below the path, on the side that was looked up. */
  ghost predicate AtOrBelow(flat: Flat, bucket: Bytes, path: Path, unenc: bool, k: (Bytes, Path)) {
    k in flat && k.0 == bucket && path <= if unenc then k.1 else flat[k].enc
  }

  /** The entry is strictly below the path, and u and e are its names right below it. */
  ghost predicate NamesBelow(flat: Flat, bucket: Bytes, path: Path, unenc: bool, k: (Bytes, Path), u: Bytes, e: Bytes) {
    && AtOrBelow(flat, bucket, path, unenc, k)
    && |path| < |k.1| && |path| < |flat[k].enc|
    && k.1[|path|] == u && flat[k].enc[|path|] == e
  }

  /** A plain lookup reveals the plain names by the encrypted ones, and an encrypted lookup the other way
      round: exactly the names right below the path of the entries below it. It reveals anything at all
      exactly when some entry is at or below the path. When the default key answers, it reveals nothing. */
  ghost predicate Reveals(s: Model, flat: Flat, bucket: Bytes, path: Path, unenc: bool, revealed: Option<map<Bytes, Bytes>>) {
    if NoEntry(flat, bucket, path, unenc) && s.defaultKey.Some? then revealed.None?
    else
      && (revealed.Some? <==> exists k :: AtOrBelow(flat, bucket, path, unenc, k))
      && (revealed.Some? ==> forall u, e {:trigger PairBelow(flat, bucket, path, unenc, u, e)} ::
            PairBelow(flat, bucket, path, unenc, u, e) <==>
              if unenc then e in revealed.value && revealed.value[e] == u
              else u in revealed.value && revealed.value[u] == e)
  }

  ghost predicate PairBelow(flat: Flat, bucket: Bytes, path: Path, unenc: bool, u: Bytes, e: Bytes) {
    exists k :: NamesBelow(flat, bucket, path, unenc, k, u, e)
  }

  lemma LookupReveals(s: Model, flat: Flat, bucket: Bytes, path: Bytes, unenc: bool)
    requires Represents(s, flat)
    ensures Reveals(s, flat, bucket, Split(path), unenc, LookupIn(s, bucket, path, unenc).revealed)
  {
    hide Represents, LookupIn, NoEntry, AtOrBelow, NamesBelow, PairBelow;
    var cs := Split(path);
    RevealedNode(s, flat, bucket, path, unenc);
    if !(NoEntry(flat, bucket, cs, unenc) && s.defaultKey.Some?) {
      NodeAboveEntries(s, flat, bucket, cs, unenc);
      if NodeIn(s, bucket, cs, unenc).Some? {
        forall u, e
          ensures PairBelow(flat, bucket, cs, unenc, u, e) <==> Pairs(NodeIn(s, bucket, cs, unenc).value, u, e)
          ensures Pairs(NodeIn(s, bucket, cs, unenc).value, u, e) <==>
                  var node := NodeIn(s, bucket, cs, unenc).value; e in node.encMap && node.encMap[e] == u
        {
          NamesOfNode(s, flat, bucket, cs, unenc, u, e);
        }
      }
    }
  }

  /** The node has a child with this plain and this encrypted name. */
  predicate Pairs(node: Trie, u: Bytes, e: Bytes) {
    u in node.unencMap && node.unencMap[u] == e
  }

  function NodeIn(s: Model, bucket: Bytes, path: Path, unenc: bool): Option<Trie> {
    if bucket in s.roots then NodeAt(s.roots[bucket], path, unenc) else None
  }

  /** The lookup reveals a name map of the node at the path, unless the default key answers. */
  lemma RevealedNode(s: Model, flat: Flat, bucket: Bytes, path: Bytes, unenc: bool)
    requires Represents(s, flat)
    ensures LookupIn(s, bucket, path, unenc).revealed ==
            if NoEntry(flat, bucket, Split(path), unenc) && s.defaultKey.Some? then None
            else match NodeIn(s, bucket, Split(path), unenc)
                 case None => None
                 case Some(node) => Some(if unenc then node.encMap else node.unencMap)
  {
    var cs := Split(path);
    if bucket in s.roots {
      FindBest(s.roots[bucket], cs, [], None, unenc);
    }
    if bucket in s.roots && Best(s.roots[bucket], cs, unenc).Some? {
      var k := BestIsLongest(s, flat, bucket, cs, unenc);
      assert EntryAt(flat, bucket, cs[..|k.1|], unenc, k);
    } else {
      NoBestNoEntry(s, flat, bucket, cs, unenc);
    }
  }

  /** The plain path of a node that was found by either name. */
  lemma PlainPath(s: Model, flat: Flat, bucket: Bytes, path: Path, unenc: bool) returns (v: Path)
    requires Represents(s, flat) && NodeIn(s, bucket, path, unenc).Some?
    ensures NameOf(s, bucket, v).Some? && path == if unenc then v else NameOf(s, bucket, v).value
    ensures NodeIn(s, bucket, v, true) == NodeIn(s, bucket, path, unenc)
  {
    var t := s.roots[bucket];
    if unenc {
      v := path;
    } else {
      v := PlainName(t, path);
    }
    NodeByEncName(t, v);
  }

  /** Both sides of an entry are below a node or neither is. */
  lemma BelowOnBothSides(s: Model, flat: Flat, bucket: Bytes, v: Path, k: (Bytes, Path))
    requires Represents(s, flat) && NameOf(s, bucket, v).Some? && k in flat && k.0 == bucket
    ensures |flat[k].enc| == |k.1|
    ensures v <= k.1 <==> NameOf(s, bucket, v).value <= flat[k].enc
  {
    var t, e := s.roots[bucket], NameOf(s, bucket, v).value;
    assert Named(s, flat, k);
    NamesAgree(t, v, k.1);
    if v <= k.1 {
      NamePrefix(t, k.1, |v|);
      assert k.1[..|v|] == v;
    }
    if e <= flat[k].enc {
      CommonLengthIs(e, flat[k].enc, |e|);
      assert v == v[..|v|] == k.1[..|v|];
    }
  }

  /** There is a node at a path exactly when some entry is at or below it. */
  lemma NodeAboveEntries(s: Model, flat: Flat, bucket: Bytes, path: Path, unenc: bool)
    requires Represents(s, flat)
    ensures NodeIn(s, bucket, path, unenc).Some? <==> exists k :: AtOrBelow(flat, bucket, path, unenc, k)
  {
    if NodeIn(s, bucket, path, unenc).Some? {
      var v := PlainPath(s, flat, bucket, path, unenc);
      assert AboveEntry(s, flat, bucket, v);
      var w :| (bucket, w) in flat && v <= w;
      BelowOnBothSides(s, flat, bucket, v, (bucket, w));
      assert AtOrBelow(flat, bucket, path, unenc, (bucket, w));
    }
    if k :| AtOrBelow(flat, bucket, path, unenc, k) {
      assert Named(s, flat, k);
      var t, n := s.roots[bucket], |path|;
      NamePrefix(t, k.1, n);
      NodeByEncName(t, k.1[..n]);
      assert path == if unenc then k.1[..n] else flat[k].enc[..n];
    }
  }

  /** The name maps of a node pair the names right below it of the entries below it. */
  lemma NamesOfNode(s: Model, flat: Flat, bucket: Bytes, path: Path, unenc: bool, u: Bytes, e: Bytes)
    requires Represents(s, flat) && NodeIn(s, bucket, path, unenc).Some?
    ensures var node := NodeIn(s, bucket, path, unenc).value;
            && (Pairs(node, u, e) <==> PairBelow(flat, bucket, path, unenc, u, e))
            && (Pairs(node, u, e) <==> e in node.encMap && node.encMap[e] == u)
  {
    var v := PlainPath(s, flat, bucket, path, unenc);
    ChildName(s.roots[bucket], v, u);
    hide Represents;
    var name := NameOf(s, bucket, v).value;
    if NameOf(s, bucket, v + [u]) == Some(name + [e]) {
      ChildHasEntry(s, flat, bucket, path, unenc, v, u, e);
    }
    if PairBelow(flat, bucket, path, unenc, u, e) {
      EntryNamesChild(s, flat, bucket, path, unenc, v, u, e);
    }
    assert (name + [e])[|name|] == e;
  }

  lemma ChildHasEntry(s: Model, flat: Flat, bucket: Bytes, path: Path, unenc: bool, v: Path, u: Bytes, e: Bytes)
    requires Represents(s, flat) && NameOf(s, bucket, v).Some?
    requires path == if unenc then v else NameOf(s, bucket, v).value
    requires NameOf(s, bucket, v + [u]) == Some(NameOf(s, bucket, v).value + [e])
    ensures PairBelow(flat, bucket, path, unenc, u, e)
  {
    assert AboveEntry(s, flat, bucket, v + [u]);
    var w :| (bucket, w) in flat && v + [u] <= w;
    hide Represents;
    BelowOnBothSides(s, flat, bucket, v, (bucket, w));
    BelowOnBothSides(s, flat, bucket, v + [u], (bucket, w));
    assert w[|v|] == (v + [u])[|v|] == u;
    assert flat[(bucket, w)].enc[|v|] == (NameOf(s, bucket, v).value + [e])[|v|] == e;
    assert NamesBelow(flat, bucket, path, unenc, (bucket, w), u, e);
  }

  lemma EntryNamesChild(s: Model, flat: Flat, bucket: Bytes, path: Path, unenc: bool, v: Path, u: Bytes, e: Bytes)
    requires Represents(s, flat) && NameOf(s, bucket, v).Some?
    requires path == if unenc then v else NameOf(s, bucket, v).value
    requires PairBelow(flat, bucket, path, unenc, u, e)
    ensures NameOf(s, bucket, v + [u]) == Some(NameOf(s, bucket, v).value + [e])
  {
    var k :| NamesBelow(flat, bucket, path, unenc, k, u, e);
    BelowOnBothSides(s, flat, bucket, v, k);
    EntryName(s, flat, k);
    hide Represents, EncName;
    NamePrefix(s.roots[bucket], k.1, |v| + 1);
    NextComponent(k.1, v, u);
    NextComponent(flat[k].enc, NameOf(s, bucket, v).value, e);
  }

  lemma EntryName(s: Model, flat: Flat, k: (Bytes, Path))
    requires Represents(s, flat) && k in flat
    ensures k.0 in s.roots && EncName(s.roots[k.0], k.1) == Some(flat[k].enc)
  {
    assert Named(s, flat, k);
  }

  lemma NextComponent(a: Path, v: Path, c: Bytes)
    requires v <= a && |v| < |a| && a[|v|] == c
    ensures a[..|v| + 1] == v + [c]
  {
  }

  // ---------- export and import ----------

  lemma EntriesAgree(s: Model, flat: Flat, k: (Bytes, Path), k': (Bytes, Path))
    requires Represents(s, flat) && k in flat && k' in flat && k.0 == k'.0
    ensures Agree(k.1, flat[k].enc, k'.1, flat[k'].enc)
  {
    assert Named(s, flat, k) && Named(s, flat, k');
    NamesAgree(s.roots[k.0], k.1, k'.1);
  }

  lemma SameNames(s: Model, s': Model, flat: Flat, b: Bytes, v: Path)
    requires Represents(s, flat) && Represents(s', flat)
    ensures NameOf(s, b, v).Some? ==> NameOf(s', b, v) == NameOf(s, b, v)
  {
    if NameOf(s, b, v).Some? {
      assert AboveEntry(s, flat, b, v);
      var w :| (b, w) in flat && v <= w;
      assert w[..|v|] == v;
      assert Named(s, flat, (b, w)) && Named(s', flat, (b, w));
      NamePrefix(s.roots[b], w, |v|);
      NamePrefix(s'.roots[b], w, |v|);
    }
  }

  lemma SameRoot(s: Model, s': Model, flat: Flat, b: Bytes)
    requires Represents(s, flat) && Represents(s', flat) && b in s.roots
    ensures b in s'.roots && s.roots[b] == s'.roots[b]
  {
    SameNames(s, s', flat, b, []);
    forall v
      ensures BaseAt(s.roots[b], v, true) == BaseAt(s'.roots[b], v, true)
      ensures EncName(s.roots[b], v) == EncName(s'.roots[b], v)
    {
      assert Based(s, flat, b, v) && Based(s', flat, b, v);
      SameNames(s, s', flat, b, v);
      SameNames(s', s, flat, b, v);
    }
    SameObservations(s.roots[b], s'.roots[b]);
  }

  /** The flat map determines the store. */
  lemma RepresentationUnique(s: Model, s': Model, flat: Flat)
    requires Represents(s, flat) && Represents(s', flat)
    ensures s.roots == s'.roots
  {
    forall b
      ensures b in s.roots ==> b in s'.roots && s.roots[b] == s'.roots[b]
      ensures b in s'.roots ==> b in s.roots
    {
      if b in s.roots {
        SameRoot(s, s', flat, b);
      }
      if b in s'.roots {
        SameRoot(s', s, flat, b);
      }
    }
  }

  /** The addition that recreates an entry, as IterateWithCipher reports it. */
  function Exported(bucket: Bytes, base: Base): Addition {
    Addition(bucket, base.unencrypted, base.encrypted, base.key, base.pathCipher)
  }

  ghost predicate Exports(a: Addition, flat: Flat) {
    Slot(a) in flat && a == Exported(a.bucket, flat[Slot(a)].base)
  }

  /** `adds` lists every entry of `flat` at least once and nothing else, in any order. */
  ghost predicate Lists(adds: seq<Addition>, flat: Flat) {
    && (forall i :: 0 <= i < |adds| ==> Exports(adds[i], flat))
    && (forall k :: k in flat ==> exists i :: 0 <= i < |adds| && Slot(adds[i]) == k)
  }

  /** The part of `flat` that has been added again. */
  ghost predicate PartOf(part: Flat, flat: Flat) {
    forall k :: k in part ==> k in flat && part[k] == flat[k]
  }

  lemma ReaddOne(s: Model, flat: Flat, part: Flat, a: Addition)
    requires Represents(s, flat) && PartOf(part, flat)
    requires Exports(a, flat)
    ensures FlatAccepts(part, a) && PartOf(FlatAdd(part, a), flat)
  {
    assert Named(s, flat, Slot(a));
    assert NewEntry(a) == flat[Slot(a)];
    forall k | k in part && k.0 == a.bucket
      ensures Agree(Split(a.unenc), Split(a.enc), k.1, part[k].enc)
    {
      EntriesAgree(s, flat, Slot(a), k);
    }
  }

  lemma {:induction false} ReaddPrefix(s: Model, flat: Flat, adds: seq<Addition>)
    requires Represents(s, flat)
    requires forall i :: 0 <= i < |adds| ==> Exports(adds[i], flat)
    ensures PartOf(FlatRun(map[], adds), flat)
    ensures forall i :: 0 <= i < |adds| ==> Slot(adds[i]) in FlatRun(map[], adds)
    decreases |adds|
  {
    if adds != [] {
      var init, last := adds[..|adds| - 1], adds[|adds| - 1];
      ReaddPrefix(s, flat, init);
      ReaddOne(s, flat, FlatRun(map[], init), last);
      forall i | 0 <= i < |adds| - 1
        ensures Slot(adds[i]) in FlatRun(map[], adds)
      {
        assert adds[i] == init[i];
      }
    }
  }

  lemma EmptyRepresented(s: Model)
    requires s.roots == map[]
    ensures Represents(s, map[])
  {
  }

  lemma ReaddOk(s: Model, flat: Flat, blank: Model, adds: seq<Addition>, n: nat)
    requires Represents(s, flat) && Represents(blank, map[])
    requires Lists(adds, flat) && n < |adds|
    ensures AddWithCipher(Run(blank, adds[..n]), adds[n]).Ok?
  {
    ReaddPrefix(s, flat, adds[..n]);
    RunRefines(blank, map[], adds[..n]);
    ReaddOne(s, flat, FlatRun(map[], adds[..n]), adds[n]);
    AddRefines(Run(blank, adds[..n]), FlatRun(map[], adds[..n]), adds[n]);
  }

  lemma ReaddAll(s: Model, flat: Flat, adds: seq<Addition>)
    requires Represents(s, flat) && Lists(adds, flat)
    ensures FlatRun(map[], adds) == flat
  {
    ReaddPrefix(s, flat, adds);
    var part := FlatRun(map[], adds);
    forall k | k in flat
      ensures k in part
    {
      var i :| 0 <= i < |adds| && Slot(adds[i]) == k;
    }
  }

  /** Adding the entries of a store to an empty one, in any order, never fails and rebuilds the very
      same tries, so every lookup gives the same answer. */
  lemma ReaddingRebuilds(s: Model, flat: Flat, blank: Model, adds: seq<Addition>)
    requires Represents(s, flat) && blank.roots == map[] && Lists(adds, flat)
    ensures forall n :: 0 <= n < |adds| ==> AddWithCipher(Run(blank, adds[..n]), adds[n]).Ok?
    ensures Run(blank, adds) == blank.(roots := s.roots)
  {
    EmptyRepresented(blank);
    forall n | 0 <= n < |adds|
      ensures AddWithCipher(Run(blank, adds[..n]), adds[n]).Ok?
    {
      ReaddOk(s, flat, blank, adds, n);
    }
    ReaddAll(s, flat, adds);
    RunRefines(blank, map[], adds);
    RepresentationUnique(s, Run(blank, adds), flat);
  }

  // ---------- iteration ----------

  /** `out` reports, once each, the bases of `t` at the paths in `at`; these are all the bases at []
      and below the children in `done`. */
  ghost predicate Visits(t: Trie, bucket: Bytes, out: seq<Addition>, at: seq<Path>, done: set<Bytes>) {
    && |out| == |at|
    && (forall i, j :: 0 <= i < j < |at| ==> at[i] != at[j])
    && (forall i :: 0 <= i < |at| ==>
          BaseAt(t, at[i], true).Some? && out[i] == Exported(bucket, BaseAt(t, at[i], true).value))
    && (forall i :: 0 <= i < |at| ==> at[i] == [] || at[i][0] in done)
    && (forall v :: BaseAt(t, v, true).Some? && (v == [] || v[0] in done) ==> v in at)
  }

  ghost predicate VisitsAll(t: Trie, bucket: Bytes, out: seq<Addition>, at: seq<Path>) {
    Visits(t, bucket, out, at, t.children.Keys)
  }

  lemma VisitsEverything(t: Trie, bucket: Bytes, out: seq<Addition>, at: seq<Path>, v: Path)
    requires VisitsAll(t, bucket, out, at) && BaseAt(t, v, true).Some?
    ensures v in at
  {
  }

  ghost function Below(u: Bytes, at: seq<Path>): (r: seq<Path>)
    ensures |r| == |at| && forall i :: 0 <= i < |at| ==> r[i] == [u] + at[i]
  {
    seq(|at|, i requires 0 <= i < |at| => [u] + at[i])
  }

  lemma BelowAt(t: Trie, u: Bytes, at: seq<Path>, i: nat)
    requires u in t.children && i < |at|
    ensures Below(u, at)[i] != [] && Below(u, at)[i][0] == u && Below(u, at)[i][1..] == at[i]
    ensures BaseAt(t, Below(u, at)[i], true) == BaseAt(t.children[u], at[i], true)
  {
    assert Below(u, at)[i][1..] == at[i];
  }

  lemma VisitedBase(t: Trie, bucket: Bytes)
    ensures Visits(t, bucket, if t.base.Some? then [Exported(bucket, t.base.value)] else [], if t.base.Some? then [[]] else [], {})
  {
  }

  lemma VisitedChild(t: Trie, bucket: Bytes, out: seq<Addition>, at: seq<Path>, done: set<Bytes>,
                     u: Bytes, out': seq<Addition>, at': seq<Path>)
    requires Visits(t, bucket, out, at, done) && u !in done && u in t.children
    requires VisitsAll(t.children[u], bucket, out', at')
    ensures Visits(t, bucket, out + out', at + Below(u, at'), done + {u})
  {
    hide Exported;
    var at2 := at + Below(u, at');
    forall i | 0 <= i < |at2|
      ensures BaseAt(t, at2[i], true).Some?
      ensures (out + out')[i] == Exported(bucket, BaseAt(t, at2[i], true).value)
      ensures at2[i] == [] || at2[i][0] in done + {u}
    {
      if i >= |at| {
        BelowAt(t, u, at', i - |at|);
      }
    }
    forall i, j | 0 <= i < j < |at2|
      ensures at2[i] != at2[j]
    {
      if j >= |at| {
        BelowAt(t, u, at', j - |at|);
        if i >= |at| {
          BelowAt(t, u, at', i - |at|);
        }
      }
    }
    forall v | BaseAt(t, v, true).Some? && (v == [] || v[0] in done + {u})
      ensures v in at2
    {
      if v != [] && v[0] == u {
        VisitsEverything(t.children[u], bucket, out', at', v[1..]);
        var i :| 0 <= i < |at'| && at'[i] == v[1..];
        assert at2[|at| + i] == v;
      }
    }
  }

  /** `out` reports, once each, the entries of the buckets in `done`. */
  ghost predicate ListsBuckets(out: seq<Addition>, flat: Flat, done: set<Bytes>) {
    && (forall i :: 0 <= i < |out| ==> Exports(out[i], flat) && out[i].bucket in done)
    && (forall i, j :: 0 <= i < j < |out| ==> Slot(out[i]) != Slot(out[j]))
    && (forall k :: k in flat && k.0 in done ==> exists i :: 0 <= i < |out| && Slot(out[i]) == k)
  }

  lemma VisitedSlots(s: Model, flat: Flat, bucket: Bytes, out: seq<Addition>, at: seq<Path>)
    requires Represents(s, flat) && bucket in s.roots && VisitsAll(s.roots[bucket], bucket, out, at)
    ensures forall i :: 0 <= i < |out| ==> Exports(out[i], flat) && Slot(out[i]) == (bucket, at[i])
    ensures forall k :: k in flat && k.0 == bucket ==> k.1 in at
  {
    forall i | 0 <= i < |out|
      ensures Exports(out[i], flat) && Slot(out[i]) == (bucket, at[i])
    {
      assert Based(s, flat, bucket, at[i]) && Named(s, flat, (bucket, at[i]));
    }
    forall k | k in flat && k.0 == bucket
      ensures k.1 in at
    {
      assert Based(s, flat, k.0, k.1);
      VisitsEverything(s.roots[bucket], bucket, out, at, k.1);
    }
  }

  lemma ListedOnce(flat: Flat, out: seq<Addition>, done: set<Bytes>, bucket: Bytes, out': seq<Addition>, at: seq<Path>)
    requires ListsBuckets(out, flat, done) && bucket !in done && |out'| == |at|
    requires forall i :: 0 <= i < |out'| ==> Exports(out'[i], flat) && Slot(out'[i]) == (bucket, at[i])
    requires forall i, j :: 0 <= i < j < |at| ==> at[i] != at[j]
    ensures var all := out + out';
            && (forall i :: 0 <= i < |all| ==> Exports(all[i], flat) && all[i].bucket in done + {bucket})
            && (forall i, j :: 0 <= i < j < |all| ==> Slot(all[i]) != Slot(all[j]))
  {
    var all := out + out';
    forall i, j | 0 <= i < j < |all|
      ensures Slot(all[i]) != Slot(all[j])
    {
      if j >= |out| {
        assert Slot(all[j]) == (bucket, at[j - |out|]);
        if i >= |out| {
          assert Slot(all[i]) == (bucket, at[i - |out|]);
        }
      }
    }
  }

  lemma ListedBucket(s: Model, flat: Flat, out: seq<Addition>, done: set<Bytes>,
                     bucket: Bytes, out': seq<Addition>, at: seq<Path>)
    requires Represents(s, flat) && ListsBuckets(out, flat, done) && bucket !in done
    requires bucket in s.roots && VisitsAll(s.roots[bucket], bucket, out', at)
    ensures ListsBuckets(out + out', flat, done + {bucket})
  {
    hide Represents, Exports;
    VisitedSlots(s, flat, bucket, out', at);
    var all := out + out';
    ListedOnce(flat, out, done, bucket, out', at);
    forall k | k in flat && k.0 in done + {bucket}
      ensures exists i :: 0 <= i < |all| && Slot(all[i]) == k
    {
      if k.0 == bucket {
        var i :| 0 <= i < |at| && at[i] == k.1;
        assert all[|out| + i] == out'[i];
      } else {
        var i :| 0 <= i < |out| && Slot(out[i]) == k;
        assert all[i] == out[i];
      }
    }
  }

  lemma NothingListed(flat: Flat)
    ensures ListsBuckets([], flat, {})
  {
  }

  lemma ListedAll(s: Model, flat: Flat, out: seq<Addition>)
    requires Represents(s, flat) && ListsBuckets(out, flat, s.roots.Keys)
    ensures Lists(out, flat) && |out| == |flat|
  {
    forall k | k in flat
      ensures exists i :: 0 <= i < |out| && Slot(out[i]) == k
    {
      assert Named(s, flat, k);
    }
    SlotsOnce(out, flat.Keys);
  }

  lemma {:induction false} SlotsOnce(out: seq<Addition>, slots: set<(Bytes, Path)>)
    requires forall i :: 0 <= i < |out| ==> Slot(out[i]) in slots
    requires forall i, j :: 0 <= i < j < |out| ==> Slot(out[i]) != Slot(out[j])
    requires forall k :: k in slots ==> exists i :: 0 <= i < |out| && Slot(out[i]) == k
    ensures |out| == |slots|
    decreases |out|
  {
    if out == [] {
      assert slots == {};
    } else {
      var last := Slot(out[|out| - 1]);
      var init := out[..|out| - 1];
      forall k | k in slots - {last}
        ensures exists i :: 0 <= i < |init| && Slot(init[i]) == k
      {
        var i :| 0 <= i < |out| && Slot(out[i]) == k;
        assert init[i] == out[i];
      }
      SlotsOnce(init, slots - {last});
    }
  }
}
