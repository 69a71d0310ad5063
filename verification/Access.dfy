/** Limiting an access to what its API key allows, and moving it between processes
    (grant/access.go). */
module Access {
  import opened Prelude
  import opened Crypto
  import opened Paths
  import opened KeyTrie
  import opened StoreModel
  import opened KeyStore
  import opened PathCipher
  import opened PathEncryption
  import opened Caveats
  import opened Macaroons
  import opened Grant
  import opened MacaroonFormat

  // ---------- collapsePrefixes ----------

  type Group = seq<CaveatPath>

  /** The path lists of the caveats that restrict paths, or None when some caveat does not parse. */
  function Groups(codec: CodecRaw, caveats: seq<Bytes>): (r: Option<seq<Group>>)
    ensures r.Some? ==> forall i :: 0 <= i < |r.value| ==> r.value[i] != []
    decreases |caveats|
  {
    if caveats == [] then Some([])
    else
      match Groups(codec, caveats[..|caveats| - 1])
      case None => None
      case Some(groups) =>
        match codec.unmarshal(caveats[|caveats| - 1])
        case None => None
        case Some(cav) => Some(if cav.allowedPaths == [] then groups else groups + [cav.allowedPaths])
  }

  function Concat(groups: seq<Group>): Group
    decreases |groups|
  {
    if groups == [] then [] else Concat(groups[..|groups| - 1]) + groups[|groups| - 1]
  }

  predicate AllowedByGroup(c: CaveatPath, group: Group) {
    CoveredBy(group, c.bucket, c.encryptedPathPrefix)
  }

  predicate AllowedByAll(c: CaveatPath, groups: seq<Group>) {
    forall i :: 0 <= i < |groups| ==> AllowedByGroup(c, groups[i])
  }

  /** The prefixes every group allows, in order. */
  function Kept(prefixes: Group, groups: seq<Group>): (r: Group)
    ensures |r| <= |prefixes|
    ensures forall c :: c in r <==> c in prefixes && AllowedByAll(c, groups)
    decreases |prefixes|
  {
    if prefixes == [] then []
    else
      var last := prefixes[|prefixes| - 1];
      assert prefixes == prefixes[..|prefixes| - 1] + [last];
      Kept(prefixes[..|prefixes| - 1], groups) + if AllowedByAll(last, groups) then [last] else []
  }

  /** The collapsed prefixes; None when no caveat restricts paths. */
  function Collapsed(groups: seq<Group>): Option<Group> {
    if groups == [] then None else Some(Kept(Concat(groups), groups))
  }

  lemma {:induction false} InConcat(groups: seq<Group>, i: nat, c: CaveatPath)
    requires i < |groups| && c in groups[i]
    ensures c in Concat(groups)
    decreases |groups|
  {
    if i < |groups| - 1 {
      InConcat(groups[..|groups| - 1], i, c);
    }
  }

  /** Among the paths that cover a path, one from every group, the longest is allowed by all. */
  lemma {:induction false} LongestCovering(groups: seq<Group>, bucket: Bytes, path: Bytes) returns (c: CaveatPath)
    requires groups != [] && forall i :: 0 <= i < |groups| ==> CoveredBy(groups[i], bucket, path)
    ensures c in Concat(groups) && Covers(c, bucket, path) && AllowedByAll(c, groups)
    decreases |groups|
  {
    var init, last := groups[..|groups| - 1], groups[|groups| - 1];
    var k :| 0 <= k < |last| && Covers(last[k], bucket, path);
    c := last[k];
    InConcat(groups, |groups| - 1, c);
    if init != [] {
      assert forall i :: 0 <= i < |init| ==> init[i] == groups[i];
      var d := LongestCovering(init, bucket, path);
      if |d.encryptedPathPrefix| > |c.encryptedPathPrefix| {
        assert Covers(c, bucket, d.encryptedPathPrefix);
        c := d;
      } else {
        assert Covers(d, bucket, c.encryptedPathPrefix);
        LongerIsAllowed(d, c, init);
      }
    }
  }

  /** What allows a path allows every longer one. */
  lemma LongerIsAllowed(d: CaveatPath, c: CaveatPath, groups: seq<Group>)
    requires AllowedByAll(d, groups) && d.bucket == c.bucket && d.encryptedPathPrefix <= c.encryptedPathPrefix
    ensures AllowedByAll(c, groups)
  {
    forall i | 0 <= i < |groups|
      ensures AllowedByGroup(c, groups[i])
    {
      assert AllowedByGroup(d, groups[i]);
      var m :| 0 <= m < |groups[i]| && Covers(groups[i][m], d.bucket, d.encryptedPathPrefix);
      assert Covers(groups[i][m], c.bucket, c.encryptedPathPrefix);
    }
  }

  /** collapsePrefixes is exact intersection: a path is below some collapsed prefix exactly when every
      restricting caveat has an allowed path above it. */
  lemma CollapseIsIntersection(groups: seq<Group>, bucket: Bytes, path: Bytes)
    requires groups != []
    ensures CoveredBy(Collapsed(groups).value, bucket, path) <==>
            forall i :: 0 <= i < |groups| ==> CoveredBy(groups[i], bucket, path)
  {
    var kept := Collapsed(groups).value;
    if CoveredBy(kept, bucket, path) {
      var k :| 0 <= k < |kept| && Covers(kept[k], bucket, path);
      assert kept[k] in kept;
      forall i | 0 <= i < |groups|
        ensures CoveredBy(groups[i], bucket, path)
      {
        assert AllowedByGroup(kept[k], groups[i]);
        var m :| 0 <= m < |groups[i]| && Covers(groups[i][m], bucket, kept[k].encryptedPathPrefix);
        assert Covers(groups[i][m], bucket, path);
      }
    }
    if forall i :: 0 <= i < |groups| ==> CoveredBy(groups[i], bucket, path) {
      var c := LongestCovering(groups, bucket, path);
      assert c in kept;
      var k :| 0 <= k < |kept| && kept[k] == c;
    }
  }

  /** Whether a caveat lets the path of an action through. */
  predicate PathAllowed(c: Caveat, bucket: Bytes, path: Bytes) {
    c.allowedPaths == [] || CoveredBy(c.allowedPaths, bucket, path)
  }

  lemma {:induction false} GroupsAreRestrictions(codec: CodecRaw, caveats: seq<Bytes>, bucket: Bytes, path: Bytes)
    requires Groups(codec, caveats).Some?
    ensures forall i :: 0 <= i < |caveats| ==> codec.unmarshal(caveats[i]).Some?
    ensures (forall i :: 0 <= i < |Groups(codec, caveats).value| ==>
               CoveredBy(Groups(codec, caveats).value[i], bucket, path)) <==>
            (forall i :: 0 <= i < |caveats| ==> PathAllowed(codec.unmarshal(caveats[i]).value, bucket, path))
    decreases |caveats|
  {
    if caveats != [] {
      var init, last := caveats[..|caveats| - 1], caveats[|caveats| - 1];
      GroupsAreRestrictions(codec, init, bucket, path);
      var before, after := Groups(codec, init).value, Groups(codec, caveats).value;
      assert forall i :: 0 <= i < |init| ==> init[i] == caveats[i];
      assert forall i :: 0 <= i < |before| ==> after[i] == before[i];
      var cav := codec.unmarshal(last).value;
      assert cav.allowedPaths != [] ==> after[|before|] == cav.allowedPaths;
    }
  }

  /** The collapsed prefixes make the same decision as Allows: an object action whose operation and
      time every caveat accepts passes all caveats exactly when no caveat restricts paths or a
      collapsed prefix is above its path. */
  lemma CollapseAgreesWithAllows(codec: CodecRaw, m: Macaroon, action: Action)
    requires Groups(codec, m.caveats).Some?
    requires !IsBucketRead(action) && action.op != ActionProjectInfo
    requires forall i :: 0 <= i < |m.caveats| && codec.unmarshal(m.caveats[i]).Some? ==>
               InWindow(codec.unmarshal(m.caveats[i]).value, action.time) &&
               OpAllowed(codec.unmarshal(m.caveats[i]).value, action.op)
    ensures var collapsed := Collapsed(Groups(codec, m.caveats).value);
            AllAllow(codec, m, action) <==>
            collapsed.None? || CoveredBy(collapsed.value, action.bucket, action.encryptedPath)
  {
    var groups := Groups(codec, m.caveats).value;
    GroupsAreRestrictions(codec, m.caveats, action.bucket, action.encryptedPath);
    if groups != [] {
      CollapseIsIntersection(groups, action.bucket, action.encryptedPath);
    }
    forall i | 0 <= i < |m.caveats|
      ensures Allows(codec.unmarshal(m.caveats[i]).value, action) <==>
              PathAllowed(codec.unmarshal(m.caveats[i]).value, action.bucket, action.encryptedPath)
    {
    }
  }

  method CollapsePrefixes(codec: CodecRaw, m: Macaroon) returns (r: Option<Option<Group>>)
    ensures r == match Groups(codec, m.caveats)
                 case None => None
                 case Some(groups) => Some(Collapsed(groups))
  {
    var groups: seq<Group> := [];
    var all: Group := [];
    for i := 0 to |m.caveats|
      invariant Groups(codec, m.caveats[..i]) == Some(groups) && all == Concat(groups)
    {
      assert m.caveats[..i + 1][..i] == m.caveats[..i];
      GroupsFail(codec, m.caveats, i + 1);
      var cav := codec.unmarshal(m.caveats[i]);
      if cav.None? {
        return None;
      }
      if |cav.value.allowedPaths| > 0 {
        groups := groups + [cav.value.allowedPaths];
        assert groups[..|groups| - 1] + [cav.value.allowedPaths] == groups;
        all := all + cav.value.allowedPaths;
      }
    }
    assert m.caveats[..|m.caveats|] == m.caveats;
    if |groups| == 0 {
      return Some(None);
    }
    var prefixes := new CaveatPath[|all|](i requires 0 <= i < |all| => all[i]);
    assert prefixes[..] == all;
    var j := FilterInPlace(prefixes, groups);
    return Some(Some(prefixes[..j]));
  }

  /** `prefixes[j] = prefixes[i]; j++` for every prefix that all groups allow. */
  method FilterInPlace(prefixes: array<CaveatPath>, groups: seq<Group>) returns (j: nat)
    modifies prefixes
    ensures j <= prefixes.Length && prefixes[..j] == Kept(old(prefixes[..]), groups)
  {
    hide Kept, AllowedByAll;
    ghost var all := prefixes[..];
    j := 0;
    assert Kept(all[..0], groups) == [] by { KeptOfNothing(groups); }
    for i := 0 to prefixes.Length
      invariant j <= i
      invariant prefixes[i..] == all[i..]
      invariant prefixes[..j] == Kept(all[..i], groups)
    {
      ghost var now := prefixes[..];
      KeptStep(all, i, groups);
      TailStep(now, all, i, j);
      if AllowedByAll(prefixes[i], groups) {
        prefixes[j] := prefixes[i];
        assert prefixes[..] == now[j := now[i]];
        j := j + 1;
      }
    }
    assert all[..prefixes.Length] == all;
  }

  lemma KeptOfNothing(groups: seq<Group>)
    ensures Kept([], groups) == []
  {
  }

  lemma KeptStep(all: Group, i: nat, groups: seq<Group>)
    requires i < |all|
    ensures Kept(all[..i + 1], groups) == Kept(all[..i], groups) + if AllowedByAll(all[i], groups) then [all[i]] else []
  {
    assert all[..i + 1][..i] == all[..i];
  }

  /** Writing at or below the reading position leaves what is still to be read. */
  lemma TailStep(now: Group, all: Group, i: nat, j: nat)
    requires j <= i < |now| == |all| && now[i..] == all[i..]
    ensures now[i] == all[i] && now[i + 1..] == all[i + 1..]
    ensures now[j := now[i]][i + 1..] == all[i + 1..] && now[j := now[i]][..j + 1] == now[..j] + [all[i]]
  {
    assert now[i] == now[i..][0] && now[i + 1..] == now[i..][1..] && all[i + 1..] == all[i..][1..];
  }

  lemma {:induction false} GroupsFail(codec: CodecRaw, caveats: seq<Bytes>, n: nat)
    requires n <= |caveats|
    ensures Groups(codec, caveats[..n]).None? ==> Groups(codec, caveats).None?
    decreases |caveats| - n
  {
    if n < |caveats| {
      GroupsFail(codec, caveats, n + 1);
      assert caveats[..n + 1][..n] == caveats[..n];
    } else {
      assert caveats[..n] == caveats;
    }
  }

  // ---------- limitTo ----------

  /** One turn of the loop: a prefix that fails for any reason is skipped. */
  function LimitOne(p: Primitives, s: Model, store: Model, prefix: CaveatPath): Model {
    match DecryptPath(p, s, prefix.bucket, prefix.encryptedPathPrefix, None)
    case Err(_) => store
    case Ok(unenc) =>
      match DerivePathKey(p, s, prefix.bucket, unenc)
      case Err(_) => store
      case Ok(key) =>
        match LookupIn(s, prefix.bucket, prefix.encryptedPathPrefix, false).base
        case None => store
        case Some(base) =>
          match AddWithCipher(store, Addition(prefix.bucket, unenc, prefix.encryptedPathPrefix, key, base.pathCipher))
          case Err(_) => store
          case Ok(m) => m
  }

  function Limit(p: Primitives, s: Model, store: Model, prefixes: Group): Model
    decreases prefixes
  {
    if prefixes == [] then store else Limit(p, s, LimitOne(p, s, store, prefixes[0]), prefixes[1..])
  }

  /** The store is left alone when no caveat restricts paths, and emptied when one cannot be read. */
  function LimitToCaveats(p: Primitives, codec: CodecRaw, s: Model, caveats: seq<Bytes>): Model {
    match Groups(codec, caveats)
    case None => NEW_STORE
    case Some(groups) =>
      match Collapsed(groups)
      case None => s
      case Some(prefixes) => Limit(p, s, Model(map[], None, s.defaultPathCipher, false), prefixes)
  }

  /** LimitTo, which reads the caveats off the serialized key. */
  function LimitTo(p: Primitives, codec: CodecRaw, s: Model, m: Macaroon): Model {
    match ParseMacaroon(Serialize(m))
    case Err(_) => NEW_STORE
    case Ok(mac) => LimitToCaveats(p, codec, s, mac.caveats)
  }

  /** The caveat path is the encryption of `plain` in the tree. */
  ghost predicate IssuedFor(p: Primitives, cipher: CipherSuite, tree: KeyTree, c: CaveatPath, plain: Bytes)
    requires IsPathCipher(cipher)
  {
    c.encryptedPathPrefix == Join(E(p, cipher, tree(c.bucket), Split(plain)))
  }

  ghost predicate Issued(p: Primitives, cipher: CipherSuite, tree: KeyTree, c: CaveatPath)
    requires IsPathCipher(cipher)
  {
    exists plain :: IssuedFor(p, cipher, tree, c, plain)
  }

  /** A prefix the tree issued is entered with its key when the store covers it, and skipped
      otherwise. */
  lemma LimitOneInTree(p: Primitives, s: Model, flat: Flat, tree: KeyTree, store: Model, flat0: Flat, c: CaveatPath, plain: Bytes)
    returns (flat1: Flat)
    requires InKeyTree(p, s, flat, tree) && InKeyTree(p, store, flat0, tree)
    requires store.defaultPathCipher == s.defaultPathCipher
    requires IssuedFor(p, s.defaultPathCipher, tree, c, plain)
    ensures InKeyTree(p, LimitOne(p, s, store, c), flat1, tree)
    ensures LimitOne(p, s, store, c) == store.(roots := LimitOne(p, s, store, c).roots)
    ensures flat1.Keys == if Covered(s, flat, c.bucket, Split(plain)) then flat0.Keys + {(c.bucket, Split(plain))} else flat0.Keys
  {
    hide Represents, FromTree, LimitOne, TreeAddition, Covered;
    flat1 := flat0;
    LimitOneAdds(p, s, flat, tree, store, c, plain);
    if Covered(s, flat, c.bucket, Split(plain)) {
      var a := IssuedAddition(p, s, tree, c, plain);
      TreeAdditionKeepsTree(p, store, flat0, tree, a);
      flat1 := FlatAdd(flat0, a);
    }
  }

  function IssuedAddition(p: Primitives, s: Model, tree: KeyTree, c: CaveatPath, plain: Bytes): Addition {
    Addition(c.bucket, plain, c.encryptedPathPrefix, Derive(p, tree(c.bucket), Split(plain)), s.defaultPathCipher)
  }

  /** For an issued prefix, the turn of the loop adds the entry of the tree, or nothing. */
  lemma LimitOneAdds(p: Primitives, s: Model, flat: Flat, tree: KeyTree, store: Model, c: CaveatPath, plain: Bytes)
    requires InKeyTree(p, s, flat, tree) && IssuedFor(p, s.defaultPathCipher, tree, c, plain)
    ensures var a := IssuedAddition(p, s, tree, c, plain);
            && TreeAddition(p, s.defaultPathCipher, tree, a)
            && LimitOne(p, s, store, c) ==
               if Covered(s, flat, c.bucket, Split(plain)) && AddWithCipher(store, a).Ok? then AddWithCipher(store, a).value
               else store
  {
    hide Represents, FromTree, EncryptPath, DecryptPath, DerivePathKey, LookupIn, E, Join, Covered, AddWithCipher, Derive;
    JoinSplit(plain);
    SplitJoin(E(p, s.defaultPathCipher, tree(c.bucket), Split(plain)));
    SameBase(p, s, flat, tree, c.bucket, plain);
    TreeDecides(p, s, flat, tree, c.bucket, plain);
    var n := LookupFindsTreeKey(p, s, flat, tree, c.bucket, plain);
    if Covered(s, flat, c.bucket, Split(plain)) {
      DecryptUndoesEncrypt(p, s, flat, tree, c.bucket, plain);
    } else {
      UncoveredAddsNothing(p, s, store, c);
    }
  }

  lemma UncoveredAddsNothing(p: Primitives, s: Model, store: Model, c: CaveatPath)
    requires LookupIn(s, c.bucket, c.encryptedPathPrefix, false).base.None?
    ensures LimitOne(p, s, store, c) == store
  {
  }

  /** The entry is that of a covered prefix. */
  ghost predicate FromPrefix(p: Primitives, s: Model, flat: Flat, tree: KeyTree, prefixes: Group, k: (Bytes, Path))
    requires IsPathCipher(s.defaultPathCipher)
  {
    && Covered(s, flat, k.0, k.1)
    && exists i, plain :: 0 <= i < |prefixes| && IssuedFor(p, s.defaultPathCipher, tree, prefixes[i], plain)
                          && k == (prefixes[i].bucket, Split(plain))
  }

  /** Entries for exactly the covered prefixes among the issued ones, besides those there already. */
  ghost predicate LimitedTo(p: Primitives, s: Model, flat: Flat, tree: KeyTree, flat0: Flat, flat': Flat, prefixes: Group)
    requires IsPathCipher(s.defaultPathCipher)
  {
    && (forall k :: k in flat0 ==> k in flat')
    && (forall k :: k in flat' && k !in flat0 ==> FromPrefix(p, s, flat, tree, prefixes, k))
    && (forall i, plain :: 0 <= i < |prefixes| && IssuedFor(p, s.defaultPathCipher, tree, prefixes[i], plain) &&
                           Covered(s, flat, prefixes[i].bucket, Split(plain)) ==>
                             (prefixes[i].bucket, Split(plain)) in flat')
  }

  lemma IssuedForOne(p: Primitives, cipher: CipherSuite, tree: KeyTree, c: CaveatPath, plain: Bytes, plain': Bytes)
    requires IsPathCipher(cipher)
    requires IssuedFor(p, cipher, tree, c, plain) && IssuedFor(p, cipher, tree, c, plain')
    ensures plain == plain'
  {
    JoinSplit(plain);
    JoinSplit(plain');
    SplitJoin(E(p, cipher, tree(c.bucket), Split(plain)));
    SplitJoin(E(p, cipher, tree(c.bucket), Split(plain')));
    EInjective(p, cipher, tree(c.bucket), Split(plain), Split(plain'));
  }

  lemma {:induction false} LimitInTree(p: Primitives, s: Model, flat: Flat, tree: KeyTree, store: Model, flat0: Flat, prefixes: Group)
    returns (flat': Flat)
    requires IsPathCipher(s.defaultPathCipher) && store.defaultPathCipher == s.defaultPathCipher
    requires InKeyTree(p, s, flat, tree) && InKeyTree(p, store, flat0, tree)
    requires forall i :: 0 <= i < |prefixes| ==> Issued(p, s.defaultPathCipher, tree, prefixes[i])
    ensures InKeyTree(p, Limit(p, s, store, prefixes), flat', tree)
    ensures Limit(p, s, store, prefixes) == store.(roots := Limit(p, s, store, prefixes).roots)
    ensures LimitedTo(p, s, flat, tree, flat0, flat', prefixes)
    decreases prefixes
  {
    hide InKeyTree, Represents, LimitOne, Covered, IssuedFor;
    flat' := flat0;
    if prefixes != [] {
      assert Issued(p, s.defaultPathCipher, tree, prefixes[0]);
      var plain :| IssuedFor(p, s.defaultPathCipher, tree, prefixes[0], plain);
      var flat1 := LimitOneInTree(p, s, flat, tree, store, flat0, prefixes[0], plain);
      flat' := LimitInTree(p, s, flat, tree, LimitOne(p, s, store, prefixes[0]), flat1, prefixes[1..]);
      forall i, plain' | 0 <= i < |prefixes| && IssuedFor(p, s.defaultPathCipher, tree, prefixes[i], plain') &&
                         Covered(s, flat, prefixes[i].bucket, Split(plain'))
        ensures (prefixes[i].bucket, Split(plain')) in flat'
      {
        if i == 0 {
          IssuedForOne(p, s.defaultPathCipher, tree, prefixes[0], plain, plain');
        } else {
          assert prefixes[1..][i - 1] == prefixes[i];
        }
      }
      forall k | k in flat' && k !in flat0
        ensures FromPrefix(p, s, flat, tree, prefixes, k)
      {
        if k in flat1 {
          assert k == (prefixes[0].bucket, Split(plain));
        } else {
          assert FromPrefix(p, s, flat, tree, prefixes[1..], k);
          var i, plain' :| 0 <= i < |prefixes| - 1 && IssuedFor(p, s.defaultPathCipher, tree, prefixes[1..][i], plain')
                           && k == (prefixes[1..][i].bucket, Split(plain'));
          assert prefixes[1..][i] == prefixes[i + 1];
        }
      }
    }
  }

  /** LimitTo on the heap. It is the very same store exactly when the key can be read and no caveat
      restricts paths. */
  method LimitStoreTo(p: Primitives, codec: CodecRaw, store: Store, m: Macaroon) returns (limited: Store)
    requires store.Valid()
    ensures limited.Valid() && limited.Model() == LimitTo(p, codec, store.Model(), m)
    ensures limited == store <==> Unrestricted(codec, m)
    ensures !Unrestricted(codec, m) ==> fresh(limited)
  {
    hide Limit, Represents, ParseMacaroon, Serialize;
    var data := SerializeMacaroon(m);
    var mac := ParseMacaroonLoop(data);
    if mac.Err? {
      limited := new Store();
      return;
    }
    var collapsed := CollapsePrefixes(codec, mac.value);
    if collapsed.None? {
      limited := new Store();
      return;
    }
    if collapsed.value.None? {
      return store;
    }
    limited := new Store();
    limited.SetDefaultPathCipher(store.defaultPathCipher);
    LimitAll(p, store, limited, collapsed.value.value);
  }

  predicate Unrestricted(codec: CodecRaw, m: Macaroon) {
    && ParseMacaroon(Serialize(m)).Ok?
    && Groups(codec, ParseMacaroon(Serialize(m)).value.caveats) == Some([])
  }

  method LimitAll(p: Primitives, store: Store, limited: Store, prefixes: Group)
    requires store.Valid() && limited.Valid() && store != limited && store.nodes !! limited.nodes
    modifies limited, limited.nodes
    ensures limited.Valid() && limited.Model() == Limit(p, store.Model(), old(limited.Model()), prefixes)
  {
    hide LimitOne, Represents;
    ghost var goal := Limit(p, store.Model(), limited.Model(), prefixes);
    for i := 0 to |prefixes|
      invariant store.Valid() && store.Model() == old(store.Model())
      invariant limited.Valid() && fresh(limited.nodes - old(limited.nodes))
      invariant goal == Limit(p, store.Model(), limited.Model(), prefixes[i..])
    {
      assert prefixes[i..][1..] == prefixes[i + 1..];
      LimitAddOne(p, store, limited, prefixes[i]);
    }
  }

  method LimitAddOne(p: Primitives, store: Store, limited: Store, prefix: CaveatPath)
    requires store.Valid() && limited.Valid() && store != limited && store.nodes !! limited.nodes
    modifies limited, limited.nodes
    ensures limited.Valid() && fresh(limited.nodes - old(limited.nodes))
    ensures limited.Model() == LimitOne(p, store.Model(), old(limited.Model()), prefix)
  {
    hide Represents, EncryptPath, DecryptPath, DerivePathKey, LookupIn;
    var a := LimitAddition(p, store, prefix);
    if a.Some? {
      var err := AddAddition(limited, a.value);
    }
  }

  method AddAddition(store: Store, a: Addition) returns (err: Option<AddError>)
    requires store.Valid()
    modifies store, store.nodes
    ensures store.Valid() && fresh(store.nodes - old(store.nodes))
    ensures match AddWithCipher(old(store.Model()), a)
            case Err(e) => err == Some(e) && store.Model() == old(store.Model())
            case Ok(m) => err == None && store.Model() == m
  {
    err := store.AddWithCipher(a.bucket, a.unenc, a.enc, a.key, a.pathCipher);
  }

  /** What a prefix adds to the limited store, if it does not fail. */
  method LimitAddition(p: Primitives, store: Store, prefix: CaveatPath) returns (a: Option<Addition>)
    requires store.Valid()
    ensures forall m :: LimitOne(p, store.Model(), m, prefix) ==
                        if a.None? then m
                        else match AddWithCipher(m, a.value) case Err(_) => m case Ok(m') => m'
  {
    hide Represents, AddWithCipher, DecryptPath, DerivePathKey, LookupIn;
    var unenc := DecryptPathIn(p, prefix.bucket, prefix.encryptedPathPrefix, None, store);
    if unenc.Err? {
      return None;
    }
    var key := DerivePathKeyIn(p, prefix.bucket, unenc.value, store);
    if key.Err? {
      return None;
    }
    var _, _, base := store.Lookup(prefix.bucket, prefix.encryptedPathPrefix, false);
    if base.None? {
      return None;
    }
    return Some(Addition(prefix.bucket, unenc.value, prefix.encryptedPathPrefix, key.value, base.value.pathCipher));
  }

  // ---------- limiting along a chain of restrictions ----------

  /** The caveat path of an entry. */
  function EntryPath(k: (Bytes, Path), entry: Entry): CaveatPath {
    CaveatPath(k.0, Join(entry.enc))
  }

  /** What every chain of prefix restrictions keeps: the store is in the tree, the allowed paths of the
      key were issued by the tree, and a key with path restrictions allows every entry. */
  ghost predicate Issuing(p: Primitives, codec: CodecRaw, tree: KeyTree, s: Model, flat: Flat, m: Macaroon) {
    && InKeyTree(p, s, flat, tree)
    && Groups(codec, m.caveats).Some?
    && var groups := Groups(codec, m.caveats).value;
    && (forall c :: c in Concat(groups) ==> Issued(p, s.defaultPathCipher, tree, c))
    && (groups != [] ==> s.defaultKey.None?)
    && (groups != [] ==> forall k :: k in flat ==>
          EntryPath(k, flat[k]) in Concat(groups) && AllowedByAll(EntryPath(k, flat[k]), groups))
  }

  lemma CoveredThroughEntry(s: Model, flat: Flat, s': Model, flat': Flat, bucket: Bytes, path: Path)
    requires s.defaultKey.None?
    requires forall k :: k in flat ==> Covered(s', flat', k.0, k.1)
    requires Covered(s, flat, bucket, path)
    ensures Covered(s', flat', bucket, path)
  {
    var n :| 0 <= n <= |path| && (bucket, path[..n]) in flat;
    assert Covered(s', flat', bucket, path[..n]);
    if s'.defaultKey.None? {
      var j :| 0 <= j <= n && (bucket, path[..n][..j]) in flat';
      assert path[..n][..j] == path[..j];
    }
  }

  /** Limiting the store of an issued access to its own key changes nothing that can be seen: every
      path is encrypted and every key derived as before, and the same paths have no base. Only a key
      that cannot be read back from its serialization empties the store. */
  lemma LimitToIsNeutral(p: Primitives, codec: CodecRaw, tree: KeyTree, s: Model, flat: Flat, m: Macaroon, bucket: Bytes, path: Bytes)
    returns (flat': Flat)
    requires Issuing(p, codec, tree, s, flat, m)
    ensures !Readable(m) ==> LimitTo(p, codec, s, m) == NEW_STORE
    ensures Readable(m) ==>
              && InKeyTree(p, LimitTo(p, codec, s, m), flat', tree)
              && EncryptPath(p, LimitTo(p, codec, s, m), bucket, path, None) == EncryptPath(p, s, bucket, path, None)
              && DerivePathKey(p, LimitTo(p, codec, s, m), bucket, path) == DerivePathKey(p, s, bucket, path)
  {
    hide Represents, LookupIn, EncryptPath, DerivePathKey, FromTree, Issued, ParseMacaroon, Serialize, LimitedTo,
         Covered, KeptAbove, LimitToCaveats, AllowedByAll;
    flat' := flat;
    ReadsBackExactly(m);
    var groups := Groups(codec, m.caveats).value;
    if groups == [] {
      LimitToNothing(p, codec, s, m.caveats);
    } else if Readable(m) {
      var s' := LimitTo(p, codec, s, m);
      flat' := LimitedInTree(p, codec, tree, s, flat, m.caveats);
      CoveredByKept(p, s, flat, tree, s', flat', Collapsed(groups).value, bucket, Split(path));
      StaysCovered(p, codec, tree, s, flat, m, s', flat', bucket, Split(path));
      TreeDecides(p, s, flat, tree, bucket, path);
      TreeDecides(p, s', flat', tree, bucket, path);
    }
  }

  lemma LimitToNothing(p: Primitives, codec: CodecRaw, s: Model, caveats: seq<Bytes>)
    requires Groups(codec, caveats) == Some([])
    ensures LimitToCaveats(p, codec, s, caveats) == s
  {
  }

  lemma StaysCovered(p: Primitives, codec: CodecRaw, tree: KeyTree, s: Model, flat: Flat, m: Macaroon, s': Model, flat': Flat,
                     bucket: Bytes, path: Path)
    requires Issuing(p, codec, tree, s, flat, m) && Groups(codec, m.caveats).value != []
    requires LimitedTo(p, s, flat, tree, map[], flat', Collapsed(Groups(codec, m.caveats).value).value)
    ensures Covered(s, flat, bucket, path) ==> Covered(s', flat', bucket, path)
  {
    hide Represents, Issued, LimitedTo, FromTree;
    forall k | k in flat
      ensures Covered(s', flat', k.0, k.1)
    {
      EntryIsKept(p, s, flat, tree, flat', Collapsed(Groups(codec, m.caveats).value).value, k);
      assert k.1[..|k.1|] == k.1;
    }
    if Covered(s, flat, bucket, path) {
      CoveredThroughEntry(s, flat, s', flat', bucket, path);
    }
  }

  /** The allowed paths were issued by the tree, and there are some. */
  ghost predicate RestrictsIssued(p: Primitives, codec: CodecRaw, cipher: CipherSuite, tree: KeyTree, caveats: seq<Bytes>)
    requires IsPathCipher(cipher)
  {
    && Groups(codec, caveats).Some? && Groups(codec, caveats).value != []
    && forall c :: c in Concat(Groups(codec, caveats).value) ==> Issued(p, cipher, tree, c)
  }

  lemma LimitedInTree(p: Primitives, codec: CodecRaw, tree: KeyTree, s: Model, flat: Flat, caveats: seq<Bytes>)
    returns (flat': Flat)
    requires InKeyTree(p, s, flat, tree) && RestrictsIssued(p, codec, s.defaultPathCipher, tree, caveats)
    ensures InKeyTree(p, LimitToCaveats(p, codec, s, caveats), flat', tree)
    ensures LimitToCaveats(p, codec, s, caveats).defaultKey == None
    ensures LimitToCaveats(p, codec, s, caveats).defaultPathCipher == s.defaultPathCipher
    ensures LimitedTo(p, s, flat, tree, map[], flat', Collapsed(Groups(codec, caveats).value).value)
  {
    hide Represents, Limit, Issued, LimitedTo, FromTree;
    var prefixes := Collapsed(Groups(codec, caveats).value).value;
    BlankInTree(p, s, flat, tree);
    assert forall i :: 0 <= i < |prefixes| ==> prefixes[i] in prefixes;
    flat' := LimitInTree(p, s, flat, tree, Model(map[], None, s.defaultPathCipher, false), map[], prefixes);
  }

  /** A collapsed prefix at or above the path that the store covers. */
  ghost predicate KeptAbove(p: Primitives, s: Model, flat: Flat, tree: KeyTree, prefixes: Group, bucket: Bytes, path: Path)
    requires IsPathCipher(s.defaultPathCipher)
  {
    exists i, plain :: 0 <= i < |prefixes| && IssuedFor(p, s.defaultPathCipher, tree, prefixes[i], plain)
                       && prefixes[i].bucket == bucket && Split(plain) <= path
                       && Covered(s, flat, bucket, Split(plain))
  }

  /** What LimitTo takes away, for any key-tree store, also one with a default key, and any key whose
      caveats restrict paths of the tree. A path has a base afterwards exactly when the store covers a
      collapsed prefix at or above it; then it encrypts and derives as before, and every restricting
      caveat allows its encryption. The limited access is an issued one. */
  lemma LimitToKeepsTheAllowed(p: Primitives, codec: CodecRaw, tree: KeyTree, s: Model, flat: Flat, m: Macaroon, bucket: Bytes, path: Bytes)
    returns (flat': Flat)
    requires InKeyTree(p, s, flat, tree) && Readable(m)
    requires RestrictsIssued(p, codec, s.defaultPathCipher, tree, m.caveats)
    ensures Issuing(p, codec, tree, LimitTo(p, codec, s, m), flat', m)
    ensures var s', groups := LimitTo(p, codec, s, m), Groups(codec, m.caveats).value;
            && (LookupIn(s', bucket, path, true).base.Some? <==>
                  KeptAbove(p, s, flat, tree, Collapsed(groups).value, bucket, Split(path)))
            && (LookupIn(s', bucket, path, true).base.Some? ==>
                  && DerivePathKey(p, s', bucket, path) == DerivePathKey(p, s, bucket, path)
                  && EncryptPath(p, s', bucket, path, None) == EncryptPath(p, s, bucket, path, None)
                       == Ok(TreeEncryption(p, s, tree, bucket, path))
                  && forall i :: 0 <= i < |groups| ==>
                       AllowedByGroup(CaveatPath(bucket, TreeEncryption(p, s, tree, bucket, path)), groups[i]))
  {
    hide Represents, LookupIn, EncryptPath, DerivePathKey, FromTree, ParseMacaroon, Serialize, Issuing, KeptAbove;
    ReadsBackExactly(m);
    flat' := LimitedInTree(p, codec, tree, s, flat, m.caveats);
    var s', groups := LimitTo(p, codec, s, m), Groups(codec, m.caveats).value;
    LimitedIsIssuing(p, codec, tree, s, flat, m, s', flat');
    CoveredByKept(p, s, flat, tree, s', flat', Collapsed(groups).value, bucket, Split(path));
    var n := LookupFindsTreeKey(p, s', flat', tree, bucket, path);
    TreeDecides(p, s, flat, tree, bucket, path);
    TreeDecides(p, s', flat', tree, bucket, path);
    if KeptAbove(p, s, flat, tree, Collapsed(groups).value, bucket, Split(path)) {
      KeptIsAllowed(p, s, flat, tree, groups, bucket, path);
    }
  }

  lemma LimitedIsIssuing(p: Primitives, codec: CodecRaw, tree: KeyTree, s: Model, flat: Flat, m: Macaroon, s': Model, flat': Flat)
    requires IsPathCipher(s.defaultPathCipher) && RestrictsIssued(p, codec, s.defaultPathCipher, tree, m.caveats)
    requires InKeyTree(p, s', flat', tree) && s'.defaultKey == None && s'.defaultPathCipher == s.defaultPathCipher
    requires LimitedTo(p, s, flat, tree, map[], flat', Collapsed(Groups(codec, m.caveats).value).value)
    ensures Issuing(p, codec, tree, s', flat', m)
  {
    hide Represents, Issued, Covered, AllowedByAll, Concat, Kept, Groups, E, Join;
    var groups := Groups(codec, m.caveats).value;
    var prefixes := Collapsed(groups).value;
    forall k | k in flat'
      ensures EntryPath(k, flat'[k]) in Concat(groups) && AllowedByAll(EntryPath(k, flat'[k]), groups)
    {
      assert FromPrefix(p, s, flat, tree, prefixes, k) && FromTree(p, s'.defaultPathCipher, tree, flat', k);
      var i, plain :| 0 <= i < |prefixes| && IssuedFor(p, s.defaultPathCipher, tree, prefixes[i], plain)
                      && k == (prefixes[i].bucket, Split(plain));
      assert EntryPath(k, flat'[k]) == prefixes[i] && prefixes[i] in prefixes;
    }
  }

  lemma CoveredByKept(p: Primitives, s: Model, flat: Flat, tree: KeyTree, s': Model, flat': Flat, prefixes: Group, bucket: Bytes, path: Path)
    requires IsPathCipher(s.defaultPathCipher) && s'.defaultKey == None
    requires LimitedTo(p, s, flat, tree, map[], flat', prefixes)
    ensures Covered(s', flat', bucket, path) <==> KeptAbove(p, s, flat, tree, prefixes, bucket, path)
    ensures Covered(s', flat', bucket, path) ==> Covered(s, flat, bucket, path)
  {
    hide IssuedFor, LimitedTo, FromPrefix, KeptAbove;
    if Covered(s', flat', bucket, path) {
      var n :| 0 <= n <= |path| && (bucket, path[..n]) in flat';
      EntryIsFromPrefix(p, s, flat, tree, flat', prefixes, bucket, path, n);
      CoveredBelow(s, flat, bucket, path, n);
    }
    if KeptAbove(p, s, flat, tree, prefixes, bucket, path) {
      KeptHasEntry(p, s, flat, tree, s', flat', prefixes, bucket, path);
    }
  }

  lemma EntryIsFromPrefix(p: Primitives, s: Model, flat: Flat, tree: KeyTree, flat': Flat, prefixes: Group, bucket: Bytes, path: Path, n: nat)
    requires IsPathCipher(s.defaultPathCipher) && LimitedTo(p, s, flat, tree, map[], flat', prefixes)
    requires n <= |path| && (bucket, path[..n]) in flat'
    ensures Covered(s, flat, bucket, path[..n]) && KeptAbove(p, s, flat, tree, prefixes, bucket, path)
  {
    hide IssuedFor, Covered;
    assert FromPrefix(p, s, flat, tree, prefixes, (bucket, path[..n]));
  }

  lemma KeptHasEntry(p: Primitives, s: Model, flat: Flat, tree: KeyTree, s': Model, flat': Flat, prefixes: Group, bucket: Bytes, path: Path)
    requires IsPathCipher(s.defaultPathCipher) && LimitedTo(p, s, flat, tree, map[], flat', prefixes)
    requires KeptAbove(p, s, flat, tree, prefixes, bucket, path)
    ensures Covered(s', flat', bucket, path)
  {
    hide IssuedFor, FromPrefix;
    var i, plain :| 0 <= i < |prefixes| && IssuedFor(p, s.defaultPathCipher, tree, prefixes[i], plain)
                    && prefixes[i].bucket == bucket && Split(plain) <= path
                    && Covered(s, flat, bucket, Split(plain));
    assert path[..|Split(plain)|] == Split(plain);
  }

  lemma CoveredBelow(s: Model, flat: Flat, bucket: Bytes, path: Path, n: nat)
    requires n <= |path| && Covered(s, flat, bucket, path[..n])
    ensures Covered(s, flat, bucket, path)
  {
    if s.defaultKey.None? {
      var j :| 0 <= j <= n && (bucket, path[..n][..j]) in flat;
      assert path[..n][..j] == path[..j];
    }
  }

  lemma KeptIsAllowed(p: Primitives, s: Model, flat: Flat, tree: KeyTree, groups: seq<Group>, bucket: Bytes, path: Bytes)
    requires IsPathCipher(s.defaultPathCipher) && groups != []
    requires KeptAbove(p, s, flat, tree, Collapsed(groups).value, bucket, Split(path))
    ensures forall i :: 0 <= i < |groups| ==>
              AllowedByGroup(CaveatPath(bucket, TreeEncryption(p, s, tree, bucket, path)), groups[i])
  {
    hide AllowedByGroup, Covered, E, Join;
    var prefixes, cs := Collapsed(groups).value, Split(path);
    var k, plain :| 0 <= k < |prefixes| && IssuedFor(p, s.defaultPathCipher, tree, prefixes[k], plain)
                    && prefixes[k].bucket == bucket && Split(plain) <= cs
                    && Covered(s, flat, bucket, Split(plain));
    assert prefixes[k] in prefixes && cs[..|Split(plain)|] == Split(plain);
    assert prefixes[k] == CaveatPath(bucket, Join(E(p, s.defaultPathCipher, tree(bucket), Split(plain))));
    forall i | 0 <= i < |groups|
      ensures AllowedByGroup(CaveatPath(bucket, TreeEncryption(p, s, tree, bucket, path)), groups[i])
    {
      DeeperIsAllowed(p, s.defaultPathCipher, tree(bucket), bucket, cs, |Split(plain)|, groups[i]);
    }
  }

  lemma BlankInTree(p: Primitives, s: Model, flat: Flat, tree: KeyTree)
    requires InKeyTree(p, s, flat, tree)
    ensures InKeyTree(p, Model(map[], None, s.defaultPathCipher, false), map[], tree)
  {
    EmptyRepresented(Model(map[], None, s.defaultPathCipher, false));
  }

  lemma EntryIsKept(p: Primitives, s: Model, flat: Flat, tree: KeyTree, flat': Flat, prefixes: Group, k: (Bytes, Path))
    requires InKeyTree(p, s, flat, tree) && k in flat
    requires LimitedTo(p, s, flat, tree, map[], flat', prefixes)
    requires EntryPath(k, flat[k]) in prefixes
    ensures k in flat'
  {
    assert FromTree(p, s.defaultPathCipher, tree, flat, k) && Named(s, flat, k);
    var plain := flat[k].base.unencrypted;
    var i :| 0 <= i < |prefixes| && prefixes[i] == EntryPath(k, flat[k]);
    assert IssuedFor(p, s.defaultPathCipher, tree, prefixes[i], plain);
    assert k.1[..|k.1|] == k.1;
    assert Covered(s, flat, k.0, k.1);
  }

  lemma GroupsOfRestrict(p: Primitives, codec: CodecRaw, m: Macaroon, caveat: Caveat)
    requires codec.Lawful() && Groups(codec, m.caveats).Some?
    ensures var groups := Groups(codec, m.caveats).value;
            Groups(codec, Macaroons.Restrict(p, codec, m, caveat).caveats) ==
            Some(if caveat.allowedPaths == [] then groups else groups + [caveat.allowedPaths])
  {
    var caveats := m.caveats + [codec.marshal(caveat)];
    assert caveats[..|caveats| - 1] == m.caveats;
  }

  /** What a new entry is allowed by: the new group lists it, and every older group allows the entry it
      was derived from. */
  lemma NewEntryAllowed(p: Primitives, codec: CodecRaw, tree: KeyTree, s: Model, flat: Flat, m: Macaroon,
                        prefixes: seq<SharePrefix>, allowed: Group, i: nat)
    requires Issuing(p, codec, tree, s, flat, m) && i < |prefixes| && CoversPrefix(s, flat, prefixes[i])
    requires IsPathCipher(s.defaultPathCipher) && Groups(codec, m.caveats).Some?
    requires allowed == AllowedPaths(p, s, tree, prefixes)
    ensures allowed[i] in Concat(Groups(codec, m.caveats).value + [allowed])
    ensures AllowedByAll(allowed[i], Groups(codec, m.caveats).value + [allowed])
  {
    hide Issuing, InKeyTree, CoversPrefix, TreeEncryption, Groups;
    var groups := Groups(codec, m.caveats).value;
    var all := groups + [allowed];
    assert all[|groups|] == allowed && allowed[i] in allowed;
    InConcat(all, |groups|, allowed[i]);
    forall g | 0 <= g < |all|
      ensures AllowedByGroup(allowed[i], all[g])
    {
      if g == |groups| {
        assert Covers(allowed[i], allowed[i].bucket, allowed[i].encryptedPathPrefix);
      } else {
        OlderGroupAllows(p, codec, tree, s, flat, m, prefixes[i], g);
      }
    }
  }

  lemma OlderGroupAllows(p: Primitives, codec: CodecRaw, tree: KeyTree, s: Model, flat: Flat, m: Macaroon,
                         prefix: SharePrefix, g: nat)
    requires Issuing(p, codec, tree, s, flat, m) && CoversPrefix(s, flat, prefix)
    requires g < |Groups(codec, m.caveats).value|
    ensures AllowedByGroup(AllowedPath(p, s, tree, prefix), Groups(codec, m.caveats).value[g])
  {
    hide Represents, E, AllowedByGroup;
    var groups := Groups(codec, m.caveats).value;
    var u := Split(SharedPath(prefix));
    var n :| 0 <= n <= |u| && (prefix.bucket, u[..n]) in flat;
    var k := (prefix.bucket, u[..n]);
    assert FromTree(p, s.defaultPathCipher, tree, flat, k);
    assert AllowedByGroup(EntryPath(k, flat[k]), groups[g]);
    DeeperIsAllowed(p, s.defaultPathCipher, tree(prefix.bucket), prefix.bucket, u, n, groups[g]);
  }

  /** A group that allows a path allows every path below it. */
  lemma DeeperIsAllowed(p: Primitives, cipher: CipherSuite, key: Key, bucket: Bytes, u: Path, n: nat, group: Group)
    requires IsPathCipher(cipher) && NoSlashes(u) && n <= |u|
    requires AllowedByGroup(CaveatPath(bucket, Join(E(p, cipher, key, u[..n]))), group)
    ensures AllowedByGroup(CaveatPath(bucket, Join(E(p, cipher, key, u))), group)
  {
    hide E, Join;
    EReflectsPrefix(p, cipher, key, u[..n], u);
    JoinPrefix(E(p, cipher, key, u[..n]), E(p, cipher, key, u));
    var j :| 0 <= j < |group| && Covers(group[j], bucket, Join(E(p, cipher, key, u[..n])));
    assert Covers(group[j], bucket, Join(E(p, cipher, key, u)));
  }

  lemma AllIssued(p: Primitives, s: Model, tree: KeyTree, prefixes: seq<SharePrefix>, groups: seq<Group>)
    requires IsPathCipher(s.defaultPathCipher)
    requires forall c :: c in Concat(groups) ==> Issued(p, s.defaultPathCipher, tree, c)
    ensures var all := groups + [AllowedPaths(p, s, tree, prefixes)];
            forall c :: c in Concat(all) ==> Issued(p, s.defaultPathCipher, tree, c)
  {
    var allowed := AllowedPaths(p, s, tree, prefixes);
    var all := groups + [allowed];
    assert all[..|all| - 1] == groups;
    forall c | c in Concat(all)
      ensures Issued(p, s.defaultPathCipher, tree, c)
    {
      if c !in Concat(groups) {
        var i :| 0 <= i < |allowed| && allowed[i] == c;
        assert IssuedFor(p, s.defaultPathCipher, tree, c, SharedPath(prefixes[i]));
      }
    }
  }

  /** Restricting an issued access gives an issued access, so the neutrality of LimitTo holds along
      every chain of restrictions. */
  lemma RestrictKeepsIssuing(p: Primitives, codec: CodecRaw, tree: KeyTree, s: Model, flat: Flat, m: Macaroon,
                             permission: Permission, prefixes: seq<SharePrefix>, nonce: Bytes)
    returns (flat': Flat)
    requires codec.Lawful() && Issuing(p, codec, tree, s, flat, m)
    requires RestrictStore(p, s, prefixes).Ok?
    ensures var n := RestrictStore(p, s, prefixes).value;
            Issuing(p, codec, tree, n.store, flat',
                    Macaroons.Restrict(p, codec, m, NewCaveat(permission, n.allowedPaths, nonce)))
  {
    hide Represents, LookupIn, EncryptPath, DerivePathKey, RestrictStore, AllowedByAll, Groups, Issued, FromTree;
    var n := RestrictStore(p, s, prefixes).value;
    GroupsOfRestrict(p, codec, m, NewCaveat(permission, n.allowedPaths, nonce));
    if prefixes == [] {
      flat' := map[];
      RestrictWithoutPrefixes(p, s, flat, tree, [], []);
      NarrowNothing(p, s);
    } else {
      flat' := RestrictInTree(p, s, flat, tree, prefixes);
      CoversEach(s, flat, prefixes);
      AllIssued(p, s, tree, prefixes, Groups(codec, m.caveats).value);
      forall k | k in flat'
        ensures EntryPath(k, flat'[k]) in Concat(Groups(codec, m.caveats).value + [n.allowedPaths])
        ensures AllowedByAll(EntryPath(k, flat'[k]), Groups(codec, m.caveats).value + [n.allowedPaths])
      {
        RestrictedEntryAllowed(p, codec, tree, s, flat, m, prefixes, n, flat', k);
      }
    }
  }

  lemma RestrictedEntryAllowed(p: Primitives, codec: CodecRaw, tree: KeyTree, s: Model, flat: Flat, m: Macaroon,
                          prefixes: seq<SharePrefix>, n: Narrowed, flat': Flat, k: (Bytes, Path))
    requires Issuing(p, codec, tree, s, flat, m)
    requires forall i :: 0 <= i < |prefixes| ==> CoversPrefix(s, flat, prefixes[i])
    requires InKeyTree(p, n.store, flat', tree) && n.store.defaultPathCipher == s.defaultPathCipher
    requires flat'.Keys == SlotsOf(prefixes) && n.allowedPaths == AllowedPaths(p, s, tree, prefixes)
    requires k in flat'
    ensures EntryPath(k, flat'[k]) in Concat(Groups(codec, m.caveats).value + [n.allowedPaths])
    ensures AllowedByAll(EntryPath(k, flat'[k]), Groups(codec, m.caveats).value + [n.allowedPaths])
  {
    assert IsPathCipher(s.defaultPathCipher) && Groups(codec, m.caveats).Some?;
    hide *;
    var i := EntryIsAllowedPath(p, s, tree, n.store, flat', prefixes, k);
    NewEntryAllowed(p, codec, tree, s, flat, m, prefixes, n.allowedPaths, i);
  }

  lemma EntryIsAllowedPath(p: Primitives, s: Model, tree: KeyTree, s': Model, flat': Flat, prefixes: seq<SharePrefix>, k: (Bytes, Path))
    returns (i: nat)
    requires InKeyTree(p, s', flat', tree) && s'.defaultPathCipher == s.defaultPathCipher
    requires k in flat' && flat'.Keys == SlotsOf(prefixes)
    ensures i < |prefixes| && EntryPath(k, flat'[k]) == AllowedPaths(p, s, tree, prefixes)[i]
  {
    assert k in SlotsOf(prefixes);
    i :| 0 <= i < |prefixes| && SlotOf(prefixes[i]) == k;
    assert FromTree(p, s.defaultPathCipher, tree, flat', k);
  }

  lemma NarrowNothing(p: Primitives, s: Model)
    ensures RestrictStore(p, s, []) == Ok(Narrowed(Model(map[], s.defaultKey, s.defaultPathCipher, false), []))
  {
  }

  /** The access a project is opened with: a default key, and an API key without caveats. */
  lemma DefaultAccessIssues(p: Primitives, codec: CodecRaw, key: Key, cipher: CipherSuite, head: Bytes, secret: Bytes)
    requires IsPathCipher(cipher)
    ensures Issuing(p, codec, b => DerivePathKeyComponent(p, key, b), Model(map[], Some(key), cipher, false), map[],
                    NewUnrestrictedFromParts(p, head, secret))
  {
    DefaultKeyTree(p, key, cipher);
  }

  // ---------- export and import ----------

  datatype StoreEntry = StoreEntry(bucket: Bytes, unencryptedPath: Bytes, encryptedPath: Bytes, key: Bytes, pathCipher: CipherSuite)

  datatype EncryptionAccess = EncryptionAccess(defaultKey: Bytes, storeEntries: seq<StoreEntry>, defaultPathCipher: CipherSuite)

  datatype ImportError = InvalidDefaultKey | InvalidEntryKey | InvalidEntry(error: AddError)

  function ToEntry(a: Addition): StoreEntry {
    StoreEntry(a.bucket, a.unenc, a.enc, a.key, a.pathCipher)
  }

  function ToEntries(adds: seq<Addition>): (r: seq<StoreEntry>)
    ensures |r| == |adds| && forall i :: 0 <= i < |adds| ==> r[i] == ToEntry(adds[i])
  {
    seq(|adds|, i requires 0 <= i < |adds| => ToEntry(adds[i]))
  }

  /** toProto, once the entries are listed in some order. */
  function Export(s: Model, adds: seq<Addition>): EncryptionAccess {
    EncryptionAccess(if s.defaultKey.None? then [] else s.defaultKey.value, ToEntries(adds), s.defaultPathCipher)
  }

  function ImportEntries(s: Model, entries: seq<StoreEntry>): Result<Model, ImportError>
    decreases |entries|
  {
    if entries == [] then Ok(s)
    else
      match ImportEntries(s, entries[..|entries| - 1])
      case Err(e) => Err(e)
      case Ok(s') =>
        var e := entries[|entries| - 1];
        if |e.key| != KEY_SIZE then Err(InvalidEntryKey)
        else
          match AddWithCipher(s', Addition(e.bucket, e.unencryptedPath, e.encryptedPath, e.key, e.pathCipher))
          case Err(err) => Err(InvalidEntry(err))
          case Ok(s'') => Ok(s'')
  }

  /** parseEncryptionAccessFromProto. */
  function Import(a: EncryptionAccess): Result<Model, ImportError> {
    if a.defaultKey != [] && |a.defaultKey| != KEY_SIZE then Err(InvalidDefaultKey)
    else
      ImportEntries(Model(map[], if a.defaultKey == [] then None else Some(a.defaultKey),
                          if a.defaultPathCipher == EncUnspecified then EncAESGCM else a.defaultPathCipher, false),
                    a.storeEntries)
  }

  lemma {:induction false} ImportIsRun(s: Model, adds: seq<Addition>)
    requires forall n :: 0 <= n < |adds| ==> AddWithCipher(Run(s, adds[..n]), adds[n]).Ok?
    ensures ImportEntries(s, ToEntries(adds)) == Ok(Run(s, adds))
    decreases |adds|
  {
    hide AddWithCipher;
    if adds != [] {
      var init, last := adds[..|adds| - 1], adds[|adds| - 1];
      assert AddWithCipher(Run(s, adds[..|adds| - 1]), adds[|adds| - 1]).Ok?;
      forall n | 0 <= n < |init|
        ensures AddWithCipher(Run(s, init[..n]), init[n]).Ok?
      {
        assert init[..n] == adds[..n];
      }
      ImportIsRun(s, init);
      assert ToEntries(adds)[..|adds| - 1] == ToEntries(init);
      assert ToEntries(adds)[|adds| - 1] == ToEntry(last);
    }
  }

  /** Importing an exported store rebuilds it, in whatever order its entries were listed, except that
      a default path cipher that was never specified becomes AES-GCM and a bypass is lifted. */
  lemma ImportUndoesExport(s: Model, flat: Flat, adds: seq<Addition>)
    requires Represents(s, flat) && Lists(adds, flat)
    ensures Import(Export(s, adds)) ==
            Ok(s.(encryptionBypass := false,
                  defaultPathCipher := if s.defaultPathCipher == EncUnspecified then EncAESGCM else s.defaultPathCipher))
  {
    hide Represents, Lists, AddWithCipher, Run, ImportEntries;
    var blank := Model(map[], s.defaultKey, if s.defaultPathCipher == EncUnspecified then EncAESGCM else s.defaultPathCipher, false);
    ReaddingRebuilds(s, flat, blank, adds);
    ImportIsRun(blank, adds);
  }

  /** Field by field, an exported entry is an entry of the store. */
  lemma ExportedEntry(s: Model, flat: Flat, adds: seq<Addition>, i: nat) returns (k: (Bytes, Path))
    requires Represents(s, flat) && Lists(adds, flat) && i < |adds|
    ensures |Export(s, adds).storeEntries| == |adds| && k in flat
    ensures var e := Export(s, adds).storeEntries[i];
            && e.bucket == k.0 && Split(e.unencryptedPath) == k.1 && Split(e.encryptedPath) == flat[k].enc
            && e.key == flat[k].base.key && e.pathCipher == flat[k].base.pathCipher
  {
    assert Exports(adds[i], flat);
    k := Slot(adds[i]);
    assert Named(s, flat, k);
  }

  method ToProto(store: Store) returns (a: EncryptionAccess)
    requires store.Valid()
    ensures exists adds :: Lists(adds, store.entries) && |adds| == |store.entries| && a == Export(store.Model(), adds)
  {
    hide Represents;
    var adds := store.IterateWithCipher();
    a := EncryptionAccess(if store.defaultKey.None? then [] else store.defaultKey.value, ToEntries(adds), store.defaultPathCipher);
    assert a == Export(store.Model(), adds);
  }

  method ParseProto(a: EncryptionAccess) returns (err: Option<ImportError>, store: Store)
    ensures fresh(store) && fresh(store.nodes) && store.Valid()
    ensures match Import(a)
            case Err(e) => err == Some(e)
            case Ok(m) => err == None && store.Model() == m
  {
    hide Represents;
    store := new Store();
    if |a.defaultKey| > 0 {
      if |a.defaultKey| != KEY_SIZE {
        return Some(InvalidDefaultKey), store;
      }
      store.SetDefaultKey(Some(a.defaultKey));
    }
    store.SetDefaultPathCipher(a.defaultPathCipher);
    if a.defaultPathCipher == EncUnspecified {
      store.SetDefaultPathCipher(EncAESGCM);
    }
    err := AddEntries(store, a.storeEntries);
  }

  method AddEntries(store: Store, entries: seq<StoreEntry>) returns (err: Option<ImportError>)
    requires store.Valid()
    modifies store, store.nodes
    ensures store.Valid() && fresh(store.nodes - old(store.nodes))
    ensures match ImportEntries(old(store.Model()), entries)
            case Err(e) => err == Some(e)
            case Ok(m) => err == None && store.Model() == m
  {
    hide Represents, AddWithCipher;
    ghost var start := store.Model();
    for i := 0 to |entries|
      invariant store.Valid() && fresh(store.nodes - old(store.nodes))
      invariant ImportEntries(start, entries[..i]) == Ok(store.Model())
    {
      assert entries[..i + 1][..i] == entries[..i];
      ImportFails(start, entries, i + 1);
      if |entries[i].key| != KEY_SIZE {
        return Some(InvalidEntryKey);
      }
      var e := entries[i];
      var failed := AddAddition(store, Addition(e.bucket, e.unencryptedPath, e.encryptedPath, e.key, e.pathCipher));
      if failed.Some? {
        return Some(InvalidEntry(failed.value));
      }
    }
    assert entries[..|entries|] == entries;
    return None;
  }

  lemma {:induction false} ImportFails(s: Model, entries: seq<StoreEntry>, n: nat)
    requires n <= |entries|
    ensures ImportEntries(s, entries[..n]).Err? ==> ImportEntries(s, entries) == ImportEntries(s, entries[..n])
    decreases |entries| - n
  {
    if n < |entries| {
      ImportFails(s, entries, n + 1);
      assert entries[..n + 1][..n] == entries[..n];
    } else {
      assert entries[..n] == entries;
    }
  }
}
