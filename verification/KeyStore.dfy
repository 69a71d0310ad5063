/** encryption/store.go as it is: a graph of mutable nodes per bucket. Every method is tied to the
    value it computes (KeyTrie, StoreModel). */
module KeyStore {
  import opened Prelude
  import opened Paths
  import opened Crypto
  import opened KeyTrie
  import opened StoreModel

  /** A node of the graph. `trie` is the value of the subtree below it; the other ghost fields say
      where in the tree the node hangs, which is what keeps the subtrees of different children
      apart. */
  class Node {
    var unenc: map<Bytes, Node>
    var unencMap: map<Bytes, Bytes>
    var enc: map<Bytes, Node>
    var encMap: map<Bytes, Bytes>
    var base: Option<Base>
    ghost var trie: Trie
    ghost var parent: Node?
    ghost var name: Bytes
    ghost var depth: nat

    ghost predicate HangsAt(p: Node, u: Bytes)
      reads this, p
    {
      parent == p && name == u && depth == p.depth + 1
    }

    /** What a node knows about the plain name `u`. */
    ghost predicate PlainOk(u: Bytes, nodes: set<Node>)
      reads this, nodes
    {
      && (u in unenc <==> u in unencMap) && (u in unenc <==> u in trie.children)
      && (u in unenc ==> unencMap[u] in encMap && encMap[unencMap[u]] == u)
      && (u in unenc ==> unenc[u] in nodes && unenc[u].HangsAt(this, u) && unenc[u].trie == trie.children[u])
    }

    /** What a node knows about the encrypted name `e`. */
    ghost predicate EncOk(e: Bytes)
      reads this
    {
      && (e in enc <==> e in encMap)
      && (e in enc ==> encMap[e] in unenc && enc[e] == unenc[encMap[e]])
      && (e in enc ==> encMap[e] in unencMap && unencMap[encMap[e]] == e)
    }

    /** The name maps are mutual inverses, both child maps share their children, and every child
        hangs below this node, among `nodes`. */
    ghost predicate Local(nodes: set<Node>)
      reads this, nodes
    {
      && trie.base == base && trie.unencMap == unencMap && trie.encMap == encMap
      && (forall u {:trigger PlainOk(u, nodes)} :: PlainOk(u, nodes))
      && (forall e {:trigger EncOk(e)} :: EncOk(e))
    }

    /** Locally valid, except for what the node knows about `u`. */
    ghost predicate LocalBut(u: Bytes, nodes: set<Node>)
      reads this, nodes
    {
      && trie.base == base && trie.unencMap == unencMap && trie.encMap == encMap
      && (forall v {:trigger PlainOk(v, nodes)} :: v != u ==> PlainOk(v, nodes))
      && (forall e {:trigger EncOk(e)} :: EncOk(e))
    }

    static ghost predicate Closed(nodes: set<Node>)
      reads nodes
    {
      forall n {:trigger n.Local(nodes)} :: n in nodes ==> n.Local(nodes)
    }

    constructor (ghost parent: Node?, ghost name: Bytes)
      ensures unenc == map[] && unencMap == map[] && enc == map[] && encMap == map[] && base == None
      ensures trie == EMPTY && this.parent == parent && this.name == name
      ensures depth == if parent == null then 0 else parent.depth + 1
    {
      unenc, unencMap, enc, encMap, base := map[], map[], map[], map[], None;
      trie := EMPTY;
      this.parent, this.name := parent, name;
      depth := if parent == null then 0 else parent.depth + 1;
    }

    twostate predicate SamePlaceAndTrie()
      reads this
    {
      trie == old(trie) && parent == old(parent) && name == old(name) && depth == old(depth)
    }

    /** A node stays locally valid while neither its fields nor the ghost fields of its children
        change. */
    twostate lemma StaysLocal(nodes: set<Node>, new nodes': set<Node>)
      requires old(Local(nodes)) && nodes <= nodes' && unchanged(this)
      requires forall c :: c in nodes && old(c.parent) == this ==> c.SamePlaceAndTrie()
      ensures Local(nodes')
    {
      forall u
        ensures PlainOk(u, nodes')
      {
        assert old(PlainOk(u, nodes));
      }
      forall e
        ensures EncOk(e)
      {
        assert old(EncOk(e));
      }
    }

    /** When only this node changes, and keeps its place, all nodes but it and its parent stay
        locally valid. */
    twostate lemma OthersStayLocal(nodes: set<Node>)
      requires this in nodes && SamePlace()
      requires forall n {:trigger old(n.Local(nodes))} :: n in nodes && n != this ==> old(n.Local(nodes))
      requires forall n :: n in nodes && n != this ==> unchanged(n)
      ensures forall n {:trigger n.Local(nodes)} :: n in nodes && n != this && n != parent ==> n.Local(nodes)
    {
      forall n | n in nodes && n != this && n != parent
        ensures n.Local(nodes)
      {
        assert old(n.Local(nodes));
        n.StaysLocal(nodes, nodes);
      }
    }

    static twostate lemma StaysClosed(nodes: set<Node>)
      requires old(Closed(nodes)) && forall n :: n in nodes ==> unchanged(n)
      ensures Closed(nodes)
    {
      forall n | n in nodes
        ensures n.Local(nodes)
      {
        assert old(n.Local(nodes));
        n.StaysLocal(nodes, nodes);
      }
    }

    /** `n.base = base`. */
    method SetBase(base: Base, ghost nodes: set<Node>)
      requires this in nodes && Closed(nodes)
      modifies this
      ensures this.base == Some(base) && trie == old(trie).(base := Some(base))
      ensures parent == old(parent) && name == old(name) && depth == old(depth)
      ensures forall n {:trigger n.Local(nodes)} :: n in nodes && n != parent ==> n.Local(nodes)
    {
      assert Local(nodes);
      this.base := Some(base);
      trie := trie.(base := Some(base));
      forall u
        ensures PlainOk(u, nodes)
      {
        assert old(PlainOk(u, nodes));
      }
      forall e
        ensures EncOk(e)
      {
        assert old(EncOk(e));
      }
      OthersStayLocal(nodes);
    }

    /** The last four lines of `add`: enters a child under both of its names. */
    method Attach(u: Bytes, e: Bytes, child: Node, ghost nodes: set<Node>)
      requires this in nodes && child in nodes && child.HangsAt(this, u)
      requires forall n {:trigger n.Local(nodes)} :: n in nodes && n != this ==> n.Local(nodes)
      requires LocalBut(u, nodes)
      requires e in encMap ==> encMap[e] == u
      requires u in unencMap ==> unencMap[u] == e
      modifies this
      ensures trie == Trie(old(trie.base), old(trie.unencMap)[u := e], old(trie.encMap)[e := u],
                           old(trie.children)[u := child.trie])
      ensures parent == old(parent) && name == old(name) && depth == old(depth)
      ensures forall n {:trigger n.Local(nodes)} :: n in nodes && n != parent ==> n.Local(nodes)
    {
      unencMap := unencMap[u := e];
      encMap := encMap[e := u];
      unenc := unenc[u := child];
      enc := enc[e := child];
      trie := Trie(trie.base, unencMap, encMap, trie.children[u := child.trie]);
      AttachedLocal(u, e, child, nodes);
      OthersStayLocal(nodes);
    }

    /** The child is entered under both names, which were free or belonged together already. */
    twostate predicate Attached(new u: Bytes, new e: Bytes, new child: Node)
      reads this, child
    {
      && (e in old(encMap) ==> old(encMap)[e] == u) && (u in old(unencMap) ==> old(unencMap)[u] == e)
      && unencMap == old(unencMap)[u := e] && encMap == old(encMap)[e := u]
      && unenc == old(unenc)[u := child] && enc == old(enc)[e := child]
      && base == old(base) && trie == Trie(base, unencMap, encMap, old(trie.children)[u := child.trie])
    }

    /** Then the node is locally valid, when it was except for what it knew about `u`. */
    twostate lemma AttachedLocal(new u: Bytes, new e: Bytes, new child: Node, nodes: set<Node>)
      requires Attached(u, e, child) && SamePlace() && this in nodes && child in nodes && child.HangsAt(this, u)
      requires forall n :: n in nodes && n != this ==> unchanged(n)
      requires old(LocalBut(u, nodes))
      ensures Local(nodes)
    {
      forall v
        ensures PlainOk(v, nodes)
      {
        if v != u {
          assert old(PlainOk(v, nodes));
        }
      }
      forall d
        ensures EncOk(d)
      {
        assert old(EncOk(d));
      }
    }

    /** The child called `u`, or a new node that can become it. */
    method ChildFor(u: Bytes, ghost nodes: set<Node>) returns (child: Node, ghost nodes': set<Node>)
      requires this in nodes && Closed(nodes)
      ensures child in nodes' && Closed(nodes') && child.HangsAt(this, u)
      ensures u in unenc ==> child == unenc[u] && nodes' == nodes
      ensures u !in unenc ==> fresh(child) && nodes' == nodes + {child}
      ensures child.trie == if u in trie.children then trie.children[u] else EMPTY
    {
      assert Local(nodes) && PlainOk(u, nodes);
      if u in unenc {
        return unenc[u], nodes;
      }
      child := new Node(this, u);
      nodes' := nodes + {child};
      forall n | n in nodes'
        ensures n.Local(nodes')
      {
        if n != child {
          assert old(n.Local(nodes));
          n.StaysLocal(nodes, nodes');
        }
      }
    }

    /** What `add` promises: a failing Add leaves every existing node as it was; a successful one
        changes nothing at or above the depth of this node but the node itself. */
    twostate predicate Added(new r: Result<Trie, AddError>, new err: Option<AddError>, nodes: set<Node>, new nodes': set<Node>)
      requires this in nodes
      reads nodes
    {
      && nodes <= nodes' && SamePlace()
      && (forall n :: n in nodes && old(n.depth) <= old(depth) && n != this ==> unchanged(n))
      && (match r
          case Ok(t) => err == None && trie == t
          case Err(e) => err == Some(e) && nodes' == nodes && forall n :: n in nodes ==> unchanged(n))
    }

    twostate predicate SamePlace()
      reads this
    {
      parent == old(parent) && name == old(name) && depth == old(depth)
    }

    method Add(unencIter: Iterator, encIter: Iterator, base: Base, ghost nodes: set<Node>)
      returns (err: Option<AddError>, ghost nodes': set<Node>)
      requires unencIter.Valid() && encIter.Valid() && unencIter != encIter
      requires this in nodes && Closed(nodes)
      modifies nodes, unencIter, encIter
      ensures fresh(nodes' - nodes)
      ensures Added(KeyTrie.Add(old(trie), old(unencIter.Rest()), old(encIter.Rest()), base), err, nodes, nodes')
      ensures forall n {:trigger n.Local(nodes')} :: n in nodes' && n != parent ==> n.Local(nodes')
      decreases |unencIter.Rest()|, 0
    {
      if unencIter.Done() != encIter.Done() {
        return Some(DifferentLengths), nodes;
      }
      if unencIter.Done() {
        SetBase(base, nodes);
        return None, nodes;
      }
      ghost var us, es := unencIter.Rest(), encIter.Rest();
      var unencPart := unencIter.Next();
      var encPart := encIter.Next();
      assert us == [unencPart] + unencIter.Rest() && es == [encPart] + encIter.Rest();
      StaysClosed(nodes);
      assert Local(nodes);
      if encPart in encMap && encMap[encPart] != unencPart {
        return Some(Conflict), nodes;
      }
      if unencPart in unencMap && unencMap[unencPart] != encPart {
        return Some(Conflict), nodes;
      }
      err, nodes' := AddBelow(unencPart, encPart, unencIter, encIter, base, nodes);
    }

    /** The part of `add` after the consistency checks. */
    method AddBelow(u: Bytes, e: Bytes, unencIter: Iterator, encIter: Iterator, base: Base, ghost nodes: set<Node>)
      returns (err: Option<AddError>, ghost nodes': set<Node>)
      requires unencIter.Valid() && encIter.Valid() && unencIter != encIter
      requires this in nodes && Closed(nodes)
      requires e in encMap ==> encMap[e] == u
      requires u in unencMap ==> unencMap[u] == e
      modifies nodes, unencIter, encIter
      ensures fresh(nodes' - nodes)
      ensures Added(KeyTrie.Add(old(trie), [u] + old(unencIter.Rest()), [e] + old(encIter.Rest()), base), err, nodes, nodes')
      ensures forall n {:trigger n.Local(nodes')} :: n in nodes' && n != parent ==> n.Local(nodes')
      decreases |unencIter.Rest()|, 1
    {
      ghost var us, es := unencIter.Rest(), encIter.Rest();
      assert ([u] + us)[1..] == us && ([e] + es)[1..] == es;
      var child, nodes1 := ChildFor(u, nodes);
      err, nodes' := child.Add(unencIter, encIter, base, nodes1);
      assert old(Local(nodes)) && old(PlainOk(u, nodes));
      if err.Some? {
        StaysClosed(nodes);
        nodes' := nodes;
        return;
      }
      forall v | v != u
        ensures PlainOk(v, nodes')
      {
        assert old(PlainOk(v, nodes));
      }
      forall d
        ensures EncOk(d)
      {
        assert old(EncOk(d));
      }
      Attach(u, e, child, nodes');
    }

    /** Consumes `iter`, its own copy of the iterator. */
    method Lookup(iter: Iterator, bestRemaining: Iterator, bestBase: Option<Base>, byUnenc: bool, ghost nodes: set<Node>)
      returns (revealed: Option<map<Bytes, Bytes>>, remaining: Iterator, base: Option<Base>)
      requires iter.Valid() && bestRemaining.Valid() && iter != bestRemaining
      requires this in nodes && Closed(nodes)
      modifies iter
      ensures iter.Valid() && remaining.Valid() && (remaining == bestRemaining || fresh(remaining))
      ensures KeyTrie.Lookup(revealed, remaining.Rest(), base) ==
              Find(trie, old(iter.Rest()), bestRemaining.Rest(), bestBase, byUnenc)
      decreases |iter.Rest()|
    {
      assert Local(nodes);
      hide PlainOk, EncOk;
      remaining, base := bestRemaining, bestBase;
      if this.base.Some? || bestBase.None? {
        remaining := new Iterator.Clone(iter);
        base := this.base;
      }
      var children;
      if byUnenc {
        revealed, children := Some(encMap), unenc;
      } else {
        revealed, children := Some(unencMap), enc;
      }
      if iter.Done() {
        return;
      }
      ghost var path := iter.Rest();
      ChildValue(path[0], byUnenc, nodes);
      var part := iter.Next();
      assert path[1..] == iter.Rest();
      if part !in children {
        return None, remaining, base;
      }
      var child := children[part];
      revealed, remaining, base := child.Lookup(iter, remaining, base, byUnenc, nodes);
    }
  
    /** The child maps hold the children of the value, by either name. */
    lemma ChildValue(part: Bytes, byUnenc: bool, nodes: set<Node>)
      requires Local(nodes)
      ensures var children := if byUnenc then unenc else enc;
              && (part in children <==> Child(trie, part, byUnenc).Some?)
              && (part in children ==> children[part] in nodes && children[part].trie == Child(trie, part, byUnenc).value)
    {
      assert PlainOk(part, nodes) && EncOk(part);
      if part in encMap {
        assert PlainOk(encMap[part], nodes);
      }
    }

    /** Reports every base below this node, in no particular order. */
    method IterateWithCipher(bucket: Bytes, ghost nodes: set<Node>)
      returns (out: seq<Addition>, ghost at: seq<Path>)
      requires this in nodes && Closed(nodes)
      ensures VisitsAll(trie, bucket, out, at)
      decreases trie
    {
      assert Local(nodes);
      out, at := [], [];
      VisitedBase(trie, bucket);
      if base.Some? {
        out, at := [Exported(bucket, base.value)], [[]];
      }
      var todo := unenc.Keys;
      ghost var done := {};
      while todo != {}
        invariant todo !! done && todo + done == unenc.Keys
        invariant Visits(trie, bucket, out, at, done)
        decreases todo
      {
        var u :| u in todo;
        assert PlainOk(u, nodes);
        var out', at' := unenc[u].IterateWithCipher(bucket, nodes);
        VisitedChild(trie, bucket, out, at, done, u, out', at');
        out, at := out + out', at + Below(u, at');
        todo, done := todo - {u}, done + {u};
      }
      assert done == trie.children.Keys by {
        forall u
          ensures u in unenc <==> u in trie.children
        {
          assert PlainOk(u, nodes);
        }
      }
    }
  }

  class Store {
    var roots: map<Bytes, Node>
    var defaultKey: Option<Key>
    var defaultPathCipher: CipherSuite
    var encryptionBypass: bool
    ghost var nodes: set<Node>
    ghost var entries: Flat

    ghost predicate RootOk(b: Bytes)
      reads this, nodes
    {
      b in roots ==> roots[b] in nodes && roots[b].parent == null && roots[b].name == b && roots[b].depth == 0
    }

    ghost predicate Shaped()
      reads this, nodes
    {
      && Node.Closed(nodes)
      && (forall b :: b in roots ==> roots[b] in nodes)
      && (forall b {:trigger RootOk(b)} :: RootOk(b))
    }

    ghost function Model(): Model
      reads this, nodes
      requires Shaped()
    {
      StoreModel.Model(map b | b in roots :: roots[b].trie, defaultKey, defaultPathCipher, encryptionBypass)
    }

    /** `entries` holds what was added, and the nodes represent it. */
    ghost predicate Valid()
      reads this, nodes
    {
      Shaped() && Represents(Model(), entries)
    }

    constructor ()
      ensures Valid() && fresh(nodes) && Model() == NEW_STORE && entries == map[]
    {
      roots, defaultKey, defaultPathCipher, encryptionBypass := map[], None, EncUnspecified, false;
      nodes, entries := {}, map[];
      new;
      EmptyRepresented(Model());
    }

    /** Setting the defaults does not touch the nodes. */
    twostate lemma StaysShaped()
      requires old(Valid()) && roots == old(roots) && nodes == old(nodes) && entries == old(entries)
      requires forall n :: n in nodes ==> unchanged(n)
      ensures Valid() && Model().roots == old(Model().roots)
    {
      Node.StaysClosed(nodes);
      forall b
        ensures RootOk(b)
      {
        assert old(RootOk(b));
      }
      SameRoots(old(Model()), Model(), entries);
    }

    method SetDefaultKey(key: Option<Key>)
      requires Valid()
      modifies this
      ensures Valid() && nodes == old(nodes) && entries == old(entries)
      ensures Model() == old(Model()).(defaultKey := key)
    {
      defaultKey := key;
      StaysShaped();
    }

    method SetDefaultPathCipher(cipher: CipherSuite)
      requires Valid()
      modifies this
      ensures Valid() && nodes == old(nodes) && entries == old(entries)
      ensures Model() == old(Model()).(defaultPathCipher := cipher)
    {
      defaultPathCipher := cipher;
      StaysShaped();
    }

    /** Add uses the current default path cipher. */
    method Add(bucket: Bytes, unenc: Bytes, enc: Bytes, key: Key) returns (err: Option<AddError>)
      requires Valid()
      modifies this, nodes
      ensures Valid() && fresh(nodes - old(nodes))
      ensures Entered(Addition(bucket, unenc, enc, key, old(defaultPathCipher)), err)
    {
      err := AddWithCipher(bucket, unenc, enc, key, defaultPathCipher);
    }

    /** The outcome of an addition: it succeeds exactly when the entries accept it, and when it fails
        nothing at all has changed. */
    twostate predicate Entered(new a: Addition, new err: Option<AddError>)
      requires old(Valid()) && Valid()
      reads this, nodes
    {
      && (err.None? <==> FlatAccepts(old(entries), a))
      && entries == FlatAdd(old(entries), a)
      && (match StoreModel.AddWithCipher(old(Model()), a)
          case Ok(m) => err == None && Model() == m
          case Err(e) => err == Some(e) && unchanged(this) && forall n :: n in nodes ==> unchanged(n))
    }

    method AddWithCipher(bucket: Bytes, unenc: Bytes, enc: Bytes, key: Key, pathCipher: CipherSuite)
      returns (err: Option<AddError>)
      requires Valid()
      modifies this, nodes
      ensures Valid() && fresh(nodes - old(nodes))
      ensures Entered(Addition(bucket, unenc, enc, key, pathCipher), err)
    {
      ghost var a := Addition(bucket, unenc, enc, key, pathCipher);
      AddRefines(Model(), entries, a);
      var root;
      ghost var nodes';
      err, root, nodes' := AddBelowRoot(bucket, unenc, enc, Base(unenc, enc, key, pathCipher, false));
      if err.Some? {
        StaysShaped();
        return;
      }
      ghost var m := StoreModel.AddWithCipher(old(Model()), a).value;
      Install(bucket, root, nodes', m, FlatAdd(entries, a));
    }

    /** Performs the addition starting at the root node of the bucket. */
    method AddBelowRoot(bucket: Bytes, unenc: Bytes, enc: Bytes, base: Base)
      returns (err: Option<AddError>, root: Node, ghost nodes': set<Node>)
      requires Valid()
      modifies nodes
      ensures match KeyTrie.Add(old(Root(Model(), bucket)), Split(unenc), Split(enc), base)
              case Err(e) => err == Some(e) && forall n :: n in nodes ==> unchanged(n)
              case Ok(t) => err == None && root.trie == t
      ensures nodes <= nodes' && fresh(nodes' - nodes)
      ensures err.None? ==> Node.Closed(nodes') && root in nodes'
      ensures err.None? ==> root.parent == null && root.name == bucket && root.depth == 0
      ensures err.None? ==> forall b {:trigger RootOk(b)} :: b != bucket ==> RootOk(b)
      ensures err.None? ==> forall b :: b in roots && b != bucket ==> roots[b].trie == old(roots[b].trie)
    {
      ghost var nodes1;
      root, nodes1 := RootFor(bucket);
      var unencIter := new Iterator(unenc);
      var encIter := new Iterator(enc);
      err, nodes' := root.Add(unencIter, encIter, base, nodes1);
      forall b | b in roots && b != bucket
        ensures RootOk(b) && unchanged(roots[b])
      {
        assert old(RootOk(b));
      }
      if err.Some? {
        nodes' := nodes;
      }
    }

    /** LookupUnencrypted, and LookupEncrypted when `unenc` is false. */
    method Lookup(bucket: Bytes, path: Bytes, unenc: bool)
      returns (revealed: Option<map<Bytes, Bytes>>, remaining: Iterator, base: Option<Base>)
      requires Valid()
      ensures fresh(remaining) && remaining.Valid()
      ensures KeyTrie.Lookup(revealed, remaining.Rest(), base) == LookupIn(Model(), bucket, path, unenc)
    {
      assert RootOk(bucket);
      revealed, base := None, None;
      remaining := new Iterator([]);
      if bucket in roots {
        var iter := new Iterator(path);
        revealed, remaining, base := roots[bucket].Lookup(iter, remaining, None, unenc, nodes);
      }
      if base.None? && defaultKey.Some? {
        revealed := None;
        remaining := new Iterator(path);
        base := Some(Base([], [], defaultKey.value, defaultPathCipher, true));
      }
      if base.Some? && encryptionBypass {
        base := Some(base.value.(pathCipher := EncNullBase64URL));
      }
    }

    /** Reports every entry exactly once, in no particular order. */
    method IterateWithCipher() returns (out: seq<Addition>)
      requires Valid()
      ensures Lists(out, entries) && |out| == |entries|
    {
      hide Represents, ListsBuckets, VisitsAll, Lists;
      NothingListed(entries);
      out := [];
      var todo := roots.Keys;
      ghost var done := {};
      while todo != {}
        invariant todo !! done && todo + done == roots.Keys
        invariant ListsBuckets(out, entries, done)
        decreases todo
      {
        var bucket :| bucket in todo;
        assert RootOk(bucket);
        var out', at := roots[bucket].IterateWithCipher(bucket, nodes);
        ListedBucket(Model(), entries, out, done, bucket, out', at);
        out := out + out';
        todo, done := todo - {bucket}, done + {bucket};
      }
      assert done == Model().roots.Keys;
      ListedAll(Model(), entries, out);
    }

    /** `s.roots[bucket] = root`, after which the store shows `m`. */
    method Install(bucket: Bytes, root: Node, ghost nodes': set<Node>, ghost m: Model, ghost entries': Flat)
      requires nodes <= nodes' && Node.Closed(nodes') && root in nodes'
      requires root.parent == null && root.name == bucket && root.depth == 0
      requires forall b {:trigger RootOk(b)} :: b != bucket ==> RootOk(b)
      requires m.roots.Keys == roots.Keys + {bucket} && m.roots[bucket] == root.trie
      requires forall b :: b in roots && b != bucket ==> m.roots[b] == roots[b].trie
      requires m == StoreModel.Model(m.roots, defaultKey, defaultPathCipher, encryptionBypass)
      requires Represents(m, entries')
      modifies this
      ensures Valid() && Model() == m && nodes == nodes' && entries == entries'
    {
      hide Represents;
      roots := roots[bucket := root];
      nodes, entries := nodes', entries';
      forall b | b in roots
        ensures roots[b] in nodes && RootOk(b)
      {
        assert b != bucket ==> old(RootOk(b));
      }
      assert Shaped();
      assert Model().roots == m.roots;
    }

    /** The root node of a bucket, or a new node that can become it. */
    method RootFor(bucket: Bytes) returns (root: Node, ghost nodes': set<Node>)
      requires Valid()
      ensures root in nodes' && Node.Closed(nodes')
      ensures root.parent == null && root.name == bucket && root.depth == 0
      ensures bucket in roots ==> root == roots[bucket] && nodes' == nodes
      ensures bucket !in roots ==> fresh(root) && nodes' == nodes + {root}
      ensures root.trie == Root(Model(), bucket)
    {
      assert RootOk(bucket);
      if bucket in roots {
        return roots[bucket], nodes;
      }
      root := new Node(null, bucket);
      nodes' := nodes + {root};
      forall n | n in nodes'
        ensures n.Local(nodes')
      {
        if n != root {
          assert old(n.Local(nodes));
          n.StaysLocal(nodes, nodes');
        }
      }
    }
  }

  lemma SameRoots(s: Model, s': Model, flat: Flat)
    requires Represents(s, flat) && s'.roots == s.roots
    ensures Represents(s', flat)
  {
    forall k
      ensures Named(s', flat, k)
    {
      assert Named(s, flat, k);
    }
    forall b, v
      ensures Based(s', flat, b, v) && AboveEntry(s', flat, b, v)
    {
      assert Based(s, flat, b, v) && AboveEntry(s, flat, b, v);
    }
  }
}
