/** The trie of encryption/store.go as a value: what `node.add` and `node.lookup` compute, and why
    that is longest-prefix search in a flat map. */
module KeyTrie {
  import opened Prelude
  import opened Paths
  import opened Crypto

  /** encryption.Base. */
  datatype Base = Base(
    unencrypted: Bytes,
    encrypted: Bytes,
    key: Key,
    pathCipher: CipherSuite,
    isDefault: bool)

  datatype AddError = DifferentLengths | Conflict

  /** A node: `unencMap` and `encMap` pair the plain and encrypted names of its children. */
  datatype Trie = Trie(
    base: Option<Base>,
    unencMap: map<Bytes, Bytes>,
    encMap: map<Bytes, Bytes>,
    children: map<Bytes, Trie>)

  const EMPTY := Trie(None, map[], map[], map[])

  datatype Lookup = Lookup(revealed: Option<map<Bytes, Bytes>>, remaining: Path, base: Option<Base>)

  // ---------- the two operations ----------

  function Add(t: Trie, unenc: Path, enc: Path, base: Base): Result<Trie, AddError>
    decreases unenc
  {
    if (unenc == []) != (enc == []) then Err(DifferentLengths)
    else if unenc == [] then Ok(t.(base := Some(base)))
    else
      var u, e := unenc[0], enc[0];
      if e in t.encMap && t.encMap[e] != u then Err(Conflict)
      else if u in t.unencMap && t.unencMap[u] != e then Err(Conflict)
      else
        var child := if u in t.children then t.children[u] else EMPTY;
        match Add(child, unenc[1..], enc[1..], base)
        case Err(err) => Err(err)
        case Ok(child') =>
          Ok(Trie(t.base, t.unencMap[u := e], t.encMap[e := u], t.children[u := child']))
  }

  /** The child called `c`, by its plain or by its encrypted name. */
  function Child(t: Trie, c: Bytes, unenc: bool): Option<Trie> {
    if unenc then if c in t.children then Some(t.children[c]) else None
    else if c in t.encMap && t.encMap[c] in t.children then Some(t.children[t.encMap[c]])
    else None
  }

  function Revealed(t: Trie, unenc: bool): map<Bytes, Bytes> {
    if unenc then t.encMap else t.unencMap
  }

  function Find(t: Trie, path: Path, bestRemaining: Path, bestBase: Option<Base>, unenc: bool): Lookup
    decreases path
  {
    var better := t.base.Some? || bestBase.None?;
    var remaining := if better then path else bestRemaining;
    var base := if better then t.base else bestBase;
    if path == [] then Lookup(Some(Revealed(t, unenc)), remaining, base)
    else
      match Child(t, path[0], unenc)
      case None => Lookup(None, remaining, base)
      case Some(child) => Find(child, path[1..], remaining, base, unenc)
  }

  // ---------- observations ----------

  function NodeAt(t: Trie, path: Path, unenc: bool): Option<Trie>
    decreases path
  {
    if path == [] then Some(t)
    else
      match Child(t, path[0], unenc)
      case None => None
      case Some(child) => NodeAt(child, path[1..], unenc)
  }

  function BaseAt(t: Trie, path: Path, unenc: bool): Option<Base> {
    match NodeAt(t, path, unenc)
    case None => None
    case Some(node) => node.base
  }

  /** The encrypted name of the node with plain name `unenc`. */
  function EncName(t: Trie, unenc: Path): (e: Option<Path>)
    ensures e.Some? ==> |e.value| == |unenc|
    decreases unenc
  {
    if unenc == [] then Some([])
    else if unenc[0] in t.children && unenc[0] in t.unencMap then
      match EncName(t.children[unenc[0]], unenc[1..])
      case None => None
      case Some(rest) => Some([t.unencMap[unenc[0]]] + rest)
    else None
  }

  /** The name maps of every node are mutual inverses, and name exactly its children. */
  ghost predicate Coherent(t: Trie) {
    && t.children.Keys == t.unencMap.Keys
    && (forall u :: u in t.unencMap ==> t.unencMap[u] in t.encMap && t.encMap[t.unencMap[u]] == u)
    && (forall e :: e in t.encMap ==> t.encMap[e] in t.unencMap && t.unencMap[t.encMap[e]] == e)
    && (forall u :: u in t.children ==> Coherent(t.children[u]))
  }

  // ---------- Add ----------

  lemma {:induction false} AddCoherent(t: Trie, u: Path, e: Path, b: Base)
    requires Coherent(t) && Add(t, u, e, b).Ok?
    ensures Coherent(Add(t, u, e, b).value)
    decreases u
  {
    if u != [] {
      var child := if u[0] in t.children then t.children[u[0]] else EMPTY;
      AddCoherent(child, u[1..], e[1..], b);
    }
  }

  lemma {:induction false} AddLengths(t: Trie, u: Path, e: Path, b: Base)
    ensures Add(t, u, e, b).Ok? ==> |u| == |e|
    decreases u
  {
    if u != [] && e != [] {
      var child := if u[0] in t.children then t.children[u[0]] else EMPTY;
      AddLengths(child, u[1..], e[1..], b);
    }
  }

  /** A successful Add changes the base at its own path and no other. */
  lemma {:induction false} AddBase(t: Trie, u: Path, e: Path, b: Base, v: Path)
    requires Add(t, u, e, b).Ok?
    ensures BaseAt(Add(t, u, e, b).value, v, true) == if v == u then Some(b) else BaseAt(t, v, true)
    decreases u
  {
    if u != [] && v != [] {
      var child := if u[0] in t.children then t.children[u[0]] else EMPTY;
      if v[0] == u[0] {
        AddBase(child, u[1..], e[1..], b, v[1..]);
        assert v == u <==> v[1..] == u[1..] by {
          assert v == [v[0]] + v[1..] && u == [u[0]] + u[1..];
        }
        EmptyHasNoBase(v[1..]);
      }
    }
  }

  lemma EmptyHasNoBase(v: Path)
    ensures BaseAt(EMPTY, v, true) == None
    ensures v != [] ==> EncName(EMPTY, v) == None
  {
  }

  lemma ChildCoherent(t: Trie, u: Bytes)
    requires Coherent(t)
    ensures Coherent(if u in t.children then t.children[u] else EMPTY)
    ensures u in t.children <==> u in t.unencMap
  {
  }

  /** A successful Add names the nodes on its own path and no others. */
  lemma {:induction false} AddName(t: Trie, u: Path, e: Path, b: Base, v: Path)
    requires Coherent(t) && Add(t, u, e, b).Ok?
    ensures |u| == |e|
    ensures EncName(Add(t, u, e, b).value, v) == if v <= u then Some(e[..|v|]) else EncName(t, v)
    decreases u
  {
    hide Coherent;
    AddLengths(t, u, e, b);
    if u != [] && v != [] {
      ChildCoherent(t, v[0]);
    }
    if u != [] && v != [] && v[0] == u[0] {
      var child := if u[0] in t.children then t.children[u[0]] else EMPTY;
      AddName(child, u[1..], e[1..], b, v[1..]);
      assert v <= u <==> v[1..] <= u[1..];
      if v <= u {
        assert e[..|v|] == [e[0]] + e[1..][..|v| - 1];
      }
      EmptyHasNoBase(v[1..]);
    }
  }

  // ---------- when Add succeeds ----------

  /** How many leading components two paths share. */
  function CommonLength(a: Path, b: Path): (n: nat)
    ensures n <= |a| && n <= |b| && a[..n] == b[..n]
    ensures n < |a| && n < |b| ==> a[n] != b[n]
  {
    if a == [] || b == [] || a[0] != b[0] then 0 else 1 + CommonLength(a[1..], b[1..])
  }

  lemma {:induction false} CommonLengthIs(a: Path, b: Path, n: nat)
    requires n <= |a| && n <= |b| && a[..n] == b[..n]
    requires n < |a| && n < |b| ==> a[n] != b[n]
    ensures CommonLength(a, b) == n
  {
    if n > 0 {
      assert a[0] == a[..n][0] == b[..n][0] == b[0];
      assert a[1..][..n - 1] == a[..n][1..] == b[..n][1..] == b[1..][..n - 1];
      CommonLengthIs(a[1..], b[1..], n - 1);
    }
  }

  /** Two entries agree when their plain and encrypted names part company at the same depth. */
  predicate Agree(u: Path, e: Path, u': Path, e': Path) {
    CommonLength(u, u') == CommonLength(e, e')
  }

  lemma AgreePrefix(u: Path, e: Path, u': Path, e': Path, n: nat)
    requires |u'| == |e'| && n <= |u'| && Agree(u, e, u', e')
    ensures Agree(u, e, u'[..n], e'[..n])
  {
    var c := CommonLength(u, u');
    var m := if c < n then c else n;
    assert u[..m] == u[..c][..m] == u'[..c][..m] == u'[..n][..m];
    assert e[..m] == e[..c][..m] == e'[..c][..m] == e'[..n][..m];
    CommonLengthIs(u, u'[..n], m);
    CommonLengthIs(e, e'[..n], m);
  }

  lemma {:induction false} AddAgrees(t: Trie, u: Path, e: Path, b: Base, v: Path)
    requires Coherent(t) && Add(t, u, e, b).Ok? && EncName(t, v).Some?
    ensures Agree(u, e, v, EncName(t, v).value)
    decreases u
  {
    AddLengths(t, u, e, b);
    if u != [] && v != [] {
      var w := EncName(t, v).value;
      assert w[0] == t.unencMap[v[0]];
      if u[0] == v[0] {
        AddAgrees(t.children[u[0]], u[1..], e[1..], b, v[1..]);
        assert w[1..] == EncName(t.children[u[0]], v[1..]).value;
      }
    }
  }

  /** An accepted Add gives the nodes above it the names they have already. */
  lemma AddKeepsNames(t: Trie, u: Path, e: Path, b: Base, v: Path)
    requires Coherent(t) && Add(t, u, e, b).Ok? && EncName(t, v).Some? && v <= u
    ensures |u| == |e| && EncName(t, v).value == e[..|v|]
  {
    AddLengths(t, u, e, b);
    AddAgrees(t, u, e, b, v);
    CommonLengthIs(u, v, |v|);
  }

  /** When Add fails on names of equal length, some existing node disagrees with them. */
  lemma {:induction false} AddConflict(t: Trie, u: Path, e: Path, b: Base) returns (v: Path)
    requires Coherent(t) && |u| == |e| && Add(t, u, e, b).Err?
    ensures EncName(t, v).Some? && !Agree(u, e, v, EncName(t, v).value)
    decreases u
  {
    if e[0] in t.encMap && t.encMap[e[0]] != u[0] {
      v := [t.encMap[e[0]]];
      assert EncName(t, v) == Some([e[0]] + []);
    } else if u[0] in t.unencMap && t.unencMap[u[0]] != e[0] {
      v := [u[0]];
      assert EncName(t, v) == Some([t.unencMap[u[0]]] + []);
    } else {
      var child := if u[0] in t.children then t.children[u[0]] else EMPTY;
      var v' := AddConflict(child, u[1..], e[1..], b);
      EmptyHasNoBase(v');
      v := [u[0]] + v';
      assert v[1..] == v';
      var w' := EncName(child, v').value;
      assert EncName(t, v) == Some([e[0]] + w') && ([e[0]] + w')[1..] == w';
    }
  }

  // ---------- Find is longest-prefix search ----------

  /** How far down `path` the deepest node with a base is, if there is one. */
  function Best(t: Trie, path: Path, unenc: bool): (k: Option<nat>)
    ensures k.Some? ==> IsLongest(t, path, unenc, k.value)
    ensures k.None? ==> forall j :: 0 <= j <= |path| ==> BaseAt(t, path[..j], unenc).None?
    decreases path
  {
    var below := if path == [] then None
                 else match Child(t, path[0], unenc)
                      case None => None
                      case Some(child) => Best(child, path[1..], unenc);
    assert forall j :: 0 < j <= |path| ==>
      path[..j][0] == path[0] && path[..j][1..] == path[1..][..j - 1];
    match below
    case Some(k) => Some(k + 1)
    case None => if t.base.Some? then Some(0) else None
  }

  ghost predicate IsLongest(t: Trie, path: Path, unenc: bool, k: nat) {
    k <= |path| && BaseAt(t, path[..k], unenc).Some? &&
    forall j :: k < j <= |path| ==> BaseAt(t, path[..j], unenc).None?
  }

  /** How far down `path` there are nodes at all. */
  function Deepest(t: Trie, path: Path, unenc: bool): (k: nat)
    ensures k <= |path| && NodeAt(t, path[..k], unenc).Some?
    ensures forall j :: k < j <= |path| ==> NodeAt(t, path[..j], unenc).None?
    decreases path
  {
    assert forall j :: 0 < j <= |path| ==>
      path[..j][0] == path[0] && path[..j][1..] == path[1..][..j - 1];
    if path == [] then 0
    else match Child(t, path[0], unenc)
         case None => 0
         case Some(child) => 1 + Deepest(child, path[1..], unenc)
  }

  lemma TailSlices(path: Path, k: nat)
    requires k + 1 <= |path|
    ensures path[..k + 1][1..] == path[1..][..k] && path[k + 1..] == path[1..][k..]
  {
  }

  lemma {:induction false} FindBest(t: Trie, path: Path, rem: Path, base: Option<Base>, unenc: bool)
    ensures var r := Find(t, path, rem, base, unenc);
            var best := Best(t, path, unenc);
            && r.revealed == (match NodeAt(t, path, unenc)
                              case None => None
                              case Some(node) => Some(Revealed(node, unenc)))
            && r.base == (if best.Some? then BaseAt(t, path[..best.value], unenc) else base)
            && r.remaining == (if best.Some? then path[best.value..]
                               else if base.Some? then rem
                               else path[Deepest(t, path, unenc)..])
    decreases path
  {
    if path != [] && Child(t, path[0], unenc).Some? {
      var child := Child(t, path[0], unenc).value;
      var better := t.base.Some? || base.None?;
      FindBest(child, path[1..], if better then path else rem, if better then t.base else base, unenc);
      BestBelow(t, child, path, unenc);
      hide Best, Deepest, IsLongest;
    }
  }

  /** What the walk below a child says about the walk from its parent. */
  lemma BestBelow(t: Trie, child: Trie, path: Path, unenc: bool)
    requires path != [] && Child(t, path[0], unenc) == Some(child)
    ensures var best, below := Best(t, path, unenc), Best(child, path[1..], unenc);
            && Deepest(t, path, unenc) == Deepest(child, path[1..], unenc) + 1
            && path[Deepest(t, path, unenc)..] == path[1..][Deepest(child, path[1..], unenc)..]
            && best == (match below case Some(k) => Some(k + 1) case None => if t.base.Some? then Some(0) else None)
            && (below.Some? ==> path[best.value..] == path[1..][below.value..]
                                && BaseAt(t, path[..best.value], unenc) == BaseAt(child, path[1..][..below.value], unenc))
  {
    TailSlices(path, Deepest(child, path[1..], unenc));
    BestSteps(t, child, path, unenc);
    var below := Best(child, path[1..], unenc);
    if below.Some? {
      TailSlices(path, below.value);
      hide Best, Deepest, IsLongest;
    }
  }

  lemma BestSteps(t: Trie, child: Trie, path: Path, unenc: bool)
    requires path != [] && Child(t, path[0], unenc) == Some(child)
    ensures Best(t, path, unenc) ==
            match Best(child, path[1..], unenc)
            case Some(k) => Some(k + 1)
            case None => if t.base.Some? then Some(0) else None
  {
  }

  // ---------- the two sides see the same nodes ----------

  /** Walking by encrypted names reaches the node whose plain name it is. */
  lemma {:induction false} NodeByEncName(t: Trie, u: Path)
    requires Coherent(t)
    ensures NodeAt(t, u, true).Some? <==> EncName(t, u).Some?
    ensures EncName(t, u).Some? ==> NodeAt(t, EncName(t, u).value, false) == NodeAt(t, u, true)
    decreases u
  {
    if u != [] && u[0] in t.children {
      NodeByEncName(t.children[u[0]], u[1..]);
      if EncName(t, u).Some? {
        assert EncName(t, u).value[1..] == EncName(t.children[u[0]], u[1..]).value;
      }
    }
  }

  /** Every node found by encrypted names has a plain name. */
  lemma {:induction false} PlainName(t: Trie, e: Path) returns (u: Path)
    requires Coherent(t) && NodeAt(t, e, false).Some?
    ensures EncName(t, u) == Some(e)
    decreases e
  {
    if e == [] {
      u := [];
    } else {
      var rest := PlainName(t.children[t.encMap[e[0]]], e[1..]);
      u := [t.encMap[e[0]]] + rest;
      assert u[1..] == rest && e == [e[0]] + e[1..];
    }
  }

  /** The names of any two nodes agree. */
  lemma {:induction false} NamesAgree(t: Trie, u: Path, v: Path)
    requires Coherent(t) && EncName(t, u).Some? && EncName(t, v).Some?
    ensures Agree(u, EncName(t, u).value, v, EncName(t, v).value)
    decreases u
  {
    if u != [] && v != [] {
      var e, w := EncName(t, u).value, EncName(t, v).value;
      assert e[0] == t.unencMap[u[0]] && w[0] == t.unencMap[v[0]];
      if u[0] == v[0] {
        NamesAgree(t.children[u[0]], u[1..], v[1..]);
        assert e[1..] == EncName(t.children[u[0]], u[1..]).value;
        assert w[1..] == EncName(t.children[u[0]], v[1..]).value;
      }
    }
  }

  /** The name of a prefix of a node's path is the prefix of its name. */
  lemma {:induction false} NamePrefix(t: Trie, u: Path, n: nat)
    requires EncName(t, u).Some? && n <= |u|
    ensures EncName(t, u[..n]) == Some(EncName(t, u).value[..n])
    decreases n
  {
    if n > 0 {
      NamePrefix(t.children[u[0]], u[1..], n - 1);
      assert u[..n][0] == u[0] && u[..n][1..] == u[1..][..n - 1];
      var rest := EncName(t.children[u[0]], u[1..]).value;
      assert ([t.unencMap[u[0]]] + rest)[..n] == [t.unencMap[u[0]]] + rest[..n - 1];
    }
  }

  /** The names a node gives its children continue its own name. */
  lemma {:induction false} ChildName(t: Trie, v: Path, u: Bytes)
    requires Coherent(t) && EncName(t, v).Some?
    ensures NodeAt(t, v, true).Some? && Coherent(NodeAt(t, v, true).value)
    ensures EncName(t, v + [u]) == var node := NodeAt(t, v, true).value;
                                   if u in node.unencMap then Some(EncName(t, v).value + [node.unencMap[u]]) else None
    decreases v
  {
    if v == [] {
      assert v + [u] == [u];
      SingleName(t, u);
      if u in t.unencMap {
        assert [] + [t.unencMap[u]] == [t.unencMap[u]];
      }
    } else {
      assert (v + [u])[1..] == v[1..] + [u];
      ChildName(t.children[v[0]], v[1..], u);
      var node := NodeAt(t, v, true).value;
      if u in node.unencMap {
        ConcatAssociative([t.unencMap[v[0]]], EncName(t.children[v[0]], v[1..]).value, [node.unencMap[u]]);
      }
    }
  }

  lemma SingleName(t: Trie, u: Bytes)
    requires Coherent(t)
    ensures EncName(t, [u]) == if u in t.unencMap then Some([t.unencMap[u]]) else None
  {
    if u in t.unencMap {
      var name: Path := [t.unencMap[u]];
      assert EncName(t, [u]) == Some(name + []) && name + [] == name;
    }
  }

  /** Two coherent tries with the same bases and the same names are the same trie. */
  lemma {:induction false} SameObservations(t: Trie, t': Trie)
    requires Coherent(t) && Coherent(t')
    requires forall v :: BaseAt(t, v, true) == BaseAt(t', v, true)
    requires forall v :: EncName(t, v) == EncName(t', v)
    ensures t == t'
    decreases t
  {
    assert t.base == BaseAt(t, [], true) == BaseAt(t', [], true) == t'.base;
    forall u
      ensures u in t.unencMap <==> u in t'.unencMap
      ensures u in t.unencMap ==> t.unencMap[u] == t'.unencMap[u]
    {
      SingleName(t, u);
      SingleName(t', u);
      assert EncName(t, [u]) == EncName(t', [u]);
    }
    assert t.unencMap == t'.unencMap;
    assert t.encMap == t'.encMap;
    forall u | u in t.children
      ensures t.children[u] == t'.children[u]
    {
      SameChild(t, t', u);
      SameObservations(t.children[u], t'.children[u]);
    }
    assert t.children == t'.children;
  }

  lemma SameChild(t: Trie, t': Trie, u: Bytes)
    requires Coherent(t) && Coherent(t') && u in t.children && u in t'.children
    requires forall v :: BaseAt(t, v, true) == BaseAt(t', v, true)
    requires forall v :: EncName(t, v) == EncName(t', v)
    ensures forall v :: BaseAt(t.children[u], v, true) == BaseAt(t'.children[u], v, true)
    ensures forall v :: EncName(t.children[u], v) == EncName(t'.children[u], v)
  {
    forall v
      ensures BaseAt(t.children[u], v, true) == BaseAt(t'.children[u], v, true)
      ensures EncName(t.children[u], v) == EncName(t'.children[u], v)
    {
      ChildObservations(t, u, v);
      ChildObservations(t', u, v);
    }
  }

  lemma ChildObservations(t: Trie, u: Bytes, v: Path)
    requires Coherent(t) && u in t.children
    ensures BaseAt(t, [u] + v, true) == BaseAt(t.children[u], v, true)
    ensures EncName(t.children[u], v) ==
            match EncName(t, [u] + v) case None => None case Some(e) => Some(e[1..])
  {
    assert ([u] + v)[1..] == v;
    if EncName(t.children[u], v).Some? {
      var e := EncName(t.children[u], v).value;
      assert ([t.unencMap[u]] + e)[1..] == e;
    }
  }
}
