/** Splitting a raw path into components and joining components back (paths/path.go and the
    pathBuilder of encryption/path.go). */
module Paths {
  import opened Prelude

  const SLASH: byte := 47

  /** The components of a path, outermost first. */
  type Path = seq<Bytes>

  /** strings.IndexByte(s, '/'). */
  function IndexSlash(s: Bytes): (r: Option<nat>)
    ensures r.None? ==> SLASH !in s
    ensures r.Some? ==> r.value < |s| && s[r.value] == SLASH && SLASH !in s[..r.value]
  {
    if s == [] then None
    else if s[0] == SLASH then Some(0)
    else
      match IndexSlash(s[1..])
      case None => None
      case Some(i) => assert s[..i + 1] == [s[0]] + s[1..][..i]; Some(i + 1)
  }

  /** The components of a string that is known to have at least one, possibly empty. */
  function Components(s: Bytes): (cs: Path)
    ensures |cs| >= 1 && NoSlashes(cs)
    decreases |s|
  {
    match IndexSlash(s)
    case None => [s]
    case Some(i) => [s[..i]] + Components(s[i + 1..])
  }

  /** The components of a raw path: the empty path has none. */
  function Split(raw: Bytes): (cs: Path)
    ensures NoSlashes(cs)
    ensures raw == [] <==> cs == []
  {
    if raw == [] then [] else Components(raw)
  }

  function Join(cs: Path): Bytes {
    if cs == [] then [] else if |cs| == 1 then cs[0] else cs[0] + [SLASH] + Join(cs[1..])
  }

  predicate NoSlashes(cs: Path) {
    forall i :: 0 <= i < |cs| ==> SLASH !in cs[i]
  }

  /** The component sequences that are the split of some raw path: the single empty component
      has no raw form. */
  predicate IsRaw(cs: Path) {
    NoSlashes(cs) && cs != [[]]
  }

  lemma {:induction false} JoinComponents(s: Bytes)
    ensures Join(Components(s)) == s
    decreases |s|
  {
    match IndexSlash(s)
    case None =>
    case Some(i) =>
      JoinComponents(s[i + 1..]);
      assert Components(s)[1..] == Components(s[i + 1..]);
      assert s == s[..i] + [SLASH] + s[i + 1..];
  }

  lemma JoinSplit(raw: Bytes)
    ensures Join(Split(raw)) == raw
    ensures IsRaw(Split(raw))
  {
    JoinComponents(raw);
  }

  lemma IndexSlashAt(c: Bytes, rest: Bytes)
    requires SLASH !in c
    ensures IndexSlash(c + [SLASH] + rest) == Some(|c|)
  {
    var s := c + [SLASH] + rest;
    assert s[|c|] == SLASH && s[..|c|] == c;
  }

  lemma {:induction false} ComponentsJoin(cs: Path)
    requires NoSlashes(cs) && cs != []
    ensures Components(Join(cs)) == cs
  {
    if |cs| > 1 {
      IndexSlashAt(cs[0], Join(cs[1..]));
      var s := Join(cs);
      assert s[..|cs[0]|] == cs[0] && s[|cs[0]| + 1..] == Join(cs[1..]);
      ComponentsJoin(cs[1..]);
    }
  }

  /** Split and Join are inverse bijections between raw paths and raw component sequences. */
  lemma SplitJoin(cs: Path)
    requires IsRaw(cs)
    ensures Split(Join(cs)) == cs
  {
    if cs != [] {
      ComponentsJoin(cs);
      assert Components([]) == [[]];
    }
  }

  lemma {:induction false} JoinAppend(a: Path, b: Path)
    requires a != [] && b != []
    ensures Join(a + b) == Join(a) + [SLASH] + Join(b)
  {
    if |a| == 1 {
      assert (a + b)[1..] == b;
    } else {
      assert (a + b)[1..] == a[1..] + b;
      JoinAppend(a[1..], b);
    }
  }

  /** Component-wise prefixes of raw paths are byte prefixes of the raw strings. */
  lemma JoinPrefix(a: Path, b: Path)
    requires a <= b
    ensures Join(a) <= Join(b)
  {
    if a != [] && a != b {
      assert b == a + b[|a|..];
      JoinAppend(a, b[|a|..]);
    }
  }

  /** paths.Iterator. Go passes it by value, which `Clone` makes explicit. */
  class Iterator {
    var raw: Bytes
    var consumed: nat
    var lastEmpty: bool

    ghost predicate Valid()
      reads this
    {
      consumed <= |raw|
    }

    constructor (raw: Bytes)
      ensures Valid() && Rest() == Split(raw)
      ensures this.raw == raw && consumed == 0
    {
      this.raw, consumed, lastEmpty := raw, 0, raw != [];
    }

    constructor Clone(other: Iterator)
      requires other.Valid()
      ensures Valid() && Rest() == other.Rest()
    {
      raw, consumed, lastEmpty := other.raw, other.consumed, other.lastEmpty;
    }

    predicate Done()
      reads this
    {
      |raw| == consumed && !lastEmpty
    }

    function Remaining(): Bytes
      reads this
      requires Valid()
    {
      raw[consumed..]
    }

    /** The components that Next has not returned yet. */
    ghost function Rest(): (cs: Path)
      reads this
      requires Valid()
      ensures Done() <==> cs == []
      ensures NoSlashes(cs)
    {
      if Done() then [] else Components(Remaining())
    }

    method Next() returns (component: Bytes)
      requires Valid()
      modifies this
      ensures Valid() && raw == old(raw)
      ensures old(Rest()) == [] ==> component == [] && Rest() == []
      ensures old(Rest()) != [] ==> old(Rest()) == [component] + Rest()
    {
      if Done() {
        return [];
      }
      var rem := Remaining();
      match IndexSlash(rem)
      case None =>
        consumed := consumed + |rem|;
        lastEmpty := false;
        return rem;
      case Some(index) =>
        consumed := consumed + index + 1;
        lastEmpty := index == |rem| - 1;
        assert Remaining() == rem[index + 1..];
        return rem[..index];
    }
  }

  /** The unread part of an iterator is always the join of its unread components. */
  lemma RemainingIsJoin(iter: Iterator)
    requires iter.Valid()
    ensures iter.Remaining() == Join(iter.Rest())
  {
    JoinComponents(iter.Remaining());
  }

  /** The pathBuilder of encryption/path.go: a string builder with a count of appends. */
  class PathBuilder {
    var i: nat
    var b: Bytes
    ghost var parts: Path

    ghost predicate Valid()
      reads this
    {
      i == |parts| && b == Join(parts)
    }

    constructor ()
      ensures Valid() && parts == []
    {
      i, b, parts := 0, [], [];
    }

    method Append(x: Bytes)
      requires Valid()
      modifies this
      ensures Valid() && parts == old(parts) + [x]
    {
      if i > 0 {
        JoinAppend(parts, [x]);
        b := b + [SLASH];
      }
      b := b + x;
      i := i + 1;
      parts := parts + [x];
      assert i == 1 ==> parts == [x];
    }
  }

  /** Raw text, a slash and more raw text: the components of both. */
  lemma {:induction false} ComponentsAppend(raw: Bytes, more: Bytes)
    ensures Components(raw + [SLASH] + more) == Components(raw) + Components(more)
    decreases |raw|
  {
    match IndexSlash(raw)
    case None =>
      IndexSlashAt(raw, more);
      var s := raw + [SLASH] + more;
      assert s[..|raw|] == raw && s[|raw| + 1..] == more;
    case Some(i) =>
      var head, tail := raw[..i], raw[i + 1..];
      assert raw == head + [SLASH] + tail;
      var s := raw + [SLASH] + more;
      assert s == head + [SLASH] + (tail + [SLASH] + more);
      IndexSlashAt(head, tail + [SLASH] + more);
      assert s[..i] == head && s[i + 1..] == tail + [SLASH] + more;
      ComponentsAppend(tail, more);
      ConcatAssociative([head], Components(tail), Components(more));
  }

  /** Byte 47 and nothing else separates components: the first component of a raw path ends at its first
      slash. */
  lemma SplitAtSlash(c: Bytes, rest: Bytes)
    requires 47 !in c
    ensures c != [] ==> Split(c) == [c]
    ensures Split(c + [47] + rest) == [c] + (if rest == [] then [[]] else Split(rest))
  {
    assert IndexSlash(c).None?;
    assert Components(c) == [c];
    IndexSlashAt(c, rest);
    var s := c + [47] + rest;
    assert s[..|c|] == c && s[|c| + 1..] == rest;
    assert Components(s) == [c] + Components(rest);
    assert Components([]) == [[]];
  }
}
