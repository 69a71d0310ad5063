/** The expiring LRU (lrucache/cache.go): what its lock sections do to the map and the list. */
module LruSections {
  import opened Prelude

  type Key = Bytes
  type Time = int

  datatype Options = Options(expiration: int, capacity: int)

  /** An element of the recency list. The id stands for its address. */
  datatype Element = Element(id: nat, key: Key)

  /** A pointer to a cacheState with the fields that never change. A state and its element are made
      together, so the id of the element is the address of the state as well. */
  datatype State = State(when: Time, order: Element)

  datatype Cache = Cache(data: map<Key, State>, order: seq<Element>, next: nat)

  const EMPTY := Cache(map[], [], 0)

  // ---------- container/list ----------

  function Remove(order: seq<Element>, e: Element): seq<Element> {
    if order == [] then []
    else if order[0] == e then order[1..]
    else [order[0]] + Remove(order[1..], e)
  }

  function MoveToFront(order: seq<Element>, e: Element): seq<Element> {
    if e in order then [e] + Remove(order, e) else order
  }

  ghost predicate Distinct(order: seq<Element>) {
    forall i, j :: 0 <= i < j < |order| ==> order[i] != order[j]
  }

  lemma {:induction false} RemoveRemoves(order: seq<Element>, e: Element)
    requires Distinct(order)
    ensures Distinct(Remove(order, e))
    ensures forall x :: x in Remove(order, e) <==> x in order && x != e
  {
    if order != [] {
      assert order == [order[0]] + order[1..];
      FirstOnlyOnce(order);
      if order[0] != e {
        RemoveRemoves(order[1..], e);
        DistinctCons(order[0], Remove(order[1..], e));
      }
    }
  }

  lemma FirstOnlyOnce(order: seq<Element>)
    requires Distinct(order) && order != []
    ensures Distinct(order[1..]) && order[0] !in order[1..]
  {
  }

  lemma DistinctCons(e: Element, order: seq<Element>)
    requires Distinct(order) && e !in order
    ensures Distinct([e] + order)
  {
  }

  // ---------- the lock sections ----------

  predicate Expired(opts: Options, state: State, now: Time) {
    opts.expiration > 0 && now - state.when > opts.expiration
  }

  function Dropped(c: Cache, key: Key): Cache
    requires key in c.data
  {
    c.(data := c.data - {key}, order := Remove(c.order, c.data[key].order))
  }

  function Inserted(c: Cache, key: Key, now: Time): Cache {
    var e := Element(c.next, key);
    Cache(c.data[key := State(now, e)], [e] + c.order, c.next + 1)
  }

  function WithoutBack(c: Cache): Cache
    requires c.order != []
  {
    c.(data := c.data - {c.order[|c.order| - 1].key}, order := c.order[..|c.order| - 1])
  }

  function Evicted(c: Cache, capacity: int): Cache
    decreases |c.order|
  {
    if |c.data| < capacity || c.order == [] then c else Evicted(WithoutBack(c), capacity)
  }

  /** One turn of the loop of Get; no state means another turn. */
  function GetTurn(c: Cache, opts: Options, key: Key, now: Time): (Cache, Option<State>) {
    if key !in c.data then
      var c' := Inserted(Evicted(c, opts.capacity), key, now);
      (c', Some(c'.data[key]))
    else if Expired(opts, c.data[key], now) then (Dropped(c, key), None)
    else (c.(order := MoveToFront(c.order, c.data[key].order)), Some(c.data[key]))
  }

  /** The section of Get after its function failed. */
  function Forgotten(c: Cache, key: Key, state: State): Cache {
    if key in c.data && c.data[key].order.id == state.order.id then Dropped(c, key) else c
  }

  function Deleted(c: Cache, key: Key): Cache {
    if key in c.data then Dropped(c, key) else c
  }

  function Peeked(c: Cache, opts: Options, key: Key, now: Time): Cache {
    if key in c.data && Expired(opts, c.data[key], now) then Dropped(c, key) else c
  }

  function CachedTurn(c: Cache, opts: Options, key: Key, now: Time): (Cache, Option<State>) {
    var p := Peeked(c, opts, key, now);
    if key !in p.data then (p, None)
    else (p.(order := MoveToFront(p.order, p.data[key].order)), Some(p.data[key]))
  }

  /** Add takes the mapping of the last element away, but leaves the element. */
  function AddTurn(c: Cache, opts: Options, key: Key, now: Time): (Cache, bool) {
    var p := Peeked(c, opts, key, now);
    if key in p.data then
      (Inserted(p.(order := Remove(p.order, p.data[key].order)), key, now), true)
    else if key !in c.data && |p.order| >= opts.capacity && p.order != [] then
      (Inserted(p.(data := p.data - {p.order[|p.order| - 1].key}), key, now), false)
    else (Inserted(p, key, now), false)
  }

  // ---------- map and list ----------

  ghost predicate Mapped(c: Cache, k: Key) {
    k in c.data ==> c.data[k].order in c.order && c.data[k].order.key == k
  }

  /** Every mapped state has its element in the list. */
  ghost predicate Contained(c: Cache) {
    && Distinct(c.order)
    && (forall e :: e in c.order ==> e.id < c.next)
    && (forall k {:trigger Mapped(c, k)} :: Mapped(c, k))
  }

  ghost predicate Listed(c: Cache, e: Element) {
    e in c.order ==> e.key in c.data && c.data[e.key].order == e
  }

  /** The map and the list are in one-to-one agreement. */
  ghost predicate Agree(c: Cache) {
    && Contained(c)
    && (forall e {:trigger Listed(c, e)} :: Listed(c, e))
  }

  lemma BackContained(c: Cache)
    requires Contained(c) && c.order != []
    ensures Contained(WithoutBack(c))
    ensures Agree(c) ==> Agree(WithoutBack(c))
  {
    var n := |c.order| - 1;
    var back, c' := c.order[n], WithoutBack(c);
    assert c.order == c'.order + [back];
    forall k ensures Mapped(c', k) {
      assert Mapped(c, k);
    }
    if Agree(c) {
      forall e ensures Listed(c', e) {
        assert Listed(c, e);
        assert Listed(c, back);
      }
    }
  }

  /** The list is never shorter than the map, and as long in agreement. */
  lemma {:induction false} ListCoversMap(c: Cache)
    requires Contained(c)
    ensures |c.data| <= |c.order|
    ensures Agree(c) ==> |c.data| == |c.order|
    decreases |c.order|
  {
    if c.order == [] {
      forall k ensures k !in c.data {
        assert Mapped(c, k);
      }
      assert c.data == map[];
    } else {
      BackContained(c);
      ListCoversMap(WithoutBack(c));
      var back := c.order[|c.order| - 1];
      DataWithout(c.data, back.key);
      if Agree(c) {
        assert Listed(c, back);
      }
    }
  }

  lemma DataWithout(data: map<Key, State>, key: Key)
    ensures |data - {key}| == if key in data then |data| - 1 else |data|
  {
    if key in data {
      assert (data - {key}).Keys == data.Keys - {key};
    } else {
      assert data - {key} == data;
    }
  }

  /** The eviction loop never meets an empty list, and it makes room. */
  lemma {:induction false} EvictionMakesRoom(c: Cache, capacity: int)
    requires Contained(c) && capacity >= 1
    ensures |c.data| >= capacity ==> c.order != []
    ensures Contained(Evicted(c, capacity)) && |Evicted(c, capacity).data| < capacity
    ensures Evicted(c, capacity).next == c.next && Evicted(c, capacity).data.Keys <= c.data.Keys
    ensures Agree(c) ==> Agree(Evicted(c, capacity))
    decreases |c.order|
  {
    ListCoversMap(c);
    if |c.data| >= capacity {
      BackContained(c);
      EvictionMakesRoom(WithoutBack(c), capacity);
    }
  }

  lemma EvictionTurn(c: Cache, capacity: int)
    requires |c.data| >= capacity && c.order != []
    ensures Evicted(c, capacity) == Evicted(WithoutBack(c), capacity)
  {
  }

  lemma EvictionDone(c: Cache, capacity: int)
    requires |c.data| < capacity
    ensures Evicted(c, capacity) == c
  {
  }

  /** In agreement, exactly the least recently used keys go. */
  lemma {:induction false} EvictionIsLru(c: Cache, capacity: int)
    requires Agree(c) && capacity >= 1
    ensures Evicted(c, capacity).order == c.order[..Min(|c.order|, capacity - 1)]
    ensures forall k {:trigger k in Evicted(c, capacity).data} {:trigger k in c.data} ::
              k in Evicted(c, capacity).data <==>
                k in c.data && c.data[k].order in c.order[..Min(|c.order|, capacity - 1)]
    ensures forall k :: k in Evicted(c, capacity).data ==> Evicted(c, capacity).data[k] == c.data[k]
    decreases |c.order|
  {
    ListCoversMap(c);
    if |c.data| < capacity {
      assert c.order[..|c.order|] == c.order;
      forall k ensures k in c.data ==> c.data[k].order in c.order {
        assert Mapped(c, k);
      }
    } else {
      BackContained(c);
      EvictionIsLru(WithoutBack(c), capacity);
      EvictionTurn(c, capacity);
      var n := Min(|c.order|, capacity - 1);
      ListCoversMap(WithoutBack(c));
      assert WithoutBack(c).order[..n] == c.order[..n];
      hide Evicted;
      forall k
        ensures k in WithoutBack(c).data && WithoutBack(c).data[k].order in c.order[..n] <==>
                k in c.data && c.data[k].order in c.order[..n]
        ensures k in WithoutBack(c).data ==> WithoutBack(c).data[k] == c.data[k]
      {
        KeptByBack(c, n, k);
      }
    }
  }

  lemma KeptByBack(c: Cache, n: nat, k: Key)
    requires Agree(c) && n < |c.order|
    ensures k in WithoutBack(c).data ==> WithoutBack(c).data[k] == c.data[k]
    ensures k in c.data && c.data[k].order in c.order[..n] ==> k in WithoutBack(c).data
  {
    assert Mapped(c, k) && Listed(c, c.order[|c.order| - 1]);
  }

  lemma DropContained(c: Cache, key: Key)
    requires Contained(c) && key in c.data
    ensures Contained(Dropped(c, key))
    ensures Agree(c) ==> Agree(Dropped(c, key))
  {
    var c', gone := Dropped(c, key), c.data[key].order;
    RemoveRemoves(c.order, gone);
    assert Mapped(c, key);
    forall k ensures Mapped(c', k) {
      assert Mapped(c, k);
    }
    if Agree(c) {
      forall e ensures Listed(c', e) {
        assert Listed(c, e);
      }
    }
  }

  lemma InsertContained(c: Cache, key: Key, now: Time)
    requires Contained(c)
    ensures Contained(Inserted(c, key, now))
    ensures Agree(c) && key !in c.data ==> Agree(Inserted(c, key, now))
  {
    var c' := Inserted(c, key, now);
    forall k ensures Mapped(c', k) {
      assert Mapped(c, k);
    }
    if Agree(c) && key !in c.data {
      forall e ensures Listed(c', e) {
        assert Listed(c, e);
      }
    }
  }

  lemma FrontContained(c: Cache, key: Key)
    requires Contained(c) && key in c.data
    ensures var c' := c.(order := MoveToFront(c.order, c.data[key].order));
            && c'.order == [c.data[key].order] + Remove(c.order, c.data[key].order)
            && (forall e :: e in c'.order <==> e in c.order)
            && Contained(c') && (Agree(c) ==> Agree(c'))
  {
    var e := c.data[key].order;
    var c' := c.(order := MoveToFront(c.order, e));
    assert Mapped(c, key);
    RemoveRemoves(c.order, e);
    forall k ensures Mapped(c', k) {
      assert Mapped(c, k);
    }
    if Agree(c) {
      forall x ensures Listed(c', x) {
        assert Listed(c, x);
      }
    }
  }

  // ---------- what a section does to one entry ----------

  /** Exactly this key and its element are gone; the others are as they were, in their order. */
  ghost predicate Without(c: Cache, c': Cache, key: Key)
    requires key in c.data
  {
    && c'.next == c.next
    && (forall k :: k in c'.data <==> k in c.data && k != key)
    && (forall k :: k in c'.data ==> c'.data[k] == c.data[k])
    && exists i :: 0 <= i < |c.order| && c.order[i] == c.data[key].order && c'.order == c.order[..i] + c.order[i + 1..]
  }

  /** The element of this key has come to the front; everything else is as it was. */
  ghost predicate ToFront(c: Cache, c': Cache, key: Key)
    requires key in c.data
  {
    && c'.next == c.next && c'.data == c.data
    && exists i :: 0 <= i < |c.order| && c.order[i] == c.data[key].order
                   && c'.order == [c.data[key].order] + (c.order[..i] + c.order[i + 1..])
  }

  lemma {:induction false} RemoveAt(order: seq<Element>, e: Element) returns (i: nat)
    requires e in order
    ensures i < |order| && order[i] == e && Remove(order, e) == order[..i] + order[i + 1..]
  {
    if order[0] == e {
      i := 0;
    } else {
      var j := RemoveAt(order[1..], e);
      i := j + 1;
      assert order[..i] == [order[0]] + order[1..][..j] && order[i + 1..] == order[1..][j + 1..];
    }
  }

  /** Get and GetCached serve a mapped state exactly while it is not older than the expiration, if there is
      one, and move it to the front; an older one is removed and nothing is served. Keys that are not mapped
      are served nothing by GetCached. */
  lemma ServedWhileFresh(c: Cache, opts: Options, key: Key, now: Time)
    requires Contained(c)
    ensures key !in c.data ==> CachedTurn(c, opts, key, now) == (c, None)
    ensures key in c.data && (opts.expiration <= 0 || now - c.data[key].when <= opts.expiration) ==>
              && GetTurn(c, opts, key, now).1 == CachedTurn(c, opts, key, now).1 == Some(c.data[key])
              && ToFront(c, GetTurn(c, opts, key, now).0, key) && ToFront(c, CachedTurn(c, opts, key, now).0, key)
    ensures key in c.data && !(opts.expiration <= 0 || now - c.data[key].when <= opts.expiration) ==>
              && GetTurn(c, opts, key, now).1 == CachedTurn(c, opts, key, now).1 == None
              && Without(c, GetTurn(c, opts, key, now).0, key) && Without(c, CachedTurn(c, opts, key, now).0, key)
  {
    if key in c.data {
      assert Mapped(c, key);
      var i := RemoveAt(c.order, c.data[key].order);
    }
    hide Remove;
  }

  /** Delete removes the key and nothing else; a failed function removes its own state and nothing else; and
      what Add adds is mapped, new, and in front. */
  lemma RemovedAndAdded(c: Cache, opts: Options, key: Key, now: Time, state: State)
    requires Contained(c)
    ensures key !in c.data ==> Deleted(c, key) == c && Forgotten(c, key, state) == c
    ensures key in c.data ==> Without(c, Deleted(c, key), key)
    ensures key in c.data && c.data[key].order.id == state.order.id ==> Without(c, Forgotten(c, key, state), key)
    ensures key in c.data && c.data[key].order.id != state.order.id ==> Forgotten(c, key, state) == c
    ensures var added := AddTurn(c, opts, key, now).0;
            && key in added.data && added.data[key] == State(now, Element(c.next, key))
            && added.order != [] && added.order[0] == Element(c.next, key)
  {
    if key in c.data {
      assert Mapped(c, key);
      var i := RemoveAt(c.order, c.data[key].order);
    }
    hide Remove;
  }

  /** What every lock section of Get, Delete and GetCached keeps. */
  ghost predicate Fits(c: Cache, opts: Options) {
    Agree(c) && |c.data| <= opts.capacity
  }

  lemma SectionsKeepAgreement(c: Cache, opts: Options, key: Key, now: Time, state: State)
    requires Contained(c)
    ensures opts.capacity >= 1 ==> Contained(GetTurn(c, opts, key, now).0)
    ensures Contained(Forgotten(c, key, state)) && Contained(Deleted(c, key)) && Contained(CachedTurn(c, opts, key, now).0)
    ensures opts.capacity >= 1 && Fits(c, opts) ==> Fits(GetTurn(c, opts, key, now).0, opts)
    ensures Fits(c, opts) ==>
              Fits(Forgotten(c, key, state), opts) && Fits(Deleted(c, key), opts) && Fits(CachedTurn(c, opts, key, now).0, opts)
  {
    hide Remove, Contained, Agree;
    if key in c.data {
      DropContained(c, key);
      FrontContained(c, key);
      DataWithout(c.data, key);
    } else if opts.capacity >= 1 {
      var room := Evicted(c, opts.capacity);
      EvictionMakesRoom(c, opts.capacity);
      InsertContained(room, key, now);
      assert Inserted(room, key, now).data.Keys == room.data.Keys + {key};
    }
  }

  /** The least recently used entry makes room, and the key asked for is the most recent one. */
  lemma MissEvictsLeastRecent(c: Cache, opts: Options, key: Key, now: Time)
    requires Fits(c, opts) && opts.capacity >= 1 && key !in c.data
    ensures var (c', _) := GetTurn(c, opts, key, now);
            && c'.order == [Element(c.next, key)] + c.order[..Min(|c.order|, opts.capacity - 1)]
            && c'.data[key] == State(now, Element(c.next, key))
            && forall k :: k != key ==>
                 && (k in c'.data <==> k in c.data && !LeastRecentOfFull(c, opts, k))
                 && (k in c'.data ==> c'.data[k] == c.data[k])
  {
    assert Agree(c) && Contained(c);
    hide Agree, Contained, Evicted, LeastRecentOfFull;
    EvictionIsLru(c, opts.capacity);
    EvictionMakesRoom(c, opts.capacity);
    forall k
      ensures k in Evicted(c, opts.capacity).data <==> k in c.data && !LeastRecentOfFull(c, opts, k)
      ensures k in Evicted(c, opts.capacity).data ==> Evicted(c, opts.capacity).data[k] == c.data[k]
    {
      EvictedUnlessLast(c, opts, k);
    }
    hide Min;
  }

  lemma EvictedUnlessLast(c: Cache, opts: Options, k: Key)
    requires Fits(c, opts) && opts.capacity >= 1
    ensures k in Evicted(c, opts.capacity).data <==> k in c.data && !LeastRecentOfFull(c, opts, k)
    ensures k in Evicted(c, opts.capacity).data ==> Evicted(c, opts.capacity).data[k] == c.data[k]
  {
    assert Agree(c) && Contained(c);
    hide Agree, Contained, Evicted, LeastRecentOfFull;
    ListCoversMap(c);
    EvictionIsLru(c, opts.capacity);
    if k in c.data {
      InFrontOfLast(c, opts, k);
    }
  }

  ghost predicate LeastRecentOfFull(c: Cache, opts: Options, k: Key) {
    |c.data| == opts.capacity && k in c.data && c.order != [] && c.data[k].order == c.order[|c.order| - 1]
  }

  lemma InFrontOfLast(c: Cache, opts: Options, k: Key)
    requires Fits(c, opts) && opts.capacity >= 1 && k in c.data && |c.data| == |c.order|
    ensures c.data[k].order in c.order[..Min(|c.order|, opts.capacity - 1)] <==> !LeastRecentOfFull(c, opts, k)
  {
    var n := Min(|c.order|, opts.capacity - 1);
    assert Mapped(c, k);
    if |c.data| == opts.capacity {
      assert c.order == c.order[..n] + [c.order[n]];
    } else {
      assert c.order[..n] == c.order;
    }
  }

  // ---------- Add ----------

  /** Add keeps the containment, but agreement exactly when it evicts nothing. */
  lemma AddKeepsContainment(c: Cache, opts: Options, key: Key, now: Time)
    requires opts.capacity >= 1 && Contained(c)
    ensures Contained(AddTurn(c, opts, key, now).0)
    ensures AddTurn(c, opts, key, now).1 <==> key in c.data && !Expired(opts, c.data[key], now)
    ensures Agree(c) ==> (Agree(AddTurn(c, opts, key, now).0) <==> key in c.data || |c.data| < opts.capacity)
  {
    ListCoversMap(c);
    if key in c.data {
      DropContained(c, key);
      ReplaceContained(c, key, now);
      InsertContained(Dropped(c, key), key, now);
      hide Remove;
    } else if |c.order| >= opts.capacity {
      var back := c.order[|c.order| - 1];
      var p := c.(data := c.data - {back.key});
      forall k ensures Mapped(p, k) {
        assert Mapped(c, k);
      }
      InsertContained(p, key, now);
      if Agree(c) {
        assert Listed(c, back);
        assert !Listed(Inserted(p, key, now), back);
      }
    } else {
      InsertContained(c, key, now);
    }
  }

  /** Replacing a state inserts after its removal: the map entry is simply overwritten. */
  lemma ReplaceContained(c: Cache, key: Key, now: Time)
    requires key in c.data
    ensures Inserted(c.(order := Remove(c.order, c.data[key].order)), key, now) == Inserted(Dropped(c, key), key, now)
  {
    assert (c.data - {key})[key := State(now, Element(c.next, key))] == c.data[key := State(now, Element(c.next, key))];
  }

  /** With leftovers in the list, Add can outgrow the capacity: exactly when the map is full, the key
      is new and the last element is a leftover. */
  lemma AddKeepsCapacity(c: Cache, opts: Options, key: Key, now: Time)
    requires opts.capacity >= 1 && Contained(c) && |c.data| <= opts.capacity
    ensures |AddTurn(c, opts, key, now).0.data| <= opts.capacity <==>
              |c.data| < opts.capacity || key in c.data || (c.order != [] && c.order[|c.order| - 1].key in c.data)
  {
    ListCoversMap(c);
    hide Remove, Contained;
    if key in c.data {
      AddOfKnownSize(c, opts, key, now);
    } else {
      AddOfNewSize(c, opts, key, now);
    }
  }

  lemma AddOfKnownSize(c: Cache, opts: Options, key: Key, now: Time)
    requires key in c.data
    ensures |AddTurn(c, opts, key, now).0.data| == |c.data|
  {
    hide Remove;
    var p := Peeked(c, opts, key, now);
    DataWithout(c.data, key);
    InsertSize(p, key, now);
    if key in p.data {
      InsertSize(p.(order := Remove(p.order, p.data[key].order)), key, now);
    }
  }

  lemma AddOfNewSize(c: Cache, opts: Options, key: Key, now: Time)
    requires key !in c.data
    ensures |AddTurn(c, opts, key, now).0.data| ==
            if |c.order| >= opts.capacity && c.order != [] && c.order[|c.order| - 1].key in c.data then |c.data|
            else |c.data| + 1
  {
    InsertSize(c, key, now);
    if c.order != [] {
      var back := c.order[|c.order| - 1].key;
      DataWithout(c.data, back);
      InsertSize(c.(data := c.data - {back}), key, now);
    }
  }

  lemma InsertSize(c: Cache, key: Key, now: Time)
    ensures |Inserted(c, key, now).data| == if key in c.data then |c.data| else |c.data| + 1
  {
    assert Inserted(c, key, now).data.Keys == c.data.Keys + {key};
  }

  /** Three Adds suffice: a cache for one entry then holds two. */
  lemma AddOutgrowsCapacity(a: Key, b: Key, c: Key, now: Time)
    requires a != b && b != c && a != c
    ensures var opts := Options(0, 1);
            var third := AddTurn(AddTurn(AddTurn(EMPTY, opts, a, now).0, opts, b, now).0, opts, c, now).0;
            third.data.Keys == {b, c} && |third.data| == 2
  {
    var opts := Options(0, 1);
    var first := AddTurn(EMPTY, opts, a, now).0;
    var second := AddTurn(first, opts, b, now).0;
    var third := AddTurn(second, opts, c, now).0;
    assert first.order == [Element(0, a)];
    assert second.order == [Element(1, b), Element(0, a)];
    assert first.data.Keys == {a} && second.data.Keys == {b};
    assert third.data.Keys == {b, c};
    assert |third.data| == |third.data.Keys|;
  }
}

/** The cache object itself. Each method is one critical section under the mutex. */
module LruCache {
  import opened Prelude
  import opened LruSections

  class ExpiringLRU {
    const opts: Options
    var data: map<Key, State>
    var order: seq<Element>
    var next: nat

    ghost function Value(): Cache
      reads this
    {
      Cache(data, order, next)
    }

    constructor (opts: Options)
      ensures this.opts == opts && Value() == EMPTY
    {
      this.opts, data, order, next := opts, map[], [], 0;
    }

    method PushFront(key: Key) returns (e: Element)
      modifies this`order, this`next
      ensures e == Element(old(next), key) && order == [e] + old(order) && next == old(next) + 1
    {
      e := Element(next, key);
      order, next := [e] + order, next + 1;
    }

    /** The eviction loop: Back is never asked of an empty list. */
    method MakeRoom()
      requires opts.capacity >= 1 && Contained(Value())
      modifies this`data, this`order
      ensures Value() == Evicted(old(Value()), opts.capacity)
    {
      hide Contained, Agree, Remove, Evicted;
      while |data| >= opts.capacity
        invariant Contained(Value())
        invariant Evicted(Value(), opts.capacity) == Evicted(old(Value()), opts.capacity)
        decreases |order|
      {
        EvictionMakesRoom(Value(), opts.capacity);
        BackContained(Value());
        EvictionTurn(Value(), opts.capacity);
        var back := order[|order| - 1];
        data := data - {back.key};
        order := order[..|order| - 1];
      }
      EvictionDone(Value(), opts.capacity);
    }

    /** The section at the top of the loop of Get. Nothing is returned for an expired state, which is
        removed: the loop goes on. */
    method GetSection(key: Key, now: Time) returns (state: Option<State>)
      requires opts.capacity >= 1 && Contained(Value())
      modifies this
      ensures (Value(), state) == GetTurn(old(Value()), opts, key, now)
      ensures Contained(Value()) && (Fits(old(Value()), opts) ==> Fits(Value(), opts))
    {
      SectionsKeepAgreement(Value(), opts, key, now, State(now, Element(0, key)));
      hide Contained, Agree, Remove;
      if key !in data {
        MakeRoom();
        var e := PushFront(key);
        state := Some(State(now, e));
        data := data[key := state.value];
      } else if Expired(opts, data[key], now) {
        order := Remove(order, data[key].order);
        data := data - {key};
        state := None;
      } else {
        order := MoveToFront(order, data[key].order);
        state := Some(data[key]);
      }
    }

    method ForgetSection(key: Key, state: State)
      requires Contained(Value())
      modifies this`data, this`order
      ensures Value() == Forgotten(old(Value()), key, state)
      ensures Contained(Value()) && (Fits(old(Value()), opts) ==> Fits(Value(), opts))
    {
      SectionsKeepAgreement(Value(), opts, key, 0, state);
      if key in data && data[key].order.id == state.order.id {
        order := Remove(order, data[key].order);
        data := data - {key};
      }
    }

    method Delete(key: Key)
      requires Contained(Value())
      modifies this`data, this`order
      ensures Value() == Deleted(old(Value()), key)
      ensures Contained(Value()) && (Fits(old(Value()), opts) ==> Fits(Value(), opts))
    {
      SectionsKeepAgreement(Value(), opts, key, 0, State(0, Element(0, key)));
      if key !in data {
        return;
      }
      order := Remove(order, data[key].order);
      data := data - {key};
    }

    method Peek(key: Key, now: Time) returns (state: Option<State>, evicted: bool)
      modifies this`data, this`order
      ensures Value() == Peeked(old(Value()), opts, key, now)
      ensures state == if key in data then Some(data[key]) else None
      ensures evicted <==> key in old(data) && key !in data
    {
      if key !in data {
        return None, false;
      }
      if Expired(opts, data[key], now) {
        order := Remove(order, data[key].order);
        data := data - {key};
        return None, true;
      }
      return Some(data[key]), false;
    }

    method GetCachedSection(key: Key, now: Time) returns (state: Option<State>)
      requires Contained(Value())
      modifies this`data, this`order
      ensures (Value(), state) == CachedTurn(old(Value()), opts, key, now)
      ensures Contained(Value()) && (Fits(old(Value()), opts) ==> Fits(Value(), opts))
    {
      SectionsKeepAgreement(Value(), opts, key, now, State(now, Element(0, key)));
      hide Contained, Agree, Remove;
      var evicted: bool;
      state, evicted := Peek(key, now);
      if state.Some? {
        order := MoveToFront(order, state.value.order);
      }
    }

    method AddSection(key: Key, now: Time) returns (replaced: bool)
      requires opts.capacity >= 1 && Contained(Value())
      modifies this
      ensures (Value(), replaced) == AddTurn(old(Value()), opts, key, now)
      ensures Contained(Value())
    {
      AddKeepsContainment(Value(), opts, key, now);
      hide Contained, Agree, Remove;
      var state, evicted := Peek(key, now);
      replaced := state.Some?;
      if replaced {
        order := Remove(order, state.value.order);
      } else if !evicted && |order| >= opts.capacity {
        var item := order[|order| - 1];
        data := data - {item.key};
      }
      var e := PushFront(key);
      data := data[key := State(now, e)];
    }
  }
}
