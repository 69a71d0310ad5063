/** The event counter (eventstat/counter.go): increments, and publications that swap the live map for
    a recycled one, interleaved at the mutex. */
module EventCounter {
  import opened Prelude

  type Name = Bytes

  const DISCARDED: Name := [60, 68, 73, 83, 67, 65, 82, 68, 69, 68, 62]

  type Counts = map<Name, nat>

  function CountOf(m: Counts, n: Name): nat {
    if n in m then m[n] else 0
  }

  function Bumped(m: Counts, n: Name): Counts {
    m[n := CountOf(m, n) + 1]
  }

  /** The name that an increment is counted under. */
  function Credited(m: Counts, limit: nat, n: Name): Name {
    if |m| < limit || n in m then n else DISCARDED
  }

  /** A Go map, which is shared by reference. */
  class CountMap {
    var counts: Counts

    constructor ()
      ensures counts == map[]
    {
      counts := map[];
    }
  }

  class Counter {
    const limit: nat
    var counters: CountMap
    var free: CountMap?
    var discarded: bool

    constructor (limit: nat)
      ensures this.limit == limit && fresh(counters) && counters.counts == map[] && free == null && !discarded
    {
      this.limit, free, discarded := limit, null, false;
      counters := new CountMap();
    }

    /** increment, which holds the mutex throughout. */
    method Increment(name: Name)
      modifies this`discarded, counters
      ensures counters.counts == Bumped(old(counters.counts), Credited(old(counters.counts), limit, name))
      ensures discarded <==> old(discarded) || (|old(counters.counts)| >= limit && name !in old(counters.counts))
    {
      var counts := counters.counts;
      if |counts| < limit {
        counters.counts := Bumped(counts, name);
        return;
      }
      if name !in counts {
        counters.counts := Bumped(counts, DISCARDED);
        discarded := true;
        return;
      }
      counters.counts := Bumped(counts, name);
    }

    /** The first section of publishAndReset. */
    method Swap() returns (taken: CountMap, marker: bool)
      modifies this
      ensures taken == old(counters) && marker == old(discarded) && !discarded && free == null
      ensures if old(free) != null then counters == old(free) else fresh(counters) && counters.counts == map[]
    {
      taken, marker := counters, discarded;
      if free == null {
        counters := new CountMap();
      } else {
        counters := free;
        free := null;
      }
      discarded := false;
    }

    /** The last section of publishAndReset. */
    method GiveBack(taken: CountMap)
      modifies this`free
      ensures free == taken
    {
      free := taken;
    }
  }

  /** Between the sections: every entry is published once, then the number of names and the marker for
      discarded events; then the map is emptied. */
  method PublishAndEmpty(taken: CountMap, marker: bool)
    returns (published: seq<(Name, nat)>, buckets: nat, discardedMarker: nat)
    modifies taken
    ensures taken.counts == map[]
    ensures forall i, j :: 0 <= i < j < |published| ==> published[i].0 != published[j].0
    ensures forall e :: e in published <==> e.0 in old(taken.counts) && old(taken.counts)[e.0] == e.1
    ensures buckets == |old(taken.counts)| == |published|
    ensures discardedMarker == if marker then 1 else 0
  {
    discardedMarker := 0;
    if marker {
      discardedMarker := 1;
    }
    var counts := taken.counts;
    var todo := counts.Keys;
    published := [];
    while todo != {}
      invariant todo <= counts.Keys && |published| + |todo| == |counts|
      invariant forall i, j :: 0 <= i < j < |published| ==> published[i].0 != published[j].0
      invariant forall e :: e in published <==> e.0 in counts && e.0 !in todo && counts[e.0] == e.1
      decreases todo
    {
      var name :| name in todo;
      published := published + [(name, counts[name])];
      todo := todo - {name};
    }
    buckets := |counts|;
    taken.counts := map[];
  }

  // ---------- publications ----------

  /** Where a publication is: it holds the map at address `at`, of which `left` is still to be
      published; after that it empties the map. */
  datatype Publication = Resting | Publishing(at: nat, left: Counts, marker: bool) | Emptied(at: nat)

  /** `maps` are the maps by address. `log` is a history: the name credited by each increment. */
  datatype World = World(
    maps: seq<Counts>, live: nat, free: Option<nat>, discarded: bool,
    publications: seq<Publication>, published: Counts, log: seq<Name>)

  datatype Step =
    | Increment(name: Name)
    | Swap(p: nat)
    | Publish(p: nat, name: Name)
    | Empty(p: nat)
    | GiveBack(p: nat)

  function Live(w: World): Counts {
    if w.live < |w.maps| then w.maps[w.live] else map[]
  }

  function Next(w: World, limit: nat, s: Step): World {
    match s
    case Increment(name) =>
      if w.live < |w.maps| then
        var credited := Credited(Live(w), limit, name);
        w.(maps := w.maps[w.live := Bumped(Live(w), credited)], log := w.log + [credited],
           discarded := w.discarded || (|Live(w)| >= limit && name !in Live(w)))
      else w
    case Swap(p) =>
      if p < |w.publications| && w.publications[p].Resting? then
        var taken := w.(publications := w.publications[p := Publishing(w.live, Live(w), w.discarded)], discarded := false);
        if w.free.Some? then taken.(live := w.free.value, free := None)
        else taken.(live := |w.maps|, maps := w.maps + [map[]])
      else w
    case Publish(p, name) =>
      if p < |w.publications| && w.publications[p].Publishing? && name in w.publications[p].left then
        var entry := w.publications[p];
        w.(publications := w.publications[p := entry.(left := entry.left - {name})],
           published := w.published[name := CountOf(w.published, name) + entry.left[name]])
      else w
    case Empty(p) =>
      if p < |w.publications| && w.publications[p].Publishing? && w.publications[p].left == map[] && w.publications[p].at < |w.maps| then
        var at := w.publications[p].at;
        w.(maps := w.maps[at := map[]], publications := w.publications[p := Emptied(at)])
      else w
    case GiveBack(p) =>
      if p < |w.publications| && w.publications[p].Emptied? then
        w.(free := Some(w.publications[p].at), publications := w.publications[p := Resting])
      else w
  }

  function Start(publishers: nat): World {
    World([map[]], 0, None, false, seq(publishers, _ => Resting), map[], [])
  }

  function Run(publishers: nat, limit: nat, steps: seq<Step>): World {
    if steps == [] then Start(publishers)
    else Next(Run(publishers, limit, steps[..|steps| - 1]), limit, steps[|steps| - 1])
  }

  function LeftOf(p: Publication, n: Name): nat {
    if p.Publishing? then CountOf(p.left, n) else 0
  }

  function InFlight(ps: seq<Publication>, n: Name): nat {
    if ps == [] then 0 else InFlight(ps[..|ps| - 1], n) + LeftOf(ps[|ps| - 1], n)
  }

  lemma {:induction false} InFlightUpdate(ps: seq<Publication>, i: nat, p: Publication, n: Name)
    requires i < |ps|
    ensures InFlight(ps[i := p], n) + LeftOf(ps[i], n) == InFlight(ps, n) + LeftOf(p, n)
  {
    var last := |ps| - 1;
    if i == last {
      assert ps[i := p][..last] == ps[..last];
    } else {
      assert ps[i := p][..last] == ps[..last][i := p];
      InFlightUpdate(ps[..last], i, p, n);
    }
  }

  /** Whatever was counted under a name is published, in a map being published, or in the live map. */
  ghost predicate Balanced(w: World, n: Name) {
    CountOf(w.published, n) + InFlight(w.publications, n) + CountOf(Live(w), n) == multiset(w.log)[n]
  }

  ghost predicate Holds(w: World, p: nat, at: nat) {
    p < |w.publications| && !w.publications[p].Resting? && w.publications[p].at == at
  }

  /** The map of a publication is its own, and empty once it is emptied. */
  ghost predicate OwnMap(w: World, p: nat) {
    p < |w.publications| && !w.publications[p].Resting? ==>
      var at := w.publications[p].at;
      && at < |w.maps| && at != w.live && w.free != Some(at)
      && (w.publications[p].Emptied? ==> w.maps[at] == map[])
      && (forall q {:trigger Holds(w, q, at)} :: Holds(w, q, at) ==> q == p)
  }

  ghost predicate Sound(w: World, limit: nat) {
    && w.live < |w.maps|
    && (w.free.Some? ==> w.free.value < |w.maps| && w.free.value != w.live && w.maps[w.free.value] == map[])
    && (forall p {:trigger OwnMap(w, p)} :: OwnMap(w, p))
    && (|Live(w)| <= limit || (|Live(w)| == limit + 1 && DISCARDED in Live(w)))
    && (w.discarded ==> DISCARDED in Live(w))
  }

  lemma BumpedSize(m: Counts, n: Name)
    ensures |Bumped(m, n)| == if n in m then |m| else |m| + 1
  {
    assert Bumped(m, n).Keys == m.Keys + {n};
  }

  /** Two publications never hold the same map. */
  lemma HoldersDiffer(w: World, limit: nat, p: nat, q: nat, at: nat)
    requires Sound(w, limit) && Holds(w, p, at) && Holds(w, q, at)
    ensures p == q && at < |w.maps| && at != w.live && w.free != Some(at)
  {
    assert OwnMap(w, p);
  }

  lemma StepKeepsMapsApart(w: World, limit: nat, s: Step, p: nat)
    requires Sound(w, limit)
    ensures OwnMap(Next(w, limit, s), p)
  {
    hide CountOf, Bumped, Credited;
    var w' := Next(w, limit, s);
    assert OwnMap(w, p);
    if p < |w'.publications| && !w'.publications[p].Resting? {
      var at := w'.publications[p].at;
      assert s == Swap(p) || Holds(w, p, at);
      forall q | Holds(w', q, at) ensures q == p {
        assert s == Swap(q) || Holds(w, q, at);
        if Holds(w, q, at) {
          HoldersDiffer(w, limit, q, q, at);
          if Holds(w, p, at) {
            HoldersDiffer(w, limit, p, q, at);
          }
        }
      }
      if Holds(w, p, at) && s.GiveBack? && Holds(w, s.p, at) {
        HoldersDiffer(w, limit, p, s.p, at);
      }
      if Holds(w, p, at) && s.Empty? && Holds(w, s.p, at) {
        HoldersDiffer(w, limit, p, s.p, at);
      }
    }
  }

  lemma StepKeepsSound(w: World, limit: nat, s: Step)
    requires Sound(w, limit)
    ensures Sound(Next(w, limit, s), limit)
  {
    hide CountOf;
    forall p ensures OwnMap(Next(w, limit, s), p) {
      StepKeepsMapsApart(w, limit, s, p);
    }
    if s.Increment? {
      BumpedSize(Live(w), Credited(Live(w), limit, s.name));
    }
    if s.GiveBack? || s.Empty? {
      assert OwnMap(w, s.p);
    }
  }

  lemma StepKeepsBalance(w: World, limit: nat, s: Step, n: Name)
    requires Sound(w, limit) && Balanced(w, n)
    ensures Balanced(Next(w, limit, s), n)
  {
    hide InFlight, Bumped, Credited, CountOf, Balanced;
    match s
    case Increment(name) => IncrementKeepsBalance(w, limit, name, n);
    case _ => PublicationKeepsBalance(w, limit, s, n);
  }

  lemma IncrementKeepsBalance(w: World, limit: nat, name: Name, n: Name)
    requires Sound(w, limit) && Balanced(w, n)
    ensures Balanced(Next(w, limit, Increment(name)), n)
  {
    hide InFlight, Bumped, Credited, CountOf, OwnMap;
    BumpedCounts(Live(w), Credited(Live(w), limit, name), n);
  }

  /** One publication moves: what it holds less is published, and what it holds more was live. */
  lemma PublicationKeepsBalance(w: World, limit: nat, s: Step, n: Name)
    requires Sound(w, limit) && Balanced(w, n) && !s.Increment?
    ensures Balanced(Next(w, limit, s), n)
  {
    hide InFlight, CountOf, Sound, Next;
    if s.p < |w.publications| {
      var w' := Next(w, limit, s);
      OnePublicationMoves(w, limit, s);
      var now := w'.publications[s.p];
      MovesCounts(w, limit, s, n);
      InFlightUpdate(w.publications, s.p, now, n);
    } else {
      assert Next(w, limit, s) == w by { NoSuchPublication(w, limit, s); }
    }
  }

  lemma NoSuchPublication(w: World, limit: nat, s: Step)
    requires !s.Increment? && s.p >= |w.publications|
    ensures Next(w, limit, s) == w
  {
  }

  lemma OnePublicationMoves(w: World, limit: nat, s: Step)
    requires !s.Increment? && s.p < |w.publications|
    ensures var w' := Next(w, limit, s);
            && w'.log == w.log && |w'.publications| == |w.publications|
            && w'.publications == w.publications[s.p := w'.publications[s.p]]
  {
  }

  lemma MovesCounts(w: World, limit: nat, s: Step, n: Name)
    requires Sound(w, limit) && !s.Increment? && s.p < |w.publications| == |Next(w, limit, s).publications|
    ensures var w' := Next(w, limit, s);
            && LeftOf(w.publications[s.p], n) + CountOf(Live(w), n) + CountOf(w.published, n)
               == LeftOf(w'.publications[s.p], n) + CountOf(Live(w'), n) + CountOf(w'.published, n)
  {
    assert OwnMap(w, s.p);
    if s.Publish? || s.Empty? {
      hide OwnMap;
    }
  }

  lemma BumpedCounts(m: Counts, name: Name, n: Name)
    ensures CountOf(Bumped(m, name), n) == CountOf(m, n) + if n == name then 1 else 0
  {
  }

  lemma {:induction false} NothingInFlight(publishers: nat, n: Name)
    ensures InFlight(seq(publishers, _ => Resting), n) == 0
  {
    if publishers > 0 {
      assert seq(publishers, _ => Resting)[..publishers - 1] == seq(publishers - 1, _ => Resting);
      NothingInFlight(publishers - 1, n);
    }
  }

  /** Conservation over every interleaving of increments and publications: no count is lost or
      published twice. The maps in use are pairwise different, the free map is empty, and the live
      map never has more than limit + 1 names. */
  lemma {:induction false} CountsAreConserved(publishers: nat, limit: nat, steps: seq<Step>, n: Name)
    ensures Balanced(Run(publishers, limit, steps), n)
    ensures Sound(Run(publishers, limit, steps), limit)
    decreases |steps|
  {
    if steps == [] {
      NothingInFlight(publishers, n);
      assert forall p :: OwnMap(Start(publishers), p);
    } else {
      var before, s := steps[..|steps| - 1], steps[|steps| - 1];
      CountsAreConserved(publishers, limit, before, n);
      StepKeepsSound(Run(publishers, limit, before), limit, s);
      StepKeepsBalance(Run(publishers, limit, before), limit, s, n);
    }
  }

  /** When nothing is being published and the live map is empty, everything counted is published. */
  lemma QuietMeansPublished(publishers: nat, limit: nat, steps: seq<Step>, n: Name)
    requires var w := Run(publishers, limit, steps);
             Live(w) == map[] && forall p :: 0 <= p < |w.publications| ==> !w.publications[p].Publishing?
    ensures var w := Run(publishers, limit, steps); CountOf(w.published, n) == multiset(w.log)[n]
  {
    CountsAreConserved(publishers, limit, steps, n);
    NoneInFlight(Run(publishers, limit, steps).publications, n);
  }

  lemma {:induction false} NoneInFlight(ps: seq<Publication>, n: Name)
    requires forall p :: 0 <= p < |ps| ==> !ps[p].Publishing?
    ensures InFlight(ps, n) == 0
  {
    if ps != [] {
      NoneInFlight(ps[..|ps| - 1], n);
    }
  }

  /** Every increment is credited once: under its own name, or as discarded. */
  lemma {:induction false} EveryIncrementIsLogged(publishers: nat, limit: nat, steps: seq<Step>)
    ensures |Run(publishers, limit, steps).log| == Increments(steps)
    decreases |steps|
  {
    if steps != [] {
      var before := steps[..|steps| - 1];
      EveryIncrementIsLogged(publishers, limit, before);
      CountsAreConserved(publishers, limit, before, []);
    }
  }

  function Increments(steps: seq<Step>): nat {
    if steps == [] then 0
    else Increments(steps[..|steps| - 1]) + if steps[|steps| - 1].Increment? then 1 else 0
  }

  // ---------- under the limit ----------

  function Incremented(steps: seq<Step>): seq<Name> {
    if steps == [] then []
    else Incremented(steps[..|steps| - 1]) + if steps[|steps| - 1].Increment? then [steps[|steps| - 1].name] else []
  }

  /** While the increments use no more names than the limit, each is counted under its own name, in their
      order, and nothing is discarded. */
  lemma {:induction false} NothingIsDiscarded(publishers: nat, limit: nat, steps: seq<Step>, names: set<Name>)
    requires forall i :: 0 <= i < |steps| && steps[i].Increment? ==> steps[i].name in names
    requires |names| <= limit
    ensures var w := Run(publishers, limit, steps);
            w.log == Incremented(steps) && !w.discarded && forall i :: 0 <= i < |w.maps| ==> w.maps[i].Keys <= names
    decreases |steps|
  {
    if steps != [] {
      var before, s := steps[..|steps| - 1], steps[|steps| - 1];
      NothingIsDiscarded(publishers, limit, before, names);
      CountsAreConserved(publishers, limit, before, []);
      StepDiscardsNothing(Run(publishers, limit, before), limit, s, names);
    }
  }

  lemma StepDiscardsNothing(w: World, limit: nat, s: Step, names: set<Name>)
    requires w.live < |w.maps| && !w.discarded && |names| <= limit && (s.Increment? ==> s.name in names)
    requires forall i :: 0 <= i < |w.maps| ==> w.maps[i].Keys <= names
    ensures var w' := Next(w, limit, s);
            && w'.log == w.log + (if s.Increment? then [s.name] else []) && !w'.discarded
            && forall i :: 0 <= i < |w'.maps| ==> w'.maps[i].Keys <= names
  {
    hide CountOf, Bumped;
    if s.Increment? {
      RoomFor(Live(w), s.name, names);
    }
  }

  lemma RoomFor(m: Counts, name: Name, names: set<Name>)
    requires m.Keys <= names && name in names
    ensures name !in m ==> |m| < |names|
    ensures Bumped(m, name).Keys <= names
  {
    if name !in m {
      assert m.Keys <= names - {name};
      SubsetSize(m.Keys, names - {name});
    }
  }

  lemma {:induction false} SubsetSize(a: set<Name>, b: set<Name>)
    requires a <= b
    ensures |a| <= |b|
  {
    if a != {} {
      var x :| x in a;
      SubsetSize(a - {x}, b - {x});
    }
  }
}
