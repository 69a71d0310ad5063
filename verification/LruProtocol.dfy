/** The expiring LRU under concurrency (lrucache/cache.go): any number of threads in Get, interleaved
    at the mutex and at sync.Once, with Delete, GetCached and Add between them. */
module LruProtocol {
  import opened Prelude
  import opened LruSections

  type Value = Bytes
  type Error = Bytes
  type Thread = nat

  datatype Once = Unfired | Running(thread: Thread) | Done

  /** How the function of a state has ended so far. A function may succeed with nil. */
  datatype Outcome = Pending | Produced(value: Option<Value>) | Failed(error: Error)

  /** The fields of a cacheState that change, and the history of its function. `given` is the value
      that Add put in. */
  datatype Cell = Cell(key: Key, once: Once, value: Option<Value>, given: Option<Value>, runs: nat, outcome: Outcome)

  datatype Position =
    | Idle
    | AtLock(key: Key)
    | AtOnce(key: Key, id: nat)
    | InFunction(key: Key, id: nat)
    | Failing(key: Key, id: nat, error: Error)
    | PastOnce(key: Key, id: nat, called: bool, err: Option<Error>)
    | Returned(key: Key, id: nat, called: bool, value: Option<Value>, err: Option<Error>)

  /** `cells` are the states by address, whether still mapped or not. */
  datatype World = World(cache: Cache, cells: seq<Cell>, threads: map<Thread, Position>)

  datatype Step =
    | Call(t: Thread, key: Key)
    | Section(t: Thread, now: Time)
    | EnterOnce(t: Thread)
    | FunctionReturns(t: Thread, result: Result<Option<Value>, Error>)
    | Forget(t: Thread)
    | Leave(t: Thread)
    | Finish(t: Thread)
    | CallDelete(key: Key)
    | CallGetCached(key: Key, now: Time)
    | CallAdd(key: Key, value: Value, now: Time)

  function At(w: World, t: Thread): Position {
    if t in w.threads then w.threads[t] else Idle
  }

  function Move(w: World, t: Thread, p: Position): World {
    w.(threads := w.threads[t := p])
  }

  function Fresh(key: Key, given: Option<Value>): Cell {
    Cell(key, Unfired, given, given, 0, Pending)
  }

  /** A new state is there exactly when the section has taken an address. */
  function Sectioned(w: World, c: Cache, key: Key, given: Option<Value>): World {
    w.(cache := c, cells := if c.next > w.cache.next then w.cells + [Fresh(key, given)] else w.cells)
  }

  predicate HasState(p: Position) {
    !p.Idle? && !p.AtLock?
  }

  /** One atomic step; a step that cannot be taken now changes nothing. */
  function Next(w: World, opts: Options, s: Step): World {
    match s
    case Call(t, key) =>
      if At(w, t).Idle? then Move(w, t, AtLock(key)) else w
    case Section(t, now) =>
      if At(w, t).AtLock? then
        var key := At(w, t).key;
        var (c, state) := GetTurn(w.cache, opts, key, now);
        Move(Sectioned(w, c, key, None), t, if state.Some? then AtOnce(key, state.value.order.id) else AtLock(key))
      else w
    case EnterOnce(t) =>
      if At(w, t).AtOnce? && At(w, t).id < |w.cells| then
        var key, id := At(w, t).key, At(w, t).id;
        var cell := w.cells[id];
        match cell.once {
          case Unfired =>
            Move(w.(cells := w.cells[id := cell.(once := Running(t), runs := cell.runs + 1)]), t, InFunction(key, id))
          case Running(_) => w
          case Done => Move(w, t, PastOnce(key, id, false, None))
        }
      else w
    case FunctionReturns(t, result) =>
      if At(w, t).InFunction? && At(w, t).id < |w.cells| then
        var key, id := At(w, t).key, At(w, t).id;
        var cell := w.cells[id];
        match result {
          case Ok(v) =>
            Move(w.(cells := w.cells[id := cell.(once := Done, value := v, outcome := Produced(v))]), t, PastOnce(key, id, true, None))
          case Err(e) =>
            Move(w.(cells := w.cells[id := cell.(outcome := Failed(e))]), t, Failing(key, id, e))
        }
      else w
    case Forget(t) =>
      if At(w, t).Failing? && At(w, t).id < |w.cells| then
        var key, id, e := At(w, t).key, At(w, t).id, At(w, t).error;
        var c := Forgotten(w.cache, key, State(0, Element(id, key)));
        Move(World(c, w.cells[id := w.cells[id].(once := Done)], w.threads), t, PastOnce(key, id, true, Some(e)))
      else w
    case Leave(t) =>
      if At(w, t).PastOnce? && At(w, t).id < |w.cells| then
        var p := At(w, t);
        var value := w.cells[p.id].value;
        Move(w, t, if p.called || value.Some? then Returned(p.key, p.id, p.called, value, p.err) else AtLock(p.key))
      else w
    case Finish(t) =>
      if At(w, t).Returned? then Move(w, t, Idle) else w
    case CallDelete(key) => w.(cache := Deleted(w.cache, key))
    case CallGetCached(key, now) => w.(cache := CachedTurn(w.cache, opts, key, now).0)
    case CallAdd(key, value, now) => Sectioned(w, AddTurn(w.cache, opts, key, now).0, key, Some(value))
  }

  const START := World(EMPTY, [], map[])

  function Run(opts: Options, steps: seq<Step>): World {
    if steps == [] then START else Next(Run(opts, steps[..|steps| - 1]), opts, steps[|steps| - 1])
  }

  // ---------- the invariant ----------

  /** The thread that has started the function of state i and is not done with it. */
  ghost predicate Runs(w: World, t: Thread, i: nat) {
    (At(w, t).InFunction? || At(w, t).Failing?) && At(w, t).id == i
  }

  ghost predicate CellOk(w: World, i: nat) {
    i < |w.cells| ==>
      var cell := w.cells[i];
      && cell.runs == (if cell.once.Unfired? then 0 else 1)
      && cell.value == (if cell.outcome.Produced? then cell.outcome.value else cell.given)
      && (cell.once.Unfired? ==> cell.outcome == Pending)
      && (cell.once.Done? ==> cell.outcome != Pending)
      && (cell.once.Running? ==> Runs(w, cell.once.thread, i))
  }

  /** What the caller of the function knows: it ended with `err`. */
  ghost predicate EndedWith(cell: Cell, err: Option<Error>) {
    match err
    case None => cell.outcome.Produced?
    case Some(e) => cell.outcome == Failed(e)
  }

  ghost predicate ThreadOk(w: World, t: Thread) {
    var p := At(w, t);
    HasState(p) ==>
      && p.id < |w.cells| && w.cells[p.id].key == p.key
      && var cell := w.cells[p.id];
         match p
         case InFunction(_, _) => cell.once == Running(t) && cell.outcome == Pending
         case Failing(_, _, e) => cell.once == Running(t) && cell.outcome == Failed(e)
         case PastOnce(_, _, called, err) => cell.once == Done && (if called then EndedWith(cell, err) else err == None)
         case Returned(_, _, called, value, err) =>
           && cell.once == Done && value == cell.value
           && (if called then EndedWith(cell, err) else err == None && value.Some?)
         case _ => true
  }

  /** A mapped state belongs to its key, and a failed one does not stay. */
  ghost predicate KeyOk(w: World, k: Key) {
    k in w.cache.data ==>
      && w.cache.data[k].order.id < |w.cells|
      && w.cells[w.cache.data[k].order.id].key == k
      && !(w.cells[w.cache.data[k].order.id].once.Done? && w.cells[w.cache.data[k].order.id].outcome.Failed?)
  }

  ghost predicate Protocol(w: World) {
    && Contained(w.cache) && |w.cells| == w.cache.next
    && (forall i {:trigger CellOk(w, i)} :: CellOk(w, i))
    && (forall t {:trigger ThreadOk(w, t)} :: ThreadOk(w, t))
    && (forall k {:trigger KeyOk(w, k)} :: KeyOk(w, k))
  }

  // ---------- what the sections do to the map ----------

  ghost predicate Kept(c: Cache, c': Cache, k: Key) {
    k in c'.data ==> k in c.data && c'.data[k] == c.data[k]
  }

  /** No state appears that was not mapped before. */
  ghost predicate OnlyRemoves(c: Cache, c': Cache) {
    c'.next == c.next && forall k {:trigger Kept(c, c', k)} :: Kept(c, c', k)
  }

  ghost predicate KeptOrNew(c: Cache, c': Cache, key: Key, k: Key) {
    k in c'.data ==> (k == key && c'.data[k].order.id == c.next) || (k in c.data && c'.data[k] == c.data[k])
  }

  /** The new state of `key` takes the next address. */
  ghost predicate OnlyInserts(c: Cache, c': Cache, key: Key) {
    c'.next == c.next + 1 && forall k {:trigger KeptOrNew(c, c', key, k)} :: KeptOrNew(c, c', key, k)
  }

  lemma {:induction false} EvictedOnlyRemoves(c: Cache, capacity: int)
    ensures OnlyRemoves(c, Evicted(c, capacity))
    decreases |c.order|
  {
    if |c.data| >= capacity && c.order != [] {
      EvictedOnlyRemoves(WithoutBack(c), capacity);
      forall k ensures Kept(c, Evicted(c, capacity), k) {
        assert Kept(WithoutBack(c), Evicted(c, capacity), k);
      }
    }
  }

  lemma SectionsOnData(c: Cache, opts: Options, key: Key, now: Time, state: State)
    ensures OnlyRemoves(c, Forgotten(c, key, state)) && OnlyRemoves(c, Deleted(c, key))
    ensures OnlyRemoves(c, CachedTurn(c, opts, key, now).0)
    ensures OnlyInserts(c, AddTurn(c, opts, key, now).0, key)
    ensures var (c', s) := GetTurn(c, opts, key, now);
            && (key in c.data ==> OnlyRemoves(c, c') && (s.Some? ==> s.value == c.data[key]))
            && (key !in c.data ==> OnlyInserts(c, c', key) && s.Some? && s.value.order.id == c.next)
  {
    hide Remove, MoveToFront, Evicted;
    if key !in c.data {
      var room := Evicted(c, opts.capacity);
      EvictedOnlyRemoves(c, opts.capacity);
      forall k ensures KeptOrNew(c, Inserted(room, key, now), key, k) {
        assert Kept(c, room, k);
      }
    }
  }

  lemma SectionsKeepContainment(c: Cache, opts: Options, key: Key, now: Time, state: State)
    requires opts.capacity >= 1 && Contained(c)
    ensures Contained(GetTurn(c, opts, key, now).0) && Contained(Forgotten(c, key, state))
    ensures Contained(Deleted(c, key)) && Contained(CachedTurn(c, opts, key, now).0)
    ensures Contained(AddTurn(c, opts, key, now).0)
  {
    SectionsKeepAgreement(c, opts, key, now, state);
    AddKeepsContainment(c, opts, key, now);
  }

  // ---------- the steps ----------

  /** A new map over the same cells, with states removed only. */
  lemma RemovingKeepsProtocol(w: World, c: Cache)
    requires Protocol(w) && Contained(c) && OnlyRemoves(w.cache, c)
    ensures Protocol(w.(cache := c))
  {
    hide Contained;
    var w' := w.(cache := c);
    forall i ensures CellOk(w', i) { assert CellOk(w, i); }
    forall t ensures ThreadOk(w', t) { assert ThreadOk(w, t); }
    forall k ensures KeyOk(w', k) { assert KeyOk(w, k) && Kept(w.cache, c, k); }
  }

  lemma InsertingKeepsProtocol(w: World, c: Cache, key: Key, given: Option<Value>)
    requires Protocol(w) && Contained(c) && OnlyInserts(w.cache, c, key)
    ensures Protocol(Sectioned(w, c, key, given))
  {
    hide Contained;
    var w' := Sectioned(w, c, key, given);
    forall i ensures CellOk(w', i) { assert CellOk(w, i); }
    forall t ensures ThreadOk(w', t) { assert ThreadOk(w, t); }
    forall k ensures KeyOk(w', k) { assert KeyOk(w, k) && KeptOrNew(w.cache, c, key, k); }
  }

  /** A thread that runs no function moves to where it may be. */
  lemma MovingKeepsProtocol(w: World, t: Thread, p: Position)
    requires Protocol(w) && !At(w, t).InFunction? && !At(w, t).Failing? && ThreadOk(Move(w, t, p), t)
    ensures Protocol(Move(w, t, p))
  {
    hide Contained;
    var w' := Move(w, t, p);
    forall i ensures CellOk(w', i) { assert CellOk(w, i); }
    forall u ensures ThreadOk(w', u) { assert ThreadOk(w, u); }
    forall k ensures KeyOk(w', k) { assert KeyOk(w, k); }
  }

  /** A state that is not finished moves on with the one thread that concerns. */
  lemma AdvancingKeepsProtocol(w: World, t: Thread, p: Position, cell: Cell)
    requires Protocol(w) && HasState(At(w, t)) && HasState(p) && p.id == At(w, t).id < |w.cells|
    requires var before := w.cells[p.id];
             (before.once.Unfired? && At(w, t).AtOnce?) || (before.once == Running(t) && Runs(w, t, p.id))
    requires cell.key == w.cells[p.id].key && !cell.once.Unfired?
    requires var w' := Move(w.(cells := w.cells[p.id := cell]), t, p);
             CellOk(w', p.id) && ThreadOk(w', t)
    requires cell.once.Done? && cell.outcome.Failed? ==>
               forall k {:trigger KeyOk(w, k)} :: k in w.cache.data ==> w.cache.data[k].order.id != p.id
    ensures Protocol(Move(w.(cells := w.cells[p.id := cell]), t, p))
  {
    hide Contained;
    var w' := Move(w.(cells := w.cells[p.id := cell]), t, p);
    forall i ensures CellOk(w', i) { assert CellOk(w, i); }
    forall u ensures ThreadOk(w', u) { assert ThreadOk(w, u) && ThreadOk(w', t); }
    forall k ensures KeyOk(w', k) { assert KeyOk(w, k); }
  }

  lemma SectionStep(w: World, opts: Options, t: Thread, now: Time)
    requires Protocol(w) && opts.capacity >= 1
    ensures Protocol(Next(w, opts, Section(t, now)))
  {
    if At(w, t).AtLock? {
      hide Contained;
      var key := At(w, t).key;
      var (c, state) := GetTurn(w.cache, opts, key, now);
      SectionsKeepContainment(w.cache, opts, key, now, State(0, Element(0, key)));
      SectionsOnData(w.cache, opts, key, now, State(0, Element(0, key)));
      hide GetTurn;
      if key in w.cache.data {
        RemovingKeepsProtocol(w, c);
        assert KeyOk(w, key);
      } else {
        InsertingKeepsProtocol(w, c, key, None);
      }
      var p := if state.Some? then AtOnce(key, state.value.order.id) else AtLock(key);
      MovingKeepsProtocol(Sectioned(w, c, key, None), t, p);
    }
  }

  lemma EnterStep(w: World, opts: Options, t: Thread)
    requires Protocol(w)
    ensures Protocol(Next(w, opts, EnterOnce(t)))
  {
    assert ThreadOk(w, t);
    if At(w, t).AtOnce? {
      hide Contained;
      var key, id := At(w, t).key, At(w, t).id;
      var cell := w.cells[id];
      assert CellOk(w, id);
      match cell.once
      case Unfired => AdvancingKeepsProtocol(w, t, InFunction(key, id), cell.(once := Running(t), runs := cell.runs + 1));
      case Running(_) =>
      case Done => MovingKeepsProtocol(w, t, PastOnce(key, id, false, None));
    }
  }

  lemma ReturnStep(w: World, opts: Options, t: Thread, result: Result<Option<Value>, Error>)
    requires Protocol(w)
    ensures Protocol(Next(w, opts, FunctionReturns(t, result)))
  {
    assert ThreadOk(w, t);
    if At(w, t).InFunction? {
      hide Contained;
      var key, id := At(w, t).key, At(w, t).id;
      var cell := w.cells[id];
      assert CellOk(w, id);
      match result
      case Ok(v) => AdvancingKeepsProtocol(w, t, PastOnce(key, id, true, None), cell.(once := Done, value := v, outcome := Produced(v)));
      case Err(e) => AdvancingKeepsProtocol(w, t, Failing(key, id, e), cell.(outcome := Failed(e)));
    }
  }

  lemma ForgetStep(w: World, opts: Options, t: Thread)
    requires Protocol(w) && opts.capacity >= 1
    ensures Protocol(Next(w, opts, Forget(t)))
  {
    assert ThreadOk(w, t);
    if At(w, t).Failing? {
      hide Contained;
      var key, id, e := At(w, t).key, At(w, t).id, At(w, t).error;
      var state := State(0, Element(id, key));
      var c := Forgotten(w.cache, key, state);
      SectionsKeepContainment(w.cache, opts, key, 0, state);
      SectionsOnData(w.cache, opts, key, 0, state);
      RemovingKeepsProtocol(w, c);
      var w1 := w.(cache := c);
      forall k | k in c.data ensures c.data[k].order.id != id {
        assert KeyOk(w1, k) && Kept(w.cache, c, k);
      }
      assert ThreadOk(w1, t) && CellOk(w1, id);
      hide Forgotten;
      AdvancingKeepsProtocol(w1, t, PastOnce(key, id, true, Some(e)), w.cells[id].(once := Done));
    }
  }

  lemma LeaveStep(w: World, opts: Options, t: Thread)
    requires Protocol(w)
    ensures Protocol(Next(w, opts, Leave(t)))
  {
    assert ThreadOk(w, t);
    if At(w, t).PastOnce? {
      hide Contained;
      var p := At(w, t);
      var value := w.cells[p.id].value;
      MovingKeepsProtocol(w, t, if p.called || value.Some? then Returned(p.key, p.id, p.called, value, p.err) else AtLock(p.key));
    }
  }

  lemma CallStep(w: World, opts: Options, s: Step)
    requires Protocol(w) && opts.capacity >= 1
    requires s.Call? || s.Finish? || s.CallDelete? || s.CallGetCached? || s.CallAdd?
    ensures Protocol(Next(w, opts, s))
  {
    hide Contained;
    match s
    case Call(t, key) =>
      if At(w, t).Idle? {
        MovingKeepsProtocol(w, t, AtLock(key));
      }
    case Finish(t) =>
      if At(w, t).Returned? {
        MovingKeepsProtocol(w, t, Idle);
      }
    case CallDelete(key) =>
      SectionsKeepContainment(w.cache, opts, key, 0, State(0, Element(0, key)));
      SectionsOnData(w.cache, opts, key, 0, State(0, Element(0, key)));
      RemovingKeepsProtocol(w, Deleted(w.cache, key));
    case CallGetCached(key, now) =>
      SectionsKeepContainment(w.cache, opts, key, now, State(0, Element(0, key)));
      SectionsOnData(w.cache, opts, key, now, State(0, Element(0, key)));
      RemovingKeepsProtocol(w, CachedTurn(w.cache, opts, key, now).0);
    case CallAdd(key, value, now) =>
      SectionsKeepContainment(w.cache, opts, key, now, State(0, Element(0, key)));
      SectionsOnData(w.cache, opts, key, now, State(0, Element(0, key)));
      InsertingKeepsProtocol(w, AddTurn(w.cache, opts, key, now).0, key, Some(value));
  }

  lemma StepKeepsProtocol(w: World, opts: Options, s: Step)
    requires Protocol(w) && opts.capacity >= 1
    ensures Protocol(Next(w, opts, s))
  {
    hide Protocol, Next;
    match s
    case Section(t, now) => SectionStep(w, opts, t, now);
    case EnterOnce(t) => EnterStep(w, opts, t);
    case FunctionReturns(t, result) => ReturnStep(w, opts, t, result);
    case Forget(t) => ForgetStep(w, opts, t);
    case Leave(t) => LeaveStep(w, opts, t);
    case _ => CallStep(w, opts, s);
  }

  /** Every run, with Add or without, keeps the protocol. */
  lemma {:induction false} RunKeepsProtocol(opts: Options, steps: seq<Step>)
    requires opts.capacity >= 1
    ensures Protocol(Run(opts, steps))
    decreases |steps|
  {
    if steps != [] {
      RunKeepsProtocol(opts, steps[..|steps| - 1]);
      StepKeepsProtocol(Run(opts, steps[..|steps| - 1]), opts, steps[|steps| - 1]);
    }
  }

  // ---------- what the runs guarantee ----------

  /** Each state runs its function at most once. A Get that ran no function returns, without an
      error, a value that is there: what the function of that very state produced for that key, or,
      while that function has produced nothing, what Add gave that state under that key. */
  lemma GetReturnsWhatWasProduced(opts: Options, steps: seq<Step>, t: Thread, i: nat)
    requires opts.capacity >= 1
    ensures var w := Run(opts, steps);
            && (i < |w.cells| ==> w.cells[i].runs <= 1)
            && (At(w, t).Returned? && !At(w, t).called ==>
                  var p := At(w, t);
                  && p.err == None && p.value.Some?
                  && p.id < |w.cells| && w.cells[p.id].key == p.key
                  && (w.cells[p.id].outcome == Produced(p.value)
                      || (w.cells[p.id].outcome.Failed? && w.cells[p.id].given == p.value)))
  {
    RunKeepsProtocol(opts, steps);
    var w := Run(opts, steps);
    assert CellOk(w, i) && ThreadOk(w, t);
    if At(w, t).Returned? {
      assert CellOk(w, At(w, t).id);
    }
  }

  /** A Get that ran its function returns what the function returned, and its value is then nil if it
      failed, except for a state that Add had filled. */
  lemma CallerReturnsItsResult(opts: Options, steps: seq<Step>, t: Thread)
    requires opts.capacity >= 1
    ensures var w := Run(opts, steps);
            At(w, t).Returned? && At(w, t).called ==>
              var p := At(w, t);
              && p.id < |w.cells| && w.cells[p.id].key == p.key
              && (p.err == None ==> w.cells[p.id].outcome == Produced(p.value))
              && (p.err.Some? ==> w.cells[p.id].outcome == Failed(p.err.value) && p.value == w.cells[p.id].given)
  {
    RunKeepsProtocol(opts, steps);
    var w := Run(opts, steps);
    assert ThreadOk(w, t);
    if At(w, t).Returned? {
      assert CellOk(w, At(w, t).id);
    }
  }

  /** Failed results never stay in the map. */
  lemma FailuresAreNotCached(opts: Options, steps: seq<Step>, k: Key)
    requires opts.capacity >= 1
    ensures var w := Run(opts, steps);
            k in w.cache.data ==>
              var id := w.cache.data[k].order.id;
              id < |w.cells| && w.cells[id].key == k && (w.cells[id].once.Done? ==> w.cells[id].outcome.Produced?)
  {
    RunKeepsProtocol(opts, steps);
    var w := Run(opts, steps);
    assert KeyOk(w, k);
    if k in w.cache.data {
      assert CellOk(w, w.cache.data[k].order.id);
    }
  }

  /** A thread that waits at a state waits for one that is in its function or about to forget it,
      which can always go on. */
  lemma WaitingHasAReason(opts: Options, steps: seq<Step>, t: Thread)
    requires opts.capacity >= 1
    ensures var w := Run(opts, steps);
            At(w, t).AtOnce? && Next(w, opts, EnterOnce(t)) == w ==>
              exists u :: u != t && Runs(w, u, At(w, t).id)
  {
    RunKeepsProtocol(opts, steps);
    var w := Run(opts, steps);
    assert ThreadOk(w, t);
    if At(w, t).AtOnce? {
      var id := At(w, t).id;
      assert CellOk(w, id);
      if w.cells[id].once.Running? {
        assert Runs(w, w.cells[id].once.thread, id);
      } else {
        assert At(Next(w, opts, EnterOnce(t)), t) != At(w, t);
      }
    }
  }

  ghost predicate WithoutAdd(steps: seq<Step>) {
    forall i :: 0 <= i < |steps| ==> !steps[i].CallAdd?
  }

  ghost predicate NothingGiven(w: World) {
    forall i :: 0 <= i < |w.cells| ==> w.cells[i].given == None
  }

  /** Without Add the map and the list agree one to one at every unlocked point, within the capacity,
      and every value in a state was produced by its function. */
  lemma {:induction false} AgreementWithoutAdd(opts: Options, steps: seq<Step>)
    requires opts.capacity >= 1 && WithoutAdd(steps)
    ensures Fits(Run(opts, steps).cache, opts)
    ensures |Run(opts, steps).cache.order| == |Run(opts, steps).cache.data|
    ensures NothingGiven(Run(opts, steps))
    decreases |steps|
  {
    if steps != [] {
      var before, s := steps[..|steps| - 1], steps[|steps| - 1];
      AgreementWithoutAdd(opts, before);
      var w := Run(opts, before);
      StepKeepsAgreement(w, opts, s);
      StepGivesNothing(w, opts, s);
    }
    ListCoversMap(Run(opts, steps).cache);
  }

  lemma StepKeepsAgreement(w: World, opts: Options, s: Step)
    requires opts.capacity >= 1 && Fits(w.cache, opts) && !s.CallAdd?
    ensures Fits(Next(w, opts, s).cache, opts)
  {
    assert Contained(w.cache);
    hide Fits, Contained, Agree, GetTurn, Forgotten, Deleted, CachedTurn;
    match s
    case Section(t, now) =>
      if At(w, t).AtLock? {
        SectionsKeepAgreement(w.cache, opts, At(w, t).key, now, State(0, Element(0, [])));
      }
    case Forget(t) =>
      if At(w, t).Failing? {
        var key := At(w, t).key;
        SectionsKeepAgreement(w.cache, opts, key, 0, State(0, Element(At(w, t).id, key)));
      }
    case CallDelete(key) =>
      SectionsKeepAgreement(w.cache, opts, key, 0, State(0, Element(0, key)));
    case CallGetCached(key, now) =>
      SectionsKeepAgreement(w.cache, opts, key, now, State(0, Element(0, key)));
    case _ =>
  }

  lemma StepGivesNothing(w: World, opts: Options, s: Step)
    requires NothingGiven(w) && !s.CallAdd?
    ensures NothingGiven(Next(w, opts, s))
  {
    hide GetTurn, Forgotten, Deleted, CachedTurn;
  }

  /** What GetCached returns as its value when it finds a state. */
  function CachedValue(w: World, opts: Options, key: Key, now: Time): Option<Option<Value>> {
    var state := CachedTurn(w.cache, opts, key, now).1;
    if state.Some? && state.value.order.id < |w.cells| then Some(w.cells[state.value.order.id].value) else None
  }

  /** GetCached reads the value without waiting: without Add, it is what the function of a state of
      this key produced, or nil as long as that function has not produced anything. */
  lemma GetCachedReturnsWhatWasProduced(opts: Options, steps: seq<Step>, key: Key, now: Time)
    requires opts.capacity >= 1 && WithoutAdd(steps)
    ensures var w := Run(opts, steps);
            && (CachedValue(w, opts, key, now).Some? <==> key in w.cache.data && !Expired(opts, w.cache.data[key], now))
            && (CachedValue(w, opts, key, now).Some? ==>
                  var cell := w.cells[w.cache.data[key].order.id];
                  && cell.key == key
                  && CachedValue(w, opts, key, now).value == if cell.outcome.Produced? then cell.outcome.value else None)
  {
    RunKeepsProtocol(opts, steps);
    AgreementWithoutAdd(opts, steps);
    var w := Run(opts, steps);
    hide Run, Contained, Fits, MoveToFront, Remove;
    assert KeyOk(w, key);
    if key in w.cache.data {
      assert CellOk(w, w.cache.data[key].order.id);
    }
  }

  // ---------- expiration ----------

  lemma NewestWhen(c: Cache, opts: Options, key: Key, now: Time)
    ensures key !in c.data ==> var c' := GetTurn(c, opts, key, now).0; key in c'.data && c'.data[key].when == now
    ensures var c' := AddTurn(c, opts, key, now).0; key in c'.data && c'.data[key].when == now
  {
    hide Remove, Evicted;
  }

  /** The step that made a mapped state: it took the next address, and its time is the time of the state. */
  lemma {:induction false} BornAt(opts: Options, steps: seq<Step>, k: Key) returns (j: nat)
    requires opts.capacity >= 1 && k in Run(opts, steps).cache.data
    ensures j < |steps| && (steps[j].Section? || steps[j].CallAdd?)
    ensures var state := Run(opts, steps).cache.data[k];
            && steps[j].now == state.when
            && |Run(opts, steps[..j]).cells| == state.order.id < |Run(opts, steps[..j + 1]).cells|
    decreases |steps|
  {
    var n := |steps| - 1;
    var before, s := steps[..n], steps[n];
    var w, w' := Run(opts, before), Run(opts, steps);
    RunKeepsProtocol(opts, before);
    RunKeepsProtocol(opts, steps);
    assert steps[..n + 1] == steps;
    if k in w.cache.data && w'.cache.data[k] == w.cache.data[k] {
      j := BornAt(opts, before, k);
      assert before[..j] == steps[..j] && before[..j + 1] == steps[..j + 1];
    } else {
      j := n;
      StateIsNew(w, opts, s, k);
    }
  }

  lemma NotNew(c: Cache, c': Cache, k: Key)
    requires OnlyRemoves(c, c') && k in c'.data
    ensures k in c.data && c'.data[k] == c.data[k]
  {
    assert Kept(c, c', k);
  }

  /** A step that maps a state that was not mapped before has made it. */
  lemma StateIsNew(w: World, opts: Options, s: Step, k: Key)
    requires Protocol(w) && k in Next(w, opts, s).cache.data
    requires k in w.cache.data ==> Next(w, opts, s).cache.data[k] != w.cache.data[k]
    ensures (s.Section? || s.CallAdd?) && s.now == Next(w, opts, s).cache.data[k].when
    ensures |w.cells| == Next(w, opts, s).cache.data[k].order.id < |Next(w, opts, s).cells|
  {
    hide GetTurn, AddTurn, CachedTurn, Deleted, Forgotten, Contained;
    match s
    case Section(t, now) =>
      if At(w, t).AtLock? {
        var key := At(w, t).key;
        NewestWhen(w.cache, opts, key, now);
        SectionsOnData(w.cache, opts, key, now, State(0, Element(0, key)));
        assert Kept(w.cache, GetTurn(w.cache, opts, key, now).0, k) || KeptOrNew(w.cache, GetTurn(w.cache, opts, key, now).0, key, k);
      }
    case CallAdd(key, value, now) =>
      NewestWhen(w.cache, opts, key, now);
      SectionsOnData(w.cache, opts, key, now, State(0, Element(0, key)));
      assert KeptOrNew(w.cache, AddTurn(w.cache, opts, key, now).0, key, k);
    case Forget(t) =>
      if At(w, t).Failing? && At(w, t).id < |w.cells| {
        var key := At(w, t).key;
        var state := State(0, Element(At(w, t).id, key));
        SectionsOnData(w.cache, opts, key, 0, state);
        NotNew(w.cache, Forgotten(w.cache, key, state), k);
      }
    case CallDelete(key) =>
      SectionsOnData(w.cache, opts, key, 0, State(0, Element(0, key)));
      NotNew(w.cache, Deleted(w.cache, key), k);
    case CallGetCached(key, now) =>
      SectionsOnData(w.cache, opts, key, now, State(0, Element(0, key)));
      NotNew(w.cache, CachedTurn(w.cache, opts, key, now).0, k);
    case _ =>
  }

  /** A state that Get hands to a thread at the time `now` was made by the step j, and that is no longer ago
      than the expiration. */
  lemma HandedOutIsFresh(opts: Options, steps: seq<Step>, t: Thread, now: Time) returns (j: nat)
    requires opts.capacity >= 1
    requires At(Run(opts, steps), t).AtLock? && At(Run(opts, steps + [Section(t, now)]), t).AtOnce?
    ensures var all := steps + [Section(t, now)];
            && j < |all| && (all[j].Section? || all[j].CallAdd?)
            && |Run(opts, all[..j]).cells| == At(Run(opts, all), t).id < |Run(opts, all[..j + 1]).cells|
            && (opts.expiration <= 0 || now - all[j].now <= opts.expiration)
  {
    var all := steps + [Section(t, now)];
    assert all[..|steps|] == steps;
    var w := Run(opts, steps);
    var key := At(w, t).key;
    RunKeepsProtocol(opts, steps);
    SectionServes(w, opts, t, now);
    j := BornAt(opts, all, key);
  }

  lemma SectionServes(w: World, opts: Options, t: Thread, now: Time)
    requires Contained(w.cache) && At(w, t).AtLock? && At(Next(w, opts, Section(t, now)), t).AtOnce?
    ensures var key, w' := At(w, t).key, Next(w, opts, Section(t, now));
            && key in w'.cache.data && w'.cache.data[key].order.id == At(w', t).id
            && (opts.expiration <= 0 || now - w'.cache.data[key].when <= opts.expiration)
  {
    var key := At(w, t).key;
    ServedWhileFresh(w.cache, opts, key, now);
    hide Contained, Evicted, Remove;
  }
}
