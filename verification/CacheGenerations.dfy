/** Cache generations: the durable counters a purge bumps, the in-memory copy that
    cache keys are built from, and why a purge is fresh however calls interleave. */
module CacheGenerations {
  import opened Text

  /** A row of the counter table. */
  datatype Slot = GlobalSlot | RepositorySlot(repository: int) | ObjectSlot(repository: int, objectId: string)

  /** The row a purge addresses; unknown scopes are rejected. */
  function SlotOf(scope: string, repository: int, objectId: string): Option<Slot> {
    if scope == "global" then Some(GlobalSlot)
    else if scope == "repository" then Some(RepositorySlot(repository))
    else if scope == "object" then Some(ObjectSlot(repository, objectId))
    else None
  }

  /** The generation of a slot; a slot without a row is at generation 1. */
  function Generation(table: map<Slot, int>, slot: Slot): int {
    if slot in table then table[slot] else 1
  }

  // ---------------------------------------------------------------- keys

  datatype Object = Object(repository: int, identity: string, path: string, query: string)

  datatype CacheKey = CacheKey(global: int, repository: int, objectGeneration: int, objectId: string)

  /** The path segments that survive cleaning. */
  function Kept(segments: seq<string>): seq<string> {
    if segments == [] then []
    else (if segments[0] != "" && segments[0] != "." then [segments[0]] else []) + Kept(segments[1..])
  }

  function CleanPath(path: string): string {
    "/" + Join(Kept(Split(path, '/')), "/")
  }

  /** `CanonicalObjectID` over an abstract digest of its four parts. */
  function ObjectId(digest: (int, string, string, string) -> string, o: Object): string {
    digest(o.repository, o.identity, CleanPath(o.path), o.query)
  }

  function Key(digest: (int, string, string, string) -> string, global: int, repository: int, objectGeneration: int,
      o: Object): CacheKey {
    CacheKey(global, repository, objectGeneration, ObjectId(digest, o))
  }

  /** The purges that cover an object. */
  predicate InScope(digest: (int, string, string, string) -> string, slot: Slot, o: Object) {
    match slot
    case GlobalSlot => true
    case RepositorySlot(r) => r == o.repository
    case ObjectSlot(r, id) => r == o.repository && id == ObjectId(digest, o)
  }

  /** The same in the words of the request. */
  predicate Covers(digest: (int, string, string, string) -> string, scope: string, repository: int, objectId: string,
      o: Object) {
    || scope == "global"
    || (scope == "repository" && o.repository == repository)
    || (scope == "object" && o.repository == repository && ObjectId(digest, o) == objectId)
  }

  lemma CoversExactly(digest: (int, string, string, string) -> string, scope: string, repository: int, objectId: string,
      o: Object)
    ensures Covers(digest, scope, repository, objectId, o) <==>
            SlotOf(scope, repository, objectId).Some? && InScope(digest, SlotOf(scope, repository, objectId).value, o)
  {
    hide ObjectId;
  }

  lemma {:induction false} KeptPrefix(segments: seq<string>, i: nat)
    requires i < |segments|
    ensures Kept(segments[..i + 1]) ==
            Kept(segments[..i]) + (if segments[i] != "" && segments[i] != "." then [segments[i]] else [])
  {
    if i > 0 {
      KeptPrefix(segments[1..], i - 1);
      assert segments[..i + 1][1..] == segments[1..][..i];
      assert segments[..i][1..] == segments[1..][..i - 1];
    }
  }

  lemma {:induction false} KeptMembers(segments: seq<string>)
    ensures forall p | p in Kept(segments) :: p in segments && p != "" && p != "."
    ensures Kept(Kept(segments)) == Kept(segments)
  {
    if segments != [] {
      var rest := Kept(segments[1..]);
      KeptMembers(segments[1..]);
      assert Kept([segments[0]] + rest) ==
          (if segments[0] != "" && segments[0] != "." then [segments[0]] + rest else rest) by {
        assert ([segments[0]] + rest)[1..] == rest;
      }
      assert [] + rest == rest;
    }
  }

  function IfKept(segment: string): seq<string> {
    if segment == "" || segment == "." then [] else [segment]
  }

  lemma KeptFirst(segment: string, rest: seq<string>)
    ensures Kept([]) == [] && Kept([segment] + rest) == IfKept(segment) + Kept(rest)
  {
    assert ([segment] + rest)[1..] == rest;
  }

  /** Empty segments and "." are dropped wherever they stand, and no other segment is. */
  lemma {:induction false} KeptAround(before: seq<string>, segment: string, after: seq<string>)
    ensures Kept(before + [segment] + after) ==
            Kept(before) + (if segment == "" || segment == "." then [] else [segment]) + Kept(after)
  {
    hide Kept;
    KeptFirst(segment, after);
    if before == [] {
      assert before + [segment] + after == [segment] + after;
    } else {
      var rest := before[1..] + [segment] + after;
      KeptAround(before[1..], segment, after);
      KeptFirst(before[0], before[1..]);
      KeptFirst(before[0], rest);
      assert [before[0]] + before[1..] == before && [before[0]] + rest == before + [segment] + after;
    }
  }

  /** Cleaning keeps exactly the segments: two paths clean to the same text exactly
      when the same segments survive in both. */
  lemma CleanPathSegments(a: string, b: string)
    ensures CleanPath(a) == CleanPath(b) <==> Kept(Split(a, '/')) == Kept(Split(b, '/'))
  {
    SegmentsOfCleanPath(a);
    SegmentsOfCleanPath(b);
  }

  lemma SegmentsOfCleanPath(a: string)
    ensures Kept(Split(CleanPath(a), '/')) == Kept(Split(a, '/'))
  {
    var kept := Kept(Split(a, '/'));
    KeptMembers(Split(a, '/'));
    SplitAppend("", '/', Join(kept, "/"));
    assert "" + ['/'] + Join(kept, "/") == CleanPath(a);
    var tail := Split(Join(kept, "/"), '/');
    assert Kept([""] + tail) == Kept(tail) by { assert ([""] + tail)[1..] == tail; }
    if kept != [] {
      SplitJoin(kept, '/');
    }
  }

  lemma CleanPathIdempotent(a: string)
    ensures CleanPath(CleanPath(a)) == CleanPath(a)
  {
    SegmentsOfCleanPath(a);
  }

  ghost predicate Injective(digest: (int, string, string, string) -> string) {
    forall r, i, p, q, r', i', p', q' ::
      digest(r, i, p, q) == digest(r', i', p', q') ==> r == r' && i == i' && p == p' && q == q'
  }

  /** Whatever the generations are at the two reads, equal keys mean the same object:
      same repository, upstream identity, path segments and query. */
  lemma KeysSeparateObjects(digest: (int, string, string, string) -> string, o: Object, o': Object)
    requires Injective(digest)
    requires ObjectId(digest, o) == ObjectId(digest, o')
    ensures o.repository == o'.repository && o.identity == o'.identity && o.query == o'.query
    ensures Kept(Split(o.path, '/')) == Kept(Split(o'.path, '/'))
  {
    CleanPathSegments(o.path, o'.path);
  }

  /** `cleanPath`: the kept segments are moved to the front of the slice in place. */
  method CleanPathInPlace(path: string) returns (result: string)
    ensures result == CleanPath(path)
  {
    if path == "" {
      assert Split(path, '/') == [""] && Kept([""]) == [];
      return "/";
    }
    var segments := Split(path, '/');
    var parts := new string[|segments|](i requires 0 <= i < |segments| => segments[i]);
    var kept := 0;
    for i := 0 to parts.Length
      invariant kept <= i
      invariant parts[..kept] == Kept(segments[..i])
      invariant forall k | i <= k < parts.Length :: parts[k] == segments[k]
    {
      KeptPrefix(segments, i);
      if parts[i] != "" && parts[i] != "." {
        parts[kept] := parts[i];
        kept := kept + 1;
        assert parts[..kept] == parts[..kept - 1] + [segments[i]];
      }
    }
    assert segments[..|segments|] == segments;
    return "/" + Join(parts[..kept], "/");
  }

  // ---------------------------------------------------------------- store and manager

  datatype PurgeJob = PurgeJob(slot: Slot, oldGeneration: int, newGeneration: int)

  /** How the transaction of a purge ends: it may be refused, or be committed and the job then not
      be read back. */
  datatype Outcome = Done | Refused | JobUnreadable

  class GenerationStore {
    var table: map<Slot, int>
    var jobs: seq<PurgeJob>

    ghost predicate Valid()
      reads this
    {
      forall s | s in table :: table[s] >= 2
    }

    constructor ()
      ensures Valid() && table == map[] && jobs == []
    {
      table, jobs := map[], [];
    }

    /** One transaction: read the counter, write the next value, log the job. */
    method PurgeCache(scope: string, repository: int, objectId: string, outcome: Outcome)
      returns (job: Option<PurgeJob>)
      requires Valid()
      modifies this
      ensures Valid()
      ensures match SlotOf(scope, repository, objectId)
              case None => job == None && table == old(table) && jobs == old(jobs)
              case Some(slot) =>
                var next := PurgeJob(slot, Generation(old(table), slot), Generation(old(table), slot) + 1);
                && job == (if outcome.Done? then Some(next) else None)
                && table == (if outcome.Refused? then old(table) else old(table)[slot := next.newGeneration])
                && jobs == if outcome.Refused? then old(jobs) else old(jobs) + [next]
    {
      if scope != "global" && scope != "repository" && scope != "object" {
        return None;
      }
      var repository, objectId := repository, objectId;
      if scope == "global" {
        repository, objectId := 0, "";
      }
      var slot := if scope == "global" then GlobalSlot
                  else if scope == "repository" then RepositorySlot(repository)
                  else ObjectSlot(repository, objectId);
      var current := 1;
      if slot in table {
        current := table[slot];
      }
      if outcome.Refused? {
        return None;
      }
      table := table[slot := current + 1];
      jobs := jobs + [PurgeJob(slot, current, current + 1)];
      return if outcome.Done? then Some(jobs[|jobs| - 1]) else None;
    }

    /** `ListCacheGenerations`: every row once, in no particular order. */
    method ListCacheGenerations() returns (rows: seq<(Slot, int)>)
      ensures forall i, j | 0 <= i < j < |rows| :: rows[i].0 != rows[j].0
      ensures forall s, g :: (s, g) in rows <==> s in table && table[s] == g
    {
      rows := [];
      var remaining := table.Keys;
      while remaining != {}
        invariant remaining <= table.Keys
        invariant forall i | 0 <= i < |rows| :: rows[i].0 in table.Keys - remaining && rows[i].1 == table[rows[i].0]
        invariant forall s | s in table.Keys - remaining :: (s, table[s]) in rows
        invariant forall i, j | 0 <= i < j < |rows| :: rows[i].0 != rows[j].0
        decreases remaining
      {
        var slot :| slot in remaining;
        rows := rows + [(slot, table[slot])];
        remaining := remaining - {slot};
      }
    }
  }

  class Manager {
    const digest: (int, string, string, string) -> string
    var loaded: bool
    var global: int
    var repositories: map<int, int>
    var objects: map<(int, string), int>

    constructor (digest: (int, string, string, string) -> string)
      ensures this.digest == digest && !loaded
    {
      this.digest := digest;
      loaded, global, repositories, objects := false, 1, map[], map[];
    }

    /** The generation a key would carry for a slot; 0 reads as 1. */
    function Held(slot: Slot): int
      reads this
    {
      match slot
      case GlobalSlot => global
      case RepositorySlot(r) => if r in repositories && repositories[r] != 0 then repositories[r] else 1
      case ObjectSlot(r, id) => if (r, id) in objects && objects[(r, id)] != 0 then objects[(r, id)] else 1
    }

    function Current(o: Object): CacheKey
      reads this
    {
      Key(digest, Held(GlobalSlot), Held(RepositorySlot(o.repository)),
          Held(ObjectSlot(o.repository, ObjectId(digest, o))), o)
    }

    /** A listing that fails leaves everything as it was. */
    method Load(store: GenerationStore, listingFails: bool) returns (ok: bool)
      requires store.Valid()
      modifies this
      ensures ok == !listingFails
      ensures ok ==> loaded && forall s :: Held(s) == Generation(store.table, s)
      ensures !ok ==> loaded == old(loaded) && forall s :: Held(s) == old(Held(s))
    {
      if listingFails {
        return false;
      }
      var rows := store.ListCacheGenerations();
      global, repositories, objects := 1, map[], map[];
      ghost var seen: set<Slot> := {};
      for i := 0 to |rows|
        invariant forall k | 0 <= k < i :: rows[k].0 in seen
        invariant forall s :: Held(s) == if s in seen then Generation(store.table, s) else 1
      {
        var (slot, generation) := rows[i];
        assert rows[i] in rows;
        assert slot in store.table && store.table[slot] == generation;
        match slot {
          case GlobalSlot => global := generation;
          case RepositorySlot(r) => repositories := repositories[r := generation];
          case ObjectSlot(r, id) => objects := objects[(r, id) := generation];
        }
        seen := seen + {slot};
      }
      forall s ensures Held(s) == Generation(store.table, s) {
        if s in store.table {
          assert (s, store.table[s]) in rows;
        }
      }
      loaded := true;
      return true;
    }

    /** `Key` fails until the generations are loaded. */
    method KeyOf(o: Object) returns (key: Option<CacheKey>)
      ensures key == if loaded then Some(Current(o)) else None
    {
      var cleaned := CleanPathInPlace(o.path);
      var id := digest(o.repository, o.identity, cleaned, o.query);
      if !loaded {
        return None;
      }
      return Some(CacheKey(global, Held(RepositorySlot(o.repository)), Held(ObjectSlot(o.repository, id)), id));
    }

    /** The locked section at the end of `Purge`. */
    method Publish(slot: Slot, generation: int)
      requires generation != 0
      modifies this
      ensures loaded == old(loaded)
      ensures forall s :: Held(s) == if s == slot then generation else old(Held(s))
    {
      match slot {
        case GlobalSlot => global := generation;
        case RepositorySlot(r) => repositories := repositories[r := generation];
        case ObjectSlot(r, id) => objects := objects[(r, id) := generation];
      }
    }

    /** `Purge`: commit in the store, then publish the committed generation, unless the store
        reports an error. */
    method Purge(store: GenerationStore, scope: string, repository: int, objectId: string, outcome: Outcome)
      returns (job: Option<PurgeJob>)
      requires store.Valid()
      modifies this, store
      ensures store.Valid() && loaded == old(loaded)
      ensures match SlotOf(scope, repository, objectId)
              case None => job == None && store.table == old(store.table) && forall s :: Held(s) == old(Held(s))
              case Some(slot) =>
                && job.Some? == outcome.Done?
                && store.table == (if outcome.Refused? then old(store.table)
                                   else old(store.table)[slot := Generation(old(store.table), slot) + 1])
                && forall s :: Held(s) == if s == slot && outcome.Done? then Generation(store.table, slot)
                   else old(Held(s))
      ensures job.Some? <==> outcome.Done? && (scope == "global" || scope == "repository" || scope == "object")
      ensures job.Some? && (forall s :: old(Held(s)) <= Generation(old(store.table), s)) ==>
                forall o :: Current(o) != old(Current(o)) <==> Covers(digest, scope, repository, objectId, o)
      ensures job.None? ==> forall o :: Current(o) == old(Current(o))
    {
      job := store.PurgeCache(scope, repository, objectId, outcome);
      if job.Some? {
        Publish(job.value.slot, job.value.newGeneration);
        forall o ensures Covers(digest, scope, repository, objectId, o) <==> InScope(digest, job.value.slot, o) {
          CoversExactly(digest, scope, repository, objectId, o);
        }
      }
    }
  }

  // ---------------------------------------------------------------- interleavings

  /** A purge call in flight. The store commits in one atomic step, the manager
      publishes in another; anything may happen in between. */
  datatype Call = Begun(slot: Slot) | Committed(slot: Slot, generation: int) | Returned(slot: Slot) | Lost

  /** `memory` stands for what the manager holds, slot by slot. */
  datatype World = World(table: map<Slot, int>, memory: map<Slot, int>, calls: map<int, Call>)

  /** `Fail` is a store error, before or after the commit; a restart loses the calls in
      flight and reloads the memory from the table. Reads change nothing. */
  datatype Event =
    | Begin(id: int, scope: string, repository: int, objectId: string)
    | Commit(id: int)
    | Fail(id: int)
    | Publish(id: int)
    | Restart

  function Step(w: World, e: Event): World {
    match e
    case Begin(id, scope, repository, objectId) =>
      var slot := SlotOf(scope, repository, objectId);
      if id in w.calls || slot.None? then w else w.(calls := w.calls[id := Begun(slot.value)])
    case Commit(id) =>
      if id in w.calls && w.calls[id].Begun? then
        var slot := w.calls[id].slot;
        var next := Generation(w.table, slot) + 1;
        w.(table := w.table[slot := next], calls := w.calls[id := Committed(slot, next)])
      else w
    case Fail(id) =>
      if id in w.calls && (w.calls[id].Begun? || w.calls[id].Committed?) then w.(calls := w.calls[id := Lost]) else w
    case Publish(id) =>
      if id in w.calls && w.calls[id].Committed? then
        w.(memory := w.memory[w.calls[id].slot := w.calls[id].generation],
            calls := w.calls[id := Returned(w.calls[id].slot)])
      else w
    case Restart => World(w.table, w.table, map id | id in w.calls ::
        if w.calls[id].Returned? then w.calls[id] else Lost)
  }

  /** The world after the first `n` events. */
  function At(w: World, events: seq<Event>, n: nat): World
    requires n <= |events|
  {
    if n == 0 then w else Step(At(w, events, n - 1), events[n - 1])
  }

  /** The key an object is given in a world. */
  function KeyIn(digest: (int, string, string, string) -> string, w: World, o: Object): CacheKey {
    Key(digest, Generation(w.memory, GlobalSlot), Generation(w.memory, RepositorySlot(o.repository)),
        Generation(w.memory, ObjectSlot(o.repository, ObjectId(digest, o))), o)
  }

  /** Where nothing was ever purged every generation is 1. */
  lemma FirstGenerations(digest: (int, string, string, string) -> string, w: World, o: Object)
    requires w.memory == map[]
    ensures KeyIn(digest, w, o) == CacheKey(1, 1, 1, ObjectId(digest, o))
  {
  }

  /** The store and the manager together. Each of its methods is the code of one atomic step and
      takes the world that the theorems below are about to its next state. */
  class Gateway {
    const store: GenerationStore
    var manager: Manager
    ghost var world: World

    ghost predicate Valid()
      reads this, store, manager
    {
      && store.Valid() && world.table == store.table
      && (manager.loaded ==> forall s :: Generation(world.memory, s) == manager.Held(s))
    }

    constructor (digest: (int, string, string, string) -> string)
      ensures Valid() && Loaded(world) && fresh(store) && fresh(manager) && manager.digest == digest
    {
      store := new GenerationStore();
      manager := new Manager(digest);
      world := World(map[], map[], map[]);
    }

    ghost method Begin(id: int, scope: string, repository: int, objectId: string)
      requires Valid()
      modifies this`world
      ensures Valid() && world == Step(old(world), Event.Begin(id, scope, repository, objectId))
    {
      world := Step(world, Event.Begin(id, scope, repository, objectId));
    }

    /** The store's part of purge call `id`. */
    method Commit(id: int, scope: string, repository: int, objectId: string, outcome: Outcome)
      returns (job: Option<PurgeJob>)
      requires Valid() && SlotOf(scope, repository, objectId).Some?
      requires id in world.calls && world.calls[id] == Begun(SlotOf(scope, repository, objectId).value)
      modifies this`world, store
      ensures Valid()
      ensures world == match outcome
                       case Done => Step(old(world), Event.Commit(id))
                       case Refused => Step(old(world), Fail(id))
                       case JobUnreadable => Step(Step(old(world), Event.Commit(id)), Fail(id))
      ensures job.Some? <==> outcome.Done?
      ensures job.Some? ==> world.calls[id] == Committed(job.value.slot, job.value.newGeneration)
    {
      job := store.PurgeCache(scope, repository, objectId, outcome);
      match outcome {
        case Done => world := Step(world, Event.Commit(id));
        case Refused => world := Step(world, Fail(id));
        case JobUnreadable => world := Step(Step(world, Event.Commit(id)), Fail(id));
      }
    }

    /** The manager's part, after which the call returns. */
    method Publish(id: int, job: PurgeJob)
      requires Valid() && job.newGeneration != 0
      requires id in world.calls && world.calls[id] == Committed(job.slot, job.newGeneration)
      modifies this`world, manager
      ensures Valid() && world == Step(old(world), Event.Publish(id))
    {
      manager.Publish(job.slot, job.newGeneration);
      world := Step(world, Event.Publish(id));
    }

    /** A new process; without its generations it issues no keys. */
    method Restart(listingFails: bool) returns (ok: bool)
      requires Valid()
      modifies this
      ensures Valid() && world == Step(old(world), Event.Restart) && ok == manager.loaded == !listingFails
      ensures fresh(manager) && manager.digest == old(manager).digest
    {
      manager := new Manager(manager.digest);
      ok := manager.Load(store, listingFails);
      world := Step(world, Event.Restart);
    }

    method KeyOf(o: Object) returns (key: Option<CacheKey>)
      requires Valid()
      ensures key == if manager.loaded then Some(KeyIn(manager.digest, world, o)) else None
    {
      key := manager.KeyOf(o);
    }
  }

  /** Memory never runs ahead of the table; the generations committed but not yet
      published are distinct, known to the table and different from the one in memory. */
  ghost predicate Ordered(w: World) {
    && (forall s :: Generation(w.memory, s) <= Generation(w.table, s))
    && (forall id | id in w.calls && w.calls[id].Committed? ::
          && w.calls[id].generation <= Generation(w.table, w.calls[id].slot)
          && w.calls[id].generation != Generation(w.memory, w.calls[id].slot))
    && (forall id, id' | id in w.calls && id' in w.calls && id != id' && w.calls[id].Committed? &&
       w.calls[id'].Committed? &&
          w.calls[id].slot == w.calls[id'].slot :: w.calls[id].generation != w.calls[id'].generation)
  }

  /** A freshly loaded gateway. */
  predicate Loaded(w: World) {
    w.memory == w.table && w.calls == map[]
  }

  lemma {:induction false} OrderedAt(w: World, events: seq<Event>, n: nat)
    requires n <= |events| && Ordered(w)
    ensures Ordered(At(w, events, n))
  {
    if n > 0 {
      OrderedAt(w, events, n - 1);
      OrderedStep(At(w, events, n - 1), events[n - 1]);
    }
  }

  lemma OrderedStep(w: World, e: Event)
    requires Ordered(w)
    ensures Ordered(Step(w, e))
  {
  }

  /** Generation `g` of `slot` is history: the table has reached it and no call in
      flight will publish it. */
  ghost predicate Spent(w: World, slot: Slot, g: int) {
    && g <= Generation(w.table, slot)
    && forall id | id in w.calls && w.calls[id].Committed? && w.calls[id].slot == slot :: w.calls[id].generation != g
  }

  predicate Starts(e: Event, id: int, slot: Slot) {
    e.Begin? && e.id == id && SlotOf(e.scope, e.repository, e.objectId) == Some(slot)
  }

  /** Call `id` on `slot` has not returned, and what it commits will be past `g`. */
  predicate Pending(w: World, id: int, slot: Slot, g: int) {
    id in w.calls && match w.calls[id]
                     case Begun(s) => s == slot
                     case Committed(s, h) => s == slot && h > g
                     case Returned(_) => false
                     case Lost => true
  }

  /** `g` is spent, the table is past it, and memory has left it for good. */
  ghost predicate Past(w: World, slot: Slot, g: int) {
    Spent(w, slot, g) && g < Generation(w.table, slot) && Generation(w.memory, slot) != g
  }

  /** From the moment a generation was in memory it is spent. */
  lemma {:induction false} SpentAt(w: World, events: seq<Event>, i: nat, n: nat, slot: Slot)
    requires i <= n <= |events| && Ordered(w)
    ensures Spent(At(w, events, n), slot, Generation(At(w, events, i).memory, slot))
    decreases n
  {
    hide Step, Spent, Ordered, Generation;
    if n > i {
      SpentAt(w, events, i, n - 1, slot);
      SpentStep(At(w, events, n - 1), events[n - 1], slot, Generation(At(w, events, i).memory, slot));
    } else {
      OrderedAt(w, events, i);
      HeldIsSpent(At(w, events, i), slot);
    }
  }

  lemma HeldIsSpent(w: World, slot: Slot)
    requires Ordered(w)
    ensures Spent(w, slot, Generation(w.memory, slot))
  {
  }

  lemma SpentStep(w: World, e: Event, slot: Slot, g: int)
    requires Spent(w, slot, g)
    ensures Spent(Step(w, e), slot, g)
  {
  }

  /** What memory held before the call began, the call's own commit is past. */
  lemma {:induction false} PendingAt(w: World, events: seq<Event>, i: nat, b: nat, n: nat, id: int, slot: Slot)
    requires Ordered(w) && i <= b < n <= |events|
    requires Starts(events[b], id, slot) && id !in At(w, events, b).calls
    ensures Pending(At(w, events, n), id, slot, Generation(At(w, events, i).memory, slot)) ||
            (id in At(w, events, n).calls && At(w, events, n).calls[id].Returned?)
    decreases n
  {
    hide Step, Spent, Pending, Generation;
    var g := Generation(At(w, events, i).memory, slot);
    if n > b + 1 {
      PendingAt(w, events, i, b, n - 1, id, slot);
      SpentAt(w, events, i, n - 1, slot);
      PendingStep(At(w, events, n - 1), events[n - 1], id, slot, g);
    } else {
      assert At(w, events, n) == Step(At(w, events, b), events[b]);
      BegunIsPending(At(w, events, b), events[b], id, slot, g);
    }
  }

  lemma BegunIsPending(w: World, e: Event, id: int, slot: Slot, g: int)
    requires Starts(e, id, slot) && id !in w.calls
    ensures Pending(Step(w, e), id, slot, g)
  {
  }

  lemma PendingStep(w: World, e: Event, id: int, slot: Slot, g: int)
    requires Spent(w, slot, g)
    requires Pending(w, id, slot, g) || (id in w.calls && w.calls[id].Returned?)
    ensures Pending(Step(w, e), id, slot, g) || (id in Step(w, e).calls && Step(w, e).calls[id].Returned?)
  {
  }

  lemma {:induction false} PastAt(w: World, events: seq<Event>, r: nat, n: nat, slot: Slot, g: int)
    requires r <= n <= |events| && Past(At(w, events, r), slot, g)
    ensures Past(At(w, events, n), slot, g)
    decreases n
  {
    hide Step, Past;
    if n > r {
      PastAt(w, events, r, n - 1, slot, g);
      PastStep(At(w, events, n - 1), events[n - 1], slot, g);
    }
  }

  lemma PastStep(w: World, e: Event, slot: Slot, g: int)
    requires Past(w, slot, g)
    ensures Past(Step(w, e), slot, g)
  {
  }

  /** Event `r` is the one at which call `id` returns. */
  predicate ReturnsAt(w: World, events: seq<Event>, r: nat, id: int)
    requires r < |events|
  {
    events[r] == Publish(id) && id in At(w, events, r).calls && At(w, events, r).calls[id].Committed?
  }

  /** Memory holds another generation of the purged slot from the return on. */
  lemma MemoryMovesOn(w: World, events: seq<Event>, i: nat, b: nat, r: nat, j: nat, id: int, slot: Slot)
    requires Ordered(w) && i <= b < r < j <= |events|
    requires Starts(events[b], id, slot) && id !in At(w, events, b).calls
    requires ReturnsAt(w, events, r, id)
    ensures Generation(At(w, events, i).memory, slot) != Generation(At(w, events, j).memory, slot)
  {
    hide Step, Ordered, Spent, Generation;
    var g := Generation(At(w, events, i).memory, slot);
    SpentAt(w, events, i, r, slot);
    PendingAt(w, events, i, b, r, id, slot);
    OrderedAt(w, events, r);
    ReturnIsPast(At(w, events, r), id, slot, g);
    assert At(w, events, r + 1) == Step(At(w, events, r), events[r]);
    PastAt(w, events, r + 1, j, slot, g);
  }

  lemma ReturnIsPast(w: World, id: int, slot: Slot, g: int)
    requires Ordered(w) && Spent(w, slot, g) && Pending(w, id, slot, g) && w.calls[id].Committed?
    ensures Past(Step(w, Publish(id)), slot, g)
  {
  }

  /** Purge freshness. Take any interleaving of purges, failures and restarts. If a
      purge whose scope covers the object begins at event `b` and returns at event `r`,
      then no key issued after it returned equals any key issued before it began. */
  lemma PurgeFreshness(digest: (int, string, string, string) -> string, w: World, events: seq<Event>,
      i: nat, b: nat, r: nat, j: nat, o: Object)
    requires Loaded(w) && i <= b < r < j <= |events|
    requires events[b].Begin? && events[b].id !in At(w, events, b).calls
    requires ReturnsAt(w, events, r, events[b].id)
    requires Covers(digest, events[b].scope, events[b].repository, events[b].objectId, o)
    ensures KeyIn(digest, At(w, events, i), o) != KeyIn(digest, At(w, events, j), o)
  {
    CoversExactly(digest, events[b].scope, events[b].repository, events[b].objectId, o);
    var slot := SlotOf(events[b].scope, events[b].repository, events[b].objectId).value;
    MemoryMovesOn(w, events, i, b, r, j, events[b].id, slot);
  }

  /** No purge that covers the object was begun, and what memory holds for it is in the table. */
  ghost predicate Quiet(digest: (int, string, string, string) -> string, w: World, o: Object) {
    && (forall id | id in w.calls && !w.calls[id].Lost? :: !InScope(digest, w.calls[id].slot, o))
    && (forall s | InScope(digest, s, o) :: Generation(w.table, s) == Generation(w.memory, s))
  }

  lemma QuietStep(digest: (int, string, string, string) -> string, w: World, e: Event, o: Object)
    requires Quiet(digest, w, o)
    requires e.Begin? ==> !Covers(digest, e.scope, e.repository, e.objectId, o)
    ensures Quiet(digest, Step(w, e), o) && KeyIn(digest, Step(w, e), o) == KeyIn(digest, w, o)
  {
    hide ObjectId, Covers;
    if e.Begin? {
      CoversExactly(digest, e.scope, e.repository, e.objectId, o);
    }
  }

  /** The other direction: over a run in which no purge covers the object its key never
      changes. */
  lemma {:induction false} UncoveredKeysStay(digest: (int, string, string, string) -> string, w: World,
      events: seq<Event>, n: nat, o: Object)
    requires Loaded(w) && n <= |events|
    requires forall b | 0 <= b < n && events[b].Begin? ::
               !Covers(digest, events[b].scope, events[b].repository, events[b].objectId, o)
    ensures Quiet(digest, At(w, events, n), o)
    ensures KeyIn(digest, At(w, events, n), o) == KeyIn(digest, w, o)
    decreases n
  {
    hide Step, KeyIn, Covers;
    if n > 0 {
      UncoveredKeysStay(digest, w, events, n - 1, o);
      QuietStep(digest, At(w, events, n - 1), events[n - 1], o);
    }
  }

  /** A purge never touches a key outside its scope: whatever one step does, the keys
      of an object change only if the step is a restart or publishes a covering slot. */
  lemma KeysOutOfScope(digest: (int, string, string, string) -> string, w: World, e: Event, o: Object)
    requires KeyIn(digest, Step(w, e), o) != KeyIn(digest, w, o)
    ensures e.Restart? || (e.Publish? && e.id in w.calls && w.calls[e.id].Committed? &&
            InScope(digest, w.calls[e.id].slot, o))
  {
  }

  /** In particular a purge bound to one repository leaves every other repository's
      keys alone. */
  lemma OtherRepositoriesUntouched(digest: (int, string, string, string) -> string, w: World, id: int, o: Object)
    requires id in w.calls && w.calls[id].Committed?
    requires !w.calls[id].slot.GlobalSlot? && w.calls[id].slot.repository != o.repository
    ensures KeyIn(digest, Step(w, Publish(id)), o) == KeyIn(digest, w, o)
  {
  }

  /** Reloading while purges are in flight would break freshness, which is why loading
      belongs to start-up: here call 1 commits, the memory is reloaded, call 2 begins,
      commits and returns, and then call 1 publishes the generation it committed first. */
  lemma ReloadInFlightIsStale()
    ensures var slot := GlobalSlot;
            var w := At(World(map[], map[], map[]), [Begin(1, "global", 0, ""), Commit(1)], 2);
            var reloaded := w.(memory := w.table);
            var events := [Begin(2, "global", 0, ""), Commit(2), Publish(2), Publish(1)];
            Generation(At(reloaded, events, 4).memory, slot) == Generation(reloaded.memory, slot)
  {
    var slot := GlobalSlot;
    var first := [Begin(1, "global", 0, ""), Commit(1)];
    var w0 := World(map[], map[], map[]);
    assert At(w0, first, 1) == Step(w0, first[0]);
    var w := At(w0, first, 2);
    assert w == World(map[slot := 2], map[], map[1 := Committed(slot, 2)]);
    var reloaded := w.(memory := w.table);
    var events := [Begin(2, "global", 0, ""), Commit(2), Publish(2), Publish(1)];
    assert At(reloaded, events, 1) == Step(reloaded, events[0]);
    assert At(reloaded, events, 2) == Step(At(reloaded, events, 1), events[1]);
    assert At(reloaded, events, 3) == Step(At(reloaded, events, 2), events[2]);
  }
}
