/** The login limiter: its operations, what every run keeps, and how many attempts one key
    gets in a window. A slot is taken before the password is checked and given back with its
    outcome, so that attempts in flight count against the maximum as failures do. */
module LoginLimiter {
  import opened Text

  datatype Attempt = Attempt(start: int, failures: int, inFlight: int)

  datatype Config = Config(window: int, max: int, maxItems: nat)

  type Items = map<string, Attempt>

  // ---------------------------------------------------------------- operations

  predicate Expired(config: Config, a: Attempt, now: int) {
    now - a.start > config.window && a.inFlight == 0
  }

  function Prune(config: Config, items: Items, now: int): Items {
    map key | key in items && !Expired(config, items[key], now) :: items[key]
  }

  /** The map in which a new key is entered: pruned if it is full. */
  function Room(config: Config, items: Items, now: int): Items {
    if |items| >= config.maxItems then Prune(config, items, now) else items
  }

  /** The key gets no entry because the map stays full. */
  predicate Full(config: Config, items: Items, key: string, now: int) {
    key !in items && |Room(config, items, now)| >= config.maxItems
  }

  /** The operation at `now` starts a new window for the key. */
  predicate Opens(config: Config, items: Items, key: string, now: int) {
    if key in items then Expired(config, items[key], now) else !Full(config, items, key, now)
  }

  /** The map with a current entry for the key. */
  function Entered(config: Config, items: Items, key: string, now: int): Items {
    if key !in items then
      var room := Room(config, items, now);
      if Full(config, items, key, now) then room else room[key := Attempt(now, 0, 0)]
    else if Expired(config, items[key], now) then items[key := Attempt(now, 0, 0)]
    else items
  }

  predicate MayAcquire(config: Config, items: Items, key: string, now: int) {
    && !Full(config, items, key, now)
    && var a := Entered(config, items, key, now)[key]; a.failures < config.max && a.inFlight < config.max
  }

  function Acquired(config: Config, items: Items, key: string, now: int): Items {
    var items' := Entered(config, items, key, now);
    if MayAcquire(config, items, key, now) then items'[key := items'[key].(inFlight := items'[key].inFlight + 1)]
    else items'
  }

  function Released(items: Items, key: string, success: bool): Items {
    if key !in items then items
    else if success then items - {key}
    else
      var a := items[key];
      items[key := Attempt(a.start, a.failures + 1, if a.inFlight - 1 < 0 then 0 else a.inFlight - 1)]
  }

  function Failed(config: Config, items: Items, key: string, now: int): Items {
    if Full(config, items, key, now) then Room(config, items, now)
    else
      var items' := Entered(config, items, key, now);
      items'[key := items'[key].(failures := items'[key].failures + 1)]
  }

  /** `Allowed` also forgets an expired entry. */
  function Asked(config: Config, items: Items, key: string, now: int): Items {
    if key in items && Expired(config, items[key], now) then items - {key} else items
  }

  // ---------------------------------------------------------------- the limiter

  /** The release function handed out with a slot; it works once. */
  class Grant {
    const key: string
    var released: bool

    constructor (key: string)
      ensures this.key == key && !released
    {
      this.key, released := key, false;
    }
  }

  class Limiter {
    const config: Config
    var items: Items

    constructor (config: Config)
      ensures this.config == config && items == map[]
    {
      this.config, items := config, map[];
    }

    method PruneLocked(now: int)
      modifies this
      ensures items == Prune(config, old(items), now)
    {
      var keys := items.Keys;
      while keys != {}
        invariant keys <= old(items).Keys
        invariant items == map key | key in old(items) && (key in keys || !Expired(config, old(items)[key], now)) ::
                  old(items)[key]
        decreases keys
      {
        var key :| key in keys;
        if now - items[key].start > config.window && items[key].inFlight == 0 {
          items := items - {key};
        }
        keys := keys - {key};
      }
    }

    method Acquire(key: string, now: int) returns (release: Grant?, allowed: bool)
      modifies this
      ensures allowed == MayAcquire(config, old(items), key, now)
      ensures items == Acquired(config, old(items), key, now)
      ensures allowed <==> release != null
      ensures allowed ==> fresh(release) && release.key == key && !release.released
    {
      if key !in items {
        if |items| >= config.maxItems {
          PruneLocked(now);
        }
        if |items| >= config.maxItems {
          return null, false;
        }
        items := items[key := Attempt(now, 0, 0)];
      } else if now - items[key].start > config.window && items[key].inFlight == 0 {
        items := items[key := Attempt(now, 0, 0)];
      }
      var a := items[key];
      if a.failures >= config.max || a.inFlight >= config.max {
        return null, false;
      }
      items := items[key := a.(inFlight := a.inFlight + 1)];
      release := new Grant(key);
      allowed := true;
    }

    method Release(grant: Grant, success: bool)
      modifies this, grant
      ensures grant.released
      ensures items == if old(grant.released) then old(items) else Released(old(items), grant.key, success)
    {
      if grant.released {
        return;
      }
      grant.released := true;
      if grant.key !in items {
        return;
      }
      var current := items[grant.key];
      current := current.(inFlight := current.inFlight - 1);
      if current.inFlight < 0 {
        current := current.(inFlight := 0);
      }
      if success {
        items := items - {grant.key};
      } else {
        items := items[grant.key := current.(failures := current.failures + 1)];
      }
    }

    method Allowed(key: string, now: int) returns (allowed: bool)
      modifies this
      ensures items == Asked(config, old(items), key, now)
      ensures allowed <==> key !in items || (items[key].failures < config.max && items[key].inFlight < config.max)
    {
      if key !in items {
        return true;
      }
      var a := items[key];
      if now - a.start > config.window && a.inFlight == 0 {
        items := items - {key};
        return true;
      }
      return a.failures < config.max && a.inFlight < config.max;
    }

    method Failure(key: string, now: int)
      modifies this
      ensures items == Failed(config, old(items), key, now)
    {
      if key !in items {
        if |items| >= config.maxItems {
          PruneLocked(now);
        }
        if |items| >= config.maxItems {
          return;
        }
        items := items[key := Attempt(now, 1, 0)];
        return;
      }
      var a := items[key];
      if now - a.start > config.window && a.inFlight == 0 {
        items := items[key := Attempt(now, 1, 0)];
        return;
      }
      items := items[key := a.(failures := a.failures + 1)];
    }

    method Success(key: string)
      modifies this
      ensures items == old(items) - {key}
    {
      items := items - {key};
    }
  }

  // ---------------------------------------------------------------- runs

  datatype Event =
    | Acquire(key: string, now: int)
    | Release(key: string, success: bool)
    | Allowed(key: string, now: int)
    | Failure(key: string, now: int)
    | Success(key: string)

  /** What an operation did for its key: opened a window, granted a slot, charged it. */
  datatype Record = Record(key: string, now: int, newWindow: bool, granted: bool, charged: bool)

  /** `open` counts the slots of each key that were not released yet. */
  datatype World = World(items: Items, open: map<string, int>, clock: int, log: seq<Record>)

  function Open(w: World, key: string): int {
    if key in w.open then w.open[key] else 0
  }

  function Later(clock: int, now: int): int {
    if now > clock then now else clock
  }

  /** One operation. Releasing without an open slot is the second call of a release
      function, which does nothing. */
  function Step(config: Config, w: World, e: Event): World {
    match e
    case Acquire(key, now) =>
      var granted := MayAcquire(config, w.items, key, now);
      World(Acquired(config, w.items, key, now),
            if granted then w.open[key := Open(w, key) + 1] else w.open,
            Later(w.clock, now),
            w.log + [Record(key, now, Opens(config, w.items, key, now), granted, granted)])
    case Release(key, success) =>
      if Open(w, key) <= 0 then w
      else w.(items := Released(w.items, key, success), open := w.open[key := Open(w, key) - 1])
    case Allowed(key, now) => w.(items := Asked(config, w.items, key, now), clock := Later(w.clock, now))
    case Failure(key, now) =>
      w.(items := Failed(config, w.items, key, now), clock := Later(w.clock, now),
         log := w.log + [Record(key, now, Opens(config, w.items, key, now), false, !Full(config, w.items, key, now))])
    case Success(key) => w.(items := w.items - {key})
  }

  const START := World(map[], map[], 0, [])

  function Run(config: Config, events: seq<Event>): World {
    if events == [] then START else Step(config, Run(config, events[..|events| - 1]), events[|events| - 1])
  }

  // ---------------------------------------------------------------- all runs

  lemma {:induction false} SubsetSize<T>(a: set<T>, b: set<T>)
    requires a <= b
    ensures |a| <= |b|
  {
    if a != {} {
      var x :| x in a;
      SubsetSize(a - {x}, b - {x});
    }
  }

  lemma PruneShrinks(config: Config, items: Items, now: int)
    ensures |Prune(config, items, now)| <= |items|
  {
    SubsetSize(Prune(config, items, now).Keys, items.Keys);
    assert |Prune(config, items, now)| == |Prune(config, items, now).Keys|;
    assert |items| == |items.Keys|;
  }

  lemma EnteredFits(config: Config, items: Items, key: string, now: int)
    requires |items| <= config.maxItems
    ensures |Entered(config, items, key, now)| <= config.maxItems && |Room(config, items, now)| <= config.maxItems
  {
    PruneShrinks(config, items, now);
  }

  lemma AcquiredFits(config: Config, items: Items, key: string, now: int)
    requires |items| <= config.maxItems
    ensures |Acquired(config, items, key, now)| <= config.maxItems
  {
    hide Entered, Room, Expired;
    EnteredFits(config, items, key, now);
    var entered := Entered(config, items, key, now);
    if MayAcquire(config, items, key, now) {
      EnteredHas(config, items, key, now);
    }
  }

  lemma FailedFits(config: Config, items: Items, key: string, now: int)
    requires |items| <= config.maxItems
    ensures |Failed(config, items, key, now)| <= config.maxItems
  {
    hide Entered, Room, Expired;
    EnteredFits(config, items, key, now);
    var entered := Entered(config, items, key, now);
    if !Full(config, items, key, now) {
      EnteredHas(config, items, key, now);
    }
  }

  lemma EnteredHas(config: Config, items: Items, key: string, now: int)
    requires !Full(config, items, key, now)
    ensures key in Entered(config, items, key, now)
  {
  }

  lemma ReleasedFits(items: Items, key: string, success: bool)
    ensures |Released(items, key, success)| <= |items|
  {
  }

  lemma StepFits(config: Config, w: World, e: Event)
    requires |w.items| <= config.maxItems
    ensures |Step(config, w, e).items| <= config.maxItems
  {
    hide Acquired, Failed, Released, Expired, MayAcquire;
    match e {
      case Acquire(key, now) => AcquiredFits(config, w.items, key, now);
      case Release(key, success) => ReleasedFits(w.items, key, success);
      case Allowed(key, now) =>
      case Failure(key, now) => FailedFits(config, w.items, key, now);
      case Success(key) =>
    }
  }

  /** The map never holds more than `maxItems` keys. */
  lemma {:induction false} MapNeverOverflows(config: Config, events: seq<Event>)
    ensures |Run(config, events).items| <= config.maxItems
  {
    hide Step;
    if events != [] {
      MapNeverOverflows(config, events[..|events| - 1]);
      StepFits(config, Run(config, events[..|events| - 1]), events[|events| - 1]);
    }
  }

  predicate SucceedsFor(e: Event, key: string) {
    (e.Success? && e.key == key) || (e.Release? && e.key == key && e.success)
  }

  function TimeOf(e: Event, clock: int): int {
    if e.Acquire? || e.Allowed? || e.Failure? then e.now else clock
  }

  /** An entry that is unexpired or in flight is removed or restarted by nothing but a
      success of its own key, and its failures are never forgotten. */
  lemma EntriesAreProtected(config: Config, w: World, e: Event, key: string)
    requires key in w.items && !Expired(config, w.items[key], TimeOf(e, w.clock)) && !SucceedsFor(e, key)
    ensures key in Step(config, w, e).items
    ensures Step(config, w, e).items[key].start == w.items[key].start
    ensures Step(config, w, e).items[key].failures >= w.items[key].failures
  {
  }

  // ---------------------------------------------------------------- grants in a window

  /** The charges and grants of a key since its latest window opened. */
  function Charges(log: seq<Record>, key: string): int {
    if log == [] then 0
    else
      var last := log[|log| - 1];
      if last.key != key then Charges(log[..|log| - 1], key)
      else (if last.charged then 1 else 0) + if last.newWindow then 0 else Charges(log[..|log| - 1], key)
  }

  function Grants(log: seq<Record>, key: string): int {
    if log == [] then 0
    else
      var last := log[|log| - 1];
      if last.key != key then Grants(log[..|log| - 1], key)
      else (if last.granted then 1 else 0) + if last.newWindow then 0 else Grants(log[..|log| - 1], key)
  }

  /** When the latest window of a key opened. */
  function Opening(log: seq<Record>, key: string): Option<int> {
    if log == [] then None
    else
      var last := log[|log| - 1];
      if last.key == key && last.newWindow then Some(last.now) else Opening(log[..|log| - 1], key)
  }

  function AtMost(config: Config): int {
    if config.max > 0 then 2 * config.max - 1 else 0
  }

  /** The slots granted in the window are counted by the entry, if there is one. */
  predicate Bounded(config: Config, w: World, key: string) {
    && 0 <= Grants(w.log, key) <= AtMost(config)
    && (key in w.items ==>
          var a := w.items[key]; a.failures >= 0 && a.inFlight >= 0 && Grants(w.log, key) <= a.failures + a.inFlight)
  }

  lemma AcquireBounds(config: Config, w: World, k: string, now: int, key: string)
    requires Bounded(config, w, key)
    ensures Bounded(config, Step(config, w, Acquire(k, now)), key)
  {
    hide Entered, Room, Full, Charges, Grants, Opening, Opens;
    EnteredOwn(config, w.items, k, now);
    if k != key { OthersStay(config, w.items, k, now, key); }
    var granted := MayAcquire(config, w.items, k, now);
    LogGrows(w.log, Record(k, now, Opens(config, w.items, k, now), granted, granted), key);
  }

  lemma FailureBounds(config: Config, w: World, k: string, now: int, key: string)
    requires Bounded(config, w, key)
    ensures Bounded(config, Step(config, w, Failure(k, now)), key)
  {
    hide Entered, Room, Full, Charges, Grants, Opening, Opens;
    EnteredOwn(config, w.items, k, now);
    if k != key { OthersStay(config, w.items, k, now, key); }
    LogGrows(w.log, Record(k, now, Opens(config, w.items, k, now), false, !Full(config, w.items, k, now)), key);
  }

  lemma {:induction false} RunIsBounded(config: Config, events: seq<Event>, key: string)
    ensures Bounded(config, Run(config, events), key)
  {
    hide Acquired, Failed, Grants, MayAcquire, Opens, Full;
    if events == [] {
      NothingGranted(key);
    } else {
      var before := events[..|events| - 1];
      RunIsBounded(config, before, key);
      match events[|events| - 1] {
        case Acquire(k, now) => AcquireBounds(config, Run(config, before), k, now, key);
        case Failure(k, now) => FailureBounds(config, Run(config, before), k, now, key);
        case Release(_, _) =>
        case Allowed(_, _) =>
        case Success(_) =>
      }
    }
  }

  /** The login bound: over every run, with successes and with a clock that steps back, the slots
      granted to a key in its window are never more than twice the maximum less one. */
  lemma GrantsAreBounded(config: Config, events: seq<Event>, key: string)
    ensures 0 <= Grants(Run(config, events).log, key) <= AtMost(config)
  {
    RunIsBounded(config, events, key);
  }

  lemma NothingGranted(key: string)
    ensures Grants(START.log, key) == 0
  {
  }

  // ---------------------------------------------------------------- runs without success

  /** The books of a key with an entry: the entry counts exactly the charges of its window,
      and its open slots are in flight. */
  predicate EntryBalanced(log: seq<Record>, open: int, key: string, a: Attempt) {
    && Opening(log, key) == Some(a.start)
    && a.failures >= 0 && a.inFlight >= 0 && a.inFlight == open
    && a.failures + a.inFlight == Charges(log, key)
    && Grants(log, key) <= Charges(log, key)
  }

  /** A key without an entry has no open slots and is past its window. */
  predicate AbsentBalanced(config: Config, log: seq<Record>, open: int, clock: int, key: string) {
    open == 0 && (Opening(log, key).Some? ==> clock - Opening(log, key).value > config.window)
  }

  predicate Balanced(config: Config, w: World, key: string) {
    if key in w.items then EntryBalanced(w.log, Open(w, key), key, w.items[key])
    else AbsentBalanced(config, w.log, Open(w, key), w.clock, key)
  }

  /** Windows of a key open more than a window apart. */
  predicate Spaced(config: Config, log: seq<Record>, key: string) {
    log == [] ||
    var last, before := log[|log| - 1], log[..|log| - 1];
    && Spaced(config, before, key)
    && (last.key == key && last.newWindow && Opening(before, key).Some? ==>
       last.now - Opening(before, key).value > config.window)
  }

  /** The clock is monotone and no login succeeds. */
  predicate Orderly(w: World, e: Event) {
    TimeOf(e, w.clock) >= w.clock && !e.Success? && (e.Release? ==> !e.success)
  }

  predicate OrderlyRun(config: Config, events: seq<Event>) {
    events == [] ||
    (OrderlyRun(config, events[..|events| - 1]) && Orderly(Run(config, events[..|events| - 1]), events[|events| - 1]))
  }

  lemma LogGrows(log: seq<Record>, r: Record, key: string)
    ensures r.key != key ==> Charges(log + [r], key) == Charges(log, key) && Grants(log + [r], key) == Grants(log, key)
    ensures r.key == key ==>
              Charges(log + [r], key) == (if r.charged then 1 else 0) + if r.newWindow then 0 else Charges(log, key)
    ensures r.key == key ==>
              Grants(log + [r], key) == (if r.granted then 1 else 0) + if r.newWindow then 0 else Grants(log, key)
    ensures Opening(log + [r], key) == if r.key == key && r.newWindow then Some(r.now) else Opening(log, key)
  {
    assert (log + [r])[..|log + [r]| - 1] == log;
  }

  lemma SpacedGrows(config: Config, log: seq<Record>, r: Record, key: string)
    requires Spaced(config, log, key)
    requires r.key == key && r.newWindow && Opening(log, key).Some? ==> r.now - Opening(log, key).value > config.window
    ensures Spaced(config, log + [r], key)
  {
    assert (log + [r])[..|log + [r]| - 1] == log;
  }

  /** Another key is at most pruned. */
  lemma OthersStay(config: Config, items: Items, key: string, now: int, other: string)
    requires other != key
    ensures other in Entered(config, items, key, now) ==>
            other in items && Entered(config, items, key, now)[other] == items[other]
    ensures other in items && other !in Entered(config, items, key, now) ==> Expired(config, items[other], now)
    ensures other in Room(config, items, now) ==> other in items && Room(config, items, now)[other] == items[other]
    ensures other in items && other !in Room(config, items, now) ==> Expired(config, items[other], now)
  {
  }

  lemma AcquireOther(config: Config, w: World, key: string, now: int, other: string)
    requires other != key && now >= w.clock && Balanced(config, w, other) && Spaced(config, w.log, other)
    ensures Balanced(config, Step(config, w, Acquire(key, now)), other) &&
            Spaced(config, Step(config, w, Acquire(key, now)).log, other)
  {
    hide Entered, Room, Full, Charges, Grants, Opening, Spaced, Opens, MayAcquire;
    OthersStay(config, w.items, key, now, other);
    var granted := MayAcquire(config, w.items, key, now);
    var r := Record(key, now, Opens(config, w.items, key, now), granted, granted);
    LogGrows(w.log, r, other);
    SpacedGrows(config, w.log, r, other);
  }

  lemma FailureOther(config: Config, w: World, key: string, now: int, other: string)
    requires other != key && now >= w.clock && Balanced(config, w, other) && Spaced(config, w.log, other)
    ensures Balanced(config, Step(config, w, Failure(key, now)), other) &&
            Spaced(config, Step(config, w, Failure(key, now)).log, other)
  {
    hide Entered, Room, Full, Charges, Grants, Opening, Spaced, Opens;
    OthersStay(config, w.items, key, now, other);
    var r := Record(key, now, Opens(config, w.items, key, now), false, !Full(config, w.items, key, now));
    LogGrows(w.log, r, other);
    SpacedGrows(config, w.log, r, other);
    if !Full(config, w.items, key, now) { EnteredHas(config, w.items, key, now); }
  }

  /** What entering does for the key itself. */
  lemma EnteredOwn(config: Config, items: Items, key: string, now: int)
    ensures Full(config, items, key, now) ==>
            key !in items && key !in Room(config, items, now) && !Opens(config, items, key, now)
    ensures !Full(config, items, key, now) ==>
              && key in Entered(config, items, key, now)
              && (Opens(config, items, key, now) ==> Entered(config, items, key, now)[key] == Attempt(now, 0, 0))
              && (!Opens(config, items, key, now) ==>
                 key in items && Entered(config, items, key, now)[key] == items[key])
              && (Opens(config, items, key, now) && key in items ==> Expired(config, items[key], now))
    ensures Full(config, items, key, now) ==> Entered(config, items, key, now) == Room(config, items, now)
  {
  }

  lemma AcquireOwn(config: Config, w: World, key: string, now: int)
    requires now >= w.clock && Balanced(config, w, key) && Spaced(config, w.log, key)
    ensures Balanced(config, Step(config, w, Acquire(key, now)), key) &&
            Spaced(config, Step(config, w, Acquire(key, now)).log, key)
  {
    hide Entered, Room, Full, Charges, Grants, Opening, Spaced, Opens;
    EnteredOwn(config, w.items, key, now);
    var granted := MayAcquire(config, w.items, key, now);
    var r := Record(key, now, Opens(config, w.items, key, now), granted, granted);
    LogGrows(w.log, r, key);
    SpacedGrows(config, w.log, r, key);
  }

  lemma FailureOwn(config: Config, w: World, key: string, now: int)
    requires now >= w.clock && Balanced(config, w, key) && Spaced(config, w.log, key)
    ensures Balanced(config, Step(config, w, Failure(key, now)), key) &&
            Spaced(config, Step(config, w, Failure(key, now)).log, key)
  {
    hide Entered, Room, Full, Charges, Grants, Opening, Spaced, Opens;
    EnteredOwn(config, w.items, key, now);
    var r := Record(key, now, Opens(config, w.items, key, now), false, !Full(config, w.items, key, now));
    LogGrows(w.log, r, key);
    SpacedGrows(config, w.log, r, key);
  }

  lemma StepBalances(config: Config, w: World, e: Event, key: string)
    requires Orderly(w, e) && Balanced(config, w, key) && Spaced(config, w.log, key)
    ensures Balanced(config, Step(config, w, e), key) && Spaced(config, Step(config, w, e).log, key)
  {
    hide Charges, Grants, Opening, Spaced, Acquired, Failed, MayAcquire, Opens, Full;
    match e {
      case Acquire(k, now) =>
        if k == key { AcquireOwn(config, w, k, now); } else { AcquireOther(config, w, k, now, key); }
      case Failure(k, now) =>
        if k == key { FailureOwn(config, w, k, now); } else { FailureOther(config, w, k, now, key); }
      case Release(k, success) =>
      case Allowed(k, now) =>
    }
  }

  lemma {:induction false} RunBalances(config: Config, events: seq<Event>, key: string)
    requires OrderlyRun(config, events)
    ensures Balanced(config, Run(config, events), key) && Spaced(config, Run(config, events).log, key)
  {
    hide Step, Balanced, Spaced, Orderly;
    if events == [] {
      StartBalances(config, key);
    } else {
      RunBalances(config, events[..|events| - 1], key);
      StepBalances(config, Run(config, events[..|events| - 1]), events[|events| - 1], key);
    }
  }

  lemma StartBalances(config: Config, key: string)
    ensures Balanced(config, START, key) && Spaced(config, START.log, key)
  {
  }

  predicate OnlyAcquires(events: seq<Event>) {
    forall i | 0 <= i < |events| :: !events[i].Failure?
  }

  lemma {:induction false} ChargesAreGrants(config: Config, events: seq<Event>, key: string)
    requires OnlyAcquires(events)
    ensures Charges(Run(config, events).log, key) == Grants(Run(config, events).log, key)
  {
    hide Acquired, Released, Asked, MayAcquire, Opens;
    if events != [] {
      var before, last := events[..|events| - 1], events[|events| - 1];
      ChargesAreGrants(config, before, key);
      if last.Acquire? {
        var w := Run(config, before);
        var granted := MayAcquire(config, w.items, last.key, last.now);
        LogGrows(w.log, Record(last.key, last.now, Opens(config, w.items, last.key, last.now), granted, granted), key);
      }
    }
  }

  /** Where slots are only taken and given back after failures, an entry's failures and attempts
      in flight are exactly the slots granted in its window. */
  lemma FailuresAndFlightsAreGrants(config: Config, events: seq<Event>, key: string)
    requires OrderlyRun(config, events) && OnlyAcquires(events) && key in Run(config, events).items
    ensures var w := Run(config, events); w.items[key].failures + w.items[key].inFlight == Grants(w.log, key)
  {
    RunBalances(config, events, key);
    ChargesAreGrants(config, events, key);
  }

  lemma {:induction false} LaterOpening(config: Config, log: seq<Record>, key: string, i: nat)
    requires config.window >= 0 && Spaced(config, log, key) && i < |log| && log[i].key == key && log[i].newWindow
    ensures Opening(log, key).Some? && Opening(log, key).value >= log[i].now
    decreases |log|
  {
    if i < |log| - 1 {
      LaterOpening(config, log[..|log| - 1], key, i);
    }
  }

  /** Two windows of one key start more than a window apart. */
  lemma {:induction false} WindowsAreApart(config: Config, log: seq<Record>, key: string, i: nat, j: nat)
    requires config.window >= 0 && Spaced(config, log, key) && i < j < |log|
    requires log[i].key == key && log[i].newWindow && log[j].key == key && log[j].newWindow
    ensures log[j].now - log[i].now > config.window
    decreases |log|
  {
    var before := log[..|log| - 1];
    if j < |log| - 1 {
      WindowsAreApart(config, before, key, i, j);
    } else {
      LaterOpening(config, before, key, i);
    }
  }

  /** The balance needs the condition on successes: a success forgets the entry, so an older slot
      given back afterwards is taken off a newer one, which is then not counted. */
  lemma SuccessForgetsSlots(config: Config, key: string)
    requires config.max >= 2 && config.maxItems >= 1 && config.window >= 0
    ensures var w := Run(config, [Acquire(key, 0), Acquire(key, 0), Release(key, true), Acquire(key, 0),
            Release(key, false)]);
            Open(w, key) == 1 && key in w.items && w.items[key].inFlight == 0
  {
    hide Run;
    var take, succeed, fail := Acquire(key, 0), Release(key, true), Release(key, false);
    RunSnoc(config, [], take);
    RunSnoc(config, [take], take);
    RunSnoc(config, [take, take], succeed);
    RunSnoc(config, [take, take, succeed], take);
    RunSnoc(config, [take, take, succeed, take], fail);
    RunNothing(config);
    assert [] + [take] == [take] && [take] + [take] == [take, take] &&
        [take, take] + [succeed] == [take, take, succeed];
    assert [take, take, succeed] + [take] == [take, take, succeed, take];
    assert [take, take, succeed, take] + [fail] == [take, take, succeed, take, fail];
    var w1 := Step(config, START, take);
    assert w1.items == map[key := Attempt(0, 0, 1)] && Open(w1, key) == 1;
    var w2 := Step(config, w1, take);
    assert w2.items == map[key := Attempt(0, 0, 2)] && Open(w2, key) == 2;
    var w3 := Step(config, w2, succeed);
    assert w3.items == map[] && Open(w3, key) == 1;
    var w4 := Step(config, w3, take);
    assert w4.items == map[key := Attempt(0, 0, 1)] && Open(w4, key) == 2;
  }

  lemma RunSnoc(config: Config, events: seq<Event>, e: Event)
    ensures Run(config, events + [e]) == Step(config, Run(config, events), e)
  {
    assert (events + [e])[..|events|] == events;
  }

  lemma RunNothing(config: Config)
    ensures Run(config, []) == START
  {
  }

  // ---------------------------------------------------------------- when a slot is granted

  lemma {:induction false} SomethingExpires(config: Config, items: Items, now: int)
    ensures |Prune(config, items, now)| < |items| <==> exists key | key in items :: Expired(config, items[key], now)
  {
    var pruned := Prune(config, items, now);
    assert |pruned| == |pruned.Keys| && |items| == |items.Keys|;
    if key :| key in items && Expired(config, items[key], now) {
      SubsetSize(pruned.Keys, items.Keys - {key});
    } else {
      assert pruned == items;
    }
  }

  /** A slot is granted exactly if the maximum is positive and, for a key in its window, neither
      failures nor attempts in flight have reached it; for a new key, if there is room for it or
      an entry whose window is over and that has nothing in flight makes room. */
  lemma GrantedExactly(config: Config, items: Items, key: string, now: int)
    requires |items| <= config.maxItems
    requires key in items ==> items[key].failures >= 0 && items[key].inFlight >= 0
    ensures MayAcquire(config, items, key, now) <==>
            && config.max > 0
            && if key in items && !(now - items[key].start > config.window && items[key].inFlight == 0) then
                 items[key].failures < config.max && items[key].inFlight < config.max
               else
                 || key in items || |items| < config.maxItems
                 || exists other | other in items ::
                      now - items[other].start > config.window && items[other].inFlight == 0
  {
    SomethingExpires(config, items, now);
    if key !in items && |items| >= config.maxItems {
      PruneShrinks(config, items, now);
    }
  }
}
