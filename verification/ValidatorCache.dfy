/** The bounded cache of metadata validators: insertion order, eviction and compaction, and
    what a hit means. */
module ValidatorCache {
  import opened Text

  datatype Entry = Entry(validator: string, expiresAt: int)

  datatype Cache = Cache(entries: map<string, Entry>, order: seq<string>)

  // ---------------------------------------------------------------- operations

  /** Drop the oldest names, and what they name, until the entries fit. */
  function Evict(maximum: nat, c: Cache): Cache
    decreases |c.order|
  {
    if |c.entries| > maximum && c.order != [] then Evict(maximum, Cache(c.entries - {c.order[0]}, c.order[1..])) else c
  }

  function Live(entries: map<string, Entry>, order: seq<string>): seq<string> {
    if order == [] then [] else (if order[0] in entries then [order[0]] else []) + Live(entries, order[1..])
  }

  function Compact(maximum: nat, c: Cache): Cache {
    if |c.order| > maximum * 2 then c.(order := Live(c.entries, c.order)) else c
  }

  function Added(c: Cache, key: string, entry: Entry): Cache {
    Cache(c.entries[key := entry], if key in c.entries then c.order else c.order + [key])
  }

  function Put(maximum: nat, c: Cache, key: string, entry: Entry): Cache {
    Compact(maximum, Evict(maximum, Added(c, key, entry)))
  }

  predicate Hits(c: Cache, key: string, now: int) {
    key in c.entries && c.entries[key].expiresAt > now
  }

  function Forget(c: Cache, key: string): Cache {
    c.(entries := c.entries - {key})
  }

  class MetadataValidators {
    const maximum: nat
    var entries: map<string, Entry>
    var order: seq<string>

    constructor (maximum: int)
      ensures this.maximum == (if maximum <= 0 then 2048 else maximum)
      ensures Contents() == Cache(map[], [])
    {
      this.maximum := if maximum <= 0 then 2048 else maximum;
      entries, order := map[], [];
    }

    function Contents(): Cache
      reads this
    {
      Cache(entries, order)
    }

    method Get(key: string, now: int) returns (entry: Option<Entry>)
      modifies this
      ensures entry == if Hits(old(Contents()), key, now) then Some(old(entries)[key]) else None
      ensures Contents() == if Hits(old(Contents()), key, now) then old(Contents()) else Forget(old(Contents()), key)
    {
      if key !in entries || entries[key].expiresAt <= now {
        entries := entries - {key};
        return None;
      }
      return Some(entries[key]);
    }

    method PutEntry(key: string, entry: Entry)
      modifies this
      ensures Contents() == Put(maximum, old(Contents()), key, entry)
    {
      if key !in entries {
        order := order + [key];
      }
      entries := entries[key := entry];
      ghost var added := Contents();
      while |entries| > maximum && |order| > 0
        invariant Evict(maximum, Contents()) == Evict(maximum, added)
        decreases |order|
      {
        var oldest := order[0];
        order := order[1..];
        entries := entries - {oldest};
      }
      if |order| > maximum * 2 {
        CompactOrder();
      }
    }

    /** The names that still name something are kept, in their order. */
    method CompactOrder()
      modifies this`order
      ensures order == Live(entries, old(order))
    {
      var compacted: seq<string> := [];
      for i := 0 to |order|
        invariant order == old(order) && compacted + Live(entries, order[i..]) == Live(entries, order)
      {
        assert order[i..][1..] == order[i + 1..];
        if order[i] in entries {
          compacted := compacted + [order[i]];
        }
      }
      assert order[|order|..] == [] && compacted + [] == compacted;
      order := compacted;
    }

    method Remove(key: string)
      modifies this
      ensures Contents() == Forget(old(Contents()), key)
    {
      entries := entries - {key};
    }
  }

  // ---------------------------------------------------------------- what every operation keeps

  /** Every stored key has its name in the order. */
  predicate Ordered(c: Cache) {
    forall key | key in c.entries :: key in c.order
  }

  predicate Valid(maximum: nat, c: Cache) {
    Ordered(c) && |c.entries| <= maximum
  }

  lemma {:induction false} LiveHas(entries: map<string, Entry>, order: seq<string>, key: string)
    ensures key in Live(entries, order) <==> key in order && key in entries
  {
    if order != [] {
      LiveHas(entries, order[1..], key);
      assert order == [order[0]] + order[1..];
    }
  }

  lemma {:induction false} EvictKeeps(maximum: nat, c: Cache)
    requires Ordered(c)
    ensures Ordered(Evict(maximum, c)) && |Evict(maximum, c).entries| <= maximum
    ensures forall key | key in Evict(maximum, c).entries ::
            key in c.entries && Evict(maximum, c).entries[key] == c.entries[key]
    decreases |c.order|
  {
    if |c.entries| > maximum && c.order != [] {
      assert c.order == [c.order[0]] + c.order[1..];
      EvictKeeps(maximum, Cache(c.entries - {c.order[0]}, c.order[1..]));
    }
  }

  /** After a put at most `maximum` entries are stored, each with its name in the order, and
      nothing is stored that was not there or put now. */
  lemma PutKeeps(maximum: nat, c: Cache, key: string, entry: Entry)
    requires Ordered(c)
    ensures Valid(maximum, Put(maximum, c, key, entry))
    ensures forall k | k in Put(maximum, c, key, entry).entries ::
              k in Added(c, key, entry).entries &&
                  Put(maximum, c, key, entry).entries[k] == Added(c, key, entry).entries[k]
  {
    hide Evict, Live;
    var added := Added(c, key, entry);
    EvictKeeps(maximum, added);
    var evicted := Evict(maximum, added);
    forall k | k in evicted.entries ensures k in Live(evicted.entries, evicted.order) {
      LiveHas(evicted.entries, evicted.order, k);
    }
  }

  // ---------------------------------------------------------------- runs

  datatype Event = PutEvent(key: string, entry: Entry) | GetEvent(key: string, now: int) | RemoveEvent(key: string)

  function Step(maximum: nat, c: Cache, e: Event): Cache {
    match e
    case PutEvent(key, entry) => Put(maximum, c, key, entry)
    case GetEvent(key, now) => if Hits(c, key, now) then c else Forget(c, key)
    case RemoveEvent(key) => Forget(c, key)
  }

  function Run(maximum: nat, events: seq<Event>): Cache {
    if events == [] then Cache(map[], []) else Step(maximum, Run(maximum, events[..|events| - 1]), events[|events| - 1])
  }

  /** What an unbounded map would hold: the latest put of the key with no remove since. */
  function Latest(events: seq<Event>, key: string): Option<Entry> {
    if events == [] then None
    else
      match events[|events| - 1]
      case PutEvent(k, entry) => if k == key then Some(entry) else Latest(events[..|events| - 1], key)
      case RemoveEvent(k) => if k == key then None else Latest(events[..|events| - 1], key)
      case GetEvent(_, _) => Latest(events[..|events| - 1], key)
  }

  lemma ForgetShrinks(c: Cache, key: string)
    ensures |Forget(c, key).entries| <= |c.entries|
  {
    var kept := Forget(c, key).entries;
    assert |kept| == |kept.Keys| && |c.entries| == |c.entries.Keys|;
    if key in c.entries {
      assert c.entries.Keys == kept.Keys + {key};
    } else {
      assert kept == c.entries;
    }
  }

  /** Over every run, across evictions and compactions, the cache stays within its bound and
      holds nothing an unbounded map would not hold: a hit is the latest put of its key, with
      no remove since, and not expired. */
  lemma {:induction false} HitsAreLatest(maximum: nat, events: seq<Event>, key: string, now: int)
    ensures Valid(maximum, Run(maximum, events))
    ensures key in Run(maximum, events).entries ==> Latest(events, key) == Some(Run(maximum, events).entries[key])
    ensures Hits(Run(maximum, events), key, now) ==>
            Latest(events, key).Some? && Latest(events, key).value.expiresAt > now
  {
    hide Put;
    if events != [] {
      var before, e := events[..|events| - 1], events[|events| - 1];
      HitsAreLatest(maximum, before, key, now);
      var c := Run(maximum, before);
      match e {
        case PutEvent(k, entry) => PutKeeps(maximum, c, k, entry);
        case GetEvent(k, n) => ForgetShrinks(c, k);
        case RemoveEvent(k) => ForgetShrinks(c, k);
      }
    }
  }

  // ---------------------------------------------------------------- who is evicted

  /** The first name in the order that still names something. */
  function FirstLive(c: Cache): Option<string>
    decreases |c.order|
  {
    if c.order == [] then None
    else if c.order[0] in c.entries then Some(c.order[0])
    else FirstLive(c.(order := c.order[1..]))
  }

  lemma EvictNothing(maximum: nat, c: Cache)
    requires |c.entries| <= maximum
    ensures Evict(maximum, c) == c
  {
  }

  lemma TakeOne(entries: map<string, Entry>, key: string)
    requires key in entries
    ensures |entries - {key}| == |entries| - 1
  {
    var smaller := entries - {key};
    assert |smaller| == |smaller.Keys| && |entries| == |entries.Keys| && entries.Keys == smaller.Keys + {key};
  }

  /** One entry too many: eviction takes exactly the first live name. */
  lemma {:induction false} EvictTakesFirstLive(maximum: nat, c: Cache)
    requires Ordered(c) && |c.entries| == maximum + 1
    ensures FirstLive(c).Some? && FirstLive(c).value in c.entries
    ensures Evict(maximum, c).entries == c.entries - {FirstLive(c).value}
    decreases |c.order|
  {
    if c.order != [] {
      var oldest, rest := c.order[0], c.order[1..];
      assert c.order == [oldest] + rest;
      if oldest in c.entries {
        TakeOne(c.entries, oldest);
        EvictNothing(maximum, Cache(c.entries - {oldest}, rest));
      } else {
        assert c.entries - {oldest} == c.entries;
        EvictTakesFirstLive(maximum, Cache(c.entries, rest));
      }
    }
  }

  lemma AddSize(entries: map<string, Entry>, key: string, entry: Entry)
    ensures |entries[key := entry]| == if key in entries then |entries| else |entries| + 1
  {
    assert entries[key := entry].Keys == entries.Keys + {key};
    assert |entries| == |entries.Keys| && |entries[key := entry]| == |entries[key := entry].Keys|;
  }

  /** What a put stores, in closed form: nothing is evicted unless the key is new and the
      cache is full; then exactly the first live name goes. */
  lemma PutEvictsExactly(maximum: nat, c: Cache, key: string, entry: Entry)
    requires Valid(maximum, c)
    ensures var added := Added(c, key, entry);
            if key in c.entries || |c.entries| < maximum then Put(maximum, c, key, entry).entries == added.entries
            else
              && FirstLive(added).Some?
              && Put(maximum, c, key, entry).entries == added.entries - {FirstLive(added).value}
  {
    hide Evict, FirstLive;
    var added := Added(c, key, entry);
    AddSize(c.entries, key, entry);
    if key in c.entries || |c.entries| < maximum {
      EvictNothing(maximum, added);
    } else {
      EvictTakesFirstLive(maximum, added);
    }
  }

  /** A key that was just put is stored exactly unless it is new, the cache is full, and a
      stale name of its own comes before every live name in the order. */
  lemma FreshKeySurvivesExactly(maximum: nat, c: Cache, key: string, entry: Entry)
    requires Valid(maximum, c)
    ensures key in Put(maximum, c, key, entry).entries <==>
            key in c.entries || |c.entries| < maximum || FirstLive(Added(c, key, entry)) != Some(key)
  {
    hide Put, FirstLive;
    PutEvictsExactly(maximum, c, key, entry);
    AddSize(c.entries, key, entry);
    if key !in c.entries && |c.entries| >= maximum {
      EvictTakesFirstLive(maximum, Added(c, key, entry));
    }
  }

  /** It does happen: a key removed and put again is evicted by its own stale name. */
  lemma StaleNameEvictsItsKey(a: string, b: string, entry: Entry)
    requires a != b
    ensures a !in Run(1, [PutEvent(a, entry), RemoveEvent(a), PutEvent(b, entry), PutEvent(a, entry)]).entries
  {
    var e1, e2, e3 := [PutEvent(a, entry)], [PutEvent(a, entry), RemoveEvent(a)],
        [PutEvent(a, entry), RemoveEvent(a), PutEvent(b, entry)];
    var e4 := [PutEvent(a, entry), RemoveEvent(a), PutEvent(b, entry), PutEvent(a, entry)];
    assert e1[..0] == [] && e2[..1] == e1 && e3[..2] == e2 && e4[..3] == e3;
    assert Run(1, e1) == Cache(map[a := entry], [a]);
    assert Run(1, e2) == Cache(map[], [a]);
    assert Run(1, e3) == Cache(map[b := entry], [a, b]) by { EvictNothing(1, Cache(map[b := entry], [a, b])); }
    var c := Cache(map[b := entry], [a, b]);
    assert Valid(1, c);
    assert Added(c, a, entry).order == [a, b, a];
    FreshKeySurvivesExactly(1, c, a, entry);
  }

  lemma {:induction false} LiveCounts(entries: map<string, Entry>, order: seq<string>, name: string)
    ensures multiset(Live(entries, order))[name] == if name in entries then multiset(order)[name] else 0
  {
    if order != [] {
      LiveCounts(entries, order[1..], name);
      assert order == [order[0]] + order[1..];
    }
  }

  /** Where nothing is evicted the order has the old names and a new one, and if these are more
      than twice the maximum, those of them that still name something. */
  lemma CompactsExactly(maximum: nat, c: Cache, key: string, entry: Entry)
    requires Valid(maximum, c) && (key in c.entries || |c.entries| < maximum)
    ensures var names, after := if key in c.entries then c.order else c.order + [key], Put(maximum, c, key, entry);
            && (|names| <= 2 * maximum ==> after.order == names)
            && (|names| > 2 * maximum ==>
                  forall name :: multiset(after.order)[name] ==
                                 if name in c.entries || name == key then multiset(names)[name] else 0)
  {
    hide Live;
    var added := Added(c, key, entry);
    AddSize(c.entries, key, entry);
    EvictNothing(maximum, added);
    forall name {
      LiveCounts(added.entries, added.order, name);
    }
  }

  lemma {:induction false} SmallerSet<T>(a: set<T>, b: set<T>)
    requires a <= b
    ensures |a| <= |b|
  {
    if a != {} {
      var x :| x in a;
      SmallerSet(a - {x}, b - {x});
    }
  }

  /** While no more keys are used than there is room for, the cache is the unbounded map: every
      unexpired entry put and not removed is hit. */
  lemma {:induction false} NothingIsLost(maximum: nat, events: seq<Event>, keys: set<string>, key: string, now: int)
    requires |keys| <= maximum
    requires forall e | e in events && e.PutEvent? :: e.key in keys
    requires forall e | e in events && e.GetEvent? :: e.now <= now
    ensures Run(maximum, events).entries.Keys <= keys
    ensures Hits(Run(maximum, events), key, now) <==>
            Latest(events, key).Some? && Latest(events, key).value.expiresAt > now
  {
    hide Put;
    HitsAreLatest(maximum, events, key, now);
    if events != [] {
      var before, e := events[..|events| - 1], events[|events| - 1];
      assert e in events && forall x | x in before :: x in events;
      NothingIsLost(maximum, before, keys, key, now);
      HitsAreLatest(maximum, before, key, now);
      if e.PutEvent? {
        var c := Run(maximum, before);
        PutEvictsExactly(maximum, c, e.key, e.entry);
        if e.key !in c.entries {
          SmallerSet(c.entries.Keys + {e.key}, keys);
          assert |c.entries.Keys + {e.key}| == |c.entries| + 1;
        }
        assert Run(maximum, events).entries == c.entries[e.key := e.entry];
      }
    }
  }
}
