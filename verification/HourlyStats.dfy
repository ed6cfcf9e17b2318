/** Request statistics: hourly totals, hourly counters per mirror, and their pruning. */
module HourlyStats {
  const WORD := 0x1_0000_0000_0000_0000

  /** An unsigned 64-bit counter; adding wraps around. */
  type Word = x: int | 0 <= x < 0x1_0000_0000_0000_0000

  function Plus(a: Word, b: Word): Word {
    if a + b < WORD then a + b else a + b - WORD
  }

  datatype Counters = Counters(
    requests: Word,
    bytes: Word,
    upstreamBytes: Word,
    cacheBytes: Word,
    cacheHits: Word,
    cacheMisses: Word,
    upstreamErrors: Word,
    status2xx: Word,
    status3xx: Word,
    status4xx: Word,
    status5xx: Word)

  const NONE := Counters(0, 0, 0, 0, 0, 0, 0, 0, 0, 0, 0)

  function Merge(a: Counters, b: Counters): Counters {
    Counters(Plus(a.requests, b.requests), Plus(a.bytes, b.bytes), Plus(a.upstreamBytes, b.upstreamBytes),
             Plus(a.cacheBytes, b.cacheBytes), Plus(a.cacheHits, b.cacheHits), Plus(a.cacheMisses, b.cacheMisses),
             Plus(a.upstreamErrors, b.upstreamErrors), Plus(a.status2xx, b.status2xx), Plus(a.status3xx, b.status3xx),
             Plus(a.status4xx, b.status4xx), Plus(a.status5xx, b.status5xx))
  }

  /** One finished request. */
  datatype Request = Request(mirror: int, status: int, bytes: Word, upstreamBytes: Word, cacheBytes: Word,
      cacheStatus: string, upstreamError: bool)

  function Bit(b: bool): Word {
    if b then 1 else 0
  }

  /** `add` merges the counters of one request; Go's division drops the remainder. */
  function One(r: Request): Counters {
    var statusClass := if r.status >= 0 then r.status / 100 else -(-r.status / 100);
    Counters(1, r.bytes, r.upstreamBytes, r.cacheBytes,
             Bit(r.cacheStatus == "HIT" || r.cacheStatus == "VALIDATOR" || r.cacheStatus == "ACCEL"),
             Bit(r.cacheStatus == "MISS"),
             Bit(r.upstreamError), Bit(statusClass == 2), Bit(statusClass == 3), Bit(statusClass == 4),
             Bit(statusClass == 5))
  }

  lemma PlusLaws(a: Word, b: Word, c: Word)
    ensures Plus(a, b) == Plus(b, a) && Plus(Plus(a, b), c) == Plus(a, Plus(b, c)) && Plus(a, 0) == a
  {
  }

  lemma MergeLaws(a: Counters, b: Counters, c: Counters)
    ensures Merge(a, b) == Merge(b, a) && Merge(Merge(a, b), c) == Merge(a, Merge(b, c)) && Merge(a, NONE) == a
  {
    hide Plus;
    PlusLaws(a.requests, b.requests, c.requests);
    PlusLaws(a.bytes, b.bytes, c.bytes);
    PlusLaws(a.upstreamBytes, b.upstreamBytes, c.upstreamBytes);
    PlusLaws(a.cacheBytes, b.cacheBytes, c.cacheBytes);
    PlusLaws(a.cacheHits, b.cacheHits, c.cacheHits);
    PlusLaws(a.cacheMisses, b.cacheMisses, c.cacheMisses);
    PlusLaws(a.upstreamErrors, b.upstreamErrors, c.upstreamErrors);
    PlusLaws(a.status2xx, b.status2xx, c.status2xx);
    PlusLaws(a.status3xx, b.status3xx, c.status3xx);
    PlusLaws(a.status4xx, b.status4xx, c.status4xx);
    PlusLaws(a.status5xx, b.status5xx, c.status5xx);
  }

  // ---------------------------------------------------------------- sums of counters

  /** The counters of all keys together. */
  ghost function Together<K>(m: map<K, Counters>): Counters {
    if m == map[] then NONE
    else
      var k :| k in m;
      Merge(m[k], Together(m - {k}))
  }

  lemma NothingTogether<K>()
    ensures Together<K>(map[]) == NONE
  {
  }

  lemma {:induction false} TakeOne<K>(m: map<K, Counters>, k: K)
    requires k in m
    ensures Together(m) == Merge(m[k], Together(m - {k}))
    decreases |m|
  {
    hide Merge;
    var first :| first in m && Together(m) == Merge(m[first], Together(m - {first}));
    if first != k {
      TakeOne(m - {first}, k);
      TakeOne(m - {k}, first);
      assert m - {first} - {k} == m - {k} - {first};
      var rest := Together(m - {first} - {k});
      MergeLaws(m[first], m[k], rest);
      MergeLaws(m[k], m[first], rest);
    }
  }

  function CountersAt<K>(m: map<K, Counters>, key: K): Counters {
    if key in m then m[key] else NONE
  }

  /** Merging into one key's counters merges into the sum. */
  lemma MergedInto<K>(m: map<K, Counters>, k: K, c: Counters)
    ensures Together(m[k := Merge(CountersAt(m, k), c)]) == Merge(Together(m), c)
  {
    hide Merge;
    var after := m[k := Merge(CountersAt(m, k), c)];
    TakeOne(after, k);
    assert after - {k} == m - {k};
    var rest := Together(m - {k});
    if k in m {
      TakeOne(m, k);
      MergeLaws(m[k], c, rest);
      MergeLaws(m[k], rest, c);
      MergeLaws(c, rest, rest);
    } else {
      assert m - {k} == m;
      MergeLaws(NONE, c, c);
      MergeLaws(c, NONE, c);
      MergeLaws(c, rest, c);
    }
  }

  // ---------------------------------------------------------------- the statistics

  /** Hours since some midnight; the total is kept for 25 of them, the mirrors for 8 days. */
  const TOTAL_HOURS := 25
  const MIRROR_HOURS := 8 * 24

  datatype Persistent = Persistent(hour: int, mirror: int, counters: Counters)

  type Hourly = map<int, Counters>
  type ByMirror = map<int, map<int, Counters>>

  function Prune<T>(m: map<int, T>, cutoff: int): map<int, T> {
    map hour | hour in m && hour >= cutoff :: m[hour]
  }

  function MirrorsAt(m: ByMirror, hour: int): map<int, Counters> {
    if hour in m then m[hour] else map[]
  }

  class Stats {
    var hourly: Hourly
    var hourlyById: ByMirror

    constructor ()
      ensures hourly == map[] && hourlyById == map[]
    {
      hourly, hourlyById := map[], map[];
    }

    /** At hour `now` every hourly total still kept is the sum over the mirrors of that hour,
        and an hour recent enough to be kept has its total. */
    ghost predicate Valid(now: int)
      reads this
    {
      Adds(hourly, hourlyById, now)
    }

    /** Restores the stored counters into an empty object; a stored hour and mirror occur
        once. */
    method Load(records: seq<Persistent>, now: int)
      requires hourly == map[] && hourlyById == map[]
      requires forall i, j | 0 <= i < j < |records| ::
               (records[i].hour, records[i].mirror) != (records[j].hour, records[j].mirror)
      modifies this
      ensures Valid(now)
      ensures forall r | r in records ::
              r.mirror in MirrorsAt(hourlyById, r.hour) && MirrorsAt(hourlyById, r.hour)[r.mirror] == r.counters
    {
      hide Merge, Together;
      for i := 0 to |records|
        invariant AllAdd(hourly, hourlyById)
        invariant forall k | 0 <= k < i :: records[k].mirror in MirrorsAt(hourlyById, records[k].hour)
                                           && MirrorsAt(hourlyById, records[k].hour)[records[k].mirror] ==
                                              records[k].counters
        invariant forall hour, mirror :: mirror in MirrorsAt(hourlyById, hour) ==> Stored(records[..i], hour, mirror)
      {
        var r := records[i];
        var mirrors := MirrorsAt(hourlyById, r.hour);
        assert !Stored(records[..i], r.hour, r.mirror);
        assert r.mirror !in mirrors;
        MergeLaws(r.counters, NONE, NONE);
        MergeLaws(NONE, r.counters, NONE);
        MergedInto(mirrors, r.mirror, r.counters);
        NothingTogether<int>();
        ghost var known := hourlyById;
        hourly := hourly[r.hour := Merge(CountersAt(hourly, r.hour), r.counters)];
        hourlyById := hourlyById[r.hour := mirrors[r.mirror := r.counters]];
        forall hour, mirror | mirror in MirrorsAt(hourlyById, hour) ensures Stored(records[..i + 1], hour, mirror) {
          if mirror in MirrorsAt(known, hour) {
            assert Stored(records[..i], hour, mirror);
          }
        }
      }
    }

    /** Counts one request in its hour and forgets what is too old. */
    method Record(r: Request, now: int, ghost before: int)
      requires Valid(before) && before <= now
      modifies this
      ensures Valid(now)
      ensures hourly == Prune(old(hourly)[now := Merge(CountersAt(old(hourly), now), One(r))], now - 25)
      ensures var mirrors := MirrorsAt(old(hourlyById), now);
              var counted := mirrors[r.mirror := Merge(CountersAt(mirrors, r.mirror), One(r))];
              hourlyById == Prune(old(hourlyById)[now := counted], now - 192)
    {
      hide Merge, One, Adds;
      var mirrors := MirrorsAt(hourlyById, now);
      StillAdds(hourly, hourlyById, before, now, r.mirror, One(r));
      hourly := hourly[now := Merge(CountersAt(hourly, now), One(r))];
      hourlyById := hourlyById[now := mirrors[r.mirror := Merge(CountersAt(mirrors, r.mirror), One(r))]];
      hourly := PruneCounters(hourly, now - TOTAL_HOURS);
      hourlyById := PruneCounters(hourlyById, now - MIRROR_HOURS);
    }
  }

  method Pick<T(==)>(s: set<T>) returns (x: T)
    requires s != {}
    ensures x in s
  {
    x :| x in s;
  }

  method PruneCounters<T>(values: map<int, T>, cutoff: int) returns (kept: map<int, T>)
    ensures kept == Prune(values, cutoff)
  {
    kept := values;
    var keys := values.Keys;
    while keys != {}
      invariant keys <= values.Keys
      invariant kept == map hour | hour in values && (hour in keys || hour >= cutoff) :: values[hour]
      decreases keys
    {
      var hour := Pick(keys);
      if hour < cutoff {
        kept := kept - {hour};
      }
      keys := keys - {hour};
    }
  }

  /** Every total adds up, and every hour with mirrors has a total. */
  ghost predicate AllAdd(hourly: Hourly, hourlyById: ByMirror) {
    && (forall hour | hour in hourly :: hour in hourlyById && hourly[hour] == Together(hourlyById[hour]))
    && (forall hour | hour in hourlyById :: hour in hourly)
  }

  ghost predicate Adds(hourly: Hourly, hourlyById: ByMirror, now: int) {
    && (forall hour | hour in hourly :: hour in hourlyById && hourly[hour] == Together(hourlyById[hour]))
    && (forall hour | hour in hourlyById && hour >= now - TOTAL_HOURS :: hour in hourly)
  }

  /** Counting something in the current hour and pruning both maps keeps the totals sums. */
  lemma StillAdds(hourly: Hourly, hourlyById: ByMirror, before: int, now: int, mirror: int, c: Counters)
    requires Adds(hourly, hourlyById, before) && before <= now
    ensures var mirrors := MirrorsAt(hourlyById, now);
            var counted := mirrors[mirror := Merge(CountersAt(mirrors, mirror), c)];
            Adds(Prune(hourly[now := Merge(CountersAt(hourly, now), c)], now - TOTAL_HOURS),
                 Prune(hourlyById[now := counted], now - MIRROR_HOURS), now)
  {
    hide Merge, Together;
    MergedInto(MirrorsAt(hourlyById, now), mirror, c);
    NothingTogether<int>();
  }

  ghost predicate Stored(records: seq<Persistent>, hour: int, mirror: int) {
    exists k | 0 <= k < |records| :: records[k].hour == hour && records[k].mirror == mirror
  }

  // ---------------------------------------------------------------- what the counters count

  /** The counters of the requests, added up one by one. */
  function Counted(requests: seq<Request>): Counters {
    if requests == [] then NONE else Merge(Counted(requests[..|requests| - 1]), One(requests[|requests| - 1]))
  }

  function HowMany(p: Request -> bool, requests: seq<Request>): nat {
    if requests == [] then 0
    else HowMany(p, requests[..|requests| - 1]) + if p(requests[|requests| - 1]) then 1 else 0
  }

  function Sum(f: Request -> int, requests: seq<Request>): int {
    if requests == [] then 0 else Sum(f, requests[..|requests| - 1]) + f(requests[|requests| - 1])
  }

  /** Each counter is the number, or the sum, that its name says, modulo 2^64. */
  lemma {:induction false} CountersCount(requests: seq<Request>)
    ensures var c := Counted(requests);
            && c.requests == |requests| % WORD
            && c.bytes == Sum((r: Request) => r.bytes, requests) % WORD
            && c.upstreamBytes == Sum((r: Request) => r.upstreamBytes, requests) % WORD
            && c.cacheBytes == Sum((r: Request) => r.cacheBytes, requests) % WORD
            && c.cacheHits == HowMany((r: Request) => r.cacheStatus in {"HIT", "VALIDATOR", "ACCEL"}, requests) % WORD
            && c.cacheMisses == HowMany((r: Request) => r.cacheStatus == "MISS", requests) % WORD
            && c.upstreamErrors == HowMany((r: Request) => r.upstreamError, requests) % WORD
            && c.status2xx == HowMany((r: Request) => 200 <= r.status < 300, requests) % WORD
            && c.status3xx == HowMany((r: Request) => 300 <= r.status < 400, requests) % WORD
            && c.status4xx == HowMany((r: Request) => 400 <= r.status < 500, requests) % WORD
            && c.status5xx == HowMany((r: Request) => 500 <= r.status < 600, requests) % WORD
  {
    hide Plus;
    if requests != [] {
      var before, last := requests[..|requests| - 1], requests[|requests| - 1];
      CountersCount(before);
      var c := Counted(before);
      PlusIsModular(c.requests, 1, |before|);
      PlusIsModular(c.bytes, last.bytes, Sum((r: Request) => r.bytes, before));
      PlusIsModular(c.upstreamBytes, last.upstreamBytes, Sum((r: Request) => r.upstreamBytes, before));
      PlusIsModular(c.cacheBytes, last.cacheBytes, Sum((r: Request) => r.cacheBytes, before));
      BitIsCounted(c.cacheHits, (r: Request) => r.cacheStatus in {"HIT", "VALIDATOR", "ACCEL"}, before, last);
      BitIsCounted(c.cacheMisses, (r: Request) => r.cacheStatus == "MISS", before, last);
      BitIsCounted(c.upstreamErrors, (r: Request) => r.upstreamError, before, last);
      BitIsCounted(c.status2xx, (r: Request) => 200 <= r.status < 300, before, last);
      BitIsCounted(c.status3xx, (r: Request) => 300 <= r.status < 400, before, last);
      BitIsCounted(c.status4xx, (r: Request) => 400 <= r.status < 500, before, last);
      BitIsCounted(c.status5xx, (r: Request) => 500 <= r.status < 600, before, last);
      OneByOne(last);
    }
  }

  lemma OneByOne(r: Request)
    ensures var one := One(r);
            && one.requests == 1 && one.bytes == r.bytes && one.upstreamBytes == r.upstreamBytes
            && one.cacheBytes == r.cacheBytes && one.cacheHits == Bit(r.cacheStatus in {"HIT", "VALIDATOR", "ACCEL"})
            && one.cacheMisses == Bit(r.cacheStatus == "MISS") && one.upstreamErrors == Bit(r.upstreamError)
            && one.status2xx == Bit(200 <= r.status < 300) && one.status3xx == Bit(300 <= r.status < 400)
            && one.status4xx == Bit(400 <= r.status < 500) && one.status5xx == Bit(500 <= r.status < 600)
  {
  }

  lemma PlusIsModular(counter: Word, more: Word, sum: int)
    requires counter == sum % WORD
    ensures Plus(counter, more) == (sum + more) % WORD
  {
  }

  lemma BitIsCounted(counter: Word, p: Request -> bool, before: seq<Request>, last: Request)
    requires counter == HowMany(p, before) % WORD
    ensures Plus(counter, Bit(p(last))) == HowMany(p, before + [last]) % WORD
  {
    assert (before + [last])[..|before|] == before;
    PlusIsModular(counter, Bit(p(last)), HowMany(p, before));
  }
}
