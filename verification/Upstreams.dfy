/** The two ways the proxy picks the best upstream of a repository, and when they agree:
    the order in which all enabled upstreams are tried, and the search for the one that is
    active, status by status. Both prefer a better status, then the lower priority number. */
module Upstreams {
  import opened Text
  import opened Sorting
  import opened Redirects

  /** A host with its port, as it stands in a URL. */
  datatype Authority = Authority(host: string, port: string)

  datatype Upstream = Upstream(
    id: int,
    url: Url,
    authority: Option<Authority>,
    priority: int,
    enabled: bool,
    healthStatus: string)

  function StatusRank(status: string): int {
    if status == "healthy" then 0
    else if status == "" || status == "unknown" then 1
    else 2
  }

  predicate BetterUpstream(a: Upstream, b: Upstream) {
    var left, right := StatusRank(a.healthStatus), StatusRank(b.healthStatus);
    if left != right then left < right else a.priority < b.priority
  }

  function Enabled(values: seq<Upstream>): seq<Upstream> {
    Filter((u: Upstream) => u.enabled, values)
  }

  function OrderedRepositoryUpstreams(values: seq<Upstream>): seq<Upstream> {
    Sort(BetterUpstream, Enabled(values))
  }

  predicate HasStatus(u: Upstream, status: string) {
    (if u.healthStatus == "" then "unknown" else u.healthStatus) == status
  }

  /** The first candidate with this status. */
  function WithStatus(candidates: seq<Upstream>, status: string): Option<Upstream> {
    if candidates == [] then None
    else if HasStatus(candidates[0], status) then Some(candidates[0])
    else WithStatus(candidates[1..], status)
  }

  function Priority(u: Upstream): int {
    u.priority
  }

  function ByPriority(values: seq<Upstream>): seq<Upstream> {
    Sort(ByKey(Priority), Enabled(values))
  }

  /** `None` is the error. */
  function ActiveRepositoryUpstream(values: seq<Upstream>): Option<Upstream> {
    var candidates := ByPriority(values);
    if WithStatus(candidates, "healthy").Some? then WithStatus(candidates, "healthy")
    else if WithStatus(candidates, "unknown").Some? then WithStatus(candidates, "unknown")
    else WithStatus(candidates, "unhealthy")
  }

  // ---------------------------------------------------------------- the loops

  method EnabledUpstreams(values: seq<Upstream>) returns (candidates: seq<Upstream>)
    ensures candidates == Enabled(values)
  {
    var enabled := (u: Upstream) => u.enabled;
    candidates := [];
    for i := 0 to |values|
      invariant candidates == Filter(enabled, values[..i])
    {
      FilterSnoc(enabled, values, i);
      if values[i].enabled {
        candidates := candidates + [values[i]];
      }
    }
    assert values[..|values|] == values;
  }

  method SelectActiveUpstream(values: seq<Upstream>) returns (active: Option<Upstream>)
    ensures active == ActiveRepositoryUpstream(values)
  {
    hide HasStatus, Sort;
    var candidates := EnabledUpstreams(values);
    candidates := Sort(ByKey(Priority), candidates);
    var statuses := ["healthy", "unknown", "unhealthy"];
    for i := 0 to |statuses|
      invariant forall j | 0 <= j < i :: WithStatus(candidates, statuses[j]).None?
    {
      for k := 0 to |candidates|
        invariant WithStatus(candidates, statuses[i]) == WithStatus(candidates[k..], statuses[i])
      {
        if HasStatus(candidates[k], statuses[i]) {
          assert i > 0 ==> WithStatus(candidates, statuses[0]).None?;
          assert i > 1 ==> WithStatus(candidates, statuses[1]).None?;
          return Some(candidates[k]);
        }
        assert candidates[k..][1..] == candidates[k + 1..];
      }
    }
    assert WithStatus(candidates, statuses[0]).None? && WithStatus(candidates, statuses[1]).None? &&
        WithStatus(candidates, statuses[2]).None?;
    return None;
  }

  // ---------------------------------------------------------------- agreement

  function Holding(candidates: seq<Upstream>, status: string): seq<Upstream> {
    Filter((u: Upstream) => HasStatus(u, status), candidates)
  }

  lemma {:induction false} WithStatusIsFirst(candidates: seq<Upstream>, status: string)
    ensures WithStatus(candidates, status) ==
            if Holding(candidates, status) == [] then None else Some(Holding(candidates, status)[0])
  {
    if candidates != [] {
      WithStatusIsFirst(candidates[1..], status);
    }
  }

  lemma {:induction false} SortEmpty<T>(less: (T, T) -> bool, s: seq<T>)
    ensures Sort(less, s) == [] <==> s == []
  {
  }

  /** Sorting by priority and then taking the first of a status is taking the best of that
      status. */
  lemma BestOfStatus(candidates: seq<Upstream>, status: string)
    ensures WithStatus(Sort(ByKey(Priority), candidates), status) ==
            if Holding(candidates, status) == [] then None
            else Some(First(ByKey(Priority), Holding(candidates, status)))
  {
    hide HasStatus, Sort, First;
    var p := (u: Upstream) => HasStatus(u, status);
    WithStatusIsFirst(Sort(ByKey(Priority), candidates), status);
    FilterSort(p, Priority, candidates);
    SortEmpty(ByKey(Priority), Holding(candidates, status));
    if Holding(candidates, status) != [] {
      HeadOfSort(ByKey(Priority), Holding(candidates, status));
    }
  }

  lemma {:induction false} HoldingEmpty(candidates: seq<Upstream>, status: string)
    ensures Holding(candidates, status) == [] <==> forall i | 0 <= i < |candidates| :: !HasStatus(candidates[i], status)
  {
    hide HasStatus;
    if candidates != [] {
      HoldingEmpty(candidates[1..], status);
    }
  }

  lemma {:induction false} FirstIsBest(s: seq<Upstream>)
    requires s != []
    ensures First(BetterUpstream, s) in s && forall i | 0 <= i < |s| :: !BetterUpstream(s[i], First(BetterUpstream, s))
  {
    hide StatusRank;
    if |s| > 1 {
      FirstIsBest(s[1..]);
    }
  }

  lemma FilterCons<T>(p: T -> bool, s: seq<T>)
    requires s != []
    ensures Filter(p, s) == if p(s[0]) then [s[0]] + Filter(p, s[1..]) else Filter(p, s[1..])
  {
  }

  lemma LowerPriority(a: Upstream, b: Upstream)
    ensures ByKey(Priority)(a, b) <==> a.priority < b.priority
  {
    ByKeyCompares(Priority, a, b);
  }

  /** If the best candidate has this rank, it is the first by priority of those that do. */
  lemma {:induction false} BestOfRank(s: seq<Upstream>, p: Upstream -> bool, rank: int)
    requires s != [] && p(First(BetterUpstream, s))
    requires forall u :: p(u) ==> StatusRank(u.healthStatus) == rank
    ensures Filter(p, s) != [] && First(ByKey(Priority), Filter(p, s)) == First(BetterUpstream, s)
  {
    hide StatusRank, Filter;
    FilterCons(p, s);
    if |s| > 1 {
      var rest := First(BetterUpstream, s[1..]);
      if BetterUpstream(rest, s[0]) {
        BestOfRank(s[1..], p, rank);
        LowerPriority(rest, s[0]);
      } else {
        FirstIsBest(s[1..]);
        NoneBetter(s[1..], p, s[0]);
        var others := Filter(p, s[1..]);
        if others != [] {
          LowerPriority(First(ByKey(Priority), others), s[0]);
        }
      }
    } else {
      FilterNothing(p);
    }
  }

  lemma FilterNothing<T>(p: T -> bool)
    ensures Filter(p, []) == []
  {
  }

  lemma {:induction false} NoneBetter(s: seq<Upstream>, p: Upstream -> bool, x: Upstream)
    requires forall i | 0 <= i < |s| && p(s[i]) :: s[i].priority >= x.priority
    ensures Filter(p, s) != [] ==> First(ByKey(Priority), Filter(p, s)).priority >= x.priority
  {
    if s != [] {
      NoneBetter(s[1..], p, x);
      if p(s[0]) {
        assert Filter(p, s)[1..] == Filter(p, s[1..]);
      } else {
        assert Filter(p, s) == Filter(p, s[1..]);
      }
    }
  }

  predicate Known(status: string) {
    status == "" || status == "unknown" || status == "healthy" || status == "unhealthy"
  }

  lemma {:induction false} FirstIn<T>(less: (T, T) -> bool, s: seq<T>)
    requires s != []
    ensures exists i | 0 <= i < |s| :: s[i] == First(less, s)
  {
    if |s| > 1 {
      FirstIn(less, s[1..]);
      var i :| 0 <= i < |s| - 1 && s[1..][i] == First(less, s[1..]);
      assert s[i + 1] == First(less, s) || s[0] == First(less, s);
    } else {
      assert s[0] == First(less, s);
    }
  }

  lemma {:induction false} FilterHolds<T>(p: T -> bool, s: seq<T>)
    ensures forall i | 0 <= i < |Filter(p, s)| :: p(Filter(p, s)[i])
  {
    if s != [] {
      FilterHolds(p, s[1..]);
    }
  }

  /** If the best candidate has the status, it is the best of that status. */
  lemma BestHasStatus(candidates: seq<Upstream>, status: string)
    requires candidates != [] && HasStatus(First(BetterUpstream, candidates), status)
    requires status == "healthy" || status == "unknown" || status == "unhealthy"
    ensures WithStatus(Sort(ByKey(Priority), candidates), status) == Some(First(BetterUpstream, candidates))
  {
    hide First, Sort, Filter;
    BestOfStatus(candidates, status);
    BestOfRank(candidates, (u: Upstream) => HasStatus(u, status),
        StatusRank(First(BetterUpstream, candidates).healthStatus));
  }

  /** What is found has the status. */
  lemma FoundHasStatus(candidates: seq<Upstream>, status: string)
    ensures WithStatus(Sort(ByKey(Priority), candidates), status).Some? ==>
              HasStatus(WithStatus(Sort(ByKey(Priority), candidates), status).value, status)
    ensures WithStatus(Sort(ByKey(Priority), candidates), status).None? <==>
              forall i | 0 <= i < |candidates| :: !HasStatus(candidates[i], status)
  {
    hide First, Sort, HasStatus, Filter;
    BestOfStatus(candidates, status);
    HoldingEmpty(candidates, status);
    if Holding(candidates, status) != [] {
      FirstIn(ByKey(Priority), Holding(candidates, status));
      FilterHolds((u: Upstream) => HasStatus(u, status), candidates);
    }
  }

  /** The two selections agree exactly when the ordered list is empty or its head has one of
      the four statuses: then the active upstream is the head, and there is none exactly when
      the list is empty. */
  lemma SelectionsAgreeExactly(values: seq<Upstream>)
    ensures var ordered := OrderedRepositoryUpstreams(values);
            ActiveRepositoryUpstream(values) == (if ordered == [] then None else Some(ordered[0])) <==>
            ordered == [] || Known(ordered[0].healthStatus)
  {
    hide Sort, First, Filter, WithStatus;
    var candidates := Enabled(values);
    SortEmpty(BetterUpstream, candidates);
    FoundHasStatus(candidates, "healthy");
    FoundHasStatus(candidates, "unknown");
    FoundHasStatus(candidates, "unhealthy");
    if candidates != [] {
      HeadOfSort(BetterUpstream, candidates);
      FirstIsBest(candidates);
      var best := First(BetterUpstream, candidates);
      if HasStatus(best, "healthy") {
        BestHasStatus(candidates, "healthy");
      } else if HasStatus(best, "unknown") {
        BestHasStatus(candidates, "unknown");
      } else if HasStatus(best, "unhealthy") {
        BestHasStatus(candidates, "unhealthy");
      }
    }
  }

  /** There is no active upstream exactly when no enabled one has a known status. */
  lemma NoActiveExactly(values: seq<Upstream>)
    ensures ActiveRepositoryUpstream(values).None? <==>
            forall i | 0 <= i < |Enabled(values)| :: !Known(Enabled(values)[i].healthStatus)
  {
    hide Sort, Filter, WithStatus;
    FoundHasStatus(Enabled(values), "healthy");
    FoundHasStatus(Enabled(values), "unknown");
    FoundHasStatus(Enabled(values), "unhealthy");
  }

  /** On the statuses that are ever written the two always agree. */
  lemma KnownStatusesAgree(values: seq<Upstream>)
    requires forall i | 0 <= i < |values| :: Known(values[i].healthStatus)
    ensures var ordered := OrderedRepositoryUpstreams(values);
            ActiveRepositoryUpstream(values) == if ordered == [] then None else Some(ordered[0])
  {
    hide Sort, First, Filter, Known;
    var candidates := Enabled(values);
    SortEmpty(BetterUpstream, candidates);
    if candidates != [] {
      HeadOfSort(BetterUpstream, candidates);
      FirstIn(BetterUpstream, candidates);
      EnabledAreValues(values);
    }
    SelectionsAgreeExactly(values);
  }

  lemma EnabledAreValues(values: seq<Upstream>)
    ensures forall i | 0 <= i < |Enabled(values)| :: Enabled(values)[i] in values
  {
    forall i | 0 <= i < |Enabled(values)| ensures Enabled(values)[i] in values {
      FilterCounts((u: Upstream) => u.enabled, values, Enabled(values)[i]);
      assert Enabled(values)[i] in multiset(Enabled(values));
      assert Enabled(values)[i] in multiset(values);
    }
  }

  /** On another status they would not. */
  lemma UnknownStatusSeparates(u: Upstream)
    requires u.enabled && u.healthStatus == "degraded"
    ensures OrderedRepositoryUpstreams([u]) == [u] && ActiveRepositoryUpstream([u]) == None
  {
    FilterCons((x: Upstream) => x.enabled, [u]);
    assert [u][1..] == [];
    assert Enabled([u]) == [u] + [];
    SortEmpty(BetterUpstream, []);
    assert Sort(BetterUpstream, [u]) == Insert(BetterUpstream, u, []) == [u];
    NoActiveExactly([u]);
    assert u.healthStatus[0] == 'd';
  }

  // ---------------------------------------------------------------- the best upstream

  /** How an upstream stands: healthy before not yet checked before unhealthy. */
  function Standing(u: Upstream): int {
    if u.healthStatus == "healthy" then 0 else if u.healthStatus == "unhealthy" then 2 else 1
  }

  /** `u` is to be preferred to `v`: it stands better, or as well with a smaller priority number. */
  predicate Preferred(u: Upstream, v: Upstream) {
    Standing(u) < Standing(v) || (Standing(u) == Standing(v) && u.priority < v.priority)
  }

  /** Upstream `i` is enabled, no enabled one is preferred to it, and of those as good it is the
      first. */
  predicate IsBest(values: seq<Upstream>, i: nat)
    requires i < |values|
  {
    && values[i].enabled
    && (forall j | 0 <= j < |values| && values[j].enabled :: !Preferred(values[j], values[i]))
    && (forall j | 0 <= j < i && values[j].enabled :: Preferred(values[i], values[j]))
  }

  lemma {:induction false} FirstIsEarliest(s: seq<Upstream>) returns (i: nat)
    requires s != []
    ensures i < |s| && s[i] == First(BetterUpstream, s)
    ensures forall j | 0 <= j < |s| :: !BetterUpstream(s[j], s[i])
    ensures forall j | 0 <= j < i :: BetterUpstream(s[i], s[j])
  {
    if |s| == 1 {
      i := 0;
    } else {
      var k := FirstIsEarliest(s[1..]);
      assert forall j | 0 < j < |s| :: s[j] == s[1..][j - 1];
      i := if BetterUpstream(s[1..][k], s[0]) then k + 1 else 0;
    }
  }

  /** The upstreams before the `i`-th one kept by the filter, and that one itself. */
  lemma {:induction false} FilteredFrom(p: Upstream -> bool, s: seq<Upstream>, i: nat) returns (k: nat)
    requires i < |Filter(p, s)|
    ensures k < |s| && s[k] == Filter(p, s)[i] && p(s[k])
    ensures forall j | 0 <= j < k && p(s[j]) :: s[j] in Filter(p, s)[..i]
  {
    hide Filter;
    if s == [] { FilterNothing(p); }
    FilterCons(p, s);
    if p(s[0]) && i == 0 {
      k := 0;
    } else {
      var n := if p(s[0]) then i - 1 else i;
      var rest := FilteredFrom(p, s[1..], n);
      k := rest + 1;
      assert Filter(p, s)[..i] == (if p(s[0]) then [s[0]] else []) + Filter(p, s[1..])[..n];
      forall j | 0 <= j < k && p(s[j]) ensures s[j] in Filter(p, s)[..i] {
        assert j > 0 ==> s[j] == s[1..][j - 1];
      }
    }
  }

  lemma PreferredExactly(u: Upstream, v: Upstream)
    requires Known(u.healthStatus) && Known(v.healthStatus)
    ensures BetterUpstream(u, v) <==> Preferred(u, v)
  {
    assert "healthy"[0] != "unhealthy"[0] && "unknown"[2] != "unhealthy"[2];
  }

  /** On the statuses that are ever written, both selections give the best upstream, and none
      exactly if none is enabled. */
  lemma BestIsActive(values: seq<Upstream>)
    requires forall i | 0 <= i < |values| :: Known(values[i].healthStatus)
    ensures ActiveRepositoryUpstream(values).None? <==> forall i | 0 <= i < |values| :: !values[i].enabled
    ensures ActiveRepositoryUpstream(values).Some? ==>
              exists i :: 0 <= i < |values| && ActiveRepositoryUpstream(values).value == values[i] && IsBest(values, i)
  {
    hide Sort, First, Filter, Known, Preferred, BetterUpstream;
    var candidates := Enabled(values);
    var enabled := (u: Upstream) => u.enabled;
    KnownStatusesAgree(values);
    SortEmpty(BetterUpstream, candidates);
    forall i | 0 <= i < |values| ensures values[i].enabled <==> values[i] in candidates {
      FilterCounts(enabled, values, values[i]);
      assert values[i] in candidates <==> values[i] in multiset(candidates);
      assert values[i] in multiset(values);
    }
    if candidates != [] {
      HeadOfSort(BetterUpstream, candidates);
      var first := FirstIsEarliest(candidates);
      var i := FilteredFrom(enabled, values, first);
      EnabledAreValues(values);
      forall j | 0 <= j < |values| && values[j].enabled ensures !Preferred(values[j], values[i]) {
        var k :| 0 <= k < |candidates| && candidates[k] == values[j];
        PreferredExactly(values[j], values[i]);
      }
      forall j | 0 <= j < i && values[j].enabled ensures Preferred(values[i], values[j]) {
        var k :| 0 <= k < first && candidates[..first][k] == values[j];
        assert candidates[k] == values[j];
        PreferredExactly(values[i], values[j]);
      }
      assert IsBest(values, i);
      assert candidates[0] in candidates && candidates[0] in values;
    }
  }
}
