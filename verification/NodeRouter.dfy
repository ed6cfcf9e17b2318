/** Choosing the edge node that serves a request: the filters, the priority, and the weighted
    choice by hash. */
module NodeRouter {
  import opened Text
  import opened Sorting
  import opened Coordinator
  import EdgeSync

  const TWO_TO_THE_32 := 0x1_0000_0000

  type Word = x: int | 0 <= x < 0x1_0000_0000

  datatype Repository = Repository(slug: string, kind: string)

  /** A client network and its region; addresses are opaque. */
  datatype Network<!Address> = Network(contains: Address -> bool, region: string)

  datatype Choice = Selected(node: Node) | RegistryNotAllowed | NoAvailableEdge | DivisionByZero

  // ---------------------------------------------------------------- filters

  predicate Supports(node: Node, kind: string) {
    node.capabilities == [] || kind == "" || exists cap | cap in node.capabilities :: EqualFold(cap, kind)
  }

  predicate Eligible(node: Node, repository: Repository, fingerprint: string) {
    && node.enabled
    && (node.healthStatus == "healthy" || node.healthStatus == "degraded")
    && node.protocolVersion == EdgeSync.PROTOCOL_VERSION
    && fingerprint != "" && node.fingerprint == fingerprint
    && node.configStatus == "match"
    && NormalSlug(repository.slug) in node.repositoryHealth
    && node.repositoryHealth[NormalSlug(repository.slug)]
    && Supports(node, ToLower(TrimSpace(repository.kind)))
  }

  /** The region of the first network that contains the client. */
  function RegionOf<Address>(networks: seq<Network<Address>>, client: Option<Address>): string {
    if client.None? || networks == [] then ""
    else if networks[0].contains(client.value) then networks[0].region
    else RegionOf(networks[1..], client)
  }

  predicate InRegion(node: Node, region: string) {
    EqualFold(node.region, region)
  }

  /** Only the nodes of the region, if it has any. */
  function Regional(candidates: seq<Node>, region: string): seq<Node> {
    var inRegion := Filter((n: Node) => InRegion(n, region), candidates);
    if region != "" && inRegion != [] then inRegion else candidates
  }

  function MinPriority(candidates: seq<Node>): (least: int)
    requires candidates != []
  {
    if |candidates| == 1 then candidates[0].priority
    else
      var least := MinPriority(candidates[..|candidates| - 1]);
      var last := candidates[|candidates| - 1].priority;
      if last < least then last else least
  }

  function Preferred(candidates: seq<Node>): seq<Node> {
    if candidates == [] then [] else Filter((n: Node) => n.priority == MinPriority(candidates), candidates)
  }

  // ---------------------------------------------------------------- the weighted choice

  predicate NodeLess(a: Node, b: Node) {
    if a.priority != b.priority then a.priority < b.priority else a.id < b.id
  }

  function Weight(node: Node): (w: int)
    ensures w > 0
  {
    if node.weight <= 0 then 100 else node.weight
  }

  function Total(candidates: seq<Node>): (total: nat) {
    if candidates == [] then 0 else Total(candidates[..|candidates| - 1]) + Weight(candidates[|candidates| - 1])
  }

  /** The index of the candidate at `value` on the line where each candidate covers as much
      as it weighs. */
  function ChosenIndex(candidates: seq<Node>, value: nat): (k: nat)
    requires value < Total(candidates)
    ensures k < |candidates|
  {
    var n := |candidates| - 1;
    if value < Total(candidates[..n]) then ChosenIndex(candidates[..n], value) else n
  }

  /** What `% uint32(total)` divides by. */
  function Modulus(candidates: seq<Node>): (m: nat)
    ensures m <= Total(candidates)
  {
    Total(candidates) % TWO_TO_THE_32
  }

  function Weighted(candidates: seq<Node>, hash: Word): Choice
    requires candidates != []
  {
    if |candidates| == 1 then Selected(candidates[0])
    else
      var sorted := Sort(NodeLess, candidates);
      if Modulus(sorted) == 0 then DivisionByZero
      else Selected(sorted[ChosenIndex(sorted, hash % Modulus(sorted))])
  }

  function Select(nodes: seq<Node>, repository: Repository, fingerprint: string, region: string, hash: Word): Choice {
    if repository.kind == "docker-registry" || repository.kind == "oci-registry" then RegistryNotAllowed
    else
      var candidates := Filter((n: Node) => Eligible(n, repository, fingerprint), nodes);
      if candidates == [] then NoAvailableEdge
      else
        PreferredExist(Regional(candidates, region));
        Weighted(Preferred(Regional(candidates, region)), hash)
  }

  // ---------------------------------------------------------------- the router

  class Router<!Address> {
    const networks: seq<Network<Address>>
    /** Parses a client address; the hash of a text. */
    const parseIp: string -> Option<Address>
    const hash: string -> Word
    var nodes: seq<Node>

    constructor (networks: seq<Network<Address>>, parseIp: string -> Option<Address>, hash: string -> Word)
      ensures this.networks == networks && this.parseIp == parseIp && this.hash == hash && nodes == []
    {
      this.networks, this.parseIp, this.hash, nodes := networks, parseIp, hash, [];
    }

    /** The snapshot keeps everything about the nodes but their write credential. */
    method SetNodes(nodes: seq<Node>)
      modifies this
      ensures |this.nodes| == |nodes|
      ensures forall i | 0 <= i < |nodes| :: this.nodes[i] == nodes[i].(token := "")
    {
      var copied: seq<Node> := [];
      for i := 0 to |nodes|
        invariant |copied| == i && forall j | 0 <= j < i :: copied[j] == nodes[j].(token := "")
      {
        copied := copied + [nodes[i].(token := "")];
      }
      this.nodes := copied;
    }

    method SelectNode(clientIp: string, repository: Repository, fingerprint: string) returns (choice: Choice)
      ensures choice == Select(nodes, repository, fingerprint, RegionOf(networks, parseIp(TrimSpace(clientIp))),
                               hash(clientIp + ":" + repository.slug + ":" + fingerprint))
    {
      hide TrimSpace, ToLower, Eligible;
      if repository.kind == "docker-registry" || repository.kind == "oci-registry" {
        return RegistryNotAllowed;
      }
      var eligible := (n: Node) => Eligible(n, repository, fingerprint);
      var candidates: seq<Node> := [];
      for i := 0 to |nodes|
        invariant candidates == Filter(eligible, nodes[..i])
      {
        FilterSnoc(eligible, nodes, i);
        if Eligible(nodes[i], repository, fingerprint) {
          candidates := candidates + [nodes[i]];
        }
      }
      assert nodes[..|nodes|] == nodes;
      if candidates == [] {
        return NoAvailableEdge;
      }
      var ip := parseIp(TrimSpace(clientIp));
      var region := TargetRegion(ip);
      candidates := FilterByRegion(candidates, region);
      candidates := FilterByPriority(candidates);
      choice := ChooseByWeight(candidates, hash(clientIp + ":" + repository.slug + ":" + fingerprint));
    }

    method TargetRegion(ip: Option<Address>) returns (region: string)
      ensures region == RegionOf(networks, ip)
    {
      if ip.None? {
        return "";
      }
      for i := 0 to |networks|
        invariant RegionOf(networks, ip) == RegionOf(networks[i..], ip)
      {
        if networks[i].contains(ip.value) {
          return networks[i].region;
        }
      }
      return "";
    }
  }

  method FilterByRegion(candidates: seq<Node>, region: string) returns (result: seq<Node>)
    requires candidates != []
    ensures result == Regional(candidates, region) && result != []
  {
    result := candidates;
    if region != "" {
      var inRegion := (n: Node) => InRegion(n, region);
      var regionCandidates: seq<Node> := [];
      for i := 0 to |candidates|
        invariant regionCandidates == Filter(inRegion, candidates[..i])
      {
        FilterSnoc(inRegion, candidates, i);
        if EqualFold(candidates[i].region, region) {
          regionCandidates := regionCandidates + [candidates[i]];
        }
      }
      assert candidates[..|candidates|] == candidates;
      if |regionCandidates| > 0 {
        result := regionCandidates;
      }
    }
  }

  method FilterByPriority(candidates: seq<Node>) returns (result: seq<Node>)
    requires candidates != []
    ensures result == Preferred(candidates) && result != []
  {
    var minPriority := candidates[0].priority;
    for i := 1 to |candidates|
      invariant minPriority == MinPriority(candidates[..i])
    {
      assert candidates[..i + 1][..i] == candidates[..i];
      if candidates[i].priority < minPriority {
        minPriority := candidates[i].priority;
      }
    }
    assert candidates[..|candidates|] == candidates;
    var preferred := (n: Node) => n.priority == MinPriority(candidates);
    result := [];
    for i := 0 to |candidates|
      invariant result == Filter(preferred, candidates[..i])
    {
      FilterSnoc(preferred, candidates, i);
      if candidates[i].priority == minPriority {
        result := result + [candidates[i]];
      }
    }
    PreferredExist(candidates);
  }

  /** The last two loops. The first candidate, which the code falls back to after them, is
      never reached: the value is below the total. */
  method ChooseByWeight(candidates: seq<Node>, hash: Word) returns (choice: Choice)
    requires candidates != []
    ensures choice == Weighted(candidates, hash)
  {
    hide Sort, ChosenIndex, Weight;
    if |candidates| == 1 {
      return Selected(candidates[0]);
    }
    var sorted := Sort(NodeLess, candidates);
    var totalWeight := 0;
    for i := 0 to |sorted|
      invariant totalWeight == Total(sorted[..i])
    {
      assert sorted[..i + 1][..i] == sorted[..i];
      totalWeight := totalWeight + Weight(sorted[i]);
    }
    assert sorted[..|sorted|] == sorted;
    var modulus := totalWeight % TWO_TO_THE_32;
    if modulus == 0 {
      return DivisionByZero;
    }
    var val := hash % modulus;
    var cur := 0;
    for i := 0 to |sorted|
      invariant cur == Total(sorted[..i]) && cur <= val
    {
      cur := cur + Weight(sorted[i]);
      assert sorted[..i + 1][..i] == sorted[..i];
      if val < cur {
        ChosenWithin(sorted, val, i);
        return Selected(sorted[i]);
      }
    }
    assert false;
  }

  // ---------------------------------------------------------------- priorities

  lemma {:induction false} MinPriorityIsLeast(candidates: seq<Node>)
    requires candidates != []
    ensures forall i | 0 <= i < |candidates| :: MinPriority(candidates) <= candidates[i].priority
    ensures exists i | 0 <= i < |candidates| :: candidates[i].priority == MinPriority(candidates)
  {
    if |candidates| > 1 {
      var before := candidates[..|candidates| - 1];
      MinPriorityIsLeast(before);
      var i :| 0 <= i < |before| && before[i].priority == MinPriority(before);
      assert candidates[i] == before[i];
      assert candidates[i].priority == MinPriority(candidates) ||
          candidates[|candidates| - 1].priority == MinPriority(candidates);
      assert forall j | 0 <= j < |before| :: candidates[j] == before[j];
    } else {
      assert candidates[0].priority == MinPriority(candidates);
    }
  }

  lemma {:induction false} FilterFinds(p: Node -> bool, s: seq<Node>, i: nat)
    requires i < |s| && p(s[i])
    ensures s[i] in Filter(p, s)
  {
    FilterCounts(p, s, s[i]);
    assert s[i] in multiset(s);
    assert s[i] in multiset(Filter(p, s));
  }

  lemma PreferredExist(candidates: seq<Node>)
    requires candidates != []
    ensures Preferred(candidates) != []
  {
    MinPriorityIsLeast(candidates);
    var i :| 0 <= i < |candidates| && candidates[i].priority == MinPriority(candidates);
    FilterFinds((n: Node) => n.priority == MinPriority(candidates), candidates, i);
  }

  lemma MinPriorityPermuted(a: seq<Node>, b: seq<Node>)
    requires a != [] && b != [] && multiset(a) == multiset(b)
    ensures MinPriority(a) == MinPriority(b)
  {
    MinPriorityIsLeast(a);
    MinPriorityIsLeast(b);
    var i :| 0 <= i < |a| && a[i].priority == MinPriority(a);
    var j :| 0 <= j < |b| && b[j].priority == MinPriority(b);
    assert a[i] in multiset(b) && b[j] in multiset(a);
  }

  // ---------------------------------------------------------------- exact weights

  lemma {:induction false} TotalGrows(candidates: seq<Node>, i: nat, j: nat)
    requires i <= j <= |candidates|
    ensures Total(candidates[..i]) <= Total(candidates[..j])
    ensures i < j ==> Total(candidates[..i + 1]) == Total(candidates[..i]) + Weight(candidates[i])
    decreases j
  {
    if i < j {
      assert candidates[..j][..j - 1] == candidates[..j - 1];
      TotalGrows(candidates, i, j - 1);
    }
  }

  /** A candidate is chosen exactly for the values on its own stretch of the line. */
  lemma {:induction false} ChosenExactly(candidates: seq<Node>, value: nat, k: nat)
    requires value < Total(candidates) && k < |candidates|
    ensures ChosenIndex(candidates, value) == k <==> Total(candidates[..k]) <= value < Total(candidates[..k + 1])
    decreases |candidates|
  {
    var n := |candidates| - 1;
    assert candidates[..n + 1] == candidates;
    if value < Total(candidates[..n]) {
      if k < n {
        ChosenExactly(candidates[..n], value, k);
        assert candidates[..n][..k] == candidates[..k] && candidates[..n][..k + 1] == candidates[..k + 1];
      }
    } else if k < n {
      TotalGrows(candidates, k + 1, n);
    }
  }

  lemma ChosenWithin(candidates: seq<Node>, value: nat, k: nat)
    requires k < |candidates| && Total(candidates[..k]) <= value < Total(candidates[..k]) + Weight(candidates[k])
    ensures value < Total(candidates) && ChosenIndex(candidates, value) == k
  {
    TotalGrows(candidates, k, |candidates|);
    TotalGrows(candidates, k + 1, |candidates|);
    assert candidates[..|candidates|] == candidates;
    ChosenExactly(candidates, value, k);
  }

  /** The remainders of the hash for which candidate `k` is chosen. */
  function Residues(candidates: seq<Node>, k: nat): set<int> {
    set v | 0 <= v < Modulus(candidates) && ChosenIndex(candidates, v) == k
  }

  function Interval(low: int, high: int): set<int>
    decreases high - low
  {
    if low < high then Interval(low, high - 1) + {high - 1} else {}
  }

  lemma {:induction false} IntervalSize(low: int, high: int)
    requires low <= high
    ensures |Interval(low, high)| == high - low && forall v :: v in Interval(low, high) <==> low <= v < high
    decreases high - low
  {
    if low < high {
      IntervalSize(low, high - 1);
    }
  }

  /** Candidate `k` gets its stretch of the line, as far as the modulus reaches. */
  lemma ResiduesCount(candidates: seq<Node>, k: nat)
    requires k < |candidates|
    ensures var low, m := Total(candidates[..k]), Modulus(candidates);
            |Residues(candidates, k)| ==
            if m <= low then 0 else if m <= low + Weight(candidates[k]) then m - low else Weight(candidates[k])
  {
    var low, m, w := Total(candidates[..k]), Modulus(candidates), Weight(candidates[k]);
    TotalGrows(candidates, k, |candidates|);
    forall v | 0 <= v < m ensures ChosenIndex(candidates, v) == k <==> low <= v < low + w {
      ChosenExactly(candidates, v, k);
    }
    var high := if m <= low then low else if m <= low + w then m else low + w;
    IntervalSize(low, high);
    assert Residues(candidates, k) == Interval(low, high);
  }

  /** The weighted choice is exact, for every candidate its weight many remainders, if and only
      if the total fits 32 bits; otherwise the last candidate gets less. */
  lemma WeightsAreExact(candidates: seq<Node>)
    requires candidates != []
    ensures Total(candidates) < TWO_TO_THE_32 <==>
            forall k | 0 <= k < |candidates| :: |Residues(candidates, k)| == Weight(candidates[k])
  {
    hide ChosenIndex, Total, Residues;
    assert candidates[..|candidates|] == candidates;
    forall k | 0 <= k < |candidates| && Total(candidates) < TWO_TO_THE_32
      ensures |Residues(candidates, k)| == Weight(candidates[k])
    {
      ResiduesCount(candidates, k);
      TotalGrows(candidates, k, |candidates|);
      TotalGrows(candidates, k + 1, |candidates|);
    }
    var last := |candidates| - 1;
    ResiduesCount(candidates, last);
    TotalGrows(candidates, last, |candidates|);
  }

  lemma TotalOfTwo(a: Node, b: Node)
    ensures Total([a, b]) == Weight(a) + Weight(b) && Total([a]) == Weight(a)
  {
    assert [a, b][..1] == [a] && [a][..0] == [];
    assert Total([a]) == Weight(a);
  }

  /** Weights are not limited when a node is created, so the total may exceed 32 bits: here the
      second node, all but one part of the total, is never chosen. */
  lemma HeavyNodeIsStarved(a: Node, b: Node)
    requires a.weight == 1 && b.weight == TWO_TO_THE_32
    ensures Residues([a, b], 1) == {}
  {
    TotalOfTwo(a, b);
    ResiduesCount([a, b], 1);
    assert [a, b][..1] == [a];
  }

  /** And here the reduced total is zero and the division fails. */
  lemma HeavyNodesDivideByZero(a: Node, b: Node, hash: Word)
    requires a.weight == 0x8000_0000 && b.weight == 0x8000_0000
    ensures Weighted([a, b], hash) == DivisionByZero
  {
    SortedTwo(a, b);
    TotalOfTwo(a, b);
    TotalOfTwo(b, a);
  }

  lemma SortedTwo(a: Node, b: Node)
    ensures Sort(NodeLess, [a, b]) == [a, b] || Sort(NodeLess, [a, b]) == [b, a]
  {
    var sorted := Sort(NodeLess, [a, b]);
    SortPermutes(NodeLess, [a, b]);
    assert multiset(sorted) == multiset{a, b};
  }

  // ---------------------------------------------------------------- which node is chosen

  /** The node may serve the repository: enabled, not down, in step with the cluster, with the
      repository reported viable and its kind among the capabilities, if any are listed. */
  predicate Qualifies(node: Node, repository: Repository, fingerprint: string) {
    var slug, kind := NormalSlug(repository.slug), ToLower(TrimSpace(repository.kind));
    && node.enabled && node.healthStatus in {"healthy", "degraded"} && node.configStatus == "match"
    && node.protocolVersion == 2 && node.fingerprint == fingerprint && fingerprint != ""
    && slug in node.repositoryHealth && node.repositoryHealth[slug]
    && (node.capabilities != [] && kind != "" ==>
          exists i | 0 <= i < |node.capabilities| :: EqualFold(node.capabilities[i], kind))
  }

  /** It qualifies, and it is in the client's region if any node that qualifies is. */
  predicate InPool(nodes: seq<Node>, node: Node, repository: Repository, fingerprint: string, region: string) {
    && node in nodes && Qualifies(node, repository, fingerprint)
    && (region != "" && (exists other :: other in nodes && Qualifies(other, repository, fingerprint) &&
                           EqualFold(other.region, region)) ==>
          EqualFold(node.region, region))
  }

  lemma FilterMember<T>(p: T -> bool, s: seq<T>, x: T)
    ensures x in Filter(p, s) <==> x in s && p(x)
  {
    FilterCounts(p, s, x);
    assert x in Filter(p, s) <==> x in multiset(Filter(p, s));
    assert x in s <==> x in multiset(s);
  }

  lemma RegionalMember(candidates: seq<Node>, region: string, node: Node)
    ensures node in Regional(candidates, region) <==>
            node in candidates &&
            (region != "" && (exists other :: other in candidates && EqualFold(other.region, region)) ==>
              EqualFold(node.region, region))
  {
    var inRegion := (n: Node) => InRegion(n, region);
    FilterMember(inRegion, candidates, node);
    if Filter(inRegion, candidates) != [] {
      FilterMember(inRegion, candidates, Filter(inRegion, candidates)[0]);
    }
    if other :| other in candidates && EqualFold(other.region, region) {
      FilterMember(inRegion, candidates, other);
    }
  }

  lemma CandidatesQualify(nodes: seq<Node>, repository: Repository, fingerprint: string)
    ensures var candidates := Filter((n: Node) => Eligible(n, repository, fingerprint), nodes);
            && (forall n :: n in candidates <==> n in nodes && Qualifies(n, repository, fingerprint))
            && (candidates == [] <==> forall n | n in nodes :: !Qualifies(n, repository, fingerprint))
  {
    hide Qualifies, Eligible;
    var candidates := Filter((n: Node) => Eligible(n, repository, fingerprint), nodes);
    forall n ensures n in candidates <==> n in nodes && Qualifies(n, repository, fingerprint) {
      FilterMember((n: Node) => Eligible(n, repository, fingerprint), nodes, n);
      QualifiesExactly(n, repository, fingerprint);
    }
    assert candidates != [] ==> candidates[0] in candidates;
  }

  /** The candidates that are left after the region was looked at are the pool. */
  lemma CandidatesExactly(nodes: seq<Node>, repository: Repository, fingerprint: string, region: string, node: Node)
    ensures var candidates := Filter((n: Node) => Eligible(n, repository, fingerprint), nodes);
            node in Regional(candidates, region) <==> InPool(nodes, node, repository, fingerprint, region)
  {
    hide Qualifies, Eligible, EqualFold;
    CandidatesQualify(nodes, repository, fingerprint);
    RegionalMember(Filter((n: Node) => Eligible(n, repository, fingerprint), nodes), region, node);
  }

  lemma QualifiesExactly(node: Node, repository: Repository, fingerprint: string)
    ensures Eligible(node, repository, fingerprint) <==> Qualifies(node, repository, fingerprint)
  {
    hide NormalSlug, ToLower, TrimSpace, EqualFold;
  }

  /** Who is chosen: a node of the pool with the least priority number. There is no choice exactly
      for registries and where no node qualifies, or where the division fails. */
  lemma SelectedQualifies(nodes: seq<Node>, repository: Repository, fingerprint: string, region: string, hash: Word)
    ensures var registry := repository.kind in {"docker-registry", "oci-registry"};
            && (Select(nodes, repository, fingerprint, region, hash).RegistryNotAllowed? <==> registry)
            && (Select(nodes, repository, fingerprint, region, hash).NoAvailableEdge? <==>
                 !registry && forall n | n in nodes :: !Qualifies(n, repository, fingerprint))
    ensures Select(nodes, repository, fingerprint, region, hash).Selected? ==>
              var node := Select(nodes, repository, fingerprint, region, hash).node;
              && InPool(nodes, node, repository, fingerprint, region)
              && forall other | InPool(nodes, other, repository, fingerprint, region) :: node.priority <= other.priority
  {
    hide Qualifies, Eligible, InPool, Regional, Preferred, Weighted;
    var candidates := Filter((n: Node) => Eligible(n, repository, fingerprint), nodes);
    forall n ensures n in Regional(candidates, region) <==> InPool(nodes, n, repository, fingerprint, region) {
      CandidatesExactly(nodes, repository, fingerprint, region, n);
    }
    CandidatesQualify(nodes, repository, fingerprint);
    if candidates != [] {
      RegionalIsNotEmpty(candidates, region);
      PreferredExist(Regional(candidates, region));
      var preferred := Preferred(Regional(candidates, region));
      WeightedIsMember(preferred, hash);
      if Weighted(preferred, hash).Selected? {
        PreferredMember(Regional(candidates, region), Weighted(preferred, hash).node);
      }
    }
  }

  lemma RegionalIsNotEmpty(candidates: seq<Node>, region: string)
    requires candidates != []
    ensures Regional(candidates, region) != []
  {
  }

  lemma WeightedIsMember(candidates: seq<Node>, hash: Word)
    requires candidates != []
    ensures Weighted(candidates, hash).Selected? ==> Weighted(candidates, hash).node in candidates
    ensures Weighted(candidates, hash).Selected? || Weighted(candidates, hash).DivisionByZero?
  {
    SortPermutes(NodeLess, candidates);
    if |candidates| > 1 && Weighted(candidates, hash).Selected? {
      var sorted := Sort(NodeLess, candidates);
      var k := ChosenIndex(sorted, hash % Modulus(sorted));
      assert sorted[k] in multiset(sorted);
      assert sorted[k] in multiset(candidates);
    }
  }

  lemma PreferredMember(candidates: seq<Node>, node: Node)
    requires node in Preferred(candidates)
    ensures node in candidates && forall other | other in candidates :: node.priority <= other.priority
  {
    FilterMember((n: Node) => n.priority == MinPriority(candidates), candidates, node);
    MinPriorityIsLeast(candidates);
  }

  // ---------------------------------------------------------------- order independence

  predicate DistinctIds(nodes: seq<Node>) {
    forall i, j | 0 <= i < |nodes| && 0 <= j < |nodes| && nodes[i].id == nodes[j].id :: nodes[i] == nodes[j]
  }

  lemma NodesTotal(domain: set<Node>)
    requires forall a, b | a in domain && b in domain && a.id == b.id :: a == b
    ensures TotalOn(NodeLess, domain)
  {
  }

  lemma WeightedPermuted(a: seq<Node>, b: seq<Node>, hash: Word)
    requires a != [] && b != [] && multiset(a) == multiset(b) && DistinctIds(a)
    ensures Weighted(a, hash) == Weighted(b, hash)
  {
    hide NodeLess, Sort, ChosenIndex, Modulus;
    assert |a| == |multiset(a)| && |b| == |multiset(b)|;
    assert a[0] in multiset(b);
    NodesTotal(Elements(a));
    SortsAgreeExactly(NodeLess, a, b, Elements(a));
  }

  lemma FilterKeepsDistinct(p: Node -> bool, nodes: seq<Node>)
    requires DistinctIds(nodes)
    ensures DistinctIds(Filter(p, nodes))
  {
    var filtered := Filter(p, nodes);
    forall i | 0 <= i < |filtered| ensures filtered[i] in nodes {
      FilterCounts(p, nodes, filtered[i]);
      assert filtered[i] in multiset(filtered);
      assert filtered[i] in multiset(nodes);
    }
  }

  /** With distinct ids, the order in which the nodes are listed does not matter. */
  lemma NodeOrderIsForgotten(a: seq<Node>, b: seq<Node>, repository: Repository, fingerprint: string, region: string,
      hash: Word)
    requires multiset(a) == multiset(b) && DistinctIds(a)
    ensures Select(a, repository, fingerprint, region, hash) == Select(b, repository, fingerprint, region, hash)
  {
    hide Eligible, Weighted, DistinctIds, MinPriority, InRegion;
    var eligible := (n: Node) => Eligible(n, repository, fingerprint);
    FilterPermutes(eligible, a, b);
    FilterKeepsDistinct(eligible, a);
    var c, d := Filter(eligible, a), Filter(eligible, b);
    assert |c| == |multiset(c)| && |d| == |multiset(d)|;
    if c != [] {
      RegionalPermuted(c, d, region);
      var e, f := Regional(c, region), Regional(d, region);
      PreferredPermuted(e, f);
      PreferredExist(e);
      PreferredExist(f);
      WeightedPermuted(Preferred(e), Preferred(f), hash);
    }
  }

  lemma RegionalPermuted(c: seq<Node>, d: seq<Node>, region: string)
    requires c != [] && d != [] && multiset(c) == multiset(d) && DistinctIds(c)
    ensures Regional(c, region) != [] && Regional(d, region) != []
    ensures multiset(Regional(c, region)) == multiset(Regional(d, region)) && DistinctIds(Regional(c, region))
  {
    hide DistinctIds, InRegion, Filter;
    var inRegion := (n: Node) => InRegion(n, region);
    FilterPermutes(inRegion, c, d);
    FilterKeepsDistinct(inRegion, c);
    var x, y := Filter(inRegion, c), Filter(inRegion, d);
    assert |x| == |multiset(x)| && |y| == |multiset(y)|;
  }

  lemma PreferredPermuted(e: seq<Node>, f: seq<Node>)
    requires e != [] && f != [] && multiset(e) == multiset(f) && DistinctIds(e)
    ensures multiset(Preferred(e)) == multiset(Preferred(f)) && DistinctIds(Preferred(e))
  {
    hide DistinctIds, MinPriority, Filter;
    MinPriorityPermuted(e, f);
    var least := MinPriority(e);
    var p, q := (n: Node) => n.priority == MinPriority(e), (n: Node) => n.priority == MinPriority(f);
    FilterSame(p, q, f);
    FilterPermutes(p, e, f);
    FilterKeepsDistinct(p, e);
  }

  lemma {:induction false} FilterSame(p: Node -> bool, q: Node -> bool, s: seq<Node>)
    requires forall n :: p(n) == q(n)
    ensures Filter(p, s) == Filter(q, s)
  {
    if s != [] {
      FilterSame(p, q, s[1..]);
    }
  }

  /** The region of a client is that of the first network it is in. */
  lemma {:induction false} RegionExactly<Address>(networks: seq<Network<Address>>, client: Address, i: nat)
    requires forall j | 0 <= j < i && j < |networks| :: !networks[j].contains(client)
    ensures i >= |networks| ==> RegionOf(networks, Some(client)) == ""
    ensures i < |networks| && networks[i].contains(client) ==>
              RegionOf(networks, Some(client)) == networks[i].region
  {
    if i > 0 && networks != [] {
      RegionExactly(networks[1..], client, i - 1);
    }
  }

  lemma SortTwo(x: Node, y: Node)
    ensures Sort(NodeLess, [x, y]) == if NodeLess(y, x) then [y, x] else [x, y]
  {
    assert [x, y][1..] == [y] && [y][1..] == [];
    assert Insert(NodeLess, x, []) == [x] && Insert(NodeLess, y, []) == [y] && Sort(NodeLess, []) == [];
    assert Sort(NodeLess, [y]) == [y];
  }

  lemma TotalTwo(x: Node, y: Node)
    ensures Total([x, y]) == Weight(x) + Weight(y) && Total([x, y][..1]) == Weight(x)
  {
    assert [x, y][..|[x, y]| - 1] == [x] && [x][..|[x]| - 1] == [];
    assert Total([x]) == Weight(x);
  }

  lemma ChosenOfTwo(x: Node, y: Node, value: nat)
    requires value < Total([x, y])
    ensures ChosenIndex([x, y], value) == if value < Weight(x) then 0 else 1
  {
    hide Weight;
    TotalTwo(x, y);
  }

  /** Of two nodes the one with the smaller id gets the remainders below its weight, however they
      are listed; a weight that is not positive counts as 100. */
  lemma TwoNodesShare(a: Node, b: Node, hash: Word)
    requires a.priority == b.priority && a.id < b.id && a.weight < 0x4000_0000 && b.weight < 0x4000_0000
    ensures var w, v := if a.weight > 0 then a.weight else 100, if b.weight > 0 then b.weight else 100;
            Weighted([a, b], hash) == Weighted([b, a], hash) == Selected(if hash % (w + v) < w then a else b)
  {
    hide Sort, Total, ChosenIndex;
    SortTwo(a, b);
    SortTwo(b, a);
    TotalTwo(a, b);
    var m := Modulus([a, b]);
    assert m == Weight(a) + Weight(b);
    ChosenOfTwo(a, b, hash % m);
  }
}
