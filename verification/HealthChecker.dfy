/** The coordinator's health checker: what one probe does to a node's row and counters, and
    what the status of a node says about its history of probes. */
module HealthChecker {
  import opened Text
  import opened EdgeSync
  import opened Coordinator

  /** `repositories` lists the reported map in the order in which it happens to be walked. */
  datatype Health = Health(status: string, generation: int, fingerprint: string, repositories: seq<(string, bool)>)

  /** What probing a node comes to. */
  datatype Probe = Unreachable(message: string) | Answered(manifest: Manifest, version: string, health: Health)

  /** What the coordinator expects an edge to run. */
  datatype Expected = Expected(fingerprint: string, coordinatorId: string, epoch: string, generation: int)

  datatype Thresholds = Thresholds(unhealthy: int, healthy: int) {
    function ToUnhealthy(): (n: int) { if unhealthy <= 0 then 3 else unhealthy }
    function ToHealthy(): (n: int) { if healthy <= 0 then 2 else healthy }
  }

  function Reported(health: Health): string {
    ToLower(TrimSpace(health.status))
  }

  /** The manifest and the health report of one probe agree. */
  predicate Agree(manifest: Manifest, health: Health) {
    && (Reported(health) == "healthy" || Reported(health) == "degraded")
    && health.fingerprint != "" && health.fingerprint == manifest.fingerprint
    && health.generation == manifest.generation
  }

  predicate AllViable(repositories: seq<(string, bool)>) {
    forall i | 0 <= i < |repositories| :: repositories[i].1
  }

  /** The health a consistent probe reports: degraded if a repository is not viable. */
  function Observed(health: Health): string {
    if AllViable(health.repositories) then Reported(health) else "degraded"
  }

  /** The reported health under normalised slugs; of two slugs that become one, the one
      walked last wins. */
  function HealthBySlug(repositories: seq<(string, bool)>): map<string, bool> {
    if repositories == [] then map[]
    else
      var last := repositories[|repositories| - 1];
      HealthBySlug(repositories[..|repositories| - 1])[NormalSlug(last.0) := last.1]
  }

  /** Routing looks a repository up by its normalised slug: it is found exactly if it was
      reported, and as healthy only if some such report said so. */
  lemma {:induction false} ReportedIsFound(repositories: seq<(string, bool)>, slug: string)
    ensures slug in HealthBySlug(repositories) <==>
            exists i | 0 <= i < |repositories| :: NormalSlug(repositories[i].0) == slug
    ensures slug in HealthBySlug(repositories) ==>
              exists i | 0 <= i < |repositories| ::
                  NormalSlug(repositories[i].0) == slug && repositories[i].1 == HealthBySlug(repositories)[slug]
  {
    hide NormalSlug;
    if repositories != [] {
      var before, last := repositories[..|repositories| - 1], repositories[|repositories| - 1];
      ReportedIsFound(before, slug);
      assert forall i | 0 <= i < |before| :: repositories[i] == before[i];
      if slug == NormalSlug(last.0) {
        assert repositories[|repositories| - 1].1 == HealthBySlug(repositories)[slug];
      } else if slug in HealthBySlug(before) {
        var i :| 0 <= i < |before| && NormalSlug(before[i].0) == slug && before[i].1 == HealthBySlug(before)[slug];
        assert NormalSlug(repositories[i].0) == slug && repositories[i].1 == HealthBySlug(repositories)[slug];
      }
    }
  }

  function ConfigStatus(expected: Expected, manifest: Manifest): string {
    if manifest.protocolVersion != PROTOCOL_VERSION then "version_incompatible"
    else if expected.fingerprint == "" || manifest.fingerprint != expected.fingerprint then "mismatch"
    else if expected.coordinatorId == "" || manifest.coordinatorId != expected.coordinatorId then "coordinator_mismatch"
    else if expected.epoch == "" || manifest.epoch != expected.epoch then "epoch_mismatch"
    else if expected.generation <= 0 || manifest.generation != expected.generation then "generation_mismatch"
    else "match"
  }

  /** A node's configuration matches exactly when a complete expectation is known and every
      part of it is what the edge reports. */
  lemma MatchExactly(expected: Expected, manifest: Manifest)
    ensures ConfigStatus(expected, manifest) == "match" <==>
            && expected.fingerprint != "" && expected.coordinatorId != "" && expected.epoch != "" &&
               expected.generation > 0
            && expected == Expected(manifest.fingerprint, manifest.coordinatorId, manifest.epoch, manifest.generation)
            && manifest.protocolVersion == PROTOCOL_VERSION
  {
    assert "mismatch"[1] != "match"[1] && "version_incompatible"[0] != "match"[0] &&
        "coordinator_mismatch"[0] != "match"[0];
    assert "epoch_mismatch"[0] != "match"[0] && "generation_mismatch"[0] != "match"[0];
  }

  // ---------------------------------------------------------------- one node

  /** The two counters of a node and the health status in its row. */
  datatype Track = Track(failures: int, successes: int, status: string)

  /** What happens to a node: a probe, whose row write may fail, or a synchronisation. */
  datatype Event =
    | Failed(persisted: bool)
    | Inconsistent(persisted: bool)
    | Good(reported: string, persisted: bool)
    | Synchronised

  function EventOf(probe: Probe, persisted: bool): Event {
    match probe
    case Unreachable(_) => Failed(persisted)
    case Answered(manifest, _, health) =>
        if Agree(manifest, health) then Good(Observed(health), persisted) else Inconsistent(persisted)
  }

  function Observe(t: Thresholds, k: Track, e: Event): Track {
    match e
    case Failed(persisted) =>
      var failures := k.failures + 1;
      Track(failures, 0, if persisted && failures >= t.ToUnhealthy() then "unhealthy" else k.status)
    case Inconsistent(persisted) =>
      Track(k.failures + 1, 0, if persisted then "unhealthy" else k.status)
    case Good(reported, persisted) =>
      var successes := k.successes + 1;
      var held := !persisted || (k.status == "unhealthy" && successes < t.ToHealthy());
      Track(0, successes, if held then k.status else reported)
    case Synchronised => k.(status := "unknown")
  }

  function Count(m: map<int, int>, id: int): int {
    if id in m then m[id] else 0
  }

  method CheckViable(repositories: seq<(string, bool)>) returns (viable: bool)
    ensures viable == AllViable(repositories)
  {
    for i := 0 to |repositories|
      invariant forall k | 0 <= k < i :: repositories[k].1
    {
      if !repositories[i].1 {
        return false;
      }
    }
    return true;
  }

  method CollectHealth(repositories: seq<(string, bool)>) returns (health: map<string, bool>)
    ensures health == HealthBySlug(repositories)
  {
    health := map[];
    for i := 0 to |repositories|
      invariant health == HealthBySlug(repositories[..i])
    {
      assert repositories[..i + 1][..i] == repositories[..i];
      health := health[ToLower(TrimSpace(repositories[i].0)) := repositories[i].1];
    }
    assert repositories[..|repositories|] == repositories;
  }

  class Checker {
    const thresholds: Thresholds
    var expected: Expected
    var consecutiveF: map<int, int>
    var consecutiveS: map<int, int>
    /** The stored rows. */
    var nodes: map<int, Node>

    constructor (thresholds: Thresholds, expected: Expected, nodes: map<int, Node>)
      ensures this.thresholds == thresholds && this.expected == expected && this.nodes == nodes
      ensures consecutiveF == map[] && consecutiveS == map[]
    {
      this.thresholds, this.expected, this.nodes := thresholds, expected, nodes;
      consecutiveF, consecutiveS := map[], map[];
    }

    /** A node as the probe that holds a copy of it sees it, and as its row says. */
    function Seen(node: Node): Track
      reads this
    {
      Track(Count(consecutiveF, node.id), Count(consecutiveS, node.id), node.healthStatus)
    }

    function TrackOf(id: int): Track
      requires id in nodes
      reads this
    {
      Track(Count(consecutiveF, id), Count(consecutiveS, id), nodes[id].healthStatus)
    }

    /** Other nodes keep their rows and counters. */
    twostate predicate Others(id: int)
      reads this
    {
      && nodes.Keys == old(nodes).Keys && expected == old(expected)
      && forall other | other in nodes && other != id ::
          nodes[other] == old(nodes)[other] && TrackOf(other) == old(TrackOf(other))
    }

    twostate lemma OnlyThisNode(node: Node)
      requires expected == old(expected) && (nodes == old(nodes) || nodes == WriteStatus(old(nodes), node))
      requires node.id in consecutiveF && consecutiveF == old(consecutiveF)[node.id := consecutiveF[node.id]]
      requires node.id in consecutiveS && consecutiveS == old(consecutiveS)[node.id := consecutiveS[node.id]]
      ensures Others(node.id)
    {
    }

    method PersistStatus(node: Node, writeFails: bool) returns (ok: bool)
      modifies this`nodes
      ensures ok <==> !writeFails && node.id in nodes
      ensures nodes == if ok then WriteStatus(old(nodes), node) else old(nodes)
    {
      if writeFails || node.id !in nodes {
        return false;
      }
      nodes := WriteStatus(nodes, node);
      return true;
    }

    method CountFailure(id: int) returns (failures: int)
      modifies this`consecutiveF, this`consecutiveS
      ensures failures == old(Count(consecutiveF, id)) + 1
      ensures consecutiveF == old(consecutiveF)[id := failures] && consecutiveS == old(consecutiveS)[id := 0]
    {
      failures := Count(consecutiveF, id) + 1;
      consecutiveF := consecutiveF[id := failures];
      consecutiveS := consecutiveS[id := 0];
    }

    method CountSuccess(id: int) returns (successes: int)
      modifies this`consecutiveF, this`consecutiveS
      ensures successes == old(Count(consecutiveS, id)) + 1
      ensures consecutiveS == old(consecutiveS)[id := successes] && consecutiveF == old(consecutiveF)[id := 0]
    {
      successes := Count(consecutiveS, id) + 1;
      consecutiveS := consecutiveS[id := successes];
      consecutiveF := consecutiveF[id := 0];
    }

    method RecordFailure(node: Node, message: string, writeFails: bool) returns (result: Node, ok: bool)
      modifies this
      ensures Others(node.id) && (ok <==> !writeFails && node.id in nodes)
      ensures nodes == if ok then WriteStatus(old(nodes), result) else old(nodes)
      ensures Seen(result) == Observe(thresholds, old(Seen(node)), Failed(true))
      ensures result == node.(healthStatus := result.healthStatus, lastError := message,
                              repositoryHealth := if Seen(result).failures >= thresholds.ToUnhealthy() then map[]
                                                  else node.repositoryHealth)
    {
      hide Others, WriteStatus;
      var failures := CountFailure(node.id);
      var threshold := thresholds.unhealthy;
      if threshold <= 0 {
        threshold := 3;
      }
      result := node;
      if failures >= threshold {
        result := result.(healthStatus := "unhealthy", repositoryHealth := map[]);
      }
      result := result.(lastError := message);
      ok := PersistStatus(result, writeFails);
      OnlyThisNode(result);
    }

    method RecordInconsistent(node: Node, manifest: Manifest, message: string, writeFails: bool)
      returns (result: Node, ok: bool)
      modifies this
      ensures Others(node.id) && (ok <==> !writeFails && node.id in nodes)
      ensures nodes == if ok then WriteStatus(old(nodes), result) else old(nodes)
      ensures Seen(result) == Observe(thresholds, old(Seen(node)), Inconsistent(true))
      ensures result == node.(healthStatus := "unhealthy", configStatus := "inconsistent",
                              fingerprint := manifest.fingerprint, generation := manifest.generation,
                              nodeId := manifest.nodeId, coordinatorId := manifest.coordinatorId,
                              epoch := manifest.epoch, protocolVersion := manifest.protocolVersion,
                              capabilities := manifest.capabilities, repositoryHealth := map[], lastError := message)
    {
      hide Others, WriteStatus;
      var failures := CountFailure(node.id);
      result := node.(healthStatus := "unhealthy", configStatus := "inconsistent",
                      fingerprint := manifest.fingerprint, generation := manifest.generation,
                      nodeId := manifest.nodeId, coordinatorId := manifest.coordinatorId,
                      epoch := manifest.epoch, protocolVersion := manifest.protocolVersion,
                      capabilities := manifest.capabilities, repositoryHealth := map[], lastError := message);
      ok := PersistStatus(result, writeFails);
      OnlyThisNode(result);
    }

    /** The rest of `recordSuccess`, once the snapshot is known to be consistent. */
    method RecordGood(node: Node, manifest: Manifest, version: string, health: Health, writeFails: bool)
      returns (result: Node, ok: bool)
      requires Agree(manifest, health)
      modifies this
      ensures Others(node.id) && (ok <==> !writeFails && node.id in nodes)
      ensures nodes == if ok then WriteStatus(old(nodes), result) else old(nodes)
      ensures Seen(result) == Observe(thresholds, old(Seen(node)), Good(Observed(health), true))
      ensures result == node.(healthStatus := result.healthStatus, configStatus := ConfigStatus(expected, manifest),
                              fingerprint := manifest.fingerprint, generation := manifest.generation,
                              nodeId := manifest.nodeId, coordinatorId := manifest.coordinatorId,
                              epoch := manifest.epoch, version := version, protocolVersion := manifest.protocolVersion,
                              capabilities := manifest.capabilities,
                              repositoryHealth := HealthBySlug(health.repositories), lastError := "")
    {
      hide Reported, ConfigStatus, Agree, HealthBySlug, Others, WriteStatus;
      var reportedHealth := Reported(health);
      var successes := CountSuccess(node.id);
      var threshold := thresholds.healthy;
      if threshold <= 0 {
        threshold := 2;
      }
      var viable := CheckViable(health.repositories);
      if !viable {
        reportedHealth := "degraded";
      }
      var newHealth := reportedHealth;
      if node.healthStatus == "unhealthy" && successes < threshold {
        newHealth := "unhealthy";
      }
      var repositoryHealth := CollectHealth(health.repositories);
      result := node.(healthStatus := newHealth, configStatus := ConfigStatus(expected, manifest),
                      fingerprint := manifest.fingerprint, generation := manifest.generation,
                      nodeId := manifest.nodeId, coordinatorId := manifest.coordinatorId,
                      epoch := manifest.epoch, version := version, protocolVersion := manifest.protocolVersion,
                      capabilities := manifest.capabilities, repositoryHealth := repositoryHealth, lastError := "");
      ok := PersistStatus(result, writeFails);
      OnlyThisNode(result);
    }

    method RecordSuccess(node: Node, manifest: Manifest, version: string, health: Health, writeFails: bool)
      returns (result: Node, ok: bool)
      modifies this
      ensures result.id == node.id && Others(node.id) && (ok <==> !writeFails && node.id in nodes)
      ensures nodes == if ok then WriteStatus(old(nodes), result) else old(nodes)
      ensures Seen(result) == Observe(thresholds, old(Seen(node)), EventOf(Answered(manifest, version, health), true))
      ensures result.configStatus == if Agree(manifest, health) then ConfigStatus(expected, manifest)
              else "inconsistent"
      ensures result.repositoryHealth == if Agree(manifest, health) then HealthBySlug(health.repositories) else map[]
    {
      hide ConfigStatus, Observe, Observed, HealthBySlug, Others, WriteStatus;
      var reportedHealth := Reported(health);
      if reportedHealth != "healthy" && reportedHealth != "degraded" {
        result, ok := RecordInconsistent(node, manifest, "edge returned an invalid cluster health status", writeFails);
        return;
      }
      if health.fingerprint == "" || health.fingerprint != manifest.fingerprint {
        result, ok := RecordInconsistent(node, manifest, "manifest and health fingerprints differ", writeFails);
        return;
      }
      if health.generation != manifest.generation {
        result, ok := RecordInconsistent(node, manifest, "manifest and health configuration generations differ",
            writeFails);
        return;
      }
      result, ok := RecordGood(node, manifest, version, health, writeFails);
    }

    /** One probe, of a copy of the row read earlier. It is one event of the node's history
        unless the status in the row changed in between. */
    method CheckNode(node: Node, probe: Probe, writeFails: bool) returns (result: Node, ok: bool)
      modifies this
      ensures result.id == node.id && Others(node.id) && (ok <==> !writeFails && node.id in nodes)
      ensures nodes == if ok then WriteStatus(old(nodes), result) else old(nodes)
      ensures Seen(result) == Observe(thresholds, old(Seen(node)), EventOf(probe, true))
      ensures node.id in nodes && old(nodes)[node.id].healthStatus == node.healthStatus ==>
                TrackOf(node.id) == Observe(thresholds, old(TrackOf(node.id)), EventOf(probe, ok))
    {
      hide Others;
      match probe {
        case Unreachable(message) =>
          result, ok := RecordFailure(node, message, writeFails);
        case Answered(manifest, version, health) =>
          result, ok := RecordSuccess(node, manifest, version, health, writeFails);
      }
      KeysStay(node.id);
    }

    twostate lemma KeysStay(id: int)
      requires Others(id)
      ensures nodes.Keys == old(nodes).Keys
    {
    }

    /** The row a successful `SyncNode` writes; the counters stay. */
    method Synchronise(id: int, m: Manifest, reply: Response)
      requires id in nodes && nodes[id].id == id && reply.Ack?
      modifies this`nodes
      ensures Others(id)
      ensures nodes[id] == Synchronized(old(nodes)[id], m, reply)
      ensures TrackOf(id) == Observe(thresholds, old(TrackOf(id)), Synchronised)
    {
      nodes := nodes[id := Synchronized(nodes[id], m, reply)];
    }
  }

  // ---------------------------------------------------------------- the history of one node

  function Run(t: Thresholds, k: Track, events: seq<Event>): Track {
    if events == [] then k else Observe(t, Run(t, k, events[..|events| - 1]), events[|events| - 1])
  }

  predicate IsBad(e: Event) {
    e.Failed? || e.Inconsistent?
  }

  /** The length of the latest run of bad probes; synchronisations do not count. */
  function BadRun(events: seq<Event>): nat {
    if events == [] then 0
    else
      var last, before := events[|events| - 1], events[..|events| - 1];
      if last.Good? then 0 else (if IsBad(last) then 1 else 0) + BadRun(before)
  }

  function GoodRun(events: seq<Event>): nat {
    if events == [] then 0
    else
      var last, before := events[|events| - 1], events[..|events| - 1];
      if IsBad(last) then 0 else (if last.Good? then 1 else 0) + GoodRun(before)
  }

  /** Event `i` condemns the node: a contradictory snapshot, or the bad run is long enough. */
  predicate Triggers(t: Thresholds, events: seq<Event>, i: nat)
    requires i < |events|
  {
    match events[i]
    case Inconsistent(persisted) => persisted
    case Failed(persisted) => persisted && BadRun(events[..i + 1]) >= t.ToUnhealthy()
    case _ => false
  }

  /** Event `i` lifts a sentence: a synchronisation, or the good run is long enough. */
  predicate Clears(t: Thresholds, events: seq<Event>, i: nat)
    requires i < |events|
  {
    match events[i]
    case Good(_, persisted) => persisted && GoodRun(events[..i + 1]) >= t.ToHealthy()
    case Synchronised => true
    case _ => false
  }

  predicate ClearedAfter(t: Thresholds, events: seq<Event>, i: nat) {
    exists j | i <= j < |events| :: Clears(t, events, j)
  }

  /** Condemned by an event or by the status stored at the start, and not cleared since. */
  predicate Condemned(t: Thresholds, initial: string, events: seq<Event>) {
    || (initial == "unhealthy" && !ClearedAfter(t, events, 0))
    || exists i | 0 <= i < |events| :: Triggers(t, events, i) && !ClearedAfter(t, events, i + 1)
  }

  /** The health last written by a probe or synchronisation that was not about failure. */
  function LastReport(initial: string, events: seq<Event>): string {
    if events == [] then initial
    else
      match events[|events| - 1]
      case Good(reported, true) => reported
      case Synchronised => "unknown"
      case _ => LastReport(initial, events[..|events| - 1])
  }

  /** A checker starts without counters, from whatever status is stored. */
  predicate Fresh(k: Track) {
    k.failures == 0 && k.successes == 0
  }

  predicate RealReports(events: seq<Event>) {
    forall e | e in events && e.Good? :: e.reported != "unhealthy"
  }

  /** Probes report healthy or degraded only. */
  lemma ProbesReport(probe: Probe, persisted: bool)
    requires EventOf(probe, persisted).Good?
    ensures EventOf(probe, persisted).reported == "healthy" || EventOf(probe, persisted).reported == "degraded"
    ensures EventOf(probe, persisted).reported == "degraded" <==>
            Reported(probe.health) == "degraded" || !AllViable(probe.health.repositories)
  {
    hide TrimSpace, ToLower;
    assert "healthy"[0] != "degraded"[0];
  }

  /** The counters are the latest runs of bad and good probes. */
  lemma {:induction false} CountersAreRuns(t: Thresholds, k: Track, events: seq<Event>)
    requires k.failures == 0 && k.successes == 0
    ensures Run(t, k, events).failures == BadRun(events) && Run(t, k, events).successes == GoodRun(events)
  {
    if events != [] {
      CountersAreRuns(t, k, events[..|events| - 1]);
    }
  }

  lemma PrefixSame(t: Thresholds, events: seq<Event>, i: nat)
    requires i < |events| - 1
    ensures Triggers(t, events[..|events| - 1], i) == Triggers(t, events, i)
    ensures Clears(t, events[..|events| - 1], i) == Clears(t, events, i)
  {
    assert events[..|events| - 1][..i + 1] == events[..i + 1];
  }

  lemma ClearedPrefix(t: Thresholds, events: seq<Event>, i: nat)
    requires 0 <= i < |events|
    ensures ClearedAfter(t, events, i) <==>
            ClearedAfter(t, events[..|events| - 1], i) || Clears(t, events, |events| - 1)
  {
    hide Clears;
    var before := events[..|events| - 1];
    if ClearedAfter(t, before, i) {
      var j :| i <= j < |before| && Clears(t, before, j);
      PrefixSame(t, events, j);
    }
    if ClearedAfter(t, events, i) {
      var j :| i <= j < |events| && Clears(t, events, j);
      if j < |before| { PrefixSame(t, events, j); }
    }
  }

  /** One more event: it condemns, or the node was condemned and it does not clear. */
  lemma CondemnedStep(t: Thresholds, initial: string, events: seq<Event>)
    requires events != []
    ensures Condemned(t, initial, events) <==>
            || Triggers(t, events, |events| - 1)
            || (Condemned(t, initial, events[..|events| - 1]) && !Clears(t, events, |events| - 1))
  {
    hide Clears, Triggers;
    var before, n := events[..|events| - 1], |events| - 1;
    ClearedPrefix(t, events, 0);
    if i :| 0 <= i < n && Triggers(t, events, i) && !ClearedAfter(t, events, i + 1) {
      PrefixSame(t, events, i);
      ClearedPrefix(t, events, i + 1);
    }
    if i :| 0 <= i < n && Triggers(t, before, i) && !ClearedAfter(t, before, i + 1) {
      PrefixSame(t, events, i);
      ClearedPrefix(t, events, i + 1);
    }
    assert !ClearedAfter(t, events, n + 1);
  }

  lemma NothingCondemns(t: Thresholds, initial: string)
    ensures Condemned(t, initial, []) <==> initial == "unhealthy"
  {
  }

  /** Hysteresis: whatever writes failed on the way, a node is unhealthy exactly when since
      the last stored trigger nothing cleared it, and otherwise its status is the last one
      reported. */
  lemma {:induction false} StatusIsHistory(t: Thresholds, k: Track, events: seq<Event>)
    requires Fresh(k) && RealReports(events)
    ensures Run(t, k, events).status == "unhealthy" <==> Condemned(t, k.status, events)
    ensures !Condemned(t, k.status, events) ==> Run(t, k, events).status == LastReport(k.status, events)
  {
    hide Condemned;
    NothingCondemns(t, k.status);
    if events != [] {
      var before := events[..|events| - 1];
      assert events[|events| - 1] in events;
      StatusIsHistory(t, k, before);
      CountersAreRuns(t, k, events);
      CondemnedStep(t, k.status, events);
      assert events[..|events|] == events;
    }
  }

  // ---------------------------------------------------------------- in plain words

  /** Which configuration status says what: the first of these that applies. */
  lemma DriftExplained(expected: Expected, manifest: Manifest)
    ensures var status := ConfigStatus(expected, manifest);
            var speaks := manifest.protocolVersion == 2;
            var same := expected.fingerprint != "" && manifest.fingerprint == expected.fingerprint;
            var ours := expected.coordinatorId != "" && manifest.coordinatorId == expected.coordinatorId;
            var now := expected.epoch != "" && manifest.epoch == expected.epoch;
            && (status == "version_incompatible" <==> !speaks)
            && (status == "mismatch" <==> speaks && !same)
            && (status == "coordinator_mismatch" <==> speaks && same && !ours)
            && (status == "epoch_mismatch" <==> speaks && same && ours && !now)
            && (status == "generation_mismatch" <==>
                 speaks && same && ours && now && !(manifest.generation == expected.generation > 0))
  {
    assert "mismatch"[0] == 'm' && "match"[1] == 'a' && "version_incompatible"[0] == 'v';
    assert "coordinator_mismatch"[0] == 'c' && "epoch_mismatch"[0] == 'e' && "generation_mismatch"[0] == 'g';
    assert "mismatch"[1] == 'i' && "match"[0] == 'm';
  }

  /** A report that contradicts its manifest condemns the node at once, and no other does. */
  lemma ContradictionsExactly(manifest: Manifest, version: string, health: Health, persisted: bool)
    ensures EventOf(Answered(manifest, version, health), persisted) == Inconsistent(persisted) <==>
            || ToLower(TrimSpace(health.status)) !in {"healthy", "degraded"}
            || health.fingerprint == "" || health.fingerprint != manifest.fingerprint
            || health.generation != manifest.generation
  {
    hide TrimSpace, ToLower;
  }

  /** Without configured thresholds three failures condemn a node and two good probes clear it. */
  lemma DefaultThresholds(status: string, reported: string)
    requires status != "unhealthy" && reported != "unhealthy"
    ensures var t, fail, good := Thresholds(0, 0), Failed(true), Good(reported, true);
            var failed := Observe(t, Observe(t, Track(0, 0, status), fail), fail);
            && failed.status == status && Observe(t, failed, fail).status == "unhealthy"
            && Observe(t, Observe(t, failed, fail), good).status == "unhealthy"
            && Observe(t, Observe(t, Observe(t, failed, fail), good), good).status == reported
  {
  }
}
