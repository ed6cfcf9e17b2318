/** The edge side of coordinator synchronisation: the receiver's durable state
    machine, what every run of deliveries, purges and restarts keeps, and what an
    acknowledgement means. */
module EdgeSync {
  import opened Text

  const PROTOCOL_VERSION := 2

  datatype SyncState = SyncState(
    coordinatorId: string,
    epoch: string,
    generation: int,
    fingerprint: string,
    status: string,
    retired: seq<string>)

  datatype Manifest = Manifest(
    protocolVersion: int,
    nodeId: string,
    coordinatorId: string,
    epoch: string,
    generation: int,
    fingerprint: string,
    capabilities: seq<string>)

  datatype Snapshot<+Repo, +Custom> = Snapshot(repositories: seq<Repo>, custom: seq<Custom>)

  /** A sync request; `None` is a JSON `null` where an array is expected. */
  datatype Payload<+Repo, +Custom> =
    Payload(manifest: Manifest, repositories: Option<seq<Repo>>, custom: Option<seq<Custom>>)

  /** The edge's configuration and the functions of other packages it calls:
      normalisation of one repository, the route conflict check, the digest of a
      configuration (`None` when it cannot be encoded) and its capabilities. */
  datatype Policy<!Repo, !Custom> = Policy(
    coordinator: string,
    version: string,
    nginxReady: bool,
    normalize: Repo -> Option<Repo>,
    routesAccepted: seq<Repo> -> bool,
    digest: Snapshot<Repo, Custom> -> Option<string>,
    capabilities: seq<Repo> -> seq<string>)
  {
    function Fingerprint(s: Snapshot<Repo, Custom>): string {
      match digest(s)
      case None => ""
      case Some(sum) => "sha256:" + sum
    }
  }

  /** What the world does to one delivery: which reads, writes and activation steps
      fail, and which configuration the managed Nginx reports after it was asked to
      activate one. */
  datatype Faults<!Repo, !Custom> = Faults(
    loadFails: bool,
    pendingWriteFails: bool,
    activationFails: bool,
    publishFails: bool,
    activate: Snapshot<Repo, Custom> -> Option<Snapshot<Repo, Custom>>,
    appliedWriteFails: bool)

  datatype Response =
    | Refused(code: int)
    | Ack(status: string, fingerprint: string, protocolVersion: int, generation: int,
          version: string, capabilities: seq<string>)

  /** The edge: its durable record, the active configuration, and (for the proofs)
      every record ever stored, oldest first. */
  datatype World<+Repo, +Custom> = World(
    durable: Option<SyncState>,
    active: Option<Snapshot<Repo, Custom>>,
    stored: seq<SyncState>)

  // ---------------------------------------------------------------- durable record

  predicate IsHex(c: char) {
    '0' <= c <= '9' || 'a' <= c <= 'f' || 'A' <= c <= 'F'
  }

  predicate ValidEpoch(value: string) {
    |value| == 32 && value == ToLower(value) && forall c | c in value :: IsHex(c)
  }

  predicate Distinct<T(==)>(values: seq<T>) {
    forall i, j :: 0 <= i < j < |values| ==> values[i] != values[j]
  }

  predicate ValidHeader(s: SyncState) {
    && TrimSpace(s.coordinatorId) != "" && s.coordinatorId == TrimSpace(s.coordinatorId)
    && ValidEpoch(s.epoch) && s.generation > 0 && TrimSpace(s.fingerprint) != ""
    && (s.status == "pending" || s.status == "applied")
  }

  predicate ValidRetired(retired: seq<string>, current: string) {
    current !in retired && (forall e | e in retired :: ValidEpoch(e)) && Distinct(retired)
  }

  predicate ValidState(s: SyncState) {
    ValidHeader(s) && ValidRetired(s.retired, s.epoch)
  }

  /** `validateEdgeSyncState`: the fixed fields, then one pass over the retired
      epochs that collects those seen so far. */
  method ValidateState(s: SyncState) returns (ok: bool)
    ensures ok <==> ValidState(s)
  {
    if !ValidHeader(s) {
      return false;
    }
    var seen: set<string> := {};
    for i := 0 to |s.retired|
      invariant forall e :: e in seen <==> e in s.retired[..i]
      invariant ValidRetired(s.retired[..i], s.epoch)
    {
      var epoch := s.retired[i];
      assert s.retired[..i + 1] == s.retired[..i] + [epoch];
      if !ValidEpoch(epoch) || epoch == s.epoch || epoch in seen {
        assert epoch in s.retired;
        return false;
      }
      seen := seen + {epoch};
    }
    assert s.retired[..|s.retired|] == s.retired;
    return true;
  }

  /** A valid record, field by field. */
  lemma ValidExactly(s: SyncState)
    ensures ValidState(s) <==>
            && s.coordinatorId != "" && TrimSpace(s.coordinatorId) == s.coordinatorId
            && |s.epoch| == 32 && LowerHex(s.epoch) && s.generation > 0 && TrimSpace(s.fingerprint) != ""
            && s.status in {"pending", "applied"} && s.epoch !in s.retired
            && (forall i | 0 <= i < |s.retired| :: |s.retired[i]| == 32 && LowerHex(s.retired[i]))
            && forall i, j | 0 <= i < j < |s.retired| :: s.retired[i] != s.retired[j]
  {
    hide TrimSpace, LowerHex, ToLower, IsHex;
    LowerHexExactly(s.epoch);
    forall i | 0 <= i < |s.retired| ensures ValidEpoch(s.retired[i]) <==>
        |s.retired[i]| == 32 && LowerHex(s.retired[i]) {
      LowerHexExactly(s.retired[i]);
    }
    assert forall i | 0 <= i < |s.retired| :: s.retired[i] in s.retired;
  }

  /** `EnsureCoordinatorEpoch`: the stored epoch, or a new one (`random` is sixteen random
      bytes in hexadecimal). Returns the epoch, if any, and the setting afterwards. */
  function EnsureEpoch(setting: Option<string>, readFails: bool, random: string, writeFails: bool): (Option<string>,
      Option<string>) {
    if readFails then (None, setting)
    else
      match setting
      case Some(value) => (if ValidEpoch(TrimSpace(value)) then Some(TrimSpace(value)) else None, setting)
      case None => if writeFails then (None, setting) else (Some(random), Some(random))
  }

  /** An epoch that was handed out is valid, and every later call that succeeds hands out the
      same one and leaves the setting alone. */
  lemma EpochIsStable(setting: Option<string>, readFails: bool, random: string, writeFails: bool,
      readFailsLater: bool, randomLater: string, writeFailsLater: bool)
    requires ValidEpoch(random) && EnsureEpoch(setting, readFails, random, writeFails).0.Some?
    ensures var first := EnsureEpoch(setting, readFails, random, writeFails);
            var later := EnsureEpoch(first.1, readFailsLater, randomLater, writeFailsLater);
            && ValidEpoch(first.0.value) && later.1 == first.1
            && later.0 == if readFailsLater then None else first.0
  {
    hide ValidEpoch, TrimSpace;
    EpochHasNoSpace(random);
  }

  function AppendUniqueEpoch(values: seq<string>, value: string): seq<string> {
    var value := TrimSpace(value);
    if value == "" || value in values then values else values + [value]
  }

  // ---------------------------------------------------------------- one delivery

  /** The repositories after normalisation, or `None` if one is rejected. */
  function NormalizeAll<Repo>(normalize: Repo -> Option<Repo>, repositories: seq<Repo>): Option<seq<Repo>> {
    if repositories == [] then Some([])
    else
      match normalize(repositories[0])
      case None => None
      case Some(first) =>
        Prepend([first], NormalizeAll(normalize, repositories[1..]))
  }

  datatype Admission<+Repo, +Custom> = Rejected(code: int) | Admitted(config: Snapshot<Repo, Custom>)

  /** The checks on the request alone, in source order. */
  function Admit<Repo, Custom>(policy: Policy<Repo, Custom>, payload: Payload<Repo, Custom>): Admission<Repo, Custom> {
    var m := payload.manifest;
    var coordinator := TrimSpace(m.coordinatorId);
    if payload.repositories.None? || payload.custom.None? then Rejected(400)
    else if m.protocolVersion != PROTOCOL_VERSION then Rejected(409)
    else if m.generation <= 0 || m.fingerprint == "" || TrimSpace(m.nodeId) == "" || coordinator == "" ||
            !ValidEpoch(TrimSpace(m.epoch)) then Rejected(400)
    else if coordinator != TrimSpace(policy.coordinator) || m.nodeId != coordinator then Rejected(403)
    else
      match NormalizeAll(policy.normalize, payload.repositories.value)
      case None => Rejected(422)
      case Some(repositories) =>
        var config := Snapshot(repositories, payload.custom.value);
        var fingerprint := policy.Fingerprint(config);
        if !policy.routesAccepted(repositories) then Rejected(409)
        else if fingerprint == "" || fingerprint != m.fingerprint then Rejected(409)
        else if policy.capabilities(repositories) != m.capabilities then Rejected(409)
        else if !policy.nginxReady then Rejected(503)
        else Admitted(config)
  }

  datatype Reconciled = Stale(code: int) | Current(retired: seq<string>)

  /** The admitted manifest against the record on file: is it stale, and if not,
      which epochs are retired once it is accepted? */
  function Reconcile(durable: Option<SyncState>, m: Manifest): Reconciled {
    match durable
    case None => Current([])
    case Some(state) =>
      var epoch := TrimSpace(m.epoch);
      if state.coordinatorId != TrimSpace(m.coordinatorId) then Stale(409)
      else if state.epoch == epoch then
        if m.generation < state.generation then Stale(409)
        else if m.generation == state.generation && m.fingerprint != state.fingerprint then Stale(409)
        else Current(state.retired)
      else if epoch in state.retired then Stale(409)
      else Current(AppendUniqueEpoch(state.retired, state.epoch))
  }

  /** The record that accepting `m` writes. */
  function Record(m: Manifest, retired: seq<string>, status: string): SyncState {
    SyncState(TrimSpace(m.coordinatorId), TrimSpace(m.epoch), m.generation, m.fingerprint, status, retired)
  }

  function Acknowledge(m: Manifest, version: string): Response {
    Ack("applied", m.fingerprint, PROTOCOL_VERSION, m.generation, version, m.capabilities)
  }

  /** `m` is exactly the configuration on file, applied, and still active. */
  predicate AlreadyApplied<Repo, Custom>(policy: Policy<Repo, Custom>, durable: Option<SyncState>,
      active: Option<Snapshot<Repo, Custom>>, m: Manifest) {
    && durable.Some? && durable.value.epoch == TrimSpace(m.epoch)
    && durable.value.generation == m.generation && durable.value.fingerprint == m.fingerprint
    && durable.value.status == "applied"
    && active.Some? && policy.Fingerprint(active.value) == m.fingerprint
  }

  function Store<Repo, Custom>(w: World<Repo, Custom>, s: SyncState): World<Repo, Custom> {
    w.(durable := Some(s), stored := w.stored + [s])
  }

  /** One sync request, from admission to acknowledgement: the new world and the
      HTTP response. */
  function Deliver<Repo, Custom>(policy: Policy<Repo, Custom>, w: World<Repo, Custom>,
      payload: Payload<Repo, Custom>, faults: Faults<Repo, Custom>): (World<Repo, Custom>, Response) {
    match Admit(policy, payload)
    case Rejected(code) => (w, Refused(code))
    case Admitted(config) =>
      if faults.loadFails || (w.durable.Some? && !ValidState(w.durable.value)) then (w, Refused(500))
      else
        match Reconcile(w.durable, payload.manifest)
        case Stale(code) => (w, Refused(code))
        case Current(retired) =>
          if AlreadyApplied(policy, w.durable, w.active, payload.manifest) then
            (w, Acknowledge(payload.manifest, policy.version))
          else Accept(policy, w, payload.manifest, config, retired, faults)
  }

  /** Write the pending record, activate, compare, write the applied record. */
  function Accept<Repo, Custom>(policy: Policy<Repo, Custom>, w: World<Repo, Custom>, m: Manifest,
      config: Snapshot<Repo, Custom>, retired: seq<string>, faults: Faults<Repo, Custom>): (World<Repo, Custom>,
      Response) {
    var pending := Record(m, retired, "pending");
    if !ValidState(pending) || faults.pendingWriteFails then (w, Refused(500))
    else
      var w := Store(w, pending).(active := faults.activate(config));
      if faults.activationFails then (w, Refused(422))
      else if faults.publishFails || w.active.None? then (w, Refused(500))
      else if policy.Fingerprint(w.active.value) != m.fingerprint ||
              policy.capabilities(w.active.value.repositories) != m.capabilities then (w, Refused(500))
      else
        var applied := Record(m, retired, "applied");
        if !ValidState(applied) || faults.appliedWriteFails then (w, Refused(500))
        else (Store(w, applied), Acknowledge(m, policy.version))
  }

  // ---------------------------------------------------------------- purge admission

  datatype PurgeRequest = PurgeRequest(coordinatorId: string, epoch: string, scope: string, slug: string,
      objectId: string)

  predicate ValidObjectId(value: string) {
    |value| == 64 && (forall c | c in value :: IsHex(c)) && ToLower(value) == value
  }

  datatype PurgeAdmission = PurgeRefused(code: int) | Purge(scope: string, repositoryId: int, objectId: string)

  /** `applyClusterPurge` up to the call of the cache manager. */
  function AdmitPurge<Repo, Custom>(policy: Policy<Repo, Custom>, w: World<Repo, Custom>, request: PurgeRequest,
      repositoryIds: map<string, int>): PurgeAdmission {
    var scope := TrimSpace(request.scope);
    var slug := ToLower(TrimSpace(request.slug));
    var objectId := TrimSpace(request.objectId);
    if w.durable.Some? && !ValidState(w.durable.value) then PurgeRefused(500)
    else if w.durable.None? || w.durable.value.status != "applied" ||
            TrimSpace(request.coordinatorId) != TrimSpace(policy.coordinator) ||
            TrimSpace(request.coordinatorId) != w.durable.value.coordinatorId ||
            TrimSpace(request.epoch) != w.durable.value.epoch then PurgeRefused(409)
    else if scope == "global" then
      if slug != "" || objectId != "" then PurgeRefused(400) else Purge(scope, 0, objectId)
    else if scope == "repository" then
      if slug == "" || objectId != "" then PurgeRefused(400)
      else if slug !in repositoryIds then PurgeRefused(404)
      else Purge(scope, repositoryIds[slug], objectId)
    else if scope == "object" then
      if slug == "" || !ValidObjectId(objectId) then PurgeRefused(400)
      else if slug !in repositoryIds then PurgeRefused(404)
      else Purge(scope, repositoryIds[slug], objectId)
    else PurgeRefused(400)
  }

  /** A purge is carried out exactly for the coordinator and epoch that are applied, and its
      scope says what it must name and what it must not. */
  lemma PurgeAdmittedExactly<Repo, Custom>(policy: Policy<Repo, Custom>, w: World<Repo, Custom>, request: PurgeRequest,
      repositoryIds: map<string, int>, scope: string, id: int, objectId: string)
    ensures AdmitPurge(policy, w, request, repositoryIds) == Purge(scope, id, objectId) <==>
            var slug := NormalSlug(request.slug);
            && w.durable.Some? && ValidState(w.durable.value) && w.durable.value.status == "applied"
            && w.durable.value.coordinatorId == TrimSpace(request.coordinatorId) == TrimSpace(policy.coordinator)
            && w.durable.value.epoch == TrimSpace(request.epoch)
            && scope == TrimSpace(request.scope) && objectId == TrimSpace(request.objectId)
            && (|| (scope == "global" && slug == "" && objectId == "" && id == 0)
                || (scope == "repository" && slug != "" && objectId == "" && (slug, id) in repositoryIds.Items)
                || (scope == "object" && slug != "" && (slug, id) in repositoryIds.Items &&
                    |objectId| == 64 && LowerHex(objectId)))
  {
    hide TrimSpace, ValidState;
    LowerHexExactly(TrimSpace(request.objectId));
  }

  /** Hexadecimal digits in lower case only. */
  predicate LowerHex(value: string) {
    forall c | c in value :: '0' <= c <= '9' || 'a' <= c <= 'f'
  }

  lemma LowerHexExactly(value: string)
    ensures LowerHex(value) <==> ToLower(value) == value && forall c | c in value :: IsHex(c)
  {
    if ToLower(value) == value && forall c | c in value :: IsHex(c) {
      forall c | c in value ensures '0' <= c <= '9' || 'a' <= c <= 'f' {
        var i :| 0 <= i < |value| && value[i] == c;
        assert ToLower(value)[i] == LowerChar(c);
      }
    }
    if LowerHex(value) {
      forall i | 0 <= i < |value| ensures IsHex(value[i]) && ToLower(value)[i] == value[i] {
        assert value[i] in value;
      }
      assert ToLower(value) == value;
    }
  }

  // ---------------------------------------------------------------- the receiver

  class EdgeReceiver<Repo, Custom> {
    const policy: Policy<Repo, Custom>
    var durable: Option<SyncState>
    var active: Option<Snapshot<Repo, Custom>>
    ghost var stored: seq<SyncState>

    constructor (policy: Policy<Repo, Custom>)
      ensures this.policy == policy && Now() == World(None, None, [])
    {
      this.policy := policy;
      durable, active, stored := None, None, [];
    }

    ghost function Now(): World<Repo, Custom>
      reads this
    {
      World(durable, active, stored)
    }

    /** `PutEdgeSyncState`: validate, then write. */
    method Put(state: SyncState, writeFails: bool) returns (ok: bool)
      modifies this`durable, this`stored
      ensures ok <==> ValidState(state) && !writeFails
      ensures Now() == if ok then Store(old(Now()), state) else old(Now())
    {
      ok := ValidateState(state);
      if writeFails {
        ok := false;
      }
      if ok {
        durable := Some(state);
        stored := stored + [state];
      }
    }

    method Normalize(repositories: seq<Repo>) returns (result: Option<seq<Repo>>)
      ensures result == NormalizeAll(policy.normalize, repositories)
    {
      var values: seq<Repo> := [];
      assert repositories[0..] == repositories;
      PrependNothing(NormalizeAll(policy.normalize, repositories));
      for i := 0 to |repositories|
        invariant NormalizeAll(policy.normalize, repositories) ==
                  Prepend(values, NormalizeAll(policy.normalize, repositories[i..]))
      {
        var normalized := policy.normalize(repositories[i]);
        assert repositories[i..][1..] == repositories[i + 1..];
        if normalized.None? {
          return None;
        }
        PrependOne(values, normalized.value, NormalizeAll(policy.normalize, repositories[i + 1..]));
        values := values + [normalized.value];
      }
      assert NormalizeAll(policy.normalize, repositories[|repositories|..]) == Some([]);
      assert values + [] == values;
      return Some(values);
    }

    /** The checks on the request alone. */
    method CheckRequest(payload: Payload<Repo, Custom>) returns (admission: Admission<Repo, Custom>)
      ensures admission == Admit(policy, payload)
    {
      var m := payload.manifest;
      if payload.repositories.None? || payload.custom.None? { return Rejected(400); }
      if m.protocolVersion != PROTOCOL_VERSION { return Rejected(409); }
      var coordinator, epoch := TrimSpace(m.coordinatorId), TrimSpace(m.epoch);
      if m.generation <= 0 || m.fingerprint == "" || TrimSpace(m.nodeId) == "" || coordinator == "" ||
          !ValidEpoch(epoch) {
        return Rejected(400);
      }
      if coordinator != TrimSpace(policy.coordinator) || m.nodeId != coordinator { return Rejected(403); }
      var normalized := Normalize(payload.repositories.value);
      if normalized.None? { return Rejected(422); }
      var config := Snapshot(normalized.value, payload.custom.value);
      if !policy.routesAccepted(config.repositories) { return Rejected(409); }
      var fingerprint := policy.Fingerprint(config);
      if fingerprint == "" || fingerprint != m.fingerprint { return Rejected(409); }
      if policy.capabilities(config.repositories) != m.capabilities { return Rejected(409); }
      if !policy.nginxReady { return Rejected(503); }
      return Admitted(config);
    }

    /** Compare the manifest with the record on file. */
    method CheckRecord(m: Manifest) returns (verdict: Reconciled)
      ensures verdict == Reconcile(durable, m)
    {
      var retired := [];
      if durable.Some? {
        var state := durable.value;
        var epoch := TrimSpace(m.epoch);
        retired := state.retired;
        if state.coordinatorId != TrimSpace(m.coordinatorId) { return Stale(409); }
        if state.epoch == epoch {
          if m.generation < state.generation { return Stale(409); }
          if m.generation == state.generation && m.fingerprint != state.fingerprint { return Stale(409); }
        } else {
          if epoch in state.retired { return Stale(409); }
          retired := AppendUniqueEpoch(retired, state.epoch);
        }
      }
      return Current(retired);
    }

    /** `applyClusterSync` on a decoded request. */
    method ApplySync(payload: Payload<Repo, Custom>, faults: Faults<Repo, Custom>) returns (response: Response)
      modifies this
      ensures (Now(), response) == Deliver(policy, old(Now()), payload, faults)
    {
      var admission := CheckRequest(payload);
      if admission.Rejected? { return Refused(admission.code); }
      if faults.loadFails { return Refused(500); }
      if durable.Some? {
        var valid := ValidateState(durable.value);
        if !valid { return Refused(500); }
      }
      var verdict := CheckRecord(payload.manifest);
      if verdict.Stale? { return Refused(verdict.code); }
      if AlreadyApplied(policy, durable, active, payload.manifest) {
        return Acknowledge(payload.manifest, policy.version);
      }
      response := AcceptConfiguration(payload.manifest, admission.config, verdict.retired, faults);
    }

    method AcceptConfiguration(m: Manifest, config: Snapshot<Repo, Custom>, retired: seq<string>,
        faults: Faults<Repo, Custom>)
        returns (response: Response)
      modifies this
      ensures (Now(), response) == Accept(policy, old(Now()), m, config, retired, faults)
    {
      var record := Record(m, retired, "pending");
      var ok := Put(record, faults.pendingWriteFails);
      if !ok { return Refused(500); }
      active := faults.activate(config);
      if faults.activationFails { return Refused(422); }
      if faults.publishFails || active.None? { return Refused(500); }
      if policy.Fingerprint(active.value) != m.fingerprint ||
          policy.capabilities(active.value.repositories) != m.capabilities {
        return Refused(500);
      }
      record := record.(status := "applied");
      ok := Put(record, faults.appliedWriteFails);
      if !ok { return Refused(500); }
      return Acknowledge(m, policy.version);
    }
  }

  // ---------------------------------------------------------------- whole runs

  /** A step of an edge's life: a sync request arrives, or the process restarts
      (possibly reconfigured, possibly with another active configuration). */
  datatype Event<!Repo, !Custom> =
    | Delivery(payload: Payload<Repo, Custom>, faults: Faults<Repo, Custom>)
    | Restart(policy: Policy<Repo, Custom>, active: Option<Snapshot<Repo, Custom>>)

  datatype System<!Repo, !Custom> = System(policy: Policy<Repo, Custom>, world: World<Repo, Custom>)

  function Step<Repo, Custom>(s: System<Repo, Custom>, e: Event<Repo, Custom>): System<Repo, Custom> {
    match e
    case Delivery(payload, faults) => s.(world := Deliver(s.policy, s.world, payload, faults).0)
    case Restart(policy, active) => System(policy, s.world.(active := active))
  }

  function Run<Repo, Custom>(s: System<Repo, Custom>, events: seq<Event<Repo, Custom>>): System<Repo, Custom>
    decreases |events|
  {
    if events == [] then s
    else Run(Step(s, events[0]), events[1..])
  }

  /** How a later record relates to an earlier one: the same coordinator; within an
      epoch the generation never decreases and one generation has one fingerprint; an
      epoch that was left is retired, and retired epochs stay retired. */
  predicate Supersedes(earlier: SyncState, later: SyncState) {
    && later.coordinatorId == earlier.coordinatorId
    && (later.epoch == earlier.epoch ==>
          && earlier.generation <= later.generation
          && (earlier.generation == later.generation ==> later.fingerprint == earlier.fingerprint))
    && (later.epoch != earlier.epoch ==> earlier.epoch in later.retired)
    && (forall e | e in earlier.retired :: e in later.retired)
  }

  /** The record on file is the last one stored; all are valid, each supersedes all
      that came before. */
  ghost predicate History(durable: Option<SyncState>, stored: seq<SyncState>) {
    && durable == (if stored == [] then None else Some(stored[|stored| - 1]))
    && (forall i | 0 <= i < |stored| :: ValidState(stored[i]))
    && (forall i, j | 0 <= i < j < |stored| :: Supersedes(stored[i], stored[j]))
  }

  ghost predicate Consistent<Repo, Custom>(w: World<Repo, Custom>) {
    History(w.durable, w.stored)
  }

  lemma StoreKeeps(durable: Option<SyncState>, stored: seq<SyncState>, s: SyncState)
    requires History(durable, stored) && ValidState(s)
    requires durable.Some? ==> Supersedes(durable.value, s)
    ensures History(Some(s), stored + [s])
  {
    forall i | 0 <= i < |stored| ensures Supersedes(stored[i], s) {
      assert i < |stored| - 1 ==> Supersedes(stored[i], stored[|stored| - 1]);
    }
  }

  lemma FingerprintIsVisible(sum: string)
    ensures TrimSpace("sha256:" + sum) != ""
  {
    var s := "sha256:" + sum;
    TrimLeftSpec(IsSpace, s);
    TrimRightSpec(IsSpace, s);
    assert s[0] == 's' && s[0] in s;
  }

  /** Every record the receiver builds passes validation and supersedes the one on
      file, so neither `PutEdgeSyncState` call ever refuses it as invalid. */
  lemma AcceptedRecordIsValid<Repo, Custom>(policy: Policy<Repo, Custom>, durable: Option<SyncState>,
      payload: Payload<Repo, Custom>, status: string)
    requires Admit(policy, payload).Admitted? && Reconcile(durable, payload.manifest).Current?
    requires durable.Some? ==> ValidState(durable.value)
    requires status == "pending" || status == "applied"
    ensures var s := Record(payload.manifest, Reconcile(durable, payload.manifest).retired, status);
            ValidState(s) && (durable.Some? ==> Supersedes(durable.value, s))
  {
    hide Admit, ValidEpoch, TrimSpace;
    var m := payload.manifest;
    AdmittedManifest(policy, payload);
    TrimSpaceTrims(m.coordinatorId);
    if durable.Some? {
      EpochHasNoSpace(durable.value.epoch);
    }
  }

  lemma TrimSpaceTrims(value: string)
    ensures Trimmed(IsSpace, TrimSpace(value)) && TrimSpace(TrimSpace(value)) == TrimSpace(value)
  {
    TrimTrimmed(IsSpace, value);
    TrimTrimmed(IsSpace, TrimSpace(value));
  }

  /** What admission says about the manifest and its configuration. */
  lemma AdmittedManifest<Repo, Custom>(policy: Policy<Repo, Custom>, payload: Payload<Repo, Custom>)
    requires Admit(policy, payload).Admitted?
    ensures var m, config := payload.manifest, Admit(policy, payload).config;
            && m.protocolVersion == PROTOCOL_VERSION && m.generation > 0 && ValidEpoch(TrimSpace(m.epoch))
            && Trimmed(IsSpace, TrimSpace(m.coordinatorId)) && TrimSpace(m.coordinatorId) != ""
            && policy.Fingerprint(config) == m.fingerprint && m.fingerprint != "" && TrimSpace(m.fingerprint) != ""
            && policy.capabilities(config.repositories) == m.capabilities
  {
    hide NormalizeAll, TrimSpace, ValidEpoch;
    TrimSpaceTrims(payload.manifest.coordinatorId);
    FingerprintIsVisible(policy.digest(Admit(policy, payload).config).value);
  }

  lemma EpochHasNoSpace(epoch: string)
    requires ValidEpoch(epoch)
    ensures TrimSpace(epoch) == epoch && epoch != ""
  {
    assert epoch[0] in epoch && epoch[31] in epoch;
    TrimTrimmed(IsSpace, epoch);
  }

  lemma AppliedSupersedes(m: Manifest, retired: seq<string>)
    ensures Supersedes(Record(m, retired, "pending"), Record(m, retired, "applied"))
  {
  }

  lemma DeliverKeeps<Repo, Custom>(policy: Policy<Repo, Custom>, w: World<Repo, Custom>,
      payload: Payload<Repo, Custom>, faults: Faults<Repo, Custom>)
    requires Consistent(w)
    ensures var w' := Deliver(policy, w, payload, faults).0; Consistent(w') && w.stored <= w'.stored
  {
    hide Admit, Reconcile, Record, ValidState, Supersedes, AlreadyApplied, History;
    if Admit(policy, payload).Admitted? && Reconcile(w.durable, payload.manifest).Current? && !faults.loadFails
       && (w.durable.Some? ==> ValidState(w.durable.value)) {
      var retired := Reconcile(w.durable, payload.manifest).retired;
      var pending, applied := Record(payload.manifest, retired, "pending"),
          Record(payload.manifest, retired, "applied");
      AcceptedRecordIsValid(policy, w.durable, payload, "pending");
      AcceptedRecordIsValid(policy, w.durable, payload, "applied");
      StoreKeeps(w.durable, w.stored, pending);
      AppliedSupersedes(payload.manifest, retired);
      StoreKeeps(Some(pending), w.stored + [pending], applied);
    }
  }

  lemma {:induction false} RunKeeps<Repo, Custom>(s: System<Repo, Custom>, events: seq<Event<Repo, Custom>>)
    requires Consistent(s.world)
    ensures Consistent(Run(s, events).world)
    ensures s.world.stored <= Run(s, events).world.stored
    decreases |events|
  {
    if events != [] {
      if events[0].Delivery? {
        DeliverKeeps(s.policy, s.world, events[0].payload, events[0].faults);
      }
      RunKeeps(Step(s, events[0]), events[1..]);
    }
  }

  // ---------------------------------------------------------------- what a run guarantees

  function Start<Repo, Custom>(policy: Policy<Repo, Custom>): System<Repo, Custom> {
    System(policy, World(None, None, []))
  }

  /** Over any run, whatever is duplicated, reordered, stale or fails: every stored
      record is valid, all name one coordinator, within an epoch generations never
      decrease, and one generation of an epoch has one fingerprint. */
  lemma StoredRecordsAgree<Repo, Custom>(policy: Policy<Repo, Custom>, events: seq<Event<Repo, Custom>>, i: nat, j: nat)
    requires i < j < |Run(Start(policy), events).world.stored|
    ensures var a, b := Run(Start(policy), events).world.stored[i], Run(Start(policy), events).world.stored[j];
            && ValidState(a) && ValidState(b)
            && a.coordinatorId == b.coordinatorId
            && (a.epoch == b.epoch ==> a.generation <= b.generation)
            && (a.epoch == b.epoch && a.generation == b.generation ==> a.fingerprint == b.fingerprint)
  {
    RunKeeps(Start(policy), events);
  }

  /** An epoch once left is never entered again. */
  lemma EpochsAreContiguous<Repo, Custom>(policy: Policy<Repo, Custom>, events: seq<Event<Repo, Custom>>,
      i: nat, k: nat, j: nat)
    requires i < k < j < |Run(Start(policy), events).world.stored|
    ensures var stored := Run(Start(policy), events).world.stored;
            stored[i].epoch == stored[j].epoch ==> stored[k].epoch == stored[i].epoch
  {
    RunKeeps(Start(policy), events);
    var stored := Run(Start(policy), events).world.stored;
    assert Supersedes(stored[i], stored[k]) && Supersedes(stored[k], stored[j]) && ValidState(stored[j]);
  }

  /** An acknowledgement is sent only when the record on file is `applied` for exactly
      the manifest's coordinator, epoch, generation and fingerprint, the active
      configuration hashes to that fingerprint, and the reply repeats the manifest. */
  predicate Acknowledged<Repo, Custom>(policy: Policy<Repo, Custom>, w: World<Repo, Custom>, m: Manifest,
      response: Response) {
    && w.durable.Some?
    && w.durable.value.coordinatorId == TrimSpace(m.coordinatorId)
    && w.durable.value.epoch == TrimSpace(m.epoch)
    && w.durable.value.generation == m.generation
    && w.durable.value.fingerprint == m.fingerprint
    && w.durable.value.status == "applied"
    && w.active.Some? && policy.Fingerprint(w.active.value) == m.fingerprint
    && response == Ack("applied", m.fingerprint, m.protocolVersion, m.generation, policy.version, m.capabilities)
  }

  lemma AckMeansApplied<Repo, Custom>(policy: Policy<Repo, Custom>, w: World<Repo, Custom>,
      payload: Payload<Repo, Custom>, faults: Faults<Repo, Custom>)
    requires Deliver(policy, w, payload, faults).1.Ack?
    ensures var after := Deliver(policy, w, payload, faults);
            Acknowledged(policy, after.0, payload.manifest, after.1) && ValidState(after.0.durable.value)
  {
    hide Admit, ValidState, AppendUniqueEpoch, TrimSpace;
    AdmittedManifest(policy, payload);
  }

  /** Acknowledged deliveries are idempotent: the same request again changes nothing
      and is acknowledged again, whatever else would have failed. */
  lemma RedeliveryIsIdempotent<Repo, Custom>(policy: Policy<Repo, Custom>, w: World<Repo, Custom>,
      payload: Payload<Repo, Custom>, faults: Faults<Repo, Custom>, again: Faults<Repo, Custom>)
    requires Deliver(policy, w, payload, faults).1.Ack? && !again.loadFails
    ensures var after := Deliver(policy, w, payload, faults);
            Deliver(policy, after.0, payload, again) == after
  {
    AckMeansApplied(policy, w, payload, faults);
    AcknowledgedAgain(policy, Deliver(policy, w, payload, faults).0, payload, Deliver(policy, w, payload, faults).1,
        again);
  }

  /** In an acknowledged state the request is answered from the record alone. */
  lemma AcknowledgedAgain<Repo, Custom>(policy: Policy<Repo, Custom>, w: World<Repo, Custom>,
      payload: Payload<Repo, Custom>, response: Response, faults: Faults<Repo, Custom>)
    requires Admit(policy, payload).Admitted? && !faults.loadFails
    requires Acknowledged(policy, w, payload.manifest, response) && ValidState(w.durable.value)
    ensures Deliver(policy, w, payload, faults) == (w, response)
  {
    hide Admit, ValidState, AppendUniqueEpoch, TrimSpace, Accept;
    AdmittedManifest(policy, payload);
  }

  // ---------------------------------------------------------------- who may configure the edge

  ghost predicate NormalisesTo<Repo>(normalize: Repo -> Option<Repo>, given: seq<Repo>, result: seq<Repo>) {
    |result| == |given| && forall i | 0 <= i < |given| :: normalize(given[i]) == Some(result[i])
  }

  predicate CompleteManifest(m: Manifest) {
    && m.generation > 0 && m.fingerprint != "" && TrimSpace(m.nodeId) != "" && TrimSpace(m.coordinatorId) != ""
    && |TrimSpace(m.epoch)| == 32 && LowerHex(TrimSpace(m.epoch))
  }

  /** The manifest comes from the coordinator this edge is configured for. */
  predicate FromCoordinator(coordinator: string, m: Manifest) {
    TrimSpace(m.coordinatorId) == TrimSpace(coordinator) == m.nodeId
  }

  /** The manifest carries the fingerprint and the capabilities of `config`. */
  ghost predicate Describes<Repo, Custom>(policy: Policy<Repo, Custom>, m: Manifest, config: Snapshot<Repo, Custom>) {
    && policy.digest(config).Some? && m.fingerprint == "sha256:" + policy.digest(config).value
    && m.capabilities == policy.capabilities(config.repositories)
  }

  /** The request may configure the edge, and `config` is what it asks for. */
  ghost predicate Entitled<Repo, Custom>(policy: Policy<Repo, Custom>, payload: Payload<Repo, Custom>,
      config: Snapshot<Repo, Custom>) {
    && payload.repositories.Some? && payload.custom == Some(config.custom)
    && payload.manifest.protocolVersion == 2 && CompleteManifest(payload.manifest)
    && FromCoordinator(policy.coordinator, payload.manifest)
    && NormalisesTo(policy.normalize, payload.repositories.value, config.repositories)
    && policy.routesAccepted(config.repositories) && Describes(policy, payload.manifest, config) && policy.nginxReady
  }

  lemma {:induction false} NormalizeAllExactly<Repo>(normalize: Repo -> Option<Repo>, given: seq<Repo>,
      result: seq<Repo>)
    ensures NormalizeAll(normalize, given) == Some(result) <==> NormalisesTo(normalize, given, result)
  {
    if given != [] {
      var rest := NormalizeAll(normalize, given[1..]);
      if result != [] {
        NormalizeAllExactly(normalize, given[1..], result[1..]);
        assert result == [result[0]] + result[1..];
        assert forall i | 0 < i < |given| :: given[i] == given[1..][i - 1];
        assert forall i | 0 <= i < |given| - 1 :: given[1..][i] == given[i + 1];
        assert forall i | 0 <= i < |result| - 1 :: result[1..][i] == result[i + 1];
      }
      if normalize(given[0]).Some? && rest.Some? {
        assert ([normalize(given[0]).value] + rest.value)[1..] == rest.value;
      }
    }
  }

  lemma {:induction false} NormalizeAllFails<Repo>(normalize: Repo -> Option<Repo>, given: seq<Repo>)
    ensures NormalizeAll(normalize, given).None? <==> exists i | 0 <= i < |given| :: normalize(given[i]).None?
  {
    if given != [] {
      NormalizeAllFails(normalize, given[1..]);
      assert forall i | 0 < i < |given| :: given[i] == given[1..][i - 1];
      assert forall i | 0 <= i < |given| - 1 :: given[1..][i] == given[i + 1];
    }
  }

  /** A request is admitted exactly when it is entitled, and with the configuration it asks for. */
  lemma AdmittedExactly<Repo, Custom>(policy: Policy<Repo, Custom>, payload: Payload<Repo, Custom>,
      config: Snapshot<Repo, Custom>)
    ensures Admit(policy, payload) == Admitted(config) <==> Entitled(policy, payload, config)
  {
    hide NormalizeAll, NormalisesTo, LowerHex, ToLower, IsHex, TrimSpace;
    LowerHexExactly(TrimSpace(payload.manifest.epoch));
    TrimSpaceTrims(payload.manifest.coordinatorId);
    if payload.repositories.Some? {
      NormalizeAllExactly(policy.normalize, payload.repositories.value, config.repositories);
    }
  }

  /** Which refusal says what: 403 another coordinator, 422 a repository that cannot be
      normalised, 503 a request that is entitled but for a missing Nginx. */
  lemma RefusalsExplained<Repo, Custom>(policy: Policy<Repo, Custom>, payload: Payload<Repo, Custom>)
    ensures var m := payload.manifest;
            var readable := payload.repositories.Some? && payload.custom.Some?;
            && (Admit(policy, payload) == Rejected(400) <==>
               !readable || (m.protocolVersion == 2 && !CompleteManifest(m)))
            && (Admit(policy, payload) == Rejected(403) <==>
                 readable && m.protocolVersion == 2 && CompleteManifest(m) && !FromCoordinator(policy.coordinator, m))
            && (Admit(policy, payload) == Rejected(422) <==>
                 && readable && m.protocolVersion == 2 && CompleteManifest(m) && FromCoordinator(policy.coordinator, m)
                 && exists i | 0 <= i < |payload.repositories.value| ::
                      policy.normalize(payload.repositories.value[i]).None?)
            && (Admit(policy, payload) == Rejected(503) <==>
                 !policy.nginxReady && exists config :: Entitled(policy.(nginxReady := true), payload, config))
    ensures Admit(policy, payload).Rejected? ==> Admit(policy, payload).code in {400, 403, 409, 422, 503}
  {
    hide NormalizeAll, LowerHex, ToLower, IsHex, TrimSpace, NormalisesTo;
    LowerHexExactly(TrimSpace(payload.manifest.epoch));
    if payload.repositories.Some? {
      NormalizeAllFails(policy.normalize, payload.repositories.value);
    }
    ReadyRefusal(policy, payload);
  }

  lemma ReadyRefusal<Repo, Custom>(policy: Policy<Repo, Custom>, payload: Payload<Repo, Custom>)
    ensures Admit(policy, payload) == Rejected(503) <==>
            !policy.nginxReady && exists config :: Entitled(policy.(nginxReady := true), payload, config)
  {
    hide NormalizeAll, ValidEpoch, TrimSpace, Entitled;
    var ready := policy.(nginxReady := true);
    assert forall c :: ready.Fingerprint(c) == policy.Fingerprint(c);
    assert Admit(policy, payload) == Rejected(503) <==> !policy.nginxReady && Admit(ready, payload).Admitted?;
    if Admit(ready, payload).Admitted? {
      AdmittedExactly(ready, payload, Admit(ready, payload).config);
    }
    if config :| Entitled(ready, payload, config) {
      AdmittedExactly(ready, payload, config);
    }
  }

  /** Nobody but the coordinator the edge is configured for changes anything or gets an
      acknowledgement, and then only for a configuration the manifest describes. */
  lemma OnlyTheCoordinatorConfigures<Repo, Custom>(policy: Policy<Repo, Custom>, w: World<Repo, Custom>,
      payload: Payload<Repo, Custom>, faults: Faults<Repo, Custom>)
    requires Deliver(policy, w, payload, faults).0 != w || Deliver(policy, w, payload, faults).1.Ack?
    ensures FromCoordinator(policy.coordinator, payload.manifest)
    ensures exists config :: Entitled(policy, payload, config)
  {
    hide Admit, Reconcile, Accept, AlreadyApplied, ValidState;
    AdmittedExactly(policy, payload, Admit(policy, payload).config);
  }

  /** The manifest is not older than the record on file, and does not contradict it. */
  predicate UpToDate(durable: Option<SyncState>, m: Manifest) {
    durable.Some? ==>
      && durable.value.coordinatorId == TrimSpace(m.coordinatorId)
      && TrimSpace(m.epoch) !in durable.value.retired
      && (durable.value.epoch == TrimSpace(m.epoch) ==>
            || m.generation > durable.value.generation
            || (m.generation == durable.value.generation && m.fingerprint == durable.value.fingerprint))
  }

  lemma CurrentExactly(durable: Option<SyncState>, m: Manifest)
    requires durable.Some? ==> ValidState(durable.value)
    ensures Reconcile(durable, m).Current? <==> UpToDate(durable, m)
    ensures UpToDate(durable, m) ==>
              Reconcile(durable, m).retired ==
              if durable.None? then []
              else if durable.value.epoch == TrimSpace(m.epoch) then durable.value.retired
              else durable.value.retired + [durable.value.epoch]
  {
    hide TrimSpace, ValidEpoch;
    if durable.Some? {
      EpochHasNoSpace(durable.value.epoch);
    }
  }

  function NoFaults<Repo, Custom>(): Faults<Repo, Custom> {
    Faults(false, false, false, false, config => Some(config), false)
  }

  /** When nothing fails, a request is acknowledged exactly if it is entitled and up to date. */
  lemma AcknowledgedExactly<Repo, Custom>(policy: Policy<Repo, Custom>, w: World<Repo, Custom>,
      payload: Payload<Repo, Custom>)
    requires w.durable.Some? ==> ValidState(w.durable.value)
    ensures Deliver(policy, w, payload, NoFaults()).1.Ack? <==>
            (exists config :: Entitled(policy, payload, config)) && UpToDate(w.durable, payload.manifest)
  {
    hide Admit, Reconcile, ValidState, TrimSpace, Entitled, UpToDate;
    CurrentExactly(w.durable, payload.manifest);
    if Admit(policy, payload).Admitted? {
      AdmittedExactly(policy, payload, Admit(policy, payload).config);
      AdmittedManifest(policy, payload);
      if Reconcile(w.durable, payload.manifest).Current? {
        AcceptedRecordIsValid(policy, w.durable, payload, "pending");
        AcceptedRecordIsValid(policy, w.durable, payload, "applied");
      }
    }
    if config :| Entitled(policy, payload, config) {
      AdmittedExactly(policy, payload, config);
    }
  }

  /** What a delivery that changes anything writes: first a pending record of exactly this
      manifest, which retires the epoch that is left; then Nginx is asked for exactly the
      configuration of the request; and an applied record only if it is acknowledged. */
  lemma DeliveryWrites<Repo, Custom>(policy: Policy<Repo, Custom>, w: World<Repo, Custom>,
      payload: Payload<Repo, Custom>, faults: Faults<Repo, Custom>, config: Snapshot<Repo, Custom>)
    requires Deliver(policy, w, payload, faults).0 != w && Entitled(policy, payload, config)
    ensures var m, after := payload.manifest, Deliver(policy, w, payload, faults);
            var retired := if w.durable.None? then []
                           else if w.durable.value.epoch == TrimSpace(m.epoch) then w.durable.value.retired
                           else w.durable.value.retired + [w.durable.value.epoch];
            var pending := SyncState(TrimSpace(m.coordinatorId), TrimSpace(m.epoch), m.generation, m.fingerprint,
                                     "pending", retired);
            var applied := pending.(status := "applied");
            && after.0.active == faults.activate(config)
            && after.0.stored == w.stored + [pending] + (if after.1.Ack? then [applied] else [])
            && after.0.durable == Some(if after.1.Ack? then applied else pending)
            && (after.1.Ack? ==> after.0.active.Some? && Describes(policy, m, after.0.active.value))
            && (!after.1.Ack? ==> after.1 == Refused(if faults.activationFails then 422 else 500))
  {
    hide Admit, Reconcile, ValidState, TrimSpace, Entitled;
    AdmittedExactly(policy, payload, config);
    AdmittedManifest(policy, payload);
    CurrentExactly(w.durable, payload.manifest);
  }

  /** A retired epoch stays retired in every later run, and nothing bound to it is
      ever accepted again: neither a configuration nor a cache purge. */
  lemma RetiredEpochIsDead<Repo, Custom>(s: System<Repo, Custom>, events: seq<Event<Repo, Custom>>, epoch: string,
      payload: Payload<Repo, Custom>, faults: Faults<Repo, Custom>, request: PurgeRequest,
      repositoryIds: map<string, int>)
    requires Consistent(s.world) && s.world.durable.Some? && epoch in s.world.durable.value.retired
    requires TrimSpace(payload.manifest.epoch) == epoch && TrimSpace(request.epoch) == epoch
    ensures var s' := Run(s, events);
            && s'.world.durable.Some? && epoch in s'.world.durable.value.retired
            && Deliver(s'.policy, s'.world, payload, faults).0 == s'.world
            && Deliver(s'.policy, s'.world, payload, faults).1.Refused?
            && AdmitPurge(s'.policy, s'.world, request, repositoryIds).PurgeRefused?
  {
    RunRetires(s, events, epoch);
    RetiredIsRefused(Run(s, events), epoch, payload, faults, request, repositoryIds);
  }

  lemma RunRetires<Repo, Custom>(s: System<Repo, Custom>, events: seq<Event<Repo, Custom>>, epoch: string)
    requires Consistent(s.world) && s.world.durable.Some? && epoch in s.world.durable.value.retired
    ensures var w := Run(s, events).world;
            w.durable.Some? && epoch in w.durable.value.retired && epoch != w.durable.value.epoch
  {
    hide ValidHeader, Run;
    RunKeeps(s, events);
    var before, after := s.world.stored, Run(s, events).world.stored;
    if |before| < |after| {
      assert before[|before| - 1] == after[|before| - 1];
      assert Supersedes(after[|before| - 1], after[|after| - 1]);
    }
  }

  lemma RetiredIsRefused<Repo, Custom>(s: System<Repo, Custom>, epoch: string,
      payload: Payload<Repo, Custom>, faults: Faults<Repo, Custom>, request: PurgeRequest,
      repositoryIds: map<string, int>)
    requires s.world.durable.Some? && epoch in s.world.durable.value.retired && epoch != s.world.durable.value.epoch
    requires TrimSpace(payload.manifest.epoch) == epoch && TrimSpace(request.epoch) == epoch
    ensures Deliver(s.policy, s.world, payload, faults).0 == s.world
    ensures Deliver(s.policy, s.world, payload, faults).1.Refused?
    ensures AdmitPurge(s.policy, s.world, request, repositoryIds).PurgeRefused?
  {
    hide Admit, ValidState, TrimSpace, ToLower, AppendUniqueEpoch, Accept, ValidObjectId;
  }
}
