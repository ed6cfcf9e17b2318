/** The coordinator side of synchronisation: what it checks in an edge's reply, and
    what its success says about the edge. */
module Coordinator {
  import opened Text
  import opened EdgeSync

  /** The part of a cluster node row that synchronisation, probes and routing read or write. */
  datatype Node = Node(
    id: int,
    enabled: bool,
    region: string,
    priority: int,
    weight: int,
    token: string,
    healthStatus: string,
    configStatus: string,
    fingerprint: string,
    generation: int,
    nodeId: string,
    coordinatorId: string,
    epoch: string,
    version: string,
    protocolVersion: int,
    capabilities: seq<string>,
    repositoryHealth: map<string, bool>,
    lastError: string)

  /** What happens on the wire: the edge may never see the request, or its reply may
      be lost after it acted. */
  datatype Link = Faithful | RequestLost | ReplyLost

  datatype SyncResult = SyncResult(nodeId: int, fingerprint: string, success: bool)

  /** The checks on the reply, in source order. */
  predicate AcceptsReply(m: Manifest, reply: Response) {
    && reply.Ack?
    && reply.status == "applied"
    && reply.fingerprint != "" && reply.fingerprint == m.fingerprint
    && reply.protocolVersion == m.protocolVersion
    && reply.generation == m.generation
    && reply.capabilities == m.capabilities
  }

  /** The checks on the local manifest and payload before anything is sent. */
  predicate LocallyValid<Repo, Custom>(policy: Policy<Repo, Custom>, name: string, epoch: string,
      payload: Payload<Repo, Custom>) {
    var m := payload.manifest;
    && m.protocolVersion == PROTOCOL_VERSION && m.fingerprint != ""
    && m.coordinatorId == TrimSpace(name) && m.epoch != "" && m.epoch == epoch
    && payload.repositories.Some? && payload.custom.Some?
    && policy.Fingerprint(Snapshot(payload.repositories.value, payload.custom.value)) == m.fingerprint
    && policy.capabilities(payload.repositories.value) == m.capabilities
  }

  /** The row written after a successful synchronisation. */
  function Synchronized(node: Node, m: Manifest, reply: Response): Node
    requires reply.Ack?
  {
    node.(healthStatus := "unknown", configStatus := "match", fingerprint := reply.fingerprint,
          generation := reply.generation, coordinatorId := m.coordinatorId, epoch := m.epoch,
          version := if reply.version == "" then node.version else reply.version,
          protocolVersion := reply.protocolVersion, capabilities := reply.capabilities,
          repositoryHealth := map[], lastError := "")
  }

  /** The columns that a status update writes, taken from `node`. */
  function WithStatus(row: Node, node: Node): Node {
    row.(healthStatus := node.healthStatus, configStatus := node.configStatus, fingerprint := node.fingerprint,
         generation := node.generation, nodeId := node.nodeId, coordinatorId := node.coordinatorId, epoch := node.epoch,
         version := node.version, protocolVersion := node.protocolVersion, capabilities := node.capabilities,
         repositoryHealth := node.repositoryHealth, lastError := node.lastError)
  }

  /** `UpdateClusterNodeStatus`, which fails where there is no such row. */
  function WriteStatus(rows: map<int, Node>, node: Node): map<int, Node> {
    if node.id in rows then rows[node.id := WithStatus(rows[node.id], node)] else rows
  }

  /** A status update leaves who the node is, where it stands and its credential alone, and takes
      over everything that was observed. */
  lemma StatusColumnsOnly(rows: map<int, Node>, node: Node)
    requires node.id in rows
    ensures var before, after := rows[node.id], WriteStatus(rows, node)[node.id];
            && WriteStatus(rows, node).Keys == rows.Keys
            && (forall id | id in rows && id != node.id :: WriteStatus(rows, node)[id] == rows[id])
            && after.(healthStatus := "", configStatus := "", fingerprint := "", generation := 0, nodeId := "",
                      coordinatorId := "", epoch := "", version := "", protocolVersion := 0, capabilities := [],
                      repositoryHealth := map[], lastError := "") ==
               before.(healthStatus := "", configStatus := "", fingerprint := "", generation := 0, nodeId := "",
                       coordinatorId := "", epoch := "", version := "", protocolVersion := 0, capabilities := [],
                       repositoryHealth := map[], lastError := "")
            && after.(id := node.id, enabled := node.enabled, region := node.region, priority := node.priority,
                      weight := node.weight, token := node.token) == node
  {
  }

  /** What a synchronised row says: what the edge acknowledged, health not yet checked again. */
  lemma SynchronizedSays(node: Node, m: Manifest, reply: Response)
    requires reply.Ack?
    ensures var row := Synchronized(node, m, reply);
            && row.healthStatus == "unknown" && row.configStatus == "match" && row.lastError == ""
            && row.fingerprint == reply.fingerprint && row.generation == reply.generation
            && row.protocolVersion == reply.protocolVersion && row.capabilities == reply.capabilities
            && row.coordinatorId == m.coordinatorId && row.epoch == m.epoch && row.nodeId == node.nodeId
            && (reply.version != "" ==> row.version == reply.version) && row.repositoryHealth == map[]
  {
  }

  class SyncManager<Repo, Custom> {
    const policy: Policy<Repo, Custom>
    const name: string
    const epoch: string
    var nodes: map<int, Node>

    constructor (policy: Policy<Repo, Custom>, name: string, epoch: string, nodes: map<int, Node>)
      ensures this.policy == policy && this.name == name && this.epoch == epoch && this.nodes == nodes
    {
      this.policy, this.name, this.epoch, this.nodes := policy, name, epoch, nodes;
    }

    /** `SyncNode`. Success means that at this step the edge holds exactly this
        manifest as applied, its active configuration hashes to the fingerprint, and
        the status columns of the row say so; every failure leaves the row alone. */
    method SyncNode(edge: EdgeReceiver<Repo, Custom>, node: Node, payload: Payload<Repo, Custom>,
        faults: Faults<Repo, Custom>, link: Link, rowWriteFails: bool) returns (result: SyncResult)
      modifies this`nodes, edge
      ensures edge.Now() ==
        if node.token == "" || !LocallyValid(policy, name, epoch, payload) || link.RequestLost? then old(edge.Now())
        else Deliver(edge.policy, old(edge.Now()), payload, faults).0
      ensures result.success <==>
        && node.token != "" && LocallyValid(policy, name, epoch, payload) && link.Faithful? && !rowWriteFails &&
           node.id in old(nodes)
        && Deliver(edge.policy, old(edge.Now()), payload, faults).1.Ack?
      ensures result.success ==>
        var reply := Deliver(edge.policy, old(edge.Now()), payload, faults).1;
        && Acknowledged(edge.policy, edge.Now(), payload.manifest, reply)
        && result.fingerprint == payload.manifest.fingerprint
        && nodes == WriteStatus(old(nodes), Synchronized(node, payload.manifest, reply))
      ensures result.success ==>
        && edge.Now().durable.value.coordinatorId == TrimSpace(name) &&
           edge.Now().durable.value.epoch == TrimSpace(epoch)
        && payload.repositories.Some? && payload.custom.Some?
        && Describes(policy, payload.manifest, Snapshot(payload.repositories.value, payload.custom.value))
      ensures !result.success ==> nodes == old(nodes)
    {
      result := SyncResult(node.id, "", false);
      if node.token == "" { return; }
      if !LocallyValid(policy, name, epoch, payload) { return; }
      if link.RequestLost? { return; }
      ghost var before := edge.Now();
      var reply := edge.ApplySync(payload, faults);
      TrimSpaceTrims(name);
      if reply.Ack? {
        AckMeansApplied(edge.policy, before, payload, faults);
      }
      if link.ReplyLost? || reply.Refused? { return; }
      if !AcceptsReply(payload.manifest, reply) { return; }
      result := result.(fingerprint := reply.fingerprint);
      if rowWriteFails || node.id !in nodes { return; }
      nodes := WriteStatus(nodes, Synchronized(node, payload.manifest, reply));
      result := result.(success := true);
    }
  }

  /** The local checks hold back nothing that the edge would accept from this coordinator. */
  lemma EntitledIsSent<Repo, Custom>(policy: Policy<Repo, Custom>, edge: Policy<Repo, Custom>, name: string,
      payload: Payload<Repo, Custom>)
    requires payload.repositories.Some? && payload.custom.Some?
    requires var config := Snapshot(payload.repositories.value, payload.custom.value);
             && Entitled(edge, payload, config)
             && edge.digest(config) == policy.digest(config)
             && edge.capabilities(config.repositories) == policy.capabilities(config.repositories)
    requires TrimSpace(edge.coordinator) == TrimSpace(name) == payload.manifest.coordinatorId
    ensures LocallyValid(policy, name, payload.manifest.epoch, payload)
  {
    hide NormalisesTo, TrimSpace, LowerHex;
    BlankIsNoEpoch();
  }

  lemma BlankIsNoEpoch()
    ensures |TrimSpace("")| == 0
  {
  }

  /** The reply checks accept exactly what an edge that applied this manifest sends. */
  lemma AcceptedReplies(m: Manifest, reply: Response)
    requires m.protocolVersion == PROTOCOL_VERSION && m.fingerprint != ""
    ensures AcceptsReply(m, reply) <==> exists version :: reply == Acknowledge(m, version)
  {
    if AcceptsReply(m, reply) {
      assert reply == Acknowledge(m, reply.version);
    }
  }

  // ---------------------------------------------------------------- purge replies

  datatype PurgeReply = PurgeReply(status: string, scope: string, slug: string, objectId: string, generation: int)

  /** The reply an edge sends after carrying out an admitted purge: it repeats the
      request's fields as it normalised them. */
  function PurgeDone(request: PurgeRequest, generation: int): PurgeReply {
    PurgeReply("applied", TrimSpace(request.scope), ToLower(TrimSpace(request.slug)), TrimSpace(request.objectId),
        generation)
  }

  /** `purgeNode`'s check of the reply. */
  predicate AcceptsPurgeReply(request: PurgeRequest, reply: PurgeReply) {
    && reply.status == "applied" && reply.scope == request.scope && reply.slug == request.slug
    && reply.objectId == request.objectId && reply.generation > 0
  }

  /** A purge the edge carried out counts as acknowledged exactly when the request was
      already in the edge's normal form; otherwise it took effect but is reported failed. */
  lemma PurgeAcknowledged(request: PurgeRequest, generation: int)
    requires generation > 0
    ensures AcceptsPurgeReply(request, PurgeDone(request, generation)) <==>
            && Trimmed(IsSpace, request.scope) && Trimmed(IsSpace, request.slug) && Trimmed(IsSpace, request.objectId)
            && ToLower(request.slug) == request.slug
  {
    TrimTrimmed(IsSpace, request.scope);
    TrimTrimmed(IsSpace, request.slug);
    TrimTrimmed(IsSpace, request.objectId);
  }

  /** An upper-case slug would be purged and reported as failed. The gateway itself builds its
      requests from normalised slugs and hexadecimal object ids. */
  lemma UpperCaseSlugIsNotAcknowledged(request: PurgeRequest, generation: int)
    requires request.slug == "Debian" && generation > 0
    ensures !AcceptsPurgeReply(request, PurgeDone(request, generation))
  {
    assert ToLower("Debian")[0] == 'd';
    PurgeAcknowledged(request, generation);
  }
}
