/** The SIGNATIF data that the service stores, and the contracts of the crate
    functions it calls.

    Whatever those functions compute is a parameter: an `Env` holds one
    deterministic function for each, and every theorem holds for all of them.
  */
module Signatif {
  import opened Text
  import Json

  type NodeId = string
  type KeyId = string

  /** An instant, in whole seconds since the epoch. */
  type Time = int

  datatype Suite = Suite(token: string)

  datatype PublicKey = PublicKey(suite: Suite, bytes: seq<Byte>)

  datatype SignatureSlot = SignatureSlot(suite: Suite, keyId: KeyId, signature: Option<seq<Byte>>)

  datatype SigningDomain = QuorumDomain | MasterListWitnessDomain

  datatype RegisteredKey = RegisteredKey(keyId: KeyId, public: PublicKey)

  /** The members of a threshold group are an ordered set: their list is
      strictly increasing. */
  datatype NodeKind =
    | Root
    | Delegated
    | End
    | ThresholdGroup(threshold: nat, members: seq<NodeId>)

  datatype DelegationNode = DelegationNode(id: NodeId, kind: NodeKind, keys: seq<RegisteredKey>)

  /** A delegation scope, and a scope condition, as their serde images. */
  datatype Scope = Scope(json: Json.Value)
  datatype ScopeCondition = ScopeCondition(json: Json.Value)

  datatype DelegationCredential = DelegationCredential(
    parent: NodeId, child: NodeId, scope: Scope, signatures: seq<SignatureSlot>)

  datatype TrustGraph = TrustGraph(nodes: map<NodeId, DelegationNode>, edges: seq<DelegationCredential>)

  datatype TrustListEntry = TrustListEntry(node: NodeId, notBefore: Time, supersededAt: Option<Time>)

  datatype TrustList = TrustList(jurisdiction: string, entries: map<NodeId, TrustListEntry>)

  datatype WitnessAttestation = WitnessAttestation(witnessId: NodeId, at: Time, slot: SignatureSlot)

  datatype MasterListEntry = MasterListEntry(node: NodeId, attestations: seq<WitnessAttestation>)

  datatype MasterList = MasterList(
    m: nat, k: nat, witnesses: map<NodeId, PublicKey>, entries: map<NodeId, MasterListEntry>)

  datatype Interval = Interval(from: Time, to: Option<Time>)

  datatype RevokedSubject =
    | Key(key: KeyId)
    | Node(node: NodeId)
    | Passport(passport: string)
    | Condition(holder: NodeId, condition: ScopeCondition)

  datatype RevocationReason =
    | KeyCompromise(after: Time)
    | Cessation
    | Supersession(successor: NodeId)
    | AffiliationChange
    | Misissuance
    | FraudulentIssuance
    | AuthorityCompromised(detectedAt: Time)
    | ConditionWithdrawal
  {
    /** `is_retroactive`: the three reasons that void from the start. */
    predicate IsRetroactive() {
      Misissuance? || FraudulentIssuance? || AuthorityCompromised?
    }
  }

  datatype QuorumAttestation = QuorumAttestation(
    quorum: NodeId, threshold: nat, signatures: seq<SignatureSlot>)

  datatype Revocation = Revocation(
    subject: RevokedSubject,
    reason: RevocationReason,
    declaredAt: Time,
    declaredBy: NodeId,
    window: Interval,
    quorum: Option<QuorumAttestation>)

  datatype Env = Env(
    verify: (SigningDomain, SignatureSlot, seq<Byte>, PublicKey) -> bool,
    keyIdOf: PublicKey -> KeyId,
    resolve: (map<NodeId, DelegationNode>, KeyId) -> Option<PublicKey>,
    acceptsEdge: (TrustGraph, DelegationCredential) -> bool,
    statementBytes: Revocation -> seq<Byte>,
    quorumBytes: (seq<Byte>, NodeId, nat) -> seq<Byte>,
    witnessBytes: (NodeId, Time) -> seq<Byte>,
    voids: (Revocation, Time) -> bool,
    nodeIdOk: string -> bool,
    keyIdOk: string -> bool,
    passportOk: string -> bool,
    parseSuite: string -> Option<Suite>,
    signatureLen: Suite -> nat,
    suiteOfKey: seq<Byte> -> Option<Suite>,
    scopeOk: Json.Value -> bool,
    conditionOk: Json.Value -> bool,
    conditionText: Json.Value -> string)
  {
    /** `key_directory().resolve`: it finds a key exactly when a node of the
        graph registers one under the id, and what it finds is registered. */
    ghost predicate DirectoryFaithful() {
      forall nodes, kid :: ResolvesFaithfully(nodes, kid)
    }

    ghost predicate ResolvesFaithfully(nodes: map<NodeId, DelegationNode>, kid: KeyId) {
      match resolve(nodes, kid)
      case Some(public) => Registers(nodes, RegisteredKey(kid, public))
      case None => forall public :: !Registers(nodes, RegisteredKey(kid, public))
    }

    /** Key ids are digests of keys; no two keys are taken to share one. */
    ghost predicate KeyIdsDistinguish() {
      forall a, b :: keyIdOf(a) == keyIdOf(b) ==> a == b
    }
  }

  ghost predicate Registers(nodes: map<NodeId, DelegationNode>, key: RegisteredKey) {
    exists id :: id in nodes && key in nodes[id].keys
  }

  /** `TrustGraph::add_node`: insert if absent. */
  function AddNode(graph: TrustGraph, node: DelegationNode): TrustGraph {
    if node.id in graph.nodes then graph else graph.(nodes := graph.nodes[node.id := node])
  }

  /** `TrustGraph::add_edge`: append if accepted. */
  function AddEdge(env: Env, graph: TrustGraph, credential: DelegationCredential): Option<TrustGraph> {
    if env.acceptsEdge(graph, credential) then Some(graph.(edges := graph.edges + [credential]))
    else None
  }

  /** `RevocationLedger::declare`: append, unless retroactive with no quorum. */
  function Declare(ledger: seq<Revocation>, r: Revocation): Option<seq<Revocation>> {
    if r.reason.IsRetroactive() && r.quorum.None? then None else Some(ledger + [r])
  }

  /** `DelegationNode::key`. */
  function KeyOf(keys: seq<RegisteredKey>, kid: KeyId): Option<PublicKey> {
    if keys == [] then None
    else if keys[0].keyId == kid then Some(keys[0].public)
    else KeyOf(keys[1..], kid)
  }

  function KeyIds(keys: seq<RegisteredKey>): set<KeyId> {
    set k | k in keys :: k.keyId
  }

  lemma {:induction false} KeyOfFinds(keys: seq<RegisteredKey>, kid: KeyId)
    ensures KeyOf(keys, kid).Some? <==> kid in KeyIds(keys)
    ensures KeyOf(keys, kid).Some? ==> RegisteredKey(kid, KeyOf(keys, kid).value) in keys
  {
    if keys != [] {
      KeyOfFinds(keys[1..], kid);
      assert forall k :: k in keys <==> k == keys[0] || k in keys[1..];
      assert keys[0] == RegisteredKey(keys[0].keyId, keys[0].public);
    }
  }
}
