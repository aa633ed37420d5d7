/** The quorum verdict of src/quorum.rs. */
module Quorum {
  import opened Text
  import opened Signatif

  datatype QuorumForm = MemberKeys | GroupKey

  datatype Verdict = Verdict(
    form: QuorumForm,
    memberVerified: nat,
    groupVerified: bool,
    threshold: nat,
    quorate: bool)

  function QuorumKeys(graph: TrustGraph, quorum: NodeId): seq<RegisteredKey> {
    if quorum in graph.nodes then graph.nodes[quorum].keys else []
  }

  function Payload(env: Env, att: QuorumAttestation, statement: seq<Byte>): seq<Byte> {
    env.quorumBytes(statement, att.quorum, att.threshold)
  }

  /** `slot_verifies`. */
  predicate SlotVerifies(env: Env, slot: SignatureSlot, payload: seq<Byte>, public: PublicKey) {
    env.verify(QuorumDomain, slot, payload, public)
  }

  // ---------------------------------------------------------------------
  // What the verdict means
  // ---------------------------------------------------------------------

  /** The slot verifies under a key registered on the quorum node itself. */
  predicate GroupSlot(env: Env, graph: TrustGraph, quorum: NodeId, payload: seq<Byte>, slot: SignatureSlot) {
    var key := KeyOf(QuorumKeys(graph, quorum), slot.keyId);
    key.Some? && SlotVerifies(env, slot, payload, key.value)
  }

  /** The slot verifies under a key registered anywhere in the graph whose id
      is not one of the quorum node's. */
  predicate MemberSlot(env: Env, graph: TrustGraph, quorum: NodeId, payload: seq<Byte>, slot: SignatureSlot) {
    var key := env.resolve(graph.nodes, slot.keyId);
    && slot.keyId !in KeyIds(QuorumKeys(graph, quorum))
    && key.Some? && SlotVerifies(env, slot, payload, key.value)
  }

  /** The distinct key ids of the member slots. */
  function Members(env: Env, graph: TrustGraph, att: QuorumAttestation, statement: seq<Byte>): set<KeyId> {
    set slot | slot in att.signatures && MemberSlot(env, graph, att.quorum, Payload(env, att, statement), slot)
      :: slot.keyId
  }

  predicate GroupVerified(env: Env, graph: TrustGraph, att: QuorumAttestation, statement: seq<Byte>) {
    exists slot :: slot in att.signatures && GroupSlot(env, graph, att.quorum, Payload(env, att, statement), slot)
  }

  /** The graph asserts the threshold that the attestation claims. */
  predicate ThresholdAsserted(graph: TrustGraph, att: QuorumAttestation) {
    && att.quorum in graph.nodes
    && graph.nodes[att.quorum].kind.ThresholdGroup?
    && graph.nodes[att.quorum].kind.threshold == att.threshold
  }

  function VerdictOf(env: Env, graph: TrustGraph, att: QuorumAttestation, statement: seq<Byte>): Verdict {
    var group := GroupVerified(env, graph, att, statement);
    var certifies := group && ThresholdAsserted(graph, att);
    var count := |Members(env, graph, att, statement)|;
    Verdict(if certifies then GroupKey else MemberKeys, count, group, att.threshold,
            certifies || count >= att.threshold)
  }

  // ---------------------------------------------------------------------
  // The two loops
  // ---------------------------------------------------------------------

  /** The member key ids among the slots looked at so far. */
  function MembersAmong(env: Env, graph: TrustGraph, quorum: NodeId, payload: seq<Byte>, slots: seq<SignatureSlot>):
    set<KeyId>
  {
    set slot | slot in slots && MemberSlot(env, graph, quorum, payload, slot) :: slot.keyId
  }

  lemma MembersSnoc(env: Env, graph: TrustGraph, quorum: NodeId, payload: seq<Byte>, slots: seq<SignatureSlot>,
                    slot: SignatureSlot)
    ensures MembersAmong(env, graph, quorum, payload, slots + [slot])
         == MembersAmong(env, graph, quorum, payload, slots)
            + if MemberSlot(env, graph, quorum, payload, slot) then {slot.keyId} else {}
  {
    hide MemberSlot;
    assert forall x :: x in slots + [slot] <==> x in slots || x == slot;
  }

  /** `verdict`. */
  method Judge(env: Env, graph: TrustGraph, att: QuorumAttestation, statement: seq<Byte>) returns (v: Verdict)
    ensures v == VerdictOf(env, graph, att, statement)
  {
    hide MembersAmong, GroupSlot, KeyIds;
    var payload := Payload(env, att, statement);
    var present := att.quorum in graph.nodes;
    var keys := QuorumKeys(graph, att.quorum);
    var asserted: Option<nat> := None;
    if present && graph.nodes[att.quorum].kind.ThresholdGroup? {
      asserted := Some(graph.nodes[att.quorum].kind.threshold);
    }

    var groupVerified := FindGroupSlot(env, graph, att, payload);
    var groupCertifies := groupVerified && asserted == Some(att.threshold);

    var members: set<KeyId> := {};
    NoMembers(env, graph, att.quorum, payload);
    for i := 0 to |att.signatures|
      invariant members == MembersAmong(env, graph, att.quorum, payload, att.signatures[..i])
    {
      var slot := att.signatures[i];
      assert att.signatures[..i + 1] == att.signatures[..i] + [slot];
      MembersSnoc(env, graph, att.quorum, payload, att.signatures[..i], slot);
      if slot.keyId !in KeyIds(keys) {
        var public := env.resolve(graph.nodes, slot.keyId);
        if public.Some? && SlotVerifies(env, slot, payload, public.value) {
          members := members + {slot.keyId};
        }
      }
    }
    assert att.signatures[..|att.signatures|] == att.signatures;
    AllMembers(env, graph, att, statement);
    var form, quorate := if groupCertifies then GroupKey else MemberKeys, groupCertifies || |members| >= att.threshold;
    return Verdict(form, |members|, groupVerified, att.threshold, quorate);
  }

  lemma NoMembers(env: Env, graph: TrustGraph, quorum: NodeId, payload: seq<Byte>)
    ensures MembersAmong(env, graph, quorum, payload, []) == {}
  {
  }

  lemma AllMembers(env: Env, graph: TrustGraph, att: QuorumAttestation, statement: seq<Byte>)
    ensures MembersAmong(env, graph, att.quorum, Payload(env, att, statement), att.signatures)
         == Members(env, graph, att, statement)
  {
  }

  method FindGroupSlot(env: Env, graph: TrustGraph, att: QuorumAttestation, payload: seq<Byte>)
    returns (found: bool)
    ensures found <==> exists slot :: slot in att.signatures && GroupSlot(env, graph, att.quorum, payload, slot)
  {
    found := false;
    if att.quorum in graph.nodes {
      for i := 0 to |att.signatures|
        invariant !found
        invariant forall slot :: slot in att.signatures[..i] ==> !GroupSlot(env, graph, att.quorum, payload, slot)
      {
        var slot := att.signatures[i];
        assert att.signatures[..i + 1] == att.signatures[..i] + [slot];
        var public := KeyOf(graph.nodes[att.quorum].keys, slot.keyId);
        if public.Some? && SlotVerifies(env, slot, payload, public.value) {
          assert GroupSlot(env, graph, att.quorum, payload, slot);
          return true;
        }
      }
      assert att.signatures[..|att.signatures|] == att.signatures;
    }
  }

  // ---------------------------------------------------------------------
  // What the verdict does not depend on
  // ---------------------------------------------------------------------

  /** Reordering or repeating slots changes nothing. */
  lemma SlotOrderIrrelevant(env: Env, graph: TrustGraph, a: QuorumAttestation, b: QuorumAttestation,
                            statement: seq<Byte>)
    requires a.quorum == b.quorum && a.threshold == b.threshold
    requires (set s | s in a.signatures) == (set s | s in b.signatures)
    ensures VerdictOf(env, graph, a, statement) == VerdictOf(env, graph, b, statement)
  {
    var of, other := set s | s in a.signatures, set s | s in b.signatures;
    forall s
      ensures s in a.signatures <==> s in b.signatures
    {
      assert s in of <==> s in other;
    }
    assert Members(env, graph, a, statement) == Members(env, graph, b, statement);
  }

  /** No slot counts in both forms. */
  lemma FormsExclusive(env: Env, graph: TrustGraph, quorum: NodeId, payload: seq<Byte>, slot: SignatureSlot)
    ensures !(GroupSlot(env, graph, quorum, payload, slot) && MemberSlot(env, graph, quorum, payload, slot))
  {
    KeyOfFinds(QuorumKeys(graph, quorum), slot.keyId);
  }

  /** SIGNATIF's own count: distinct key ids that verify through the directory. */
  function Verifying(env: Env, graph: TrustGraph, att: QuorumAttestation, statement: seq<Byte>): set<KeyId> {
    set slot | && slot in att.signatures
               && env.resolve(graph.nodes, slot.keyId).Some?
               && SlotVerifies(env, slot, Payload(env, att, statement), env.resolve(graph.nodes, slot.keyId).value)
      :: slot.keyId
  }

  /** On a quorum node without keys the verdict is SIGNATIF's count. */
  lemma KeylessNodeCounts(env: Env, graph: TrustGraph, att: QuorumAttestation, statement: seq<Byte>)
    requires QuorumKeys(graph, att.quorum) == []
    ensures var v := VerdictOf(env, graph, att, statement);
      && v.form == MemberKeys && !v.groupVerified
      && v.memberVerified == |Verifying(env, graph, att, statement)|
      && (v.quorate <==> |Verifying(env, graph, att, statement)| >= att.threshold)
  {
    assert KeyIds([]) == {};
    assert Members(env, graph, att, statement) == Verifying(env, graph, att, statement);
  }

  /** The ids among `keys` under whose keys a slot of the attestation verifies. */
  function Endorsed(env: Env, att: QuorumAttestation, statement: seq<Byte>, keys: seq<RegisteredKey>): set<KeyId> {
    set slot, k | slot in att.signatures && k in keys && Endorses(env, att, statement, slot, k) :: slot.keyId
  }

  predicate Endorses(env: Env, att: QuorumAttestation, statement: seq<Byte>, slot: SignatureSlot, k: RegisteredKey) {
    k.keyId == slot.keyId && SlotVerifies(env, slot, Payload(env, att, statement), k.public)
  }

  lemma EndorsedBoth(env: Env, att: QuorumAttestation, statement: seq<Byte>, a: seq<RegisteredKey>,
                     b: seq<RegisteredKey>)
    ensures Endorsed(env, att, statement, a + b)
         == Endorsed(env, att, statement, a) + Endorsed(env, att, statement, b)
  {
    hide Endorses;
    assert forall k :: k in a + b <==> k in a || k in b;
  }

  /** The whole verdict in terms of signatures: every slot is verified in the
      quorum domain, over the bytes of this statement, this quorum and the
      threshold that the attestation claims. Members are the key ids that verify
      so through the directory and that the quorum's own node does not register;
      the group form is a slot that verifies so under a key of that node, and
      counts only if the node asserts the claimed threshold. */
  lemma VerdictMeans(env: Env, graph: TrustGraph, att: QuorumAttestation, statement: seq<Byte>)
    ensures var v := VerdictOf(env, graph, att, statement);
      var bytes := env.quorumBytes(statement, att.quorum, att.threshold);
      var present := att.quorum in graph.nodes;
      var own := if present then graph.nodes[att.quorum].keys else [];
      var members := set slot |
        && slot in att.signatures
        && (forall k :: k in own ==> k.keyId != slot.keyId)
        && env.resolve(graph.nodes, slot.keyId).Some?
        && env.verify(QuorumDomain, slot, bytes, env.resolve(graph.nodes, slot.keyId).value)
        :: slot.keyId;
      var group := exists slot ::
        && slot in att.signatures && KeyOf(own, slot.keyId).Some?
        && env.verify(QuorumDomain, slot, bytes, KeyOf(own, slot.keyId).value);
      var certifies := group && present && match graph.nodes[att.quorum].kind
        case ThresholdGroup(asserted, _) => asserted == att.threshold
        case _ => false;
      && Members(env, graph, att, statement) == members
      && v.memberVerified == |members|
      && v.groupVerified == group
      && v.form == (if certifies then GroupKey else MemberKeys)
      && v.threshold == att.threshold
      && v.quorate == (certifies || |members| >= att.threshold)
  {
    var bytes := env.quorumBytes(statement, att.quorum, att.threshold);
    var own := if att.quorum in graph.nodes then graph.nodes[att.quorum].keys else [];
    var members := set slot |
      && slot in att.signatures
      && (forall k :: k in own ==> k.keyId != slot.keyId)
      && env.resolve(graph.nodes, slot.keyId).Some?
      && env.verify(QuorumDomain, slot, bytes, env.resolve(graph.nodes, slot.keyId).value)
      :: slot.keyId;
    assert own == QuorumKeys(graph, att.quorum) && bytes == Payload(env, att, statement);
    forall slot: SignatureSlot
      ensures slot.keyId !in KeyIds(own) <==> forall k :: k in own ==> k.keyId != slot.keyId
    {
    }
    assert Members(env, graph, att, statement) == members;
  }

  // ---------------------------------------------------------------------
  // Stability as the graph grows
  // ---------------------------------------------------------------------

  ghost predicate KeysDerived(env: Env, graph: TrustGraph) {
    forall key :: Registers(graph.nodes, key) ==> key.keyId == env.keyIdOf(key.public)
  }

  ghost predicate KeysKept(graph: TrustGraph, later: TrustGraph) {
    forall key :: Registers(graph.nodes, key) ==> Registers(later.nodes, key)
  }

  /** `later` keeps every key of `graph`; on the quorum's own node it keeps the
      keys, adds none that a slot names, and keeps asserting the threshold. */
  ghost predicate Grows(graph: TrustGraph, later: TrustGraph, att: QuorumAttestation) {
    var keys, more := QuorumKeys(graph, att.quorum), QuorumKeys(later, att.quorum);
    && KeysKept(graph, later)
    && (forall kid :: KeyOf(keys, kid).Some? ==> KeyOf(more, kid) == KeyOf(keys, kid))
    && (forall slot :: slot in att.signatures && slot.keyId in KeyIds(more) ==> slot.keyId in KeyIds(keys))
    && (ThresholdAsserted(graph, att) ==> ThresholdAsserted(later, att))
  }

  lemma ResolutionStable(env: Env, graph: TrustGraph, later: TrustGraph, kid: KeyId)
    requires env.DirectoryFaithful() && env.KeyIdsDistinguish()
    requires KeysDerived(env, later) && KeysKept(graph, later)
    requires env.resolve(graph.nodes, kid).Some?
    ensures env.resolve(later.nodes, kid) == env.resolve(graph.nodes, kid)
  {
    var public := env.resolve(graph.nodes, kid).value;
    assert env.ResolvesFaithfully(graph.nodes, kid);
    assert env.ResolvesFaithfully(later.nodes, kid);
    assert Registers(later.nodes, RegisteredKey(kid, public));
    var found := env.resolve(later.nodes, kid).value;
    assert Registers(later.nodes, RegisteredKey(kid, found));
    assert env.keyIdOf(found) == env.keyIdOf(public);
  }

  lemma {:induction false} SubsetCount<T>(a: set<T>, b: set<T>)
    requires a <= b
    ensures |a| <= |b|
  {
    if a != {} {
      var x :| x in a;
      SubsetCount(a - {x}, b - {x});
    }
  }

  /** Growth never lowers the count, never loses a verified group form, and
      never takes a quorate verdict back. */
  lemma VerdictGrows(env: Env, graph: TrustGraph, later: TrustGraph, att: QuorumAttestation, statement: seq<Byte>)
    requires env.DirectoryFaithful() && env.KeyIdsDistinguish()
    requires KeysDerived(env, later) && Grows(graph, later, att)
    ensures var v, w := VerdictOf(env, graph, att, statement), VerdictOf(env, later, att, statement);
      && v.memberVerified <= w.memberVerified
      && v.groupVerified == w.groupVerified
      && (v.quorate ==> w.quorate)
  {
    var payload := Payload(env, att, statement);
    forall slot | slot in att.signatures
      ensures MemberSlot(env, graph, att.quorum, payload, slot) ==> MemberSlot(env, later, att.quorum, payload, slot)
      ensures GroupSlot(env, graph, att.quorum, payload, slot) <==> GroupSlot(env, later, att.quorum, payload, slot)
    {
      KeyOfFinds(QuorumKeys(graph, att.quorum), slot.keyId);
      KeyOfFinds(QuorumKeys(later, att.quorum), slot.keyId);
      if MemberSlot(env, graph, att.quorum, payload, slot) {
        ResolutionStable(env, graph, later, slot.keyId);
      }
    }
    SubsetCount(Members(env, graph, att, statement), Members(env, later, att, statement));
  }
}
