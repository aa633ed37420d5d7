/** Quorum verdicts over runs: what was quorate stays quorate, as long as no
    registration of the quorum's own node takes a member or the threshold. */
module Stability {
  import opened Text
  import opened Signatif
  import opened Records
  import opened State
  import opened Quorum
  import opened Histories

  ghost predicate DerivedKeys(env: Env, op: Op) {
    op.RegisterNode? ==> forall k :: k in op.registered.keys ==> k.keyId == env.keyIdOf(k.public)
  }

  ghost predicate Registering(op: Op, id: NodeId) {
    op.RegisterNode? && op.registered.id == id
  }

  lemma {:induction false} MergedKeys(a: seq<RegisteredKey>, b: seq<RegisteredKey>, key: RegisteredKey)
    ensures key in a ==> key in MergeKeys(a, b)
    ensures key in MergeKeys(a, b) ==> key in a || key in b
    decreases b
  {
    if b != [] {
      var k := b[0];
      MergedKeys(if k.keyId in KeyIds(a) then a else a + [k], b[1..], key);
    }
  }

  /** One registration keeps every registered key, adds only keys of the
      registered node, and touches no other node. */
  lemma MergeNodeGrows(graph: TrustGraph, node: DelegationNode, key: RegisteredKey)
    ensures Registers(graph.nodes, key) ==> Registers(MergeNode(graph, node).nodes, key)
    ensures Registers(MergeNode(graph, node).nodes, key) ==> Registers(graph.nodes, key) || key in node.keys
  {
    hide MergeKeys;
    var later := MergeNode(graph, node).nodes;
    var base := Signatif.AddNode(graph, node).nodes[node.id].keys;
    MergedKeys(base, node.keys, key);
    if Registers(graph.nodes, key) {
      var id :| id in graph.nodes && key in graph.nodes[id].keys;
      assert id in later && key in later[id].keys;
    }
    if Registers(later, key) {
      var id :| id in later && key in later[id].keys;
      if id != node.id {
        assert id in graph.nodes && key in graph.nodes[id].keys;
      }
    }
  }

  /** Merging keeps what is there, and adds the ids of the new keys. */
  lemma {:induction false} MergedLookup(a: seq<RegisteredKey>, b: seq<RegisteredKey>, kid: KeyId)
    ensures KeyOf(a, kid).Some? ==> KeyOf(MergeKeys(a, b), kid) == KeyOf(a, kid)
    ensures kid in KeyIds(MergeKeys(a, b)) <==> kid in KeyIds(a) || kid in KeyIds(b)
    decreases b
  {
    if b != [] {
      var k, tail := b[0], b[1..];
      assert kid in KeyIds(b) <==> kid == k.keyId || kid in KeyIds(tail) by {
        assert forall x :: x in b <==> x == k || x in tail;
      }
      if k.keyId in KeyIds(a) {
        MergedLookup(a, tail, kid);
      } else {
        IdsOfSnoc(a, k);
        LookupSnoc(a, k, kid);
        MergedLookup(a + [k], tail, kid);
      }
    }
  }

  lemma {:induction false} LookupSnoc(a: seq<RegisteredKey>, k: RegisteredKey, kid: KeyId)
    ensures KeyOf(a, kid).Some? ==> KeyOf(a + [k], kid) == KeyOf(a, kid)
  {
    if a != [] {
      assert (a + [k])[1..] == a[1..] + [k];
      LookupSnoc(a[1..], k, kid);
    }
  }

  /** What registering a node does to its own keys. */
  lemma OwnKeys(graph: TrustGraph, node: DelegationNode, kid: KeyId)
    ensures var keys, more := QuorumKeys(graph, node.id), QuorumKeys(MergeNode(graph, node), node.id);
      && (KeyOf(keys, kid).Some? ==> KeyOf(more, kid) == KeyOf(keys, kid))
      && (kid in KeyIds(more) <==> kid in KeyIds(keys) || kid in KeyIds(node.keys))
  {
    hide MergeKeys;
    MergedLookup(Signatif.AddNode(graph, node).nodes[node.id].keys, node.keys, kid);
  }

  ghost predicate Asserts(kind: NodeKind, att: QuorumAttestation) {
    kind.ThresholdGroup? && kind.threshold == att.threshold
  }

  /** A registration of the quorum's own node that keeps the asserted threshold
      and brings no key that a slot of the attestation names, except keys that
      the node has already. Every other operation is harmless. */
  ghost predicate Harmless(op: Op, graph: TrustGraph, att: QuorumAttestation) {
    Registering(op, att.quorum) ==>
      && (ThresholdAsserted(graph, att) ==> Asserts(op.registered.kind, att))
      && forall slot :: slot in att.signatures && slot.keyId in KeyIds(op.registered.keys) ==>
           slot.keyId in KeyIds(QuorumKeys(graph, att.quorum))
  }

  lemma StepGrows(env: Env, st: State, op: Op, att: QuorumAttestation)
    requires Harmless(op, st.graph, att)
    ensures Grows(st.graph, Step(env, st, op).graph, att)
  {
    if Apply(env, st, op).Ok? {
      GraphEffect(env, st, op);
      hide Apply;
      if op.RegisterNode? {
        RegistrationGrows(st.graph, op.registered, att);
      }
    }
  }

  lemma RegistrationGrows(graph: TrustGraph, node: DelegationNode, att: QuorumAttestation)
    requires Harmless(RegisterNode(node), graph, att)
    ensures Grows(graph, MergeNode(graph, node), att)
  {
    hide MergeKeys, KeyOf, KeyIds;
    var later := MergeNode(graph, node);
    forall key | Registers(graph.nodes, key)
      ensures Registers(later.nodes, key)
    {
      MergeNodeGrows(graph, node, key);
    }
    if node.id == att.quorum {
      forall kid
        ensures var keys, more := QuorumKeys(graph, att.quorum), QuorumKeys(later, att.quorum);
          && (KeyOf(keys, kid).Some? ==> KeyOf(more, kid) == KeyOf(keys, kid))
          && (kid in KeyIds(more) <==> kid in KeyIds(keys) || kid in KeyIds(node.keys))
      {
        OwnKeys(graph, node, kid);
      }
    }
  }

  lemma {:induction false} KeysStayDerived(env: Env, ops: seq<Op>)
    requires forall op :: op in ops ==> DerivedKeys(env, op)
    ensures KeysDerived(env, Fold(env, ops).graph)
  {
    if ops != [] {
      var init, op := ops[..|ops| - 1], ops[|ops| - 1];
      KeysStayDerived(env, init);
      StepKeepsDerived(env, Fold(env, init), op);
      hide Step;
    }
  }

  lemma StepKeepsDerived(env: Env, st: State, op: Op)
    requires KeysDerived(env, st.graph) && DerivedKeys(env, op)
    ensures KeysDerived(env, Step(env, st, op).graph)
  {
    if Apply(env, st, op).Ok? {
      GraphEffect(env, st, op);
      hide Apply;
      forall key | Registers(Step(env, st, op).graph.nodes, key)
        ensures key.keyId == env.keyIdOf(key.public)
      {
        if op.RegisterNode? {
          MergeNodeGrows(st.graph, op.registered, key);
        }
      }
    }
  }

  lemma {:induction false} GraphGrows(env: Env, ops: seq<Op>, n: nat, att: QuorumAttestation)
    requires n <= |ops| && forall i :: n <= i < |ops| ==> Harmless(ops[i], Fold(env, ops[..i]).graph, att)
    ensures Grows(Fold(env, ops[..n]).graph, Fold(env, ops).graph, att)
  {
    hide Harmless;
    if n == |ops| {
      assert ops[..n] == ops;
    } else {
      var last := |ops| - 1;
      var init, op := ops[..last], ops[last];
      assert forall i :: 0 <= i <= last ==> init[..i] == ops[..i];
      GraphGrows(env, init, n, att);
      StepGrows(env, Fold(env, init), op, att);
      GrowsOn(Fold(env, init[..n]).graph, Fold(env, init).graph, Step(env, Fold(env, init), op).graph, att);
    }
  }

  lemma GrowsOn(a: TrustGraph, b: TrustGraph, c: TrustGraph, att: QuorumAttestation)
    requires Grows(a, b, att) && Grows(b, c, att)
    ensures Grows(a, c, att)
  {
    hide KeyOf, KeyIds, ThresholdAsserted, QuorumKeys;
  }

  /** Over any run of operations whose keys carry their derived ids, an
      attestation's verified members never become fewer and a quorate verdict
      is never lost, unless the quorum's own node is registered again with one
      of their keys or without the threshold. */
  lemma VerdictStable(env: Env, ops: seq<Op>, n: nat, att: QuorumAttestation, statement: seq<Byte>)
    requires env.DirectoryFaithful() && env.KeyIdsDistinguish()
    requires forall op :: op in ops ==> DerivedKeys(env, op)
    requires n <= |ops| && forall i :: n <= i < |ops| ==> Harmless(ops[i], Fold(env, ops[..i]).graph, att)
    ensures var v := VerdictOf(env, Fold(env, ops[..n]).graph, att, statement);
      var w := VerdictOf(env, Fold(env, ops).graph, att, statement);
      && v.memberVerified <= w.memberVerified
      && v.groupVerified == w.groupVerified
      && (v.quorate ==> w.quorate)
  {
    hide Fold, VerdictOf, Harmless, Grows;
    KeysStayDerived(env, ops);
    GraphGrows(env, ops, n, att);
    VerdictGrows(env, Fold(env, ops[..n]).graph, Fold(env, ops).graph, att, statement);
  }

  /** So a retroactive declaration in the ledger is quorate to this day. */
  lemma RetroactiveStaysQuorate(env: Env, ops: seq<Op>, i: nat, r: Revocation)
    requires env.DirectoryFaithful() && env.KeyIdsDistinguish()
    requires forall op :: op in ops ==> DerivedKeys(env, op)
    requires DeclaredAt(env, ops, i, r) && r.reason.IsRetroactive()
    requires forall j :: i <= j < |ops| ==> Harmless(ops[j], Fold(env, ops[..j]).graph, r.quorum.value)
    ensures VerdictOf(env, Fold(env, ops).graph, r.quorum.value, env.statementBytes(r)).quorate
  {
    hide Fold, VerdictOf, Harmless;
    VerdictStable(env, ops, i, r.quorum.value, env.statementBytes(r));
  }

  // ---------------------------------------------------------------------
  // What a registration does to a verdict, exactly
  // ---------------------------------------------------------------------

  /** Under derived ids nothing that a registration brings is dropped. */
  lemma {:induction false} MergedHolds(env: Env, a: seq<RegisteredKey>, b: seq<RegisteredKey>, key: RegisteredKey)
    requires env.KeyIdsDistinguish() && DerivedList(env, a) && DerivedList(env, b)
    ensures key in MergeKeys(a, b) <==> key in a || key in b
    decreases b
  {
    if b != [] {
      var k, tail := b[0], b[1..];
      assert k in b && forall x :: x in b <==> x == k || x in tail;
      if k.keyId in KeyIds(a) {
        var twin :| twin in a && twin.keyId == k.keyId;
        assert env.keyIdOf(twin.public) == env.keyIdOf(k.public);
        assert twin == k;
        MergedHolds(env, a, tail, key);
      } else {
        MergedHolds(env, a + [k], tail, key);
      }
    }
  }

  ghost predicate DerivedList(env: Env, keys: seq<RegisteredKey>) {
    forall k :: k in keys ==> k.keyId == env.keyIdOf(k.public)
  }

  /** What the graph holds after a registration: the keys it held, and the keys
      of the node; on the quorum's own node likewise. */
  lemma RegistrationBrings(env: Env, graph: TrustGraph, node: DelegationNode, id: NodeId, key: RegisteredKey)
    requires env.KeyIdsDistinguish() && KeysDerived(env, graph) && DerivedKeys(env, RegisterNode(node))
    ensures var later := MergeNode(graph, node);
      && (Registers(later.nodes, key) <==> Registers(graph.nodes, key) || key in node.keys)
      && (key in QuorumKeys(later, id) <==> key in QuorumKeys(graph, id) || (id == node.id && key in node.keys))
  {
    hide MergeKeys;
    MergeNodeGrows(graph, node, key);
    var base := Signatif.AddNode(graph, node).nodes[node.id].keys;
    if node.id in graph.nodes {
      assert forall k :: k in base ==> Registers(graph.nodes, k);
    }
    MergedHolds(env, base, node.keys, key);
    var later := MergeNode(graph, node);
    assert later.nodes[node.id].keys == MergeKeys(base, node.keys);
    assert key in node.keys ==> Registers(later.nodes, key);
  }

  /** The verdict over a graph whose keys are known: the members are the
      endorsed ids that are not the quorum node's own, and the group form
      verifies exactly when one of its own is endorsed. */
  lemma VerdictFromKeys(env: Env, graph: TrustGraph, att: QuorumAttestation, statement: seq<Byte>,
                        all: seq<RegisteredKey>, own: seq<RegisteredKey>)
    requires env.DirectoryFaithful() && env.KeyIdsDistinguish() && DerivedList(env, all)
    requires forall key :: Registers(graph.nodes, key) <==> key in all
    requires forall key :: key in QuorumKeys(graph, att.quorum) <==> key in own
    ensures Members(env, graph, att, statement) == Endorsed(env, att, statement, all) - KeyIds(own)
    ensures GroupVerified(env, graph, att, statement) <==> Endorsed(env, att, statement, own) != {}
  {
    var payload := Payload(env, att, statement);
    var keys := QuorumKeys(graph, att.quorum);
    assert KeyIds(keys) == KeyIds(own);
    forall key | key in own
      ensures key in all
    {
      assert key in keys && Registers(graph.nodes, key);
    }
    forall slot
      ensures MemberSlot(env, graph, att.quorum, payload, slot) <==>
                slot.keyId !in KeyIds(own) && exists k :: k in all && Endorses(env, att, statement, slot, k)
      ensures GroupSlot(env, graph, att.quorum, payload, slot) <==>
                exists k :: k in own && Endorses(env, att, statement, slot, k)
    {
      FoundInDirectory(env, graph, att, statement, all, slot);
      FoundOnNode(env, keys, att, statement, slot);
    }
    hide MemberSlot, GroupSlot, KeyIds, Endorses;
    var members, endorsed := Members(env, graph, att, statement), Endorsed(env, att, statement, all) - KeyIds(own);
    forall kid
      ensures kid in members <==> kid in endorsed
    {
    }
    if GroupVerified(env, graph, att, statement) {
      var slot :| slot in att.signatures && GroupSlot(env, graph, att.quorum, payload, slot);
      assert slot.keyId in Endorsed(env, att, statement, own);
    }
    if Endorsed(env, att, statement, own) != {} {
      var kid :| kid in Endorsed(env, att, statement, own);
    }
  }

  lemma FoundInDirectory(env: Env, graph: TrustGraph, att: QuorumAttestation, statement: seq<Byte>,
                         all: seq<RegisteredKey>, slot: SignatureSlot)
    requires env.DirectoryFaithful() && env.KeyIdsDistinguish() && DerivedList(env, all)
    requires forall key :: Registers(graph.nodes, key) <==> key in all
    ensures var found := env.resolve(graph.nodes, slot.keyId);
      found.Some? && SlotVerifies(env, slot, Payload(env, att, statement), found.value) <==>
        exists k :: k in all && Endorses(env, att, statement, slot, k)
  {
    assert env.ResolvesFaithfully(graph.nodes, slot.keyId);
    var found := env.resolve(graph.nodes, slot.keyId);
    if found.Some? {
      var key := RegisteredKey(slot.keyId, found.value);
      assert key in all;
      forall k | k in all && k.keyId == slot.keyId
        ensures k == key
      {
        assert env.keyIdOf(k.public) == env.keyIdOf(key.public);
      }
    } else {
      forall k | k in all
        ensures k.keyId != slot.keyId
      {
        assert k == RegisteredKey(k.keyId, k.public);
      }
    }
  }

  lemma FoundOnNode(env: Env, keys: seq<RegisteredKey>, att: QuorumAttestation, statement: seq<Byte>,
                    slot: SignatureSlot)
    requires env.KeyIdsDistinguish() && DerivedList(env, keys)
    ensures var found := KeyOf(keys, slot.keyId);
      found.Some? && SlotVerifies(env, slot, Payload(env, att, statement), found.value) <==>
        exists k :: k in keys && Endorses(env, att, statement, slot, k)
  {
    KeyOfFinds(keys, slot.keyId);
    var found := KeyOf(keys, slot.keyId);
    if found.Some? {
      var key := RegisteredKey(slot.keyId, found.value);
      forall k | k in keys && k.keyId == slot.keyId
        ensures k == key
      {
        assert env.keyIdOf(k.public) == env.keyIdOf(key.public);
      }
    }
  }

  lemma {:induction false} AllKeys(nodes: map<NodeId, DelegationNode>) returns (all: seq<RegisteredKey>)
    ensures forall key :: Registers(nodes, key) <==> key in all
    decreases |nodes|
  {
    if nodes == map[] {
      all := [];
    } else {
      var id :| id in nodes;
      var others := nodes - {id};
      assert others.Keys == nodes.Keys - {id} && |others.Keys| == |others|;
      all := AllKeys(others);
      forall key
        ensures Registers(nodes, key) <==> key in all || key in nodes[id].keys
      {
        if Registers(nodes, key) && key !in nodes[id].keys {
          var home :| home in nodes && key in nodes[home].keys;
          assert home in others && key in others[home].keys;
        }
        if Registers(others, key) {
          var home :| home in others && key in others[home].keys;
          assert home in nodes && key in nodes[home].keys;
        }
      }
      all := all + nodes[id].keys;
    }
  }

  lemma DerivedOf(env: Env, graph: TrustGraph, all: seq<RegisteredKey>)
    requires KeysDerived(env, graph) && forall key :: Registers(graph.nodes, key) <==> key in all
    ensures DerivedList(env, all)
  {
  }

  lemma IdsOfBoth(a: seq<RegisteredKey>, b: seq<RegisteredKey>)
    ensures KeyIds(a + b) == KeyIds(a) + KeyIds(b)
  {
    assert forall k :: k in a + b <==> k in a || k in b;
  }

  lemma EndorsedAreIds(env: Env, att: QuorumAttestation, statement: seq<Byte>, keys: seq<RegisteredKey>)
    ensures Endorsed(env, att, statement, keys) <= KeyIds(keys)
  {
  }

  /** Registering the quorum's own node again takes exactly the members whose
      keys it brings, and gains no other; the group form verifies afterwards
      exactly if it did or one of those keys is endorsed. So the verdict is
      quorate afterwards exactly if the new kind asserts the threshold and the
      group form verifies, or enough members are left. */
  lemma ReRegistrationExact(env: Env, graph: TrustGraph, node: DelegationNode, att: QuorumAttestation,
                            statement: seq<Byte>)
    requires env.DirectoryFaithful() && env.KeyIdsDistinguish() && KeysDerived(env, graph)
    requires node.id == att.quorum && DerivedKeys(env, RegisterNode(node))
    ensures var later := MergeNode(graph, node);
      var left := Members(env, graph, att, statement) - KeyIds(node.keys);
      var group := GroupVerified(env, graph, att, statement) || Endorsed(env, att, statement, node.keys) != {};
      && Members(env, later, att, statement) == left
      && (GroupVerified(env, later, att, statement) <==> group)
      && (VerdictOf(env, later, att, statement).quorate
          <==> (Asserts(node.kind, att) && group) || |left| >= att.threshold)
  {
    hide Endorsed, KeyIds, MergeNode, Members, GroupVerified, KeysDerived, DerivedList, DerivedKeys, Registers;
    var later := MergeNode(graph, node);
    var all := AllKeys(graph.nodes);
    var own := QuorumKeys(graph, att.quorum);
    var more, mine := all + node.keys, own + node.keys;
    DerivedOf(env, graph, all);
    DerivedBoth(env, all, node);
    forall key
      ensures Registers(later.nodes, key) <==> key in more
      ensures key in QuorumKeys(later, att.quorum) <==> key in mine
    {
      RegistrationBrings(env, graph, node, att.quorum, key);
    }
    VerdictFromKeys(env, graph, att, statement, all, own);
    VerdictFromKeys(env, later, att, statement, more, mine);
    EndorsedBoth(env, att, statement, all, node.keys);
    EndorsedBoth(env, att, statement, own, node.keys);
    IdsOfBoth(own, node.keys);
    EndorsedAreIds(env, att, statement, node.keys);
    assert Members(env, later, att, statement) == Members(env, graph, att, statement) - KeyIds(node.keys);
    KindAfter(graph, node);
  }

  lemma DerivedBoth(env: Env, all: seq<RegisteredKey>, node: DelegationNode)
    requires DerivedList(env, all) && DerivedKeys(env, RegisterNode(node))
    ensures DerivedList(env, all + node.keys)
  {
  }

  lemma KindAfter(graph: TrustGraph, node: DelegationNode)
    ensures node.id in MergeNode(graph, node).nodes && MergeNode(graph, node).nodes[node.id].kind == node.kind
  {
    hide MergeKeys;
  }

  /** A verdict that rested on a group signature still does if and only if the
      registration asserts the threshold again; here nothing is asked of keys. */
  lemma CertificationKeptExactly(env: Env, graph: TrustGraph, node: DelegationNode, att: QuorumAttestation,
                                 statement: seq<Byte>)
    requires node.id == att.quorum && VerdictOf(env, graph, att, statement).form == GroupKey
    ensures VerdictOf(env, MergeNode(graph, node), att, statement).form == GroupKey <==> Asserts(node.kind, att)
  {
    hide MergeKeys, KeyOf, KeyIds, Members;
    var later := MergeNode(graph, node);
    var payload := Payload(env, att, statement);
    var slot :| slot in att.signatures && GroupSlot(env, graph, att.quorum, payload, slot);
    OwnKeys(graph, node, slot.keyId);
    assert GroupSlot(env, later, att.quorum, payload, slot);
  }

  /** An instance that loses a verdict: registering the quorum node with a
      counted member's key and no threshold, when the count just suffices. */
  lemma ReRegistrationRevokes(env: Env, graph: TrustGraph, att: QuorumAttestation, statement: seq<Byte>, kid: KeyId)
    requires env.DirectoryFaithful() && env.KeyIdsDistinguish() && KeysDerived(env, graph)
    requires kid in Members(env, graph, att, statement)
    requires |Members(env, graph, att, statement)| == att.threshold
    ensures env.resolve(graph.nodes, kid).Some?
    ensures VerdictOf(env, graph, att, statement).quorate
    ensures var node := DelegationNode(att.quorum, Root, [RegisteredKey(kid, env.resolve(graph.nodes, kid).value)]);
      !VerdictOf(env, MergeNode(graph, node), att, statement).quorate
  {
    var key := RegisteredKey(kid, env.resolve(graph.nodes, kid).value);
    assert env.ResolvesFaithfully(graph.nodes, kid);
    assert Registers(graph.nodes, key);
    ReRegistrationExact(env, graph, DelegationNode(att.quorum, Root, [key]), att, statement);
    hide Members, MergeNode;
    assert key in [key];
    SubsetCount(Members(env, graph, att, statement) - KeyIds([key]), Members(env, graph, att, statement) - {kid});
  }

  // ---------------------------------------------------------------------
  // The verdict over a run, from the log alone
  // ---------------------------------------------------------------------

  /** All keys that a log registers, on whatever node. */
  function KeysIn(ops: seq<Op>): seq<RegisteredKey> {
    if ops == [] then []
    else
      var last := ops[|ops| - 1];
      KeysIn(ops[..|ops| - 1]) + if last.RegisterNode? then last.registered.keys else []
  }

  /** A graph holds exactly the keys that the log registered. */
  lemma {:induction false} KeysAreRegistered(env: Env, ops: seq<Op>, id: NodeId, key: RegisteredKey)
    requires env.KeyIdsDistinguish() && forall op :: op in ops ==> DerivedKeys(env, op)
    ensures Registers(Fold(env, ops).graph.nodes, key) <==> key in KeysIn(ops)
    ensures key in QuorumKeys(Fold(env, ops).graph, id) <==> key in KeysRegistered(ops, id)
  {
    if ops != [] {
      hide Step, MergeNode, DerivedKeys;
      var init, op := ops[..|ops| - 1], ops[|ops| - 1];
      var st := Fold(env, init);
      KeysAreRegistered(env, init, id, key);
      KeysStayDerived(env, init);
      GraphEffect(env, st, op);
      if op.RegisterNode? {
        RegistrationBrings(env, st.graph, op.registered, id, key);
        SameNodes(Step(env, st, op).graph, MergeNode(st.graph, op.registered), id, key);
      } else {
        SameNodes(Step(env, st, op).graph, st.graph, id, key);
      }
    }
  }

  lemma SameNodes(a: TrustGraph, b: TrustGraph, id: NodeId, key: RegisteredKey)
    requires a.nodes == b.nodes
    ensures QuorumKeys(a, id) == QuorumKeys(b, id)
    ensures Registers(a.nodes, key) == Registers(b.nodes, key)
  {
  }

  lemma {:induction false} KindIsLast(env: Env, ops: seq<Op>, id: NodeId)
    ensures var nodes := Fold(env, ops).graph.nodes;
      LastKind(ops, id) == if id in nodes then Some(nodes[id].kind) else None
  {
    if ops != [] {
      hide Step, MergeKeys;
      var init, op := ops[..|ops| - 1], ops[|ops| - 1];
      KindIsLast(env, init, id);
      GraphEffect(env, Fold(env, init), op);
    }
  }

  ghost predicate KindAsserts(kind: Option<NodeKind>, att: QuorumAttestation) {
    kind.Some? && Asserts(kind.value, att)
  }

  /** The verdict at the end of any log, told from the log alone: the members
      are the endorsed ids among all registered keys that were never registered
      on the quorum's own node; the group form verifies exactly when a key
      registered there is endorsed, and certifies exactly when moreover the
      node's last kind asserts the threshold. */
  lemma VerdictFromLog(env: Env, ops: seq<Op>, att: QuorumAttestation, statement: seq<Byte>)
    requires env.DirectoryFaithful() && env.KeyIdsDistinguish()
    requires forall op :: op in ops ==> DerivedKeys(env, op)
    ensures var graph := Fold(env, ops).graph;
      var own := KeysRegistered(ops, att.quorum);
      var members := Endorsed(env, att, statement, KeysIn(ops)) - KeyIds(own);
      var group := Endorsed(env, att, statement, own) != {};
      && Members(env, graph, att, statement) == members
      && (GroupVerified(env, graph, att, statement) <==> group)
      && (ThresholdAsserted(graph, att) <==> KindAsserts(LastKind(ops, att.quorum), att))
      && (VerdictOf(env, graph, att, statement).quorate <==>
            (group && KindAsserts(LastKind(ops, att.quorum), att)) || |members| >= att.threshold)
  {
    hide Endorsed, KeyIds, Members, GroupVerified, Fold, DerivedKeys, KeysIn, KeysRegistered, LastKind, QuorumKeys;
    var graph := Fold(env, ops).graph;
    forall key
      ensures Registers(graph.nodes, key) <==> key in KeysIn(ops)
      ensures key in QuorumKeys(graph, att.quorum) <==> key in KeysRegistered(ops, att.quorum)
    {
      KeysAreRegistered(env, ops, att.quorum, key);
    }
    KeysStayDerived(env, ops);
    DerivedOf(env, graph, KeysIn(ops));
    VerdictFromKeys(env, graph, att, statement, KeysIn(ops), KeysRegistered(ops, att.quorum));
    KindIsLast(env, ops, att.quorum);
  }

  /** What becomes of a verdict over a run, exactly. From the state after `n`
      operations the rest of the log adds the members it endorses and takes
      those whose keys it registers on the quorum's own node; the verdict is
      quorate at the end exactly if the group form verifies and the threshold
      is asserted, or enough members are left. */
  lemma VerdictOverRun(env: Env, ops: seq<Op>, n: nat, att: QuorumAttestation, statement: seq<Byte>)
    requires env.DirectoryFaithful() && env.KeyIdsDistinguish()
    requires n <= |ops| && forall op :: op in ops ==> DerivedKeys(env, op)
    ensures var before, after := Fold(env, ops[..n]).graph, Fold(env, ops).graph;
      var rest := ops[n..];
      var own := KeysRegistered(rest, att.quorum);
      var members := (Members(env, before, att, statement) + Endorsed(env, att, statement, KeysIn(rest)))
                     - KeyIds(KeysRegistered(ops[..n], att.quorum)) - KeyIds(own);
      var group := GroupVerified(env, before, att, statement) || Endorsed(env, att, statement, own) != {};
      var asserted := if LastKind(rest, att.quorum).None? then ThresholdAsserted(before, att)
                      else KindAsserts(LastKind(rest, att.quorum), att);
      && Members(env, after, att, statement) == members
      && (GroupVerified(env, after, att, statement) <==> group)
      && (VerdictOf(env, after, att, statement).quorate <==> (group && asserted) || |members| >= att.threshold)
  {
    hide Endorsed, KeyIds, Members, GroupVerified, Fold, DerivedKeys, KeysIn, KeysRegistered, LastKind,
      ThresholdAsserted;
    var first, rest := ops[..n], ops[n..];
    assert ops == first + rest;
    VerdictFromLog(env, first, att, statement);
    VerdictFromLog(env, ops, att, statement);
    LogSplits(first, rest, att.quorum);
    EndorsedBoth(env, att, statement, KeysIn(first), KeysIn(rest));
    EndorsedBoth(env, att, statement, KeysRegistered(first, att.quorum), KeysRegistered(rest, att.quorum));
    IdsOfBoth(KeysRegistered(first, att.quorum), KeysRegistered(rest, att.quorum));
    var members := (Members(env, Fold(env, first).graph, att, statement) + Endorsed(env, att, statement, KeysIn(rest)))
                   - KeyIds(KeysRegistered(first, att.quorum)) - KeyIds(KeysRegistered(rest, att.quorum));
    assert Members(env, Fold(env, ops).graph, att, statement) == members;
  }

  lemma {:induction false} LogSplits(first: seq<Op>, rest: seq<Op>, id: NodeId)
    ensures KeysIn(first + rest) == KeysIn(first) + KeysIn(rest)
    ensures KeysRegistered(first + rest, id) == KeysRegistered(first, id) + KeysRegistered(rest, id)
    ensures LastKind(first + rest, id) == if LastKind(rest, id).Some? then LastKind(rest, id) else LastKind(first, id)
    decreases rest
  {
    if rest == [] {
      assert first + rest == first;
    } else {
      var init, last := rest[..|rest| - 1], rest[|rest| - 1];
      assert rest == init + [last] && first + rest == (first + init) + [last];
      LogSnoc(init, last, id);
      LogSnoc(first + init, last, id);
      hide KeysIn, KeysRegistered, LastKind;
      LogSplits(first, init, id);
    }
  }

  lemma LogSnoc(ops: seq<Op>, op: Op, id: NodeId)
    ensures KeysIn(ops + [op]) == KeysIn(ops) + if op.RegisterNode? then op.registered.keys else []
    ensures KeysRegistered(ops + [op], id)
         == KeysRegistered(ops, id) + if Registering(op, id) then op.registered.keys else []
    ensures LastKind(ops + [op], id) == if Registering(op, id) then Some(op.registered.kind) else LastKind(ops, id)
  {
    assert (ops + [op])[..|ops|] == ops;
  }
}
