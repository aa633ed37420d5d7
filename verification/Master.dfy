/** The M-of-K verdict on master-list entries: src/wire.rs, and the witness
    set that src/store.rs installs. */
module Master {
  import opened Signatif
  import opened State
  import Quorum
  import Records

  /** The attestation verifies under the registered key of its witness. */
  predicate Attests(env: Env, node: NodeId, witnesses: map<NodeId, PublicKey>, a: WitnessAttestation) {
    && a.witnessId in witnesses
    && env.verify(MasterListWitnessDomain, a.slot, env.witnessBytes(node, a.at), witnesses[a.witnessId])
  }

  /** `attestations_verified`: one verdict for each attestation. */
  function AttestationsVerified(env: Env, entry: MasterListEntry, witnesses: map<NodeId, PublicKey>): (v: seq<bool>)
    ensures |v| == |entry.attestations|
    ensures forall i :: 0 <= i < |v| ==> (v[i] <==> Attests(env, entry.node, witnesses, entry.attestations[i]))
  {
    seq(|entry.attestations|, i requires 0 <= i < |entry.attestations| =>
      Attests(env, entry.node, witnesses, entry.attestations[i]))
  }

  /** The witnesses with at least one verifying attestation. */
  function Attesting(env: Env, entry: MasterListEntry, witnesses: map<NodeId, PublicKey>): set<NodeId> {
    set a | a in entry.attestations && Attests(env, entry.node, witnesses, a) :: a.witnessId
  }

  predicate Quorate(env: Env, entry: MasterListEntry, witnesses: map<NodeId, PublicKey>, m: nat) {
    |Attesting(env, entry, witnesses)| >= m
  }

  /** `master_entry_quorate`. */
  method MasterEntryQuorate(env: Env, entry: MasterListEntry, witnesses: map<NodeId, PublicKey>, m: nat)
    returns (quorate: bool)
    ensures quorate == Quorate(env, entry, witnesses, m)
  {
    var verified := AttestationsVerified(env, entry, witnesses);
    var distinct: set<NodeId> := {};
    for i := 0 to |verified|
      invariant distinct
             == set a | a in entry.attestations[..i] && Attests(env, entry.node, witnesses, a) :: a.witnessId
    {
      assert entry.attestations[..i + 1] == entry.attestations[..i] + [entry.attestations[i]];
      if verified[i] {
        distinct := distinct + {entry.attestations[i].witnessId};
      }
    }
    assert entry.attestations[..|verified|] == entry.attestations;
    return |distinct| >= m;
  }

  /** The verdict in terms of signatures: a witness counts if one of the entry's
      attestations names it and verifies under its registered key, in the
      master-list domain, over the bytes of this entry's node and the instant of
      that attestation. */
  lemma QuorateMeans(env: Env, entry: MasterListEntry, witnesses: map<NodeId, PublicKey>, m: nat)
    ensures var attesting := set a |
        && a in entry.attestations && a.witnessId in witnesses
        && env.verify(MasterListWitnessDomain, a.slot, env.witnessBytes(entry.node, a.at), witnesses[a.witnessId])
        :: a.witnessId;
      Quorate(env, entry, witnesses, m) <==> |attesting| >= m
    ensures forall i :: 0 <= i < |entry.attestations| ==>
      var a := entry.attestations[i];
      AttestationsVerified(env, entry, witnesses)[i]
      <==> a.witnessId in witnesses
           && env.verify(MasterListWitnessDomain, a.slot, env.witnessBytes(entry.node, a.at), witnesses[a.witnessId])
  {
    var attesting := set a |
      && a in entry.attestations && a.witnessId in witnesses
      && env.verify(MasterListWitnessDomain, a.slot, env.witnessBytes(entry.node, a.at), witnesses[a.witnessId])
      :: a.witnessId;
    assert attesting == Attesting(env, entry, witnesses);
  }

  function CountTrue(v: seq<bool>): (n: nat)
    ensures n <= |v|
  {
    if v == [] then 0 else (if v[|v| - 1] then 1 else 0) + CountTrue(v[..|v| - 1])
  }

  /** The verified count is the number of attestations that verify. */
  lemma {:induction false} CountsTrue(v: seq<bool>)
    ensures CountTrue(v) == |set i | 0 <= i < |v| && v[i]|
  {
    var all := set i | 0 <= i < |v| && v[i];
    if v == [] {
      assert all == {};
    } else {
      var n := |v| - 1;
      var init := v[..n];
      CountsTrue(init);
      var before := set i | 0 <= i < |init| && init[i];
      forall i
        ensures i in all <==> i in before || (i == n && v[n])
      {
      }
      assert all == if v[n] then before + {n} else before;
    }
  }

  /** The verdict depends only on the keys of the witnesses an entry names. */
  lemma OnlyNamedWitnessesCount(env: Env, entry: MasterListEntry, a: map<NodeId, PublicKey>,
                                b: map<NodeId, PublicKey>, m: nat)
    requires forall at :: at in entry.attestations ==>
      (at.witnessId in a <==> at.witnessId in b) && (at.witnessId in a ==> a[at.witnessId] == b[at.witnessId])
    ensures AttestationsVerified(env, entry, a) == AttestationsVerified(env, entry, b)
    ensures Quorate(env, entry, a, m) == Quorate(env, entry, b, m)
  {
    assert Attesting(env, entry, a) == Attesting(env, entry, b);
  }

  /** Attesting once more with a witness that already attests changes nothing. */
  lemma RepeatsDoNotCount(env: Env, entry: MasterListEntry, again: WitnessAttestation,
                          witnesses: map<NodeId, PublicKey>, m: nat)
    requires again.witnessId in Attesting(env, entry, witnesses)
    ensures var more := entry.(attestations := entry.attestations + [again]);
      Quorate(env, more, witnesses, m) == Quorate(env, entry, witnesses, m)
  {
    var more := entry.(attestations := entry.attestations + [again]);
    assert forall a :: a in more.attestations <==> a in entry.attestations || a == again;
    assert Attesting(env, more, witnesses) == Attesting(env, entry, witnesses);
  }

  lemma {:induction false} DistinctAtMostVerified(env: Env, entry: MasterListEntry, witnesses: map<NodeId, PublicKey>)
    ensures |Attesting(env, entry, witnesses)| <= CountTrue(AttestationsVerified(env, entry, witnesses))
    decreases |entry.attestations|
  {
    if entry.attestations != [] {
      var n := |entry.attestations| - 1;
      var less, last := entry.(attestations := entry.attestations[..n]), entry.attestations[n];
      DistinctAtMostVerified(env, less, witnesses);
      var v := AttestationsVerified(env, entry, witnesses);
      assert v[..n] == AttestationsVerified(env, less, witnesses);
      assert forall a :: a in entry.attestations <==> a in less.attestations || a == last;
      var all, some := Attesting(env, entry, witnesses), Attesting(env, less, witnesses);
      assert all == if v[n] then some + {last.witnessId} else some;
    }
  }

  /** What quorate implies: `m <= distinct <= min(k, verified)`. */
  lemma QuorateBounds(env: Env, entry: MasterListEntry, witnesses: map<NodeId, PublicKey>, m: nat)
    ensures var distinct := |Attesting(env, entry, witnesses)|;
      && distinct <= |witnesses| && distinct <= CountTrue(AttestationsVerified(env, entry, witnesses))
      && (Quorate(env, entry, witnesses, m) <==> m <= distinct)
  {
    DistinctAtMostVerified(env, entry, witnesses);
    Quorum.SubsetCount(Attesting(env, entry, witnesses), witnesses.Keys);
    assert |witnesses.Keys| == |witnesses|;
  }

  // ---------------------------------------------------------------------
  // Installing a witness set
  // ---------------------------------------------------------------------

  function Ids(ws: seq<(NodeId, PublicKey)>): set<NodeId> {
    set w | w in ws :: w.0
  }

  lemma {:induction false} WitnessMapKeys(ws: seq<(NodeId, PublicKey)>)
    ensures WitnessMap(ws).Keys == Ids(ws)
  {
    if ws != [] {
      var init, last := ws[..|ws| - 1], ws[|ws| - 1];
      WitnessMapKeys(init);
      assert forall w :: w in ws <==> w in init || w == last;
    }
  }

  /** Of several keys listed for one witness the last is installed. */
  lemma {:induction false} LastKeyInstalled(ws: seq<(NodeId, PublicKey)>, i: nat)
    requires i < |ws| && forall j :: i < j < |ws| ==> ws[j].0 != ws[i].0
    ensures ws[i].0 in WitnessMap(ws) && WitnessMap(ws)[ws[i].0] == ws[i].1
  {
    if i < |ws| - 1 {
      LastKeyInstalled(ws[..|ws| - 1], i);
    }
  }

  /** `m` is checked against the length of the list, but `k` counts distinct
      ids. The installed set can reach its threshold exactly when the list
      names at least `m` distinct witnesses. */
  lemma ThresholdReachable(m: nat, ws: seq<(NodeId, PublicKey)>, entries: map<NodeId, MasterListEntry>)
    ensures var master := NewMaster(m, ws, entries);
      master.m <= master.k <==> m <= |Ids(ws)|
  {
    WitnessMapKeys(ws);
    var map' := WitnessMap(ws);
    assert |map'.Keys| == |map'|;
  }

  /** Beyond that, no entry is ever quorate. */
  lemma UnreachableNeverQuorate(env: Env, m: nat, ws: seq<(NodeId, PublicKey)>, entry: MasterListEntry)
    requires m > |Ids(ws)|
    ensures !Quorate(env, entry, NewMaster(m, ws, map[]).witnesses, m)
  {
    WitnessMapKeys(ws);
    QuorateBounds(env, entry, WitnessMap(ws), m);
    assert |WitnessMap(ws).Keys| == |WitnessMap(ws)|;
  }

  /** One witness listed twice passes the check with a threshold of two. */
  lemma RepeatedWitnessPasses(env: Env, st: State, id: NodeId, key: PublicKey)
    ensures var op := Records.SetWitnesses(2, [(id, key), (id, key)]);
      && Refusal(env, st, op).None?
      && Step(env, st, op).master.m == 2 && Step(env, st, op).master.k == 1
  {
    var ws := [(id, key), (id, key)];
    assert ws[..1] == [(id, key)];
    assert WitnessMap([(id, key)]) == map[id := key] by {
      assert [(id, key)][..0] == [];
    }
    assert WitnessMap(ws) == map[id := key];
    assert |map[id := key]| == 1;
  }
}
