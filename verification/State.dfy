/** The materialised state of the store and the effect of one operation on it:
    `apply_op` and the checks of the typed entry points, src/store.rs. */
module State {
  import opened Text
  import opened Signatif
  import opened Records
  import Quorum

  datatype StoreError = Conflict | Invalid | NotFound

  datatype Result<+T> = Ok(value: T) | Err(error: StoreError)

  datatype State = State(
    graph: TrustGraph,
    trustLists: map<string, TrustList>,
    frameworks: map<string, Option<string>>,
    master: MasterList,
    ledger: seq<Revocation>,
    evidence: map<string, Evidence>)

  const EMPTY := State(TrustGraph(map[], []), map[], map[], MasterList(1, 0, map[], map[]), [], map[])

  // ---------------------------------------------------------------------
  // The pieces of `apply_op`
  // ---------------------------------------------------------------------

  /** Append the keys whose ids are not there yet. */
  function MergeKeys(existing: seq<RegisteredKey>, incoming: seq<RegisteredKey>): seq<RegisteredKey>
    decreases incoming
  {
    if incoming == [] then existing
    else
      var k := incoming[0];
      MergeKeys(if k.keyId in KeyIds(existing) then existing else existing + [k], incoming[1..])
  }

  function MergeNode(graph: TrustGraph, node: DelegationNode): TrustGraph {
    var g := Signatif.AddNode(graph, node);
    var existing := g.nodes[node.id];
    g.(nodes := g.nodes[node.id := existing.(kind := node.kind, keys := MergeKeys(existing.keys, node.keys))])
  }

  /** `apply_entry`. */
  function ApplyEntry(list: TrustList, node: NodeId, notBefore: Time, supersededAt: Option<Time>): TrustList {
    var entry :=
      if node in list.entries then list.entries[node].(notBefore := notBefore, supersededAt := supersededAt)
      else TrustListEntry(node, notBefore, supersededAt);
    list.(entries := list.entries[node := entry])
  }

  /** Collecting pairs into a map: the last pair of an id counts. */
  function WitnessMap(ws: seq<(NodeId, PublicKey)>): map<NodeId, PublicKey> {
    if ws == [] then map[] else WitnessMap(ws[..|ws| - 1])[ws[|ws| - 1].0 := ws[|ws| - 1].1]
  }

  function NewMaster(m: nat, ws: seq<(NodeId, PublicKey)>, entries: map<NodeId, MasterListEntry>): MasterList {
    var witnesses := WitnessMap(ws);
    MasterList(m, |witnesses|, witnesses, entries)
  }

  /** `m` is compared with the length of the list. */
  predicate WellFormedSet(op: Op)
    requires op.SetWitnesses?
  {
    1 <= op.m <= |op.witnesses|
  }

  predicate WitnessesKnown(master: MasterList, entry: MasterListEntry) {
    forall a :: a in entry.attestations ==> a.witnessId in master.witnesses
  }

  /** A retroactive declaration needs an attestation that is quorate now. */
  predicate QuorumHolds(env: Env, graph: TrustGraph, r: Revocation) {
    r.reason.IsRetroactive() ==>
      && r.quorum.Some?
      && Quorum.VerdictOf(env, graph, r.quorum.value, env.statementBytes(r)).quorate
  }

  // ---------------------------------------------------------------------
  // `apply_op`
  // ---------------------------------------------------------------------

  function Apply(env: Env, st: State, op: Op): Result<State> {
    match op
    case RegisterNode(node) => Ok(st.(graph := MergeNode(st.graph, node)))
    case AddEdge(credential) =>
      var g := Signatif.AddEdge(env, st.graph, credential);
      if g.None? then Err(Invalid) else Ok(st.(graph := g.value))
    case RegisterTrustList(jurisdiction, framework) =>
      var key := Upper(jurisdiction);
      if key in st.trustLists then Err(Conflict)
      else Ok(st.(trustLists := st.trustLists[key := TrustList(jurisdiction, map[])],
                  frameworks := st.frameworks[key := framework]))
    case UpsertTrustEntry(jurisdiction, node, notBefore, supersededAt) =>
      var key := Upper(jurisdiction);
      if key !in st.trustLists then Err(NotFound)
      else Ok(st.(trustLists := st.trustLists[key := ApplyEntry(st.trustLists[key], node, notBefore, supersededAt)]))
    case SetWitnesses(m, witnesses) =>
      if m == 0 || witnesses == [] || m > |witnesses| then Err(Invalid)
      else Ok(st.(master := NewMaster(m, witnesses, st.master.entries)))
    case UpsertMasterEntry(entry) =>
      if !WitnessesKnown(st.master, entry) then Err(Invalid)
      else Ok(st.(master := st.master.(entries := st.master.entries[entry.node := entry])))
    case DeclareRevocation(revocation) =>
      if !QuorumHolds(env, st.graph, revocation) then Err(Invalid)
      else
        var l := Declare(st.ledger, revocation);
        if l.None? then Err(Invalid) else Ok(st.(ledger := l.value))
    case RegisterEvidence(evidence) =>
      if evidence.id in st.evidence then Err(Conflict)
      else Ok(st.(evidence := st.evidence[evidence.id := evidence]))
    case EvidenceReleased(_, _, _) => Ok(st)
  }

  /** A failing operation leaves the state alone. */
  function Step(env: Env, st: State, op: Op): State {
    var r := Apply(env, st, op);
    if r.Ok? then r.value else st
  }

  lemma LedgerEffect(env: Env, st: State, op: Op)
    requires Apply(env, st, op).Ok?
    ensures Apply(env, st, op).value.ledger == st.ledger + if op.DeclareRevocation? then [op.revocation] else []
  {
  }

  lemma EvidenceEffect(env: Env, st: State, op: Op)
    ensures Step(env, st, op).evidence
         == if op.RegisterEvidence? && op.evidence.id !in st.evidence then st.evidence[op.evidence.id := op.evidence]
            else st.evidence
  {
  }

  lemma EdgesEffect(env: Env, st: State, op: Op)
    requires Apply(env, st, op).Ok?
    ensures Apply(env, st, op).value.graph.edges == st.graph.edges + if op.AddEdge? then [op.credential] else []
  {
  }

  lemma MasterEffect(env: Env, st: State, op: Op)
    ensures var m := Step(env, st, op).master;
      && m.entries == (if op.UpsertMasterEntry? && WitnessesKnown(st.master, op.entry) then
                         st.master.entries[op.entry.node := op.entry]
                       else st.master.entries)
      && (if op.SetWitnesses? && WellFormedSet(op) then
            m.m == op.m && m.witnesses == WitnessMap(op.witnesses) && m.k == |m.witnesses|
          else m.m == st.master.m && m.witnesses == st.master.witnesses && m.k == st.master.k)
  {
  }

  lemma GraphEffect(env: Env, st: State, op: Op)
    ensures var nodes := Step(env, st, op).graph.nodes;
      if op.RegisterNode? then nodes == MergeNode(st.graph, op.registered).nodes else nodes == st.graph.nodes
  {
  }

  lemma ListsEffect(env: Env, st: State, op: Op)
    ensures var next := Step(env, st, op);
      match op
      case RegisterTrustList(j, framework) =>
        if Upper(j) in st.trustLists then next.trustLists == st.trustLists && next.frameworks == st.frameworks
        else next.trustLists == st.trustLists[Upper(j) := TrustList(j, map[])]
             && next.frameworks == st.frameworks[Upper(j) := framework]
      case UpsertTrustEntry(j, node, notBefore, supersededAt) =>
        && next.frameworks == st.frameworks
        && next.trustLists
           == (if Upper(j) !in st.trustLists then st.trustLists
               else st.trustLists[Upper(j) := ApplyEntry(st.trustLists[Upper(j)], node, notBefore, supersededAt)])
      case _ => next.trustLists == st.trustLists && next.frameworks == st.frameworks
  {
  }

  /** What asking for a document answers: the document as registered, under
      its own scope only. */
  function ReleaseResult(st: State, id: string, scope: string): Result<Evidence> {
    if id !in st.evidence then Err(NotFound)
    else if scope != st.evidence[id].requiredScope then Err(Invalid)
    else Ok(st.evidence[id])
  }

  lemma ReleaseChangesNothing(env: Env, st: State, id: string, requester: Option<string>, scope: string)
    ensures Apply(env, st, EvidenceReleased(id, requester, scope)) == Ok(st)
  {
  }

  /** The state that a run of operations builds from nothing. */
  function Fold(env: Env, ops: seq<Op>): State {
    if ops == [] then EMPTY else Step(env, Fold(env, ops[..|ops| - 1]), ops[|ops| - 1])
  }

  lemma FoldNothing(env: Env)
    ensures Fold(env, []) == EMPTY
  {
  }

  lemma FoldSnoc(env: Env, ops: seq<Op>, op: Op)
    ensures Fold(env, ops + [op]) == Step(env, Fold(env, ops), op)
  {
    assert (ops + [op])[..|ops|] == ops;
  }

  // ---------------------------------------------------------------------
  // The typed entry points
  // ---------------------------------------------------------------------

  /** What the entry point of `op` answers before it records anything: an
      error, or nothing when the operation is admitted. */
  function Refusal(env: Env, st: State, op: Op): Option<StoreError> {
    match op
    case RegisterNode(_) => None
    case AddEdge(credential) =>
      if Signatif.AddEdge(env, st.graph, credential).None? then Some(Invalid) else None
    case RegisterTrustList(jurisdiction, _) =>
      if Upper(jurisdiction) in st.trustLists then Some(Conflict) else None
    case UpsertTrustEntry(jurisdiction, _, _, _) =>
      if Upper(jurisdiction) !in st.trustLists then Some(NotFound) else None
    case SetWitnesses(m, witnesses) =>
      if m == 0 || witnesses == [] || m > |witnesses| then Some(Invalid) else None
    case UpsertMasterEntry(entry) =>
      if !WitnessesKnown(st.master, entry) then Some(Invalid) else None
    case DeclareRevocation(revocation) =>
      if !QuorumHolds(env, st.graph, revocation) || Declare(st.ledger, revocation).None? then Some(Invalid) else None
    case RegisterEvidence(evidence) =>
      if evidence.id in st.evidence then Some(Conflict)
      else if Trim(evidence.id) == "" || Trim(evidence.requiredScope) == "" || evidence.content == [] then Some(Invalid)
      else None
    case EvidenceReleased(id, _, scope) =>
      if id !in st.evidence then Some(NotFound)
      else if scope != st.evidence[id].requiredScope then Some(Invalid)
      else None
  }

  /** An admitted operation is applied; for all but the two evidence
      operations the entry point checks exactly what applying needs. */
  lemma AdmittedApplies(env: Env, st: State, op: Op)
    ensures Refusal(env, st, op).None? ==> Apply(env, st, op).Ok?
    ensures !op.RegisterEvidence? && !op.EvidenceReleased? ==>
              (Apply(env, st, op).Ok? ==> Refusal(env, st, op).None?)
  {
  }

  lemma EntryRefusal(env: Env, st: State, op: Op)
    requires op.UpsertTrustEntry?
    ensures Refusal(env, st, op) == if Upper(op.list) !in st.trustLists then Some(NotFound) else None
  {
  }

  lemma DeclarationRefusal(env: Env, st: State, r: Revocation)
    ensures Refusal(env, st, DeclareRevocation(r))
         == if !QuorumHolds(env, st.graph, r) || Declare(st.ledger, r).None? then Some(Invalid) else None
  {
    hide QuorumHolds;
  }

  /** From the `n`-th on, every operation was admitted by its entry point in the
      state that the operations before it built. */
  ghost predicate Admitted(env: Env, ops: seq<Op>, n: nat) {
    forall i :: n <= i < |ops| ==> Refusal(env, Fold(env, ops[..i]), ops[i]).None?
  }

  /** The operations that the entry points can have recorded from nothing. */
  ghost predicate History(env: Env, ops: seq<Op>) {
    Admitted(env, ops, 0)
  }

  lemma AdmittedSnoc(env: Env, ops: seq<Op>, op: Op, n: nat)
    requires n <= |ops|
    ensures Admitted(env, ops + [op], n) <==> Admitted(env, ops, n) && Refusal(env, Fold(env, ops), op).None?
  {
    var all := ops + [op];
    assert forall i :: 0 <= i < |ops| ==> all[..i] == ops[..i] && all[i] == ops[i];
    assert all[..|ops|] == ops && all[|ops|] == op;
  }

  // ---------------------------------------------------------------------
  // The operations that were applied
  // ---------------------------------------------------------------------

  /** A replay logs every record it can read, and applies those that the state
      of that moment accepts: these. */
  function Applied(env: Env, ops: seq<Op>): seq<Op> {
    if ops == [] then []
    else
      var init, last := ops[..|ops| - 1], ops[|ops| - 1];
      Applied(env, init) + if Apply(env, Fold(env, init), last).Ok? then [last] else []
  }

  lemma LastApplied(env: Env, ops: seq<Op>)
    requires ops != []
    ensures var n := |ops| - 1;
      var before, after := Applied(env, ops[..n]), Applied(env, ops);
      if Apply(env, Fold(env, ops[..n]), ops[n]).Ok? then
        && after == before + [ops[n]] && after[..|after| - 1] == before
        && Fold(env, ops) == Apply(env, Fold(env, ops[..n]), ops[n]).value
      else after == before && Fold(env, ops) == Fold(env, ops[..n])
  {
    hide Apply;
  }

  /** Leaving out what failed to apply changes nothing. */
  lemma {:induction false} AppliedSuffice(env: Env, ops: seq<Op>)
    ensures Fold(env, Applied(env, ops)) == Fold(env, ops)
  {
    hide Apply;
    if ops != [] {
      AppliedSuffice(env, ops[..|ops| - 1]);
      LastApplied(env, ops);
    }
  }

  ghost predicate Applies(env: Env, ops: seq<Op>, i: nat)
    requires i < |ops|
  {
    Apply(env, Fold(env, ops[..i]), ops[i]).Ok?
  }

  /** Nothing was left out exactly when every operation applied. */
  lemma {:induction false} AppliedAll(env: Env, ops: seq<Op>)
    ensures |Applied(env, ops)| <= |ops|
    ensures Applied(env, ops) == ops <==> forall i :: 0 <= i < |ops| ==> Applies(env, ops, i)
  {
    hide Apply, Fold, Applied;
    if ops != [] {
      var n := |ops| - 1;
      var init := ops[..n];
      AppliedAll(env, init);
      LastApplied(env, ops);
      forall i | 0 <= i < n
        ensures Applies(env, ops, i) <==> Applies(env, init, i)
      {
        assert init[..i] == ops[..i];
      }
      assert ops == init + [ops[n]];
      if Applies(env, ops, n) {
        assert Applied(env, ops) == ops ==> Applied(env, ops)[..n] == init;
      } else {
        assert |Applied(env, ops)| < |ops|;
      }
    } else {
      NothingApplied(env);
    }
  }

  lemma NothingApplied(env: Env)
    ensures Applied(env, []) == []
  {
  }
}
