/** What holds of every state that a run of store operations reaches. */
module Histories {
  import opened Text
  import opened Signatif
  import opened Records
  import opened State
  import Quorum
  import Wire

  // ---------------------------------------------------------------------
  // Exactly once, in order
  // ---------------------------------------------------------------------

  /** What an entry point admitted was applied, to the state that the
      operations before it built. */
  lemma AdmittedIsApplied(env: Env, ops: seq<Op>, i: nat)
    requires i < |ops| && Refusal(env, Fold(env, ops[..i]), ops[i]).None?
    ensures Apply(env, Fold(env, ops[..i]), ops[i]) == Ok(Fold(env, ops[..i + 1]))
  {
    hide Apply, Refusal;
    AdmittedApplies(env, Fold(env, ops[..i]), ops[i]);
    assert ops[..i + 1] == ops[..i] + [ops[i]];
    FoldSnoc(env, ops[..i], ops[i]);
  }

  function Declarations(ops: seq<Op>): seq<Revocation> {
    if ops == [] then []
    else
      var last := ops[|ops| - 1];
      Declarations(ops[..|ops| - 1]) + if last.DeclareRevocation? then [last.revocation] else []
  }

  /** The ledger is the applied declarations of the log, each once and in
      order. */
  lemma {:induction false} LedgerIsDeclarations(env: Env, ops: seq<Op>)
    ensures Fold(env, ops).ledger == Declarations(Applied(env, ops))
  {
    hide Apply, Fold, Applied;
    if ops != [] {
      var n := |ops| - 1;
      LedgerIsDeclarations(env, ops[..n]);
      LastApplied(env, ops);
      if Apply(env, Fold(env, ops[..n]), ops[n]).Ok? {
        LedgerEffect(env, Fold(env, ops[..n]), ops[n]);
      }
    } else {
      NothingYet(env);
    }
  }

  lemma NothingYet(env: Env)
    ensures Fold(env, []) == EMPTY && Applied(env, []) == []
  {
  }

  /** What makes a ledger safe: the declaration stands in the log, was applied
      there, and if it is retroactive its attestation was quorate against the
      graph that the log built before it. */
  ghost predicate DeclaredAt(env: Env, ops: seq<Op>, i: nat, r: Revocation) {
    && i < |ops| && ops[i] == DeclareRevocation(r)
    && (r.reason.IsRetroactive() ==>
          && r.quorum.Some?
          && Quorum.VerdictOf(env, Fold(env, ops[..i]).graph, r.quorum.value, env.statementBytes(r)).quorate)
  }

  lemma DeclaredEarlier(env: Env, ops: seq<Op>, n: nat, i: nat, r: Revocation)
    requires n <= |ops| && DeclaredAt(env, ops[..n], i, r)
    ensures DeclaredAt(env, ops, i, r)
  {
    hide Quorum.VerdictOf, Fold;
    assert ops[..n][..i] == ops[..i];
  }

  /** Retroactive safety: whatever operations a log holds, applied or not, each
      revocation in the ledger was declared by it, and each retroactive one
      with an attestation that was quorate at that point of the log. */
  lemma {:induction false} RetroactiveSafety(env: Env, ops: seq<Op>, r: Revocation) returns (i: nat)
    requires r in Fold(env, ops).ledger
    ensures DeclaredAt(env, ops, i, r)
  {
    hide Apply, Quorum.VerdictOf, DeclaredAt;
    var n := |ops| - 1;
    var st := Fold(env, ops[..n]);
    if r in st.ledger {
      i := RetroactiveSafety(env, ops[..n], r);
      DeclaredEarlier(env, ops, n, i, r);
    } else {
      LedgerEffect(env, st, ops[n]);
      i := n;
      AppliedWasQuorate(env, ops, n);
    }
  }

  lemma AppliedWasQuorate(env: Env, ops: seq<Op>, i: nat)
    requires i < |ops| && ops[i].DeclareRevocation? && Apply(env, Fold(env, ops[..i]), ops[i]).Ok?
    ensures DeclaredAt(env, ops, i, ops[i].revocation)
  {
    hide Quorum.VerdictOf, Fold;
  }

  /** The other way: a declaration that was applied stays in the ledger; one is
      applied if and only if it is prospective or quorate at that moment. */
  lemma DeclaredStays(env: Env, ops: seq<Op>, i: nat)
    requires i < |ops| && ops[i].DeclareRevocation?
    ensures DeclaredAt(env, ops, i, ops[i].revocation) ==> ops[i].revocation in Fold(env, ops).ledger
    ensures DeclaredAt(env, ops, i, ops[i].revocation) <==> Apply(env, Fold(env, ops[..i]), ops[i]).Ok?
  {
    hide Quorum.VerdictOf, Fold;
    if DeclaredAt(env, ops, i, ops[i].revocation) {
      LedgerEffect(env, Fold(env, ops[..i]), ops[i]);
      assert ops[..i + 1] == ops[..i] + [ops[i]];
      FoldSnoc(env, ops[..i], ops[i]);
      hide Apply, Step;
      LedgerKept(env, ops, i + 1, ops[i].revocation);
    }
  }

  lemma {:induction false} LedgerKept(env: Env, ops: seq<Op>, n: nat, r: Revocation)
    requires n <= |ops| && r in Fold(env, ops[..n]).ledger
    ensures r in Fold(env, ops).ledger
  {
    if n == |ops| {
      assert ops[..n] == ops;
    } else {
      hide Apply;
      var init, op := ops[..|ops| - 1], ops[|ops| - 1];
      assert init[..n] == ops[..n];
      LedgerKept(env, init, n, r);
      if Apply(env, Fold(env, init), op).Ok? {
        LedgerEffect(env, Fold(env, init), op);
      }
    }
  }

  // ---------------------------------------------------------------------
  // Evidence
  // ---------------------------------------------------------------------

  /** Registered content never changes, whatever is done afterwards. */
  lemma {:induction false} EvidenceKept(env: Env, ops: seq<Op>, n: nat, id: string)
    requires n <= |ops| && id in Fold(env, ops[..n]).evidence
    ensures id in Fold(env, ops).evidence && Fold(env, ops).evidence[id] == Fold(env, ops[..n]).evidence[id]
  {
    if n == |ops| {
      assert ops[..n] == ops;
    } else {
      hide Step;
      var init, op := ops[..|ops| - 1], ops[|ops| - 1];
      assert init[..n] == ops[..n];
      EvidenceKept(env, init, n, id);
      EvidenceEffect(env, Fold(env, init), op);
    }
  }

  /** The first registration of an id. */
  function EvidenceRegistration(ops: seq<Op>, id: string): Option<Evidence> {
    if ops == [] then None
    else
      var before, last := EvidenceRegistration(ops[..|ops| - 1], id), ops[|ops| - 1];
      if before.None? && last.RegisterEvidence? && last.evidence.id == id then Some(last.evidence) else before
  }

  /** A document is held exactly when the log registers its id, and as it was
      first registered; a repeated registration that a replay finds is
      ignored. */
  lemma {:induction false} EvidenceMaterialises(env: Env, ops: seq<Op>, id: string)
    ensures var held := Fold(env, ops).evidence;
      EvidenceRegistration(ops, id) == if id in held then Some(held[id]) else None
  {
    hide Step;
    if ops != [] {
      var n := |ops| - 1;
      EvidenceMaterialises(env, ops[..n], id);
      EvidenceEffect(env, Fold(env, ops[..n]), ops[n]);
    }
  }

  lemma {:induction false} RegistrationAt(ops: seq<Op>, id: string) returns (j: nat)
    requires EvidenceRegistration(ops, id).Some?
    ensures j < |ops| && ops[j] == RegisterEvidence(EvidenceRegistration(ops, id).value)
    ensures EvidenceRegistration(ops, id).value.id == id
  {
    var n := |ops| - 1;
    if EvidenceRegistration(ops[..n], id).Some? {
      j := RegistrationAt(ops[..n], id);
    } else {
      j := n;
    }
  }

  lemma EvidenceWasRegistered(env: Env, ops: seq<Op>, id: string) returns (j: nat)
    requires id in Fold(env, ops).evidence
    ensures j < |ops| && ops[j] == RegisterEvidence(Fold(env, ops).evidence[id])
    ensures Fold(env, ops).evidence[id].id == id
  {
    hide Fold;
    EvidenceMaterialises(env, ops, id);
    j := RegistrationAt(ops, id);
  }

  /** Every release that was admitted follows a registration of its id, under
      the registered scope; that registration still determines the content. */
  lemma ReleaseWasRegistered(env: Env, ops: seq<Op>, i: nat) returns (j: nat)
    requires i < |ops| && ops[i].EvidenceReleased?
    requires Refusal(env, Fold(env, ops[..i]), ops[i]).None?
    ensures j < i && ops[j].RegisterEvidence?
    ensures ops[j].evidence.id == ops[i].id && ops[j].evidence.requiredScope == ops[i].scope
    ensures ops[i].id in Fold(env, ops).evidence && Fold(env, ops).evidence[ops[i].id] == ops[j].evidence
  {
    hide Fold;
    var before := ops[..i];
    j := EvidenceWasRegistered(env, before, ops[i].id);
    assert before[j] == ops[j];
    EvidenceKept(env, ops, i, ops[i].id);
  }

  /** No id is registered twice: of two registrations of one id in a log, the
      later one was refused. */
  lemma RegisteredOnce(env: Env, ops: seq<Op>, i: nat, j: nat)
    requires i < j < |ops| && ops[i].RegisterEvidence? && ops[j].RegisterEvidence?
    requires ops[i].evidence.id == ops[j].evidence.id
    ensures Refusal(env, Fold(env, ops[..j]), ops[j]) == Some(Conflict)
    ensures Apply(env, Fold(env, ops[..j]), ops[j]) == Err(Conflict)
  {
    hide Fold, Step;
    var id := ops[i].evidence.id;
    EvidenceEffect(env, Fold(env, ops[..i]), ops[i]);
    assert ops[..i + 1] == ops[..i] + [ops[i]];
    FoldSnoc(env, ops[..i], ops[i]);
    assert ops[..j][..i + 1] == ops[..i + 1];
    EvidenceKept(env, ops[..j], i + 1, id);
  }

  /** What the evidence entry points answer, in terms of the log alone: a
      registration conflicts exactly with an earlier one of its id, a release
      needs one, and its scope. */
  lemma EvidenceRefusals(env: Env, ops: seq<Op>, e: Evidence, id: string, requester: Option<string>, scope: string)
    ensures var held := EvidenceRegistration(ops, id);
      && Refusal(env, Fold(env, ops), EvidenceReleased(id, requester, scope))
         == (if held.None? then Some(NotFound) else if held.value.requiredScope != scope then Some(Invalid) else None)
      && ReleaseResult(Fold(env, ops), id, scope)
         == (if held.None? then Err(NotFound)
             else if held.value.requiredScope != scope then Err(Invalid) else Ok(held.value))
    ensures Refusal(env, Fold(env, ops), RegisterEvidence(e))
         == if EvidenceRegistration(ops, e.id).Some? then Some(Conflict)
            else if Blank(e.id) || Blank(e.requiredScope) || |e.content| == 0 then Some(Invalid)
            else None
  {
    hide Fold, EvidenceRegistration, Trim, Blank;
    EvidenceMaterialises(env, ops, e.id);
    EvidenceMaterialises(env, ops, id);
    TrimsToNothing(e.id);
    TrimsToNothing(e.requiredScope);
  }

  ghost predicate Proper(e: Evidence) {
    && (exists c :: c in e.id && !IsWhitespace(c))
    && (exists c :: c in e.requiredScope && !IsWhitespace(c))
    && e.content != []
  }

  /** What the entry points recorded holds no document without an id, a scope
      or content. */
  lemma HeldAreProper(env: Env, ops: seq<Op>, id: string)
    requires History(env, ops) && id in Fold(env, ops).evidence
    ensures Proper(Fold(env, ops).evidence[id]) && Fold(env, ops).evidence[id].id == id
  {
    hide Fold, Proper, Refusal;
    EvidenceMaterialises(env, ops, id);
    var j := EvidenceWasRegistered(env, ops, id);
    AdmittedIsProper(env, ops[..j], ops[j].evidence);
  }

  lemma AdmittedIsProper(env: Env, ops: seq<Op>, e: Evidence)
    requires Refusal(env, Fold(env, ops), RegisterEvidence(e)).None?
    ensures Proper(e)
  {
    hide Fold, Refusal, EvidenceRegistration, ReleaseResult;
    EvidenceRefusals(env, ops, e, "", None, "");
  }

  /** What the other entry points answer: an edge is refused exactly if the
      graph does not accept it, a witness set exactly if its threshold is not
      between one and the number of keys listed, a master entry exactly if it
      names a witness outside the last set, a declaration exactly if it is
      retroactive without an attestation that is quorate now. */
  lemma OtherRefusals(env: Env, ops: seq<Op>, node: DelegationNode, c: DelegationCredential, m: nat,
                      ws: seq<(NodeId, PublicKey)>, entry: MasterListEntry, r: Revocation)
    ensures var st := Fold(env, ops);
      && Refusal(env, st, RegisterNode(node)) == None
      && Refusal(env, st, AddEdge(c)) == (if env.acceptsEdge(st.graph, c) then None else Some(Invalid))
      && Refusal(env, st, SetWitnesses(m, ws)) == (if 1 <= m && m <= |ws| then None else Some(Invalid))
      && Refusal(env, st, UpsertMasterEntry(entry)) == (if NamesWitnesses(ops, entry) then None else Some(Invalid))
      && Refusal(env, st, DeclareRevocation(r))
         == (if r.reason.IsRetroactive()
                && (r.quorum.None?
                    || !Quorum.VerdictOf(env, st.graph, r.quorum.value, env.statementBytes(r)).quorate)
             then Some(Invalid) else None)
  {
    hide Fold, Quorum.VerdictOf, NamesWitnesses, WitnessesKnown;
    NamedAreKnown(env, ops, entry);
  }

  /** On a replay an operation fails exactly as its entry point would have
      refused it, but for the checks that only the evidence entry points make. */
  lemma ReplayFailsAlike(env: Env, st: State, op: Op)
    ensures !op.RegisterEvidence? && !op.EvidenceReleased? ==>
      (Apply(env, st, op).Err? <==> Refusal(env, st, op).Some?)
      && (Apply(env, st, op).Err? ==> Refusal(env, st, op) == Some(Apply(env, st, op).error))
    ensures op.RegisterEvidence? ==>
      Apply(env, st, op) == if op.evidence.id in st.evidence then Err(Conflict)
                            else Ok(st.(evidence := st.evidence[op.evidence.id := op.evidence]))
    ensures op.EvidenceReleased? ==> Apply(env, st, op) == Ok(st)
  {
    hide QuorumHolds, WitnessesKnown;
  }

  /** The three reasons that void from the start, by their tokens. */
  lemma RetroactiveReasons(r: RevocationReason)
    ensures r.IsRetroactive()
       <==> Wire.ReasonToken(r) in {"misissuance", "fraudulent-issuance", "authority-compromised"}
  {
    var t := Wire.ReasonToken(r);
    assert |"key-compromise"| == 14 && |"cessation"| == 9 && |"supersession"| == 12;
    assert |"affiliation-change"| == 18 && |"condition-withdrawal"| == 20;
    assert |"misissuance"| == 11 && |"fraudulent-issuance"| == 19 && |"authority-compromised"| == 21;
  }

  /** One list for each jurisdiction, whatever the case of its letters. */
  lemma SameLetters(a: string, b: string)
    requires |a| == |b|
    requires forall i :: 0 <= i < |a| ==>
      || a[i] == b[i]
      || exists l :: 0 <= l < 26 && {a[i], b[i]} == {SMALLS[l], CAPITALS[l]}
    ensures Upper(a) == Upper(b)
  {
    forall i | 0 <= i < |a|
      ensures Upper(a)[i] == Upper(b)[i]
    {
      if a[i] != b[i] {
        var l :| 0 <= l < 26 && {a[i], b[i]} == {SMALLS[l], CAPITALS[l]};
        SameUpper(a[i], b[i], l);
      }
    }
  }

  lemma SameUpper(a: char, b: char, l: nat)
    requires l < 26 && {a, b} == {SMALLS[l], CAPITALS[l]} && a != b
    ensures UpperChar(a) == UpperChar(b)
  {
    LetterTable(a);
    assert a in {a, b} && b in {a, b};
    assert SMALLS[l] in {a, b} && CAPITALS[l] in {a, b};
  }


  // ---------------------------------------------------------------------
  // Trust lists
  // ---------------------------------------------------------------------

  ghost predicate ListsAligned(st: State) {
    && st.trustLists.Keys == st.frameworks.Keys
    && forall key :: key in st.trustLists ==>
         && Upper(st.trustLists[key].jurisdiction) == key && Upper(key) == key
         && forall n :: n in st.trustLists[key].entries ==> st.trustLists[key].entries[n].node == n
  }

  /** Lists and frameworks share the same upper-case keys, and each list is
      kept under its own jurisdiction; no hypothesis on the operations. */
  lemma {:induction false} ListsStayAligned(env: Env, ops: seq<Op>)
    ensures ListsAligned(Fold(env, ops))
  {
    if ops != [] {
      var st := Fold(env, ops[..|ops| - 1]);
      ListsStayAligned(env, ops[..|ops| - 1]);
      StepKeepsAligned(env, st, ops[|ops| - 1]);
      hide ListsAligned, Step;
    }
  }

  lemma StepKeepsAligned(env: Env, st: State, op: Op)
    requires ListsAligned(st)
    ensures ListsAligned(Step(env, st, op))
  {
    hide Step, Upper, ApplyEntry;
    ListsEffect(env, st, op);
    var next := Step(env, st, op);
    if op.RegisterTrustList? && Upper(op.jurisdiction) !in st.trustLists {
      UpperIdempotent(op.jurisdiction);
      PutKeepsAligned(st, next, Upper(op.jurisdiction), TrustList(op.jurisdiction, map[]));
    } else if op.UpsertTrustEntry? && Upper(op.list) in st.trustLists {
      var list := st.trustLists[Upper(op.list)];
      EntryKeepsList(list, op.trusted, op.notBefore, op.supersededAt);
      PutKeepsAligned(st, next, Upper(op.list), ApplyEntry(list, op.trusted, op.notBefore, op.supersededAt));
    }
  }

  lemma PutKeepsAligned(st: State, next: State, key: string, list: TrustList)
    requires ListsAligned(st) && Upper(key) == key && Upper(list.jurisdiction) == key
    requires forall n :: n in list.entries ==> list.entries[n].node == n
    requires next.trustLists == st.trustLists[key := list] && next.frameworks.Keys == st.frameworks.Keys + {key}
    ensures ListsAligned(next)
  {
    hide Upper;
  }

  lemma EntryKeepsList(list: TrustList, node: NodeId, notBefore: Time, supersededAt: Option<Time>)
    ensures var after := ApplyEntry(list, node, notBefore, supersededAt);
      && after.jurisdiction == list.jurisdiction
      && ((forall n :: n in list.entries ==> list.entries[n].node == n) ==>
            forall n :: n in after.entries ==> after.entries[n].node == n)
  {
  }

  /** The first registration of the list kept under `key`. */
  function ListRegistration(ops: seq<Op>, key: string): Option<Op> {
    if ops == [] then None
    else
      var before, last := ListRegistration(ops[..|ops| - 1], key), ops[|ops| - 1];
      if before.None? && last.RegisterTrustList? && Upper(last.jurisdiction) == key then Some(last) else before
  }

  /** A list exists exactly when the log registers its jurisdiction, in whatever
      case, with the spelling and framework of the first registration. */
  lemma {:induction false} ListsMaterialise(env: Env, ops: seq<Op>, key: string)
    ensures var st := Fold(env, ops);
      match ListRegistration(ops, key)
      case None => key !in st.trustLists
      case Some(op) =>
        && op.RegisterTrustList? && key in st.trustLists && key in st.frameworks
        && st.trustLists[key].jurisdiction == op.jurisdiction && st.frameworks[key] == op.framework
  {
    hide Step, Upper;
    if ops != [] {
      var n := |ops| - 1;
      ListsMaterialise(env, ops[..n], key);
      ListsEffect(env, Fold(env, ops[..n]), ops[n]);
    }
  }

  /** What the list entry points answer, in terms of the log alone: one
      registration for each jurisdiction, and no entry without it. */
  lemma ListRefusals(env: Env, ops: seq<Op>, j: string, f: Option<string>, node: NodeId, at: Time, until: Option<Time>)
    ensures var registered := ListRegistration(ops, Upper(j)).Some?;
      && (Refusal(env, Fold(env, ops), RegisterTrustList(j, f)) == if registered then Some(Conflict) else None)
      && (Refusal(env, Fold(env, ops), UpsertTrustEntry(j, node, at, until))
          == if registered then None else Some(NotFound))
  {
    hide Fold, ListRegistration, Upper;
    ListsMaterialise(env, ops, Upper(j));
  }

  /** The last entry of a node among the operations on a list that was there. */
  function LastEntry(ops: seq<Op>, key: string, node: NodeId): Option<TrustListEntry> {
    if ops == [] then None
    else
      var init, last := ops[..|ops| - 1], ops[|ops| - 1];
      if && last.UpsertTrustEntry? && Upper(last.list) == key && last.trusted == node
         && ListRegistration(init, key).Some?
      then
        Some(TrustListEntry(node, last.notBefore, last.supersededAt))
      else LastEntry(init, key, node)
  }

  function EntryOf(st: State, key: string, node: NodeId): Option<TrustListEntry> {
    if key in st.trustLists && node in st.trustLists[key].entries then Some(st.trustLists[key].entries[node]) else None
  }

  /** A trust list holds the last entry written for each node. */
  lemma {:induction false} TrustEntriesAreLast(env: Env, ops: seq<Op>, key: string, node: NodeId)
    ensures EntryOf(Fold(env, ops), key, node) == LastEntry(ops, key, node)
  {
    if ops != [] {
      var n := |ops| - 1;
      TrustEntriesAreLast(env, ops[..n], key, node);
      ListsStayAligned(env, ops[..n]);
      ListsMaterialise(env, ops[..n], key);
      EntryStep(env, Fold(env, ops[..n]), ops[n], key, node);
      hide Step, EntryOf, ListsAligned, ListRegistration;
    }
  }

  lemma EntryStep(env: Env, st: State, op: Op, key: string, node: NodeId)
    requires ListsAligned(st)
    ensures EntryOf(Step(env, st, op), key, node)
         == if op.UpsertTrustEntry? && Upper(op.list) == key && op.trusted == node && key in st.trustLists then
              Some(TrustListEntry(node, op.notBefore, op.supersededAt))
            else EntryOf(st, key, node)
  {
    hide Step, Upper;
    ListsEffect(env, st, op);
  }

  // ---------------------------------------------------------------------
  // The master list
  // ---------------------------------------------------------------------

  /** The last replacement of the witness set that was well formed. */
  function LastWitnesses(ops: seq<Op>): Option<Op> {
    if ops == [] then None
    else
      var last := ops[|ops| - 1];
      if last.SetWitnesses? && WellFormedSet(last) then Some(last) else LastWitnesses(ops[..|ops| - 1])
  }

  /** Threshold and witness keys are those of the last replacement. */
  lemma {:induction false} WitnessesAreLast(env: Env, ops: seq<Op>)
    ensures var master := Fold(env, ops).master;
      match LastWitnesses(ops)
      case None => master.m == 1 && master.k == 0 && master.witnesses == map[]
      case Some(op) =>
        && op.SetWitnesses? && master.m == op.m && 1 <= op.m <= |op.witnesses|
        && master.witnesses == WitnessMap(op.witnesses) && master.k == |master.witnesses|
  {
    hide Step;
    if ops != [] {
      var n := |ops| - 1;
      WitnessesAreLast(env, ops[..n]);
      MasterEffect(env, Fold(env, ops[..n]), ops[n]);
    }
  }

  /** Every attestation names a witness of the last replacement. */
  predicate NamesWitnesses(ops: seq<Op>, entry: MasterListEntry) {
    forall a :: a in entry.attestations ==>
      var set' := LastWitnesses(ops);
      set'.Some? && set'.value.SetWitnesses? && a.witnessId in WitnessMap(set'.value.witnesses)
  }

  /** The last entry of a node that named only witnesses of its moment. */
  function LastMasterEntry(ops: seq<Op>, node: NodeId): Option<MasterListEntry> {
    if ops == [] then None
    else
      var init, last := ops[..|ops| - 1], ops[|ops| - 1];
      if last.UpsertMasterEntry? && last.entry.node == node && NamesWitnesses(init, last.entry) then Some(last.entry)
      else LastMasterEntry(init, node)
  }

  lemma NamedAreKnown(env: Env, ops: seq<Op>, entry: MasterListEntry)
    ensures NamesWitnesses(ops, entry) <==> WitnessesKnown(Fold(env, ops).master, entry)
  {
    hide Fold, LastWitnesses;
    WitnessesAreLast(env, ops);
  }

  /** Master entries are the last written, and survive every replacement of
      the witness set. */
  lemma {:induction false} MasterEntriesAreLast(env: Env, ops: seq<Op>, node: NodeId)
    ensures var entries := Fold(env, ops).master.entries;
      LastMasterEntry(ops, node) == if node in entries then Some(entries[node]) else None
  {
    hide Step, NamesWitnesses, WitnessesKnown;
    if ops != [] {
      var n := |ops| - 1;
      MasterEntriesAreLast(env, ops[..n], node);
      MasterEffect(env, Fold(env, ops[..n]), ops[n]);
      if ops[n].UpsertMasterEntry? {
        NamedAreKnown(env, ops[..n], ops[n].entry);
      }
    }
  }

  // ---------------------------------------------------------------------
  // The graph
  // ---------------------------------------------------------------------

  function Credentials(ops: seq<Op>): seq<DelegationCredential> {
    if ops == [] then []
    else
      var last := ops[|ops| - 1];
      Credentials(ops[..|ops| - 1]) + if last.AddEdge? then [last.credential] else []
  }

  /** The edges are the applied credentials of the log, each once and in
      order. */
  lemma {:induction false} EdgesAreCredentials(env: Env, ops: seq<Op>)
    ensures Fold(env, ops).graph.edges == Credentials(Applied(env, ops))
  {
    hide Apply, Fold, Applied;
    if ops != [] {
      var n := |ops| - 1;
      EdgesAreCredentials(env, ops[..n]);
      LastApplied(env, ops);
      if Apply(env, Fold(env, ops[..n]), ops[n]).Ok? {
        EdgesEffect(env, Fold(env, ops[..n]), ops[n]);
      }
    } else {
      NothingYet(env);
    }
  }

  // ---------------------------------------------------------------------
  // Nodes of the graph
  // ---------------------------------------------------------------------

  function LastKind(ops: seq<Op>, id: NodeId): Option<NodeKind> {
    if ops == [] then None
    else
      var last := ops[|ops| - 1];
      if last.RegisterNode? && last.registered.id == id then Some(last.registered.kind)
      else LastKind(ops[..|ops| - 1], id)
  }

  /** All keys registered under `id`, in log order. */
  function KeysRegistered(ops: seq<Op>, id: NodeId): seq<RegisteredKey> {
    if ops == [] then []
    else
      var last := ops[|ops| - 1];
      KeysRegistered(ops[..|ops| - 1], id)
      + if last.RegisterNode? && last.registered.id == id then last.registered.keys else []
  }

  /** The first key of each id. */
  function FirstOfEachId(keys: seq<RegisteredKey>): seq<RegisteredKey> {
    if keys == [] then []
    else
      var init, last := keys[..|keys| - 1], keys[|keys| - 1];
      if last.keyId in KeyIds(init) then FirstOfEachId(init) else FirstOfEachId(init) + [last]
  }

  lemma {:induction false} FirstKeepsIds(keys: seq<RegisteredKey>)
    ensures KeyIds(FirstOfEachId(keys)) == KeyIds(keys)
  {
    if keys != [] {
      var init, last := keys[..|keys| - 1], keys[|keys| - 1];
      FirstKeepsIds(init);
      assert keys == init + [last];
      IdsOfSnoc(init, last);
      IdsOfSnoc(FirstOfEachId(init), last);
    }
  }

  lemma IdsOfSnoc(keys: seq<RegisteredKey>, k: RegisteredKey)
    ensures KeyIds(keys + [k]) == KeyIds(keys) + {k.keyId}
  {
    assert forall x :: x in keys + [k] <==> x in keys || x == k;
  }

  lemma {:induction false} MergeIsFirst(a: seq<RegisteredKey>, b: seq<RegisteredKey>)
    ensures MergeKeys(FirstOfEachId(a), b) == FirstOfEachId(a + b)
    decreases b
  {
    hide KeyIds;
    if b == [] {
      assert a + b == a;
    } else {
      var k := b[0];
      assert (a + [k])[..|a|] == a;
      FirstKeepsIds(a);
      MergeIsFirst(a + [k], b[1..]);
      assert a + b == a + [k] + b[1..];
    }
  }

  lemma {:induction false} DistinctAreFirst(keys: seq<RegisteredKey>)
    requires DistinctIds(keys)
    ensures FirstOfEachId(keys) == keys
  {
    if keys != [] {
      var init, last := keys[..|keys| - 1], keys[|keys| - 1];
      DistinctAreFirst(init);
      assert keys == init + [last];
      assert last.keyId !in KeyIds(init);
    }
  }

  lemma {:induction false} MergeOwnKeys(keys: seq<RegisteredKey>, b: seq<RegisteredKey>)
    requires forall k :: k in b ==> k.keyId in KeyIds(keys)
    ensures MergeKeys(keys, b) == keys
    decreases b
  {
    if b != [] {
      assert b[0] in b;
      MergeOwnKeys(keys, b[1..]);
    }
  }

  predicate DistinctIds(keys: seq<RegisteredKey>) {
    forall i, j :: 0 <= i < j < |keys| ==> keys[i].keyId != keys[j].keyId
  }

  ghost predicate DistinctKeyIds(op: Op) {
    op.RegisterNode? ==> DistinctIds(op.registered.keys)
  }

  lemma {:induction false} MergeTwice(a: seq<RegisteredKey>, b: seq<RegisteredKey>, c: seq<RegisteredKey>)
    ensures MergeKeys(MergeKeys(a, b), c) == MergeKeys(a, b + c)
    decreases b
  {
    if b == [] {
      assert b + c == c;
    } else {
      var k, all := b[0], b + c;
      assert all[0] == k && all[1..] == b[1..] + c;
      MergeTwice(if k.keyId in KeyIds(a) then a else a + [k], b[1..], c);
    }
  }

  lemma MergeSelf(keys: seq<RegisteredKey>)
    ensures MergeKeys(keys, keys) == keys
  {
    MergeOwnKeys(keys, keys);
  }

  /** One registration: a new node as it comes, a repeated key included; a known
      one with the keys not yet there, and the new kind. */
  lemma MergeNodeIs(graph: TrustGraph, node: DelegationNode)
    ensures var g := MergeNode(graph, node);
      && node.id in g.nodes
      && g.nodes[node.id].kind == node.kind
      && g.nodes[node.id].keys
         == (if node.id in graph.nodes then MergeKeys(graph.nodes[node.id].keys, node.keys) else node.keys)
      && forall id :: id != node.id ==>
           (id in g.nodes <==> id in graph.nodes) && (id in graph.nodes ==> g.nodes[id] == graph.nodes[id])
  {
    hide MergeKeys;
    MergeSelf(node.keys);
  }

  /** The keys of the first registration of `id`. */
  function FirstKeys(ops: seq<Op>, id: NodeId): seq<RegisteredKey> {
    if ops == [] then []
    else
      var init, last := ops[..|ops| - 1], ops[|ops| - 1];
      if LastKind(init, id).None? && last.RegisterNode? && last.registered.id == id then last.registered.keys
      else FirstKeys(init, id)
  }

  /** A node is present once registered; its kind is the last one asserted,
      its keys are those of its first registration, as they came, and of all
      later ones those whose ids were not yet there. */
  lemma {:induction false} NodesMaterialise(env: Env, ops: seq<Op>, id: NodeId)
    ensures var nodes := Fold(env, ops).graph.nodes;
      if id in nodes then
        && LastKind(ops, id) == Some(nodes[id].kind)
        && nodes[id].keys == MergeKeys(FirstKeys(ops, id), KeysRegistered(ops, id))
      else LastKind(ops, id) == None && KeysRegistered(ops, id) == [] && FirstKeys(ops, id) == []
  {
    hide Step, MergeNode, MergeKeys;
    if ops != [] {
      var n := |ops| - 1;
      var op := ops[n];
      NodesMaterialise(env, ops[..n], id);
      GraphEffect(env, Fold(env, ops[..n]), op);
      var known := KeysRegistered(ops[..n], id);
      assert known + [] == known;
      if op.RegisterNode? {
        var keys := op.registered.keys;
        MergeNodeIs(Fold(env, ops[..n]).graph, op.registered);
        MergeTwice(FirstKeys(ops[..n], id), known, keys);
        MergeSelf(keys);
        assert [] + keys == keys;
      }
    }
  }

  lemma {:induction false} FirstKeysLead(ops: seq<Op>, id: NodeId)
    ensures FirstKeys(ops, id) <= KeysRegistered(ops, id)
    ensures LastKind(ops, id).None? ==> KeysRegistered(ops, id) == []
  {
    if ops != [] {
      FirstKeysLead(ops[..|ops| - 1], id);
    }
  }

  lemma {:induction false} FirstKeysDistinct(ops: seq<Op>, id: NodeId)
    requires forall op :: op in ops ==> DistinctKeyIds(op)
    ensures DistinctIds(FirstKeys(ops, id))
  {
    if ops != [] {
      assert DistinctKeyIds(ops[|ops| - 1]);
      FirstKeysDistinct(ops[..|ops| - 1], id);
    }
  }

  /** If no registration lists a key id twice, the keys of a node are all keys
      registered for it, the first of each id. */
  lemma NodeKeysAreFirst(env: Env, ops: seq<Op>, id: NodeId)
    requires forall op :: op in ops ==> DistinctKeyIds(op)
    requires id in Fold(env, ops).graph.nodes
    ensures Fold(env, ops).graph.nodes[id].keys == FirstOfEachId(KeysRegistered(ops, id))
  {
    hide Fold, MergeKeys, FirstOfEachId, FirstKeys, KeysRegistered;
    NodesMaterialise(env, ops, id);
    FirstKeysLead(ops, id);
    FirstKeysDistinct(ops, id);
    var first, all := FirstKeys(ops, id), KeysRegistered(ops, id);
    var later := all[|first|..];
    assert all == first + later;
    MergeTwice(first, first, later);
    MergeSelf(first);
    DistinctAreFirst(first);
    MergeIsFirst(first, later);
  }

  // ---------------------------------------------------------------------
  // Fixtures, and logs with a gap
  // ---------------------------------------------------------------------

  /** A list of operations without evidence that all apply is a history. */
  lemma AppliedIsHistory(env: Env, ops: seq<Op>)
    requires Applied(env, ops) == ops
    requires forall op :: op in ops ==> !op.RegisterEvidence? && !op.EvidenceReleased?
    ensures History(env, ops)
  {
    hide Apply, Refusal, Fold, Applied;
    AppliedAll(env, ops);
    forall i | 0 <= i < |ops|
      ensures Refusal(env, Fold(env, ops[..i]), ops[i]).None?
    {
      assert ops[i] in ops;
      assert Applies(env, ops, i);
      AdmittedApplies(env, Fold(env, ops[..i]), ops[i]);
    }
  }

  /** A log that lost a record need not be one that the entry points recorded:
      without the registration of its list an entry is logged but not applied,
      and the state is as if it had never been written. */
  lemma LossLeavesUnapplied(env: Env, j: string, f: Option<string>, node: NodeId, at: Time)
    ensures var list, entry := RegisterTrustList(j, f), UpsertTrustEntry(j, node, at, None);
      && History(env, [list, entry]) && Applied(env, [list, entry]) == [list, entry]
      && !History(env, [entry]) && Applied(env, [entry]) == [] && Fold(env, [entry]) == EMPTY
  {
    hide Fold, Applied, Upper;
    var list, entry := RegisterTrustList(j, f), UpsertTrustEntry(j, node, at, None);
    NothingYet(env);
    Alone(env, list);
    Alone(env, entry);
    assert [list, entry][..1] == [list];
    LastApplied(env, [list, entry]);
    forall i | 0 <= i < 2
      ensures Refusal(env, Fold(env, [list, entry][..i]), [list, entry][i]).None?
    {
      assert [list, entry][..0] == [];
    }
    assert [entry][..0] == [] && [entry][0] == entry;
  }

  lemma Alone(env: Env, op: Op)
    ensures Fold(env, [op]) == Step(env, EMPTY, op)
    ensures Applied(env, [op]) == if Apply(env, EMPTY, op).Ok? then [op] else []
  {
    hide Apply;
    assert [op][..0] == [];
  }
}
