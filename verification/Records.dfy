/** Store operations and audit records of src/store.rs, and their JSON form. */
module Records {
  import opened Text
  import opened Json
  import opened Lists
  import opened Signatif
  import opened Wire
  import opened WireRoundTrip
  import Hex
  import Rfc3339

  datatype Evidence = Evidence(
    id: string, contentType: string, description: string, requiredScope: string, content: seq<Byte>)

  datatype Op =
    | RegisterNode(registered: DelegationNode)
    | AddEdge(credential: DelegationCredential)
    | RegisterTrustList(jurisdiction: string, framework: Option<string>)
    | UpsertTrustEntry(list: string, trusted: NodeId, notBefore: Time, supersededAt: Option<Time>)
    | SetWitnesses(m: nat, witnesses: seq<(NodeId, PublicKey)>)
    | UpsertMasterEntry(entry: MasterListEntry)
    | DeclareRevocation(revocation: Revocation)
    | RegisterEvidence(evidence: Evidence)
    | EvidenceReleased(id: string, requester: Option<string>, scope: string)

  datatype AuditRecord = AuditRecord(seqNo: nat, recordedAt: Time, op: Op)

  // ---------------------------------------------------------------------
  // To JSON
  // ---------------------------------------------------------------------

  function OpName(op: Op): string {
    match op
    case RegisterNode(_) => "register-node"
    case AddEdge(_) => "add-edge"
    case RegisterTrustList(_, _) => "register-trust-list"
    case UpsertTrustEntry(_, _, _, _) => "upsert-trust-entry"
    case SetWitnesses(_, _) => "set-witnesses"
    case UpsertMasterEntry(_) => "upsert-master-entry"
    case DeclareRevocation(_) => "declare-revocation"
    case RegisterEvidence(_) => "register-evidence"
    case EvidenceReleased(_, _, _) => "evidence-released"
  }

  function EvidenceFields(e: Evidence): seq<Field> {
    [Field("content_hex", Str(Hex.Encode(e.content))), Field("content_type", Str(e.contentType)),
     Field("description", Str(e.description)), Field("id", Str(e.id)), Field("required_scope", Str(e.requiredScope))]
  }

  function OpBody(env: Env, op: Op): Value {
    match op
    case RegisterNode(node) => NodeToValue(node)
    case AddEdge(credential) => EdgeToValue(credential)
    case RegisterTrustList(jurisdiction, framework) =>
      Obj([Field("framework", OptStr(framework)), Field("jurisdiction", Str(jurisdiction))])
    case UpsertTrustEntry(jurisdiction, node, notBefore, supersededAt) =>
      Obj([Field("jurisdiction", Str(jurisdiction)), Field("node", Str(node)),
           Field("not_before", TimeText(notBefore)), Field("superseded_at", OptTimeText(supersededAt))])
    case SetWitnesses(m, witnesses) =>
      Obj([Field("m", Num(m)), Field("witnesses", Arr(Map(WitnessToValue, witnesses)))])
    case UpsertMasterEntry(entry) => MasterEntryToValue(entry)
    case DeclareRevocation(revocation) => RevocationToValue(env, revocation)
    case RegisterEvidence(evidence) => Obj(EvidenceFields(evidence))
    case EvidenceReleased(id, requester, scope) =>
      Obj([Field("id", Str(id)), Field("requester", OptStr(requester)), Field("scope", Str(scope))])
  }

  /** `AuditRecord::to_json`. */
  function ToJson(env: Env, r: AuditRecord): Value {
    Obj([Field("body", OpBody(env, r.op)), Field("op", Str(OpName(r.op))),
         Field("recorded_at", TimeText(r.recordedAt)), Field("seq", Num(r.seqNo))])
  }

  // ---------------------------------------------------------------------
  // From JSON
  // ---------------------------------------------------------------------

  function TrustListFrom(f: seq<Field>): Option<Op> {
    var jurisdiction :- GetStr(f, "jurisdiction");
    Some(RegisterTrustList(jurisdiction, GetStr(f, "framework")))
  }

  /** Here an empty text is an error, and what is no text counts as absent. */
  function OptTimeMember(f: seq<Field>, key: string): Option<Option<Time>> {
    var s := GetStr(f, key);
    if s.None? then Some(None)
    else
      var t :- Rfc3339.Parse(s.value);
      Some(Some(t))
  }

  function TrustEntryFrom(env: Env, f: seq<Field>): Option<Op> {
    var jurisdiction :- GetStr(f, "jurisdiction");
    var node :- GetNodeId(env, f, "node");
    var notBefore :- GetTime(f, "not_before");
    var supersededAt :- OptTimeMember(f, "superseded_at");
    Some(UpsertTrustEntry(jurisdiction, node, notBefore, supersededAt))
  }

  function WitnessesFrom(env: Env, f: seq<Field>): Option<Op> {
    var m :- GetU64(f, "m");
    var items :- GetArr(f, "witnesses");
    var witnesses :- Collect(WitnessReader(env), items);
    Some(SetWitnesses(m, witnesses))
  }

  function StrOr(s: Option<string>, default: string): string {
    if s.Some? then s.value else default
  }

  function EvidenceFrom(f: seq<Field>): Option<Op> {
    var id :- GetStr(f, "id");
    var contentType := StrOr(GetStr(f, "content_type"), "application/octet-stream");
    var description := StrOr(GetStr(f, "description"), "");
    var requiredScope :- GetStr(f, "required_scope");
    var hex :- GetStr(f, "content_hex");
    var content :- Hex.Decode(hex);
    Some(RegisterEvidence(Evidence(id, contentType, description, requiredScope, content)))
  }

  function ReleaseFrom(f: seq<Field>): Option<Op> {
    var id :- GetStr(f, "id");
    var scope :- GetStr(f, "scope");
    Some(EvidenceReleased(id, GetStr(f, "requester"), scope))
  }

  function OpFrom(env: Env, name: string, body: Value): Option<Op> {
    if name == "register-node" then
      var n :- NodeFromValue(env, body);
      Some(RegisterNode(n))
    else if name == "add-edge" then
      var c :- EdgeFromValue(env, body);
      Some(AddEdge(c))
    else if name == "register-trust-list" then
      var f :- Fields(body);
      TrustListFrom(f)
    else if name == "upsert-trust-entry" then
      var f :- Fields(body);
      TrustEntryFrom(env, f)
    else if name == "set-witnesses" then
      var f :- Fields(body);
      WitnessesFrom(env, f)
    else if name == "upsert-master-entry" then
      var e :- MasterEntryFromValue(env, body);
      Some(UpsertMasterEntry(e))
    else if name == "declare-revocation" then
      var r :- RevocationFromValue(env, body);
      Some(DeclareRevocation(r))
    else if name == "register-evidence" then
      var f :- Fields(body);
      EvidenceFrom(f)
    else if name == "evidence-released" then
      var f :- Fields(body);
      ReleaseFrom(f)
    else None
  }

  /** `AuditRecord::from_json`. */
  function FromJson(env: Env, v: Value): Option<AuditRecord> {
    var f :- Fields(v);
    var seqNo :- GetU64(f, "seq");
    var recordedAt :- GetTime(f, "recorded_at");
    var name :- GetStr(f, "op");
    var body :- Get(f, "body");
    var op :- OpFrom(env, name, body);
    Some(AuditRecord(seqNo, recordedAt, op))
  }

  // ---------------------------------------------------------------------
  // The round trip
  // ---------------------------------------------------------------------

  ghost predicate TypedOp(env: Env, op: Op) {
    match op
    case RegisterNode(node) => TypedNode(env, node)
    case AddEdge(credential) => TypedEdge(env, credential)
    case RegisterTrustList(_, _) => true
    case UpsertTrustEntry(_, node, _, _) => env.nodeIdOk(node)
    case SetWitnesses(m, witnesses) => m < U64 && forall w :: w in witnesses ==> TypedWitness(env, w)
    case UpsertMasterEntry(entry) => TypedMasterEntry(env, entry)
    case DeclareRevocation(revocation) => TypedRevocation(env, revocation)
    case RegisterEvidence(_) => true
    case EvidenceReleased(_, _, _) => true
  }

  ghost predicate OpFits(env: Env, op: Op) {
    match op
    case RegisterNode(node) => NodeFits(env, node)
    case AddEdge(credential) => EdgeFits(env, credential)
    case UpsertTrustEntry(_, _, notBefore, supersededAt) => TimeFits(notBefore) && OptTimeFits(supersededAt)
    case UpsertMasterEntry(entry) => MasterEntryFits(env, entry)
    case DeclareRevocation(revocation) => RevocationFits(env, revocation)
    case _ => true
  }

  ghost predicate TypedRecord(env: Env, r: AuditRecord) {
    r.seqNo < U64 && TypedOp(env, r.op)
  }

  ghost predicate RecordFits(env: Env, r: AuditRecord) {
    TimeFits(r.recordedAt) && OpFits(env, r.op)
  }

  lemma TrustEntryReadBack(env: Env, op: Op)
    requires op.UpsertTrustEntry? && TypedOp(env, op)
    ensures TrustEntryFrom(env, OpBody(env, op).fields) == if OpFits(env, op) then Some(op) else None
  {
    hide TimeText, GetTime, OptTimeText, OptTimeMember, TimeFits, OptTimeFits;
    var f := OpBody(env, op).fields;
    Lookup4(Field("jurisdiction", Str(op.list)), Field("node", Str(op.trusted)),
            Field("not_before", TimeText(op.notBefore)), Field("superseded_at", OptTimeText(op.supersededAt)));
    TimeReadBack(f, "not_before", op.notBefore);
    OptTimeMemberReadBack(f, "superseded_at", op.supersededAt);
  }

  lemma OptTimeMemberReadBack(f: seq<Field>, key: string, t: Option<Time>)
    requires Get(f, key) == Some(OptTimeText(t))
    ensures OptTimeMember(f, key) == if OptTimeFits(t) then Some(t) else None
  {
    if t.Some? {
      Rfc3339.DisplayRoundTrip(t.value);
    }
  }

  lemma EvidenceReadBack(e: Evidence)
    ensures EvidenceFrom(EvidenceFields(e)) == Some(RegisterEvidence(e))
  {
    hide Hex.Decode, Hex.Encode;
    var f := EvidenceFields(e);
    Lookup5(f[0], f[1], f[2], f[3], f[4]);
    assert f == [f[0], f[1], f[2], f[3], f[4]];
    Hex.RoundTrip(e.content);
  }

  lemma TrustListReadBack(env: Env, op: Op)
    requires op.RegisterTrustList?
    ensures TrustListFrom(OpBody(env, op).fields) == Some(op)
  {
    Lookup2(Field("framework", OptStr(op.framework)), Field("jurisdiction", Str(op.jurisdiction)));
  }

  lemma WitnessesReadBack(env: Env, op: Op)
    requires op.SetWitnesses? && TypedOp(env, op)
    ensures WitnessesFrom(env, OpBody(env, op).fields) == Some(op)
  {
    hide Collect, Map, WitnessToValue, TypedWitness;
    Lookup2(Field("m", Num(op.m)), Field("witnesses", Arr(Map(WitnessToValue, op.witnesses))));
    WitnessesRoundTrip(env, op.witnesses);
  }

  lemma ReleaseReadBack(env: Env, op: Op)
    requires op.EvidenceReleased?
    ensures ReleaseFrom(OpBody(env, op).fields) == Some(op)
  {
    Lookup3(Field("id", Str(op.id)), Field("requester", OptStr(op.requester)), Field("scope", Str(op.scope)));
  }

  lemma OpReadBack(env: Env, op: Op)
    requires TypedOp(env, op)
    ensures OpFrom(env, OpName(op), OpBody(env, op)) == if OpFits(env, op) then Some(op) else None
  {
    hide NodeFromValue, EdgeFromValue, MasterEntryFromValue, RevocationFromValue, TrustEntryFrom, EvidenceFrom,
      TrustListFrom, WitnessesFrom, ReleaseFrom,
      NodeToValue, EdgeToValue, MasterEntryToValue, RevocationToValue, EvidenceFields, Collect, WitnessToValue, Map,
      TypedNode, TypedEdge, TypedMasterEntry, TypedRevocation, TypedWitness,
      NodeFits, EdgeFits, MasterEntryFits, RevocationFits;
    match op
    case RegisterNode(node) => NodeReadBack(env, node);
    case AddEdge(credential) => EdgeReadBack(env, credential);
    case RegisterTrustList(_, _) => TrustListReadBack(env, op);
    case UpsertTrustEntry(_, _, _, _) => TrustEntryReadBack(env, op);
    case SetWitnesses(_, _) => WitnessesReadBack(env, op);
    case UpsertMasterEntry(entry) => MasterEntryReadBack(env, entry);
    case DeclareRevocation(revocation) => RevocationReadBack(env, revocation);
    case RegisterEvidence(evidence) => EvidenceReadBack(evidence);
    case EvidenceReleased(_, _, _) => ReleaseReadBack(env, op);
  }

  /** `from_json(to_json(r))` is `r` exactly when the record fits; otherwise
      the journal line is refused, never read as something else. */
  lemma RecordReadBack(env: Env, r: AuditRecord)
    requires TypedRecord(env, r)
    ensures FromJson(env, ToJson(env, r)) == if RecordFits(env, r) then Some(r) else None
  {
    hide OpFrom, OpName, OpBody, TypedOp, OpFits, TimeText, GetTime, TimeFits;
    Lookup4(Field("body", OpBody(env, r.op)), Field("op", Str(OpName(r.op))),
            Field("recorded_at", TimeText(r.recordedAt)), Field("seq", Num(r.seqNo)));
    TimeReadBack(ToJson(env, r).fields, "recorded_at", r.recordedAt);
    OpReadBack(env, r.op);
  }
}
