/** The wire and journal codec of src/wire.rs. */
module Wire {
  import opened Text
  import opened Json
  import opened Lists
  import opened Signatif
  import Hex
  import Rfc3339

  const U64 := 0x1_0000_0000_0000_0000

  function Fields(v: Value): Option<seq<Field>> {
    if v.Obj? then Some(v.fields) else None
  }

  function NewNodeId(env: Env, s: string): Option<NodeId> {
    if env.nodeIdOk(s) then Some(s) else None
  }

  function NewKeyId(env: Env, s: string): Option<KeyId> {
    if env.keyIdOk(s) then Some(s) else None
  }

  function GetNodeId(env: Env, fields: seq<Field>, key: string): Option<NodeId> {
    var s :- GetStr(fields, key);
    NewNodeId(env, s)
  }

  function OptStr(s: Option<string>): Value {
    if s.Some? then Str(s.value) else Null
  }

  // ---------------------------------------------------------------------
  // Timestamps and intervals
  // ---------------------------------------------------------------------

  /** `ts_string`. */
  function TimeText(t: Time): Value {
    Str(Rfc3339.Display(t))
  }

  function OptTimeText(t: Option<Time>): Value {
    if t.Some? then TimeText(t.value) else Null
  }

  /** `ts_parse` of a required member. */
  function GetTime(fields: seq<Field>, key: string): Option<Time> {
    var s :- GetStr(fields, key);
    Rfc3339.Parse(s)
  }

  function IntervalToValue(i: Interval): Value {
    Obj([Field("end", OptTimeText(i.to)), Field("open", Bool(i.to.None?)), Field("start", TimeText(i.from))])
  }

  /** A member that may be absent, null or empty. The result nests: the outer
      `None` is an error, the inner one the missing instant. */
  function OptTime(v: Option<Value>): Option<Option<Time>> {
    match v
    case None => Some(None)
    case Some(Null) => Some(None)
    case Some(Str(s)) =>
      if s == "" then Some(None)
      else
        var t :- Rfc3339.Parse(s);
        Some(Some(t))
    case _ => None
  }

  function IntervalFromValue(v: Value): Option<Interval> {
    var f :- Fields(v);
    var from :- GetTime(f, "start");
    var to :- OptTime(Get(f, "end"));
    if to.Some? && to.value < from then None else Some(Interval(from, to))
  }

  // ---------------------------------------------------------------------
  // Keys and signatures
  // ---------------------------------------------------------------------

  /** `PublicKey::from_bytes`. */
  function PublicFromBytes(env: Env, bytes: seq<Byte>): Option<PublicKey> {
    var suite :- env.suiteOfKey(bytes);
    Some(PublicKey(suite, bytes))
  }

  function PublicFields(k: PublicKey): seq<Field> {
    [Field("public", Str(Hex.Encode(k.bytes))), Field("public_len", Num(|k.bytes|)), Field("suite", Str(k.suite.token))]
  }

  function PublicToValue(k: PublicKey): Value {
    Obj(PublicFields(k))
  }

  function PlainToken(s: string): string {
    Without(Lower(s), '-')
  }

  function PublicFromValue(env: Env, v: Value): Option<PublicKey> {
    var f :- Fields(v);
    var suite :- GetStr(f, "suite");
    var hex :- GetStr(f, "public");
    var bytes :- Hex.Decode(hex);
    var public :- PublicFromBytes(env, bytes);
    if PlainToken(public.suite.token) != PlainToken(suite) then None else Some(public)
  }

  function SlotToValue(s: SignatureSlot): Value {
    Obj([Field("key_id", Str(s.keyId)),
         Field("signature", if s.signature.Some? then Str(Hex.Encode(s.signature.value)) else Null),
         Field("suite", Str(s.suite.token))])
  }

  function OptHex(v: Option<Value>): Option<Option<seq<Byte>>> {
    match v
    case None => Some(None)
    case Some(Null) => Some(None)
    case Some(Str(s)) =>
      var b :- Hex.Decode(s);
      Some(Some(b))
    case _ => None
  }

  function SlotFromValue(env: Env, v: Value): Option<SignatureSlot> {
    var f :- Fields(v);
    var token :- GetStr(f, "suite");
    var id :- GetStr(f, "key_id");
    var suite :- env.parseSuite(token);
    var keyId :- NewKeyId(env, id);
    var signature :- OptHex(Get(f, "signature"));
    if signature.Some? && |signature.value| != env.signatureLen(suite) then None
    else Some(SignatureSlot(suite, keyId, signature))
  }

  function SlotReader(env: Env): Value -> Option<SignatureSlot> {
    v => SlotFromValue(env, v)
  }

  function GetSlots(env: Env, fields: seq<Field>, key: string): Option<seq<SignatureSlot>> {
    var items :- GetArr(fields, key);
    Collect(SlotReader(env), items)
  }

  // ---------------------------------------------------------------------
  // Revocations
  // ---------------------------------------------------------------------

  function SubjectToValue(env: Env, s: RevokedSubject): Value {
    match s
    case Key(k) =>
      Obj([Field("id", Str(k)), Field("kind", Str("key")), Field("label", Str("key:" + k))])
    case Node(n) =>
      Obj([Field("id", Str(n)), Field("kind", Str("node")), Field("label", Str("node:" + n))])
    case Passport(p) =>
      Obj([Field("id", Str(p)), Field("kind", Str("passport")), Field("label", Str("passport:" + p))])
    case Condition(n, c) =>
      var shown := n + ":`" + env.conditionText(c.json) + "`";
      Obj([Field("condition", c.json), Field("id", Str(shown)), Field("kind", Str("condition")),
           Field("label", Str("condition:" + shown)), Field("node", Str(n))])
  }

  function SubjectFromValue(env: Env, v: Value): Option<RevokedSubject> {
    var f :- Fields(v);
    var kind :- GetStr(f, "kind");
    var id :- GetStr(f, "id");
    if kind == "key" then
      var k :- NewKeyId(env, id);
      Some(Key(k))
    else if kind == "node" then
      var n :- NewNodeId(env, id);
      Some(Node(n))
    else if kind == "passport" then
      if env.passportOk(id) then Some(Passport(id)) else None
    else if kind == "condition" then
      var n :- GetNodeId(env, f, "node");
      var c :- Get(f, "condition");
      if env.conditionOk(c) then Some(Condition(n, ScopeCondition(c))) else None
    else None
  }

  function ReasonToken(r: RevocationReason): string {
    match r
    case KeyCompromise(_) => "key-compromise"
    case Cessation => "cessation"
    case Supersession(_) => "supersession"
    case AffiliationChange => "affiliation-change"
    case Misissuance => "misissuance"
    case FraudulentIssuance => "fraudulent-issuance"
    case AuthorityCompromised(_) => "authority-compromised"
    case ConditionWithdrawal => "condition-withdrawal"
  }

  function ReasonToValue(r: RevocationReason): Value {
    var common := [Field("retroactive", Bool(r.IsRetroactive())), Field("token", Str(ReasonToken(r)))];
    match r
    case KeyCompromise(after) => Obj([Field("after", TimeText(after))] + common)
    case AuthorityCompromised(at) => Obj([Field("detected_at", TimeText(at))] + common)
    case Supersession(successor) => Obj([Field("by", Str(successor))] + common)
    case _ => Obj(common)
  }

  function ReasonFromValue(env: Env, v: Value): Option<RevocationReason> {
    var f :- Fields(v);
    var token :- GetStr(f, "token");
    if token == "key-compromise" then
      var t :- GetTime(f, "after");
      Some(KeyCompromise(t))
    else if token == "cessation" then Some(Cessation)
    else if token == "supersession" then
      var n :- GetNodeId(env, f, "by");
      Some(Supersession(n))
    else if token == "affiliation-change" then Some(AffiliationChange)
    else if token == "misissuance" then Some(Misissuance)
    else if token == "fraudulent-issuance" then Some(FraudulentIssuance)
    else if token == "authority-compromised" then
      var t :- GetTime(f, "detected_at");
      Some(AuthorityCompromised(t))
    else if token == "condition-withdrawal" then Some(ConditionWithdrawal)
    else None
  }

  function QuorumToValue(q: QuorumAttestation): Value {
    Obj([Field("quorum", Str(q.quorum)), Field("signatures", Arr(Map(SlotToValue, q.signatures))),
         Field("threshold", Num(q.threshold))])
  }

  function QuorumFromValue(env: Env, v: Value): Option<QuorumAttestation> {
    var f :- Fields(v);
    var quorum :- GetNodeId(env, f, "quorum");
    var threshold :- GetU64(f, "threshold");
    var signatures :- GetSlots(env, f, "signatures");
    Some(QuorumAttestation(quorum, threshold, signatures))
  }

  function OptQuorum(env: Env, v: Option<Value>): Option<Option<QuorumAttestation>> {
    match v
    case None => Some(None)
    case Some(Null) => Some(None)
    case Some(q) =>
      var att :- QuorumFromValue(env, q);
      Some(Some(att))
  }

  function RevocationToValue(env: Env, r: Revocation): Value {
    Obj([Field("declared_at", TimeText(r.declaredAt)),
         Field("declared_by", Str(r.declaredBy)),
         Field("quorum", if r.quorum.Some? then QuorumToValue(r.quorum.value) else Null),
         Field("reason", ReasonToValue(r.reason)),
         Field("subject", SubjectToValue(env, r.subject)),
         Field("window", IntervalToValue(r.window))])
  }

  function RevocationFromValue(env: Env, v: Value): Option<Revocation> {
    var f :- Fields(v);
    var s :- Get(f, "subject");
    var subject :- SubjectFromValue(env, s);
    var r :- Get(f, "reason");
    var reason :- ReasonFromValue(env, r);
    var declaredAt :- GetTime(f, "declared_at");
    var declaredBy :- GetNodeId(env, f, "declared_by");
    var w :- Get(f, "window");
    var window :- IntervalFromValue(w);
    var quorum :- OptQuorum(env, Get(f, "quorum"));
    Some(Revocation(subject, reason, declaredAt, declaredBy, window, quorum))
  }

  // ---------------------------------------------------------------------
  // Nodes and edges
  // ---------------------------------------------------------------------

  /** Inserting into an ordered set. */
  function Insert(x: NodeId, xs: seq<NodeId>): seq<NodeId> {
    if xs == [] then [x]
    else if x == xs[0] then xs
    else if Less(x, xs[0]) then [x] + xs
    else [xs[0]] + Insert(x, xs[1..])
  }

  /** Collecting into an ordered set. */
  function Ordered(xs: seq<NodeId>): seq<NodeId> {
    if xs == [] then [] else Insert(xs[|xs| - 1], Ordered(xs[..|xs| - 1]))
  }

  function StrToValue(s: string): Value {
    Str(s)
  }

  function NodeIdReader(env: Env): Value -> Option<NodeId> {
    (v: Value) => if v.Str? then NewNodeId(env, v.text) else None
  }

  function KindToValue(k: NodeKind): Value {
    match k
    case Root => Str("root")
    case Delegated => Str("delegated")
    case End => Str("end")
    case ThresholdGroup(threshold, members) =>
      Obj([Field("threshold_group",
             Obj([Field("members", Arr(Map(StrToValue, members))), Field("threshold", Num(threshold))]))])
  }

  function KindFromValue(env: Env, v: Value): Option<NodeKind> {
    match v
    case Str(s) =>
      if s == "root" then Some(Root)
      else if s == "delegated" then Some(Delegated)
      else if s == "end" then Some(End)
      else None
    case Obj(o) =>
      var inner :- Get(o, "threshold_group");
      var g :- Fields(inner);
      var threshold :- GetU64(g, "threshold");
      var items :- GetArr(g, "members");
      var members :- Collect(NodeIdReader(env), items);
      Some(ThresholdGroup(threshold, Ordered(members)))
    case _ => None
  }

  function KeyToValue(k: RegisteredKey): Value {
    Obj([Field("key_id", Str(k.keyId))] + PublicFields(k.public))
  }

  function KeyFromValue(env: Env, v: Value): Option<RegisteredKey> {
    var f :- Fields(v);
    var id :- GetStr(f, "key_id");
    var keyId :- NewKeyId(env, id);
    var public :- PublicFromValue(env, v);
    if keyId != env.keyIdOf(public) then None else Some(RegisteredKey(keyId, public))
  }

  function KeyReader(env: Env): Value -> Option<RegisteredKey> {
    v => KeyFromValue(env, v)
  }

  function NodeToValue(n: DelegationNode): Value {
    Obj([Field("id", Str(n.id)), Field("keys", Arr(Map(KeyToValue, n.keys))), Field("kind", KindToValue(n.kind))])
  }

  function NodeFromValue(env: Env, v: Value): Option<DelegationNode> {
    var f :- Fields(v);
    var id :- GetNodeId(env, f, "id");
    var k :- Get(f, "kind");
    var kind :- KindFromValue(env, k);
    var items := GetArr(f, "keys");
    if items.None? then Some(DelegationNode(id, kind, []))
    else
      var keys :- Collect(KeyReader(env), items.value);
      Some(DelegationNode(id, kind, keys))
  }

  /** `DelegationNode::register`. */
  function Register(node: DelegationNode, key: RegisteredKey): DelegationNode {
    node.(keys := node.keys + [key])
  }

  /** What reading a list means: every item is read, each in its place, or
      there is an item that cannot be read. */
  ghost predicate ReadsAll<B>(f: Value -> Option<B>, items: seq<Value>, r: Option<seq<B>>) {
    match r
    case Some(out) => |out| == |items| && forall i :: 0 <= i < |items| ==> f(items[i]) == Some(out[i])
    case None => exists i :: 0 <= i < |items| && f(items[i]) == None
  }

  /** `node_from_value`: the keys are registered one by one, each after its own
      checks; the first that fails them fails the node. */
  method ReadNode(env: Env, v: Value) returns (r: Option<DelegationNode>)
    ensures r == NodeFromValue(env, v)
    ensures r.Some? ==> v.Obj? && GetStr(v.fields, "id") == Some(r.value.id) && env.nodeIdOk(r.value.id)
    ensures r.Some? && GetArr(v.fields, "keys").Some? ==>
      ReadsAll(KeyReader(env), GetArr(v.fields, "keys").value, Some(r.value.keys))
  {
    hide KeyFromValue, KindFromValue;
    var f := Fields(v);
    if f.None? {
      return None;
    }
    var id := GetNodeId(env, f.value, "id");
    if id.None? {
      return None;
    }
    var k := Get(f.value, "kind");
    if k.None? {
      return None;
    }
    var kind := KindFromValue(env, k.value);
    if kind.None? {
      return None;
    }
    var node := DelegationNode(id.value, kind.value, []);
    var items := GetArr(f.value, "keys");
    if items.Some? {
      var arr := items.value;
      assert arr[..0] == [];
      for i := 0 to |arr|
        invariant node == DelegationNode(id.value, kind.value, node.keys)
        invariant Collect(KeyReader(env), arr[..i]) == Some(node.keys)
        invariant ReadsAll(KeyReader(env), arr[..i], Some(node.keys))
      {
        var key := KeyFromValue(env, arr[i]);
        if key.None? {
          CollectFails(KeyReader(env), arr, i);
          return None;
        }
        assert arr[..i + 1] == arr[..i] + [arr[i]];
        CollectSnoc(KeyReader(env), arr[..i], arr[i]);
        node := Register(node, key.value);
      }
      assert arr[..|arr|] == arr;
    }
    return Some(node);
  }

  function EdgeToValue(c: DelegationCredential): Value {
    Obj([Field("child", Str(c.child)), Field("parent", Str(c.parent)), Field("scope", c.scope.json),
         Field("signatures", Arr(Map(SlotToValue, c.signatures)))])
  }

  function EdgeFromValue(env: Env, v: Value): Option<DelegationCredential> {
    var f :- Fields(v);
    var parent :- GetNodeId(env, f, "parent");
    var child :- GetNodeId(env, f, "child");
    var scope :- Get(f, "scope");
    if !env.scopeOk(scope) then None
    else
      var signatures :- GetSlots(env, f, "signatures");
      Some(DelegationCredential(parent, child, Scope(scope), signatures))
  }

  // ---------------------------------------------------------------------
  // The master list
  // ---------------------------------------------------------------------

  function AttestationToValue(w: WitnessAttestation): Value {
    Obj([Field("at", TimeText(w.at)), Field("slot", SlotToValue(w.slot)), Field("witness", Str(w.witnessId))])
  }

  function AttestationFromValue(env: Env, v: Value): Option<WitnessAttestation> {
    var f :- Fields(v);
    var witnessId :- GetNodeId(env, f, "witness");
    var at :- GetTime(f, "at");
    var s :- Get(f, "slot");
    var slot :- SlotFromValue(env, s);
    Some(WitnessAttestation(witnessId, at, slot))
  }

  function AttestationReader(env: Env): Value -> Option<WitnessAttestation> {
    v => AttestationFromValue(env, v)
  }

  function MasterEntryToValue(e: MasterListEntry): Value {
    Obj([Field("attestations", Arr(Map(AttestationToValue, e.attestations))), Field("node", Str(e.node))])
  }

  function MasterEntryFromValue(env: Env, v: Value): Option<MasterListEntry> {
    var f :- Fields(v);
    var node :- GetNodeId(env, f, "node");
    var items :- GetArr(f, "attestations");
    var attestations :- Collect(AttestationReader(env), items);
    Some(MasterListEntry(node, attestations))
  }

  /** One witness of a `set-witnesses` record. */
  function WitnessToValue(w: (NodeId, PublicKey)): Value {
    Obj([Field("node", Str(w.0))] + PublicFields(w.1))
  }

  function WitnessFromValue(env: Env, v: Value): Option<(NodeId, PublicKey)> {
    var f :- Fields(v);
    var public :- PublicFromValue(env, v);
    var node :- GetNodeId(env, f, "node");
    Some((node, public))
  }

  function WitnessReader(env: Env): Value -> Option<(NodeId, PublicKey)> {
    v => WitnessFromValue(env, v)
  }

  /** `witnesses_to_value`; `order` lists the ids of the map, ascending. */
  function WitnessesToValue(env: Env, witnesses: map<NodeId, PublicKey>, order: seq<NodeId>): Value
    requires forall id :: id in order ==> id in witnesses
  {
    Arr(seq(|order|, i requires 0 <= i < |order| =>
      Obj([Field("key_id", Str(env.keyIdOf(witnesses[order[i]])))] + [Field("node", Str(order[i]))]
          + PublicFields(witnesses[order[i]]))))
  }

  /** `witnesses_from_value`. */
  function WitnessesFromValue(env: Env, v: Value): Option<seq<(NodeId, PublicKey)>> {
    if v.Arr? then Collect(WitnessReader(env), v.items) else None
  }

  /** `witnesses_from_value`: a loop that stops at the first error. The result
      holds every item's witness in its place, repeated ids included, or some
      item is no witness. */
  method ReadWitnesses(env: Env, v: Value) returns (r: Option<seq<(NodeId, PublicKey)>>)
    ensures v.Arr? ==> ReadsAll(WitnessReader(env), v.items, r)
    ensures !v.Arr? ==> r == None
    ensures r == WitnessesFromValue(env, v)
  {
    hide PublicFromValue;
    if !v.Arr? {
      return None;
    }
    var out := [];
    assert v.items[..0] == [];
    for i := 0 to |v.items|
      invariant Collect(WitnessReader(env), v.items[..i]) == Some(out)
      invariant ReadsAll(WitnessReader(env), v.items[..i], Some(out))
    {
      var w := v.items[i];
      assert v.items[..i + 1] == v.items[..i] + [w];
      if !w.Obj? {
        CollectFails(WitnessReader(env), v.items, i);
        return None;
      }
      var node := GetNodeId(env, w.fields, "node");
      if node.None? {
        CollectFails(WitnessReader(env), v.items, i);
        return None;
      }
      var public := PublicFromValue(env, w);
      if public.None? {
        CollectFails(WitnessReader(env), v.items, i);
        return None;
      }
      CollectSnoc(WitnessReader(env), v.items[..i], w);
      out := out + [(node.value, public.value)];
    }
    assert v.items[..|v.items|] == v.items;
    return Some(out);
  }

  // ---------------------------------------------------------------------
  // Trust-list entries and subject labels
  // ---------------------------------------------------------------------

  predicate InForceAt(e: TrustListEntry, t: Time) {
    t >= e.notBefore && (e.supersededAt.Some? ==> t < e.supersededAt.value)
  }

  function TrustEntryToValue(e: TrustListEntry, at: Time): Value {
    Obj([Field("in_force_at_as_of", Bool(InForceAt(e, at))), Field("node", Str(e.node)),
         Field("not_before", TimeText(e.notBefore)), Field("superseded_at", OptTimeText(e.supersededAt))])
  }

  function TrustEntryFromValue(env: Env, v: Value): Option<TrustListEntry> {
    var f :- Fields(v);
    var node :- GetNodeId(env, f, "node");
    var notBefore :- GetTime(f, "not_before");
    var supersededAt :- OptTime(Get(f, "superseded_at"));
    Some(TrustListEntry(node, notBefore, supersededAt))
  }

  /** `RevokedSubject::label`. */
  function Label(env: Env, s: RevokedSubject): string {
    match s
    case Key(k) => "key:" + k
    case Node(n) => "node:" + n
    case Passport(p) => "passport:" + p
    case Condition(n, c) => "condition:" + n + ":`" + env.conditionText(c.json) + "`"
  }

  function IndexOfColon(s: string): (n: nat)
    ensures n <= |s|
  {
    if s == "" || s[0] == ':' then 0 else 1 + IndexOfColon(s[1..])
  }

  /** `revoked_subject_from_label`. */
  function SubjectFromLabel(env: Env, s: string): Option<RevokedSubject> {
    var n := IndexOfColon(s);
    if n == |s| then None
    else
      var kind, id := Trim(s[..n]), s[n + 1..];
      if kind == "key" then
        var k :- NewKeyId(env, id);
        Some(Key(k))
      else if kind == "node" then
        var m :- NewNodeId(env, id);
        Some(Node(m))
      else if kind == "passport" then
        if env.passportOk(id) then Some(Passport(id)) else None
      else None
  }
}
