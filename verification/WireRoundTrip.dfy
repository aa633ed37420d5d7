/** What the wire codec preserves.

    `Typed` says what the Rust types guarantee of a value in memory: ids,
    suites and keys come from their checking constructors, scopes survive
    serde, counts fit 64 bits. `Fits` says what the codec needs besides:
    printable instants, ordered windows, signatures of their suite's length,
    key ids derived from their keys. For every typed value reading back what
    was written gives the value if it fits, and an error otherwise.
  */
module WireRoundTrip {
  import opened Text
  import opened Json
  import opened Lists
  import opened Signatif
  import opened Wire
  import Hex
  import Rfc3339

  // ---------------------------------------------------------------------
  // Typed and fitting values
  // ---------------------------------------------------------------------

  ghost predicate TypedPublic(env: Env, k: PublicKey) {
    env.suiteOfKey(k.bytes) == Some(k.suite)
  }

  ghost predicate TypedSlot(env: Env, s: SignatureSlot) {
    env.keyIdOk(s.keyId) && env.parseSuite(s.suite.token) == Some(s.suite)
  }

  ghost predicate TypedSlots(env: Env, slots: seq<SignatureSlot>) {
    forall s :: s in slots ==> TypedSlot(env, s)
  }

  function SlotFits(env: Env): SignatureSlot -> bool {
    (s: SignatureSlot) => s.signature.Some? ==> |s.signature.value| == env.signatureLen(s.suite)
  }

  predicate TimeFits(t: Time) {
    Rfc3339.Printable(t)
  }

  predicate OptTimeFits(t: Option<Time>) {
    t.Some? ==> TimeFits(t.value)
  }

  predicate IntervalFits(i: Interval) {
    TimeFits(i.from) && OptTimeFits(i.to) && (i.to.Some? ==> i.from <= i.to.value)
  }

  ghost predicate TypedSubject(env: Env, s: RevokedSubject) {
    match s
    case Key(k) => env.keyIdOk(k)
    case Node(n) => env.nodeIdOk(n)
    case Passport(p) => env.passportOk(p)
    case Condition(n, c) => env.nodeIdOk(n) && env.conditionOk(c.json)
  }

  ghost predicate TypedReason(env: Env, r: RevocationReason) {
    r.Supersession? ==> env.nodeIdOk(r.successor)
  }

  predicate ReasonFits(r: RevocationReason) {
    && (r.KeyCompromise? ==> TimeFits(r.after))
    && (r.AuthorityCompromised? ==> TimeFits(r.detectedAt))
  }

  ghost predicate TypedQuorum(env: Env, q: QuorumAttestation) {
    env.nodeIdOk(q.quorum) && q.threshold < U64 && TypedSlots(env, q.signatures)
  }

  ghost predicate QuorumFits(env: Env, q: QuorumAttestation) {
    All(SlotFits(env), q.signatures)
  }

  ghost predicate TypedRevocation(env: Env, r: Revocation) {
    && TypedSubject(env, r.subject) && TypedReason(env, r.reason) && env.nodeIdOk(r.declaredBy)
    && (r.quorum.Some? ==> TypedQuorum(env, r.quorum.value))
  }

  ghost predicate RevocationFits(env: Env, r: Revocation) {
    && ReasonFits(r.reason) && TimeFits(r.declaredAt) && IntervalFits(r.window)
    && (r.quorum.Some? ==> QuorumFits(env, r.quorum.value))
  }

  predicate Increasing(xs: seq<NodeId>) {
    forall i, j :: 0 <= i < j < |xs| ==> Less(xs[i], xs[j])
  }

  ghost predicate TypedKind(env: Env, k: NodeKind) {
    k.ThresholdGroup? ==>
      && k.threshold < U64 && Increasing(k.members)
      && (forall m :: m in k.members ==> env.nodeIdOk(m))
  }

  ghost predicate TypedKey(env: Env, k: RegisteredKey) {
    env.keyIdOk(k.keyId) && TypedPublic(env, k.public)
  }

  function KeyFits(env: Env): RegisteredKey -> bool {
    (k: RegisteredKey) => k.keyId == env.keyIdOf(k.public)
  }

  ghost predicate TypedNode(env: Env, n: DelegationNode) {
    && env.nodeIdOk(n.id) && TypedKind(env, n.kind)
    && (forall k :: k in n.keys ==> TypedKey(env, k))
  }

  ghost predicate NodeFits(env: Env, n: DelegationNode) {
    All(KeyFits(env), n.keys)
  }

  ghost predicate TypedEdge(env: Env, c: DelegationCredential) {
    && env.nodeIdOk(c.parent) && env.nodeIdOk(c.child) && env.scopeOk(c.scope.json)
    && TypedSlots(env, c.signatures)
  }

  ghost predicate EdgeFits(env: Env, c: DelegationCredential) {
    All(SlotFits(env), c.signatures)
  }

  ghost predicate TypedAttestation(env: Env, w: WitnessAttestation) {
    env.nodeIdOk(w.witnessId) && TypedSlot(env, w.slot)
  }

  function AttestationFits(env: Env): WitnessAttestation -> bool {
    (w: WitnessAttestation) => TimeFits(w.at) && SlotFits(env)(w.slot)
  }

  ghost predicate TypedMasterEntry(env: Env, e: MasterListEntry) {
    env.nodeIdOk(e.node) && forall a :: a in e.attestations ==> TypedAttestation(env, a)
  }

  ghost predicate MasterEntryFits(env: Env, e: MasterListEntry) {
    All(AttestationFits(env), e.attestations)
  }

  ghost predicate TypedWitness(env: Env, w: (NodeId, PublicKey)) {
    env.nodeIdOk(w.0) && TypedPublic(env, w.1)
  }

  // ---------------------------------------------------------------------
  // Member look-up
  // ---------------------------------------------------------------------

  lemma Lookup2(a: Field, b: Field)
    requires a.key != b.key
    ensures var f := [a, b]; Get(f, a.key) == Some(a.value) && Get(f, b.key) == Some(b.value)
  {
    GetAt([a, b], 0);
    GetAt([a, b], 1);
  }

  lemma Lookup3(a: Field, b: Field, c: Field)
    requires a.key != b.key && a.key != c.key && b.key != c.key
    ensures var f := [a, b, c];
      Get(f, a.key) == Some(a.value) && Get(f, b.key) == Some(b.value) && Get(f, c.key) == Some(c.value)
  {
    var f := [a, b, c];
    GetAt(f, 0);
    GetAt(f, 1);
    GetAt(f, 2);
  }

  lemma Lookup4(a: Field, b: Field, c: Field, d: Field)
    requires a.key != b.key && a.key != c.key && a.key != d.key && b.key != c.key && b.key != d.key && c.key != d.key
    ensures var f := [a, b, c, d];
      && Get(f, a.key) == Some(a.value) && Get(f, b.key) == Some(b.value)
      && Get(f, c.key) == Some(c.value) && Get(f, d.key) == Some(d.value)
  {
    var f := [a, b, c, d];
    GetAt(f, 0);
    GetAt(f, 1);
    GetAt(f, 2);
    GetAt(f, 3);
  }

  lemma Lookup5(a: Field, b: Field, c: Field, d: Field, e: Field)
    requires a.key != b.key && a.key != c.key && a.key != d.key && a.key != e.key && b.key != c.key
    requires b.key != d.key && b.key != e.key && c.key != d.key && c.key != e.key && d.key != e.key
    ensures var f := [a, b, c, d, e];
      && Get(f, a.key) == Some(a.value) && Get(f, b.key) == Some(b.value)
      && Get(f, c.key) == Some(c.value) && Get(f, d.key) == Some(d.value) && Get(f, e.key) == Some(e.value)
  {
    var f := [a, b, c, d, e];
    GetAt(f, 0);
    GetAt(f, 1);
    GetAt(f, 2);
    GetAt(f, 3);
    GetAt(f, 4);
  }

  // ---------------------------------------------------------------------
  // Timestamps and intervals
  // ---------------------------------------------------------------------

  lemma TimeReadBack(fields: seq<Field>, key: string, t: Time)
    requires Get(fields, key) == Some(TimeText(t))
    ensures GetTime(fields, key) == if TimeFits(t) then Some(t) else None
  {
    Rfc3339.DisplayRoundTrip(t);
  }

  lemma OptTimeReadBack(t: Option<Time>)
    ensures OptTime(Some(OptTimeText(t))) == if OptTimeFits(t) then Some(t) else None
  {
    if t.Some? {
      Rfc3339.DisplayRoundTrip(t.value);
      assert Rfc3339.Display(t.value) != "";
    }
  }

  lemma IntervalReadBack(i: Interval)
    ensures IntervalFromValue(IntervalToValue(i)) == if IntervalFits(i) then Some(i) else None
  {
    hide OptTime, OptTimeText, TimeText, GetTime, TimeFits;
    Lookup3(Field("end", OptTimeText(i.to)), Field("open", Bool(i.to.None?)), Field("start", TimeText(i.from)));
    TimeReadBack(IntervalToValue(i).fields, "start", i.from);
    OptTimeReadBack(i.to);
  }

  // ---------------------------------------------------------------------
  // Keys and signatures
  // ---------------------------------------------------------------------

  lemma PublicReadBack(env: Env, f: seq<Field>, k: PublicKey)
    requires TypedPublic(env, k)
    requires Get(f, "suite") == Some(Str(k.suite.token)) && Get(f, "public") == Some(Str(Hex.Encode(k.bytes)))
    ensures PublicFromValue(env, Obj(f)) == Some(k)
  {
    hide Hex.Decode, Hex.Encode, PlainToken;
    Hex.RoundTrip(k.bytes);
  }

  /** `public_from_value(public_to_value(k)) == k`. */
  lemma PublicRoundTrip(env: Env, k: PublicKey)
    requires TypedPublic(env, k)
    ensures PublicFromValue(env, PublicToValue(k)) == Some(k)
  {
    Lookup3(Field("public", Str(Hex.Encode(k.bytes))), Field("public_len", Num(|k.bytes|)),
            Field("suite", Str(k.suite.token)));
    PublicReadBack(env, PublicFields(k), k);
  }

  lemma SlotReadBack(env: Env, s: SignatureSlot)
    requires TypedSlot(env, s)
    ensures SlotFromValue(env, SlotToValue(s)) == if SlotFits(env)(s) then Some(s) else None
  {
    hide Hex.Decode, Hex.Encode;
    var sig := if s.signature.Some? then Str(Hex.Encode(s.signature.value)) else Null;
    Lookup3(Field("key_id", Str(s.keyId)), Field("signature", sig), Field("suite", Str(s.suite.token)));
    if s.signature.Some? {
      Hex.RoundTrip(s.signature.value);
    }
  }

  lemma SlotsReadBack(env: Env, f: seq<Field>, key: string, slots: seq<SignatureSlot>)
    requires TypedSlots(env, slots)
    requires Get(f, key) == Some(Arr(Map(SlotToValue, slots)))
    ensures GetSlots(env, f, key) == if All(SlotFits(env), slots) then Some(slots) else None
  {
    forall s | s in slots
      ensures SlotReader(env)(SlotToValue(s)) == if SlotFits(env)(s) then Some(s) else None
    {
      SlotReadBack(env, s);
    }
    ReadBack(SlotToValue, SlotReader(env), SlotFits(env), slots);
  }

  // ---------------------------------------------------------------------
  // Revocations
  // ---------------------------------------------------------------------

  lemma SubjectRoundTrip(env: Env, s: RevokedSubject)
    requires TypedSubject(env, s)
    ensures SubjectFromValue(env, SubjectToValue(env, s)) == Some(s)
  {
    match s
    case Key(k) => Lookup3(Field("id", Str(k)), Field("kind", Str("key")), Field("label", Str("key:" + k)));
    case Node(n) => Lookup3(Field("id", Str(n)), Field("kind", Str("node")), Field("label", Str("node:" + n)));
    case Passport(p) =>
      Lookup3(Field("id", Str(p)), Field("kind", Str("passport")), Field("label", Str("passport:" + p)));
    case Condition(n, c) =>
      var shown := n + ":`" + env.conditionText(c.json) + "`";
      Lookup5(Field("condition", c.json), Field("id", Str(shown)), Field("kind", Str("condition")),
              Field("label", Str("condition:" + shown)), Field("node", Str(n)));
  }

  lemma ReasonReadBack(env: Env, r: RevocationReason)
    requires TypedReason(env, r)
    ensures ReasonFromValue(env, ReasonToValue(r)) == if ReasonFits(r) then Some(r) else None
  {
    var a, b := Field("retroactive", Bool(r.IsRetroactive())), Field("token", Str(ReasonToken(r)));
    if r.KeyCompromise? || r.AuthorityCompromised? || r.Supersession? {
      ParameterReadBack(env, r);
    } else {
      hide TimeText, GetTime, Get;
      Lookup2(a, b);
    }
  }

  lemma ParameterReadBack(env: Env, r: RevocationReason)
    requires TypedReason(env, r) && (r.KeyCompromise? || r.AuthorityCompromised? || r.Supersession?)
    ensures ReasonFromValue(env, ReasonToValue(r)) == if ReasonFits(r) then Some(r) else None
  {
    hide TimeText, GetTime, Get;
    var a, b := Field("retroactive", Bool(r.IsRetroactive())), Field("token", Str(ReasonToken(r)));
    var first :=
      if r.KeyCompromise? then Field("after", TimeText(r.after))
      else if r.AuthorityCompromised? then Field("detected_at", TimeText(r.detectedAt))
      else Field("by", Str(r.successor));
    Lookup3(first, a, b);
    assert [first] + [a, b] == [first, a, b];
    match r
    case KeyCompromise(after) => TimeReadBack([first, a, b], "after", after);
    case AuthorityCompromised(at) => TimeReadBack([first, a, b], "detected_at", at);
    case _ =>
  }

  lemma QuorumReadBack(env: Env, q: QuorumAttestation)
    requires TypedQuorum(env, q)
    ensures QuorumFromValue(env, QuorumToValue(q)) == if QuorumFits(env, q) then Some(q) else None
  {
    var slots := Arr(Map(SlotToValue, q.signatures));
    Lookup3(Field("quorum", Str(q.quorum)), Field("signatures", slots), Field("threshold", Num(q.threshold)));
    SlotsReadBack(env, QuorumToValue(q).fields, "signatures", q.signatures);
  }

  lemma OptQuorumReadBack(env: Env, q: Option<QuorumAttestation>)
    requires q.Some? ==> TypedQuorum(env, q.value)
    ensures OptQuorum(env, Some(if q.Some? then QuorumToValue(q.value) else Null))
         == if q.Some? ==> QuorumFits(env, q.value) then Some(q) else None
  {
    if q.Some? {
      QuorumReadBack(env, q.value);
      assert QuorumToValue(q.value) != Null;
      hide QuorumToValue;
    }
  }

  lemma Lookup6(a: Field, b: Field, c: Field, d: Field, e: Field, g: Field)
    requires forall i, j :: 0 <= i < j < 6 ==> [a, b, c, d, e, g][i].key != [a, b, c, d, e, g][j].key
    ensures var f := [a, b, c, d, e, g];
      && Get(f, a.key) == Some(a.value) && Get(f, b.key) == Some(b.value) && Get(f, c.key) == Some(c.value)
      && Get(f, d.key) == Some(d.value) && Get(f, e.key) == Some(e.value) && Get(f, g.key) == Some(g.value)
  {
    var f := [a, b, c, d, e, g];
    GetAt(f, 0);
    GetAt(f, 1);
    GetAt(f, 2);
    GetAt(f, 3);
    GetAt(f, 4);
    GetAt(f, 5);
  }

  lemma RevocationReadBack(env: Env, r: Revocation)
    requires TypedRevocation(env, r)
    ensures RevocationFromValue(env, RevocationToValue(env, r)) == if RevocationFits(env, r) then Some(r) else None
  {
    hide TimeText, GetTime, IntervalToValue, IntervalFromValue, SubjectToValue, SubjectFromValue,
      ReasonToValue, ReasonFromValue, QuorumToValue, QuorumFromValue, OptQuorum,
      QuorumFits, ReasonFits, TimeFits, IntervalFits, TypedSubject, TypedReason, TypedQuorum;
    var q := if r.quorum.Some? then QuorumToValue(r.quorum.value) else Null;
    Lookup6(Field("declared_at", TimeText(r.declaredAt)), Field("declared_by", Str(r.declaredBy)), Field("quorum", q),
            Field("reason", ReasonToValue(r.reason)), Field("subject", SubjectToValue(env, r.subject)),
            Field("window", IntervalToValue(r.window)));
    TimeReadBack(RevocationToValue(env, r).fields, "declared_at", r.declaredAt);
    IntervalReadBack(r.window);
    SubjectRoundTrip(env, r.subject);
    ReasonReadBack(env, r.reason);
    OptQuorumReadBack(env, r.quorum);
  }

  // ---------------------------------------------------------------------
  // Nodes and edges
  // ---------------------------------------------------------------------

  lemma {:induction false} InsertLast(x: NodeId, xs: seq<NodeId>)
    requires forall y :: y in xs ==> Less(y, x)
    ensures Insert(x, xs) == xs + [x]
  {
    if xs != [] {
      LessTrichotomy(xs[0], x);
      InsertLast(x, xs[1..]);
      assert xs == [xs[0]] + xs[1..];
    }
  }

  /** Collecting an increasing list into an ordered set changes nothing. */
  lemma {:induction false} OrderedIncreasing(xs: seq<NodeId>)
    requires Increasing(xs)
    ensures Ordered(xs) == xs
  {
    if xs != [] {
      var init, last := xs[..|xs| - 1], xs[|xs| - 1];
      OrderedIncreasing(init);
      forall y | y in init
        ensures Less(y, last)
      {
        var i :| 0 <= i < |init| && init[i] == y;
        assert Less(xs[i], xs[|xs| - 1]);
      }
      InsertLast(last, init);
      assert xs == init + [last];
    }
  }

  function NodeIdFits(env: Env): NodeId -> bool {
    (n: NodeId) => env.nodeIdOk(n)
  }

  lemma KindRoundTrip(env: Env, k: NodeKind)
    requires TypedKind(env, k)
    ensures KindFromValue(env, KindToValue(k)) == Some(k)
  {
    if k.ThresholdGroup? {
      var inner := [Field("members", Arr(Map(StrToValue, k.members))), Field("threshold", Num(k.threshold))];
      GetAt([Field("threshold_group", Obj(inner))], 0);
      Lookup2(inner[0], inner[1]);
      forall m | m in k.members
        ensures NodeIdReader(env)(StrToValue(m)) == if NodeIdFits(env)(m) then Some(m) else None
      {
      }
      ReadBack(StrToValue, NodeIdReader(env), NodeIdFits(env), k.members);
      assert All(NodeIdFits(env), k.members);
      OrderedIncreasing(k.members);
    }
  }

  lemma KeyReadBack(env: Env, k: RegisteredKey)
    requires TypedKey(env, k)
    ensures KeyFromValue(env, KeyToValue(k)) == if KeyFits(env)(k) then Some(k) else None
  {
    hide Hex.Encode;
    var p := PublicFields(k.public);
    var id := Field("key_id", Str(k.keyId));
    Lookup4(id, p[0], p[1], p[2]);
    assert [id] + p == [id, p[0], p[1], p[2]];
    PublicReadBack(env, [id] + p, k.public);
    hide PublicFromValue;
  }

  lemma NodeReadBack(env: Env, n: DelegationNode)
    requires TypedNode(env, n)
    ensures NodeFromValue(env, NodeToValue(n)) == if NodeFits(env, n) then Some(n) else None
  {
    hide KindToValue, KindFromValue;
    forall k | k in n.keys
      ensures KeyReader(env)(KeyToValue(k)) == if KeyFits(env)(k) then Some(k) else None
    {
      KeyReadBack(env, k);
    }
    ReadBack(KeyToValue, KeyReader(env), KeyFits(env), n.keys);
    KindRoundTrip(env, n.kind);
    Lookup3(Field("id", Str(n.id)), Field("keys", Arr(Map(KeyToValue, n.keys))), Field("kind", KindToValue(n.kind)));
  }

  lemma EdgeReadBack(env: Env, c: DelegationCredential)
    requires TypedEdge(env, c)
    ensures EdgeFromValue(env, EdgeToValue(c)) == if EdgeFits(env, c) then Some(c) else None
  {
    hide SlotToValue;
    Lookup4(Field("child", Str(c.child)), Field("parent", Str(c.parent)), Field("scope", c.scope.json),
            Field("signatures", Arr(Map(SlotToValue, c.signatures))));
    SlotsReadBack(env, EdgeToValue(c).fields, "signatures", c.signatures);
  }

  // ---------------------------------------------------------------------
  // The master list
  // ---------------------------------------------------------------------

  lemma AttestationReadBack(env: Env, w: WitnessAttestation)
    requires TypedAttestation(env, w)
    ensures AttestationFromValue(env, AttestationToValue(w)) == if AttestationFits(env)(w) then Some(w) else None
  {
    hide SlotToValue, SlotFromValue, TimeText, GetTime;
    Lookup3(Field("at", TimeText(w.at)), Field("slot", SlotToValue(w.slot)), Field("witness", Str(w.witnessId)));
    TimeReadBack(AttestationToValue(w).fields, "at", w.at);
    SlotReadBack(env, w.slot);
  }

  lemma MasterEntryReadBack(env: Env, e: MasterListEntry)
    requires TypedMasterEntry(env, e)
    ensures MasterEntryFromValue(env, MasterEntryToValue(e)) == if MasterEntryFits(env, e) then Some(e) else None
  {
    forall a | a in e.attestations
      ensures AttestationReader(env)(AttestationToValue(a)) == if AttestationFits(env)(a) then Some(a) else None
    {
      AttestationReadBack(env, a);
    }
    ReadBack(AttestationToValue, AttestationReader(env), AttestationFits(env), e.attestations);
    Lookup2(Field("attestations", Arr(Map(AttestationToValue, e.attestations))), Field("node", Str(e.node)));
  }

  function AnyWitness(w: (NodeId, PublicKey)): bool {
    true
  }

  lemma WitnessRoundTrip(env: Env, w: (NodeId, PublicKey))
    requires TypedWitness(env, w)
    ensures WitnessFromValue(env, WitnessToValue(w)) == Some(w)
  {
    hide Hex.Encode;
    var p := PublicFields(w.1);
    var id := Field("node", Str(w.0));
    Lookup4(id, p[0], p[1], p[2]);
    assert [id] + p == [id, p[0], p[1], p[2]];
    PublicReadBack(env, [id] + p, w.1);
    hide PublicFromValue;
  }

  lemma WitnessesRoundTrip(env: Env, ws: seq<(NodeId, PublicKey)>)
    requires forall w :: w in ws ==> TypedWitness(env, w)
    ensures Collect(WitnessReader(env), Map(WitnessToValue, ws)) == Some(ws)
  {
    forall w | w in ws
      ensures WitnessReader(env)(WitnessToValue(w)) == if AnyWitness(w) then Some(w) else None
    {
      WitnessRoundTrip(env, w);
    }
    ReadBack(WitnessToValue, WitnessReader(env), AnyWitness, ws);
    assert All(AnyWitness, ws);
  }

  /** Listing a witness map and reading it back gives the ids and keys of the
      map, in the listed order. */
  lemma {:induction false} WitnessListingRoundTrip(env: Env, witnesses: map<NodeId, PublicKey>, order: seq<NodeId>)
    requires forall id :: id in order ==> id in witnesses && TypedWitness(env, (id, witnesses[id]))
    ensures var back := WitnessesFromValue(env, WitnessesToValue(env, witnesses, order));
      && back.Some? && |back.value| == |order|
      && forall i :: 0 <= i < |order| ==> back.value[i] == (order[i], witnesses[order[i]])
    decreases |order|
  {
    hide PublicFields, WitnessFromValue;
    if order != [] {
      var id, tail := order[0], order[1..];
      assert forall x :: x in tail ==> x in order;
      WitnessListingRoundTrip(env, witnesses, tail);
      var v := WitnessesToValue(env, witnesses, order);
      assert v.items[1..] == WitnessesToValue(env, witnesses, tail).items;
      assert id in order;
      ListedWitnessReads(env, id, witnesses[id]);
    }
  }

  lemma ListedWitnessReads(env: Env, id: NodeId, key: PublicKey)
    requires TypedWitness(env, (id, key))
    ensures WitnessFromValue(
              env, Obj([Field("key_id", Str(env.keyIdOf(key)))] + [Field("node", Str(id))] + PublicFields(key)))
         == Some((id, key))
  {
    hide Hex.Encode;
    var p := PublicFields(key);
    var a, b := Field("key_id", Str(env.keyIdOf(key))), Field("node", Str(id));
    Lookup5(a, b, p[0], p[1], p[2]);
    assert [a] + [b] + p == [a, b, p[0], p[1], p[2]];
    PublicReadBack(env, [a] + [b] + p, key);
    hide PublicFromValue;
  }

  // ---------------------------------------------------------------------
  // Trust-list entries and subject labels
  // ---------------------------------------------------------------------

  lemma TrustEntryReadBack(env: Env, e: TrustListEntry, at: Time)
    requires env.nodeIdOk(e.node)
    ensures TrustEntryFromValue(env, TrustEntryToValue(e, at))
         == if TimeFits(e.notBefore) && OptTimeFits(e.supersededAt) then Some(e) else None
  {
    hide OptTime, OptTimeText, TimeText, GetTime, TimeFits;
    Lookup4(Field("in_force_at_as_of", Bool(InForceAt(e, at))), Field("node", Str(e.node)),
            Field("not_before", TimeText(e.notBefore)), Field("superseded_at", OptTimeText(e.supersededAt)));
    TimeReadBack(TrustEntryToValue(e, at).fields, "not_before", e.notBefore);
    OptTimeReadBack(e.supersededAt);
  }

  lemma {:induction false} ColonAfter(kind: string, id: string)
    requires forall i :: 0 <= i < |kind| ==> kind[i] != ':'
    ensures IndexOfColon(kind + ":" + id) == |kind|
  {
    if kind == "" {
      assert kind + ":" + id == ":" + id;
    } else {
      assert (kind + ":" + id)[1..] == kind[1..] + ":" + id;
      ColonAfter(kind[1..], id);
    }
  }

  lemma KindsAreTrim()
    ensures Trim("key") == "key" && Trim("node") == "node" && Trim("passport") == "passport"
    ensures Trim("condition") == "condition"
  {
  }

  /** A label names its subject, except that a condition has no label form. */
  lemma LabelRoundTrip(env: Env, s: RevokedSubject)
    requires TypedSubject(env, s)
    ensures SubjectFromLabel(env, Label(env, s)) == if s.Condition? then None else Some(s)
  {
    hide Trim, IndexOfColon;
    KindsAreTrim();
    match s
    case Key(k) =>
      LabelSplits("key", k);
      assert Label(env, s) == "key" + ":" + k;
    case Node(n) =>
      LabelSplits("node", n);
      assert Label(env, s) == "node" + ":" + n;
    case Passport(p) =>
      LabelSplits("passport", p);
      assert Label(env, s) == "passport" + ":" + p;
    case Condition(n, c) =>
      var id := n + ":`" + env.conditionText(c.json) + "`";
      LabelSplits("condition", id);
      assert Label(env, s) == "condition" + ":" + id;
  }

  lemma LabelSplits(kind: string, id: string)
    requires forall i :: 0 <= i < |kind| ==> kind[i] != ':'
    ensures var s := kind + ":" + id;
      IndexOfColon(s) == |kind| && |kind| < |s| && s[..|kind|] == kind && s[|kind| + 1..] == id
  {
    ColonAfter(kind, id);
  }
}
