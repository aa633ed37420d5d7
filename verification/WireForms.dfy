/** The JSON forms of src/wire.rs and src/store.rs, member by member: what each
    reader accepts, of any value, and what the printers add for people to read. */
module WireForms {
  import opened Text
  import opened Json
  import opened Lists
  import opened Signatif
  import opened Wire
  import opened Records
  import WireRoundTrip
  import Hex
  import Rfc3339

  // ---------------------------------------------------------------------
  // Members
  // ---------------------------------------------------------------------

  predicate Holds(v: Value, key: string, member: Value) {
    v.Obj? && Get(v.fields, key) == Some(member)
  }

  predicate Lacks(v: Value, key: string) {
    v.Obj? && Get(v.fields, key) == None
  }

  predicate TextAt(v: Value, key: string, s: string) {
    Holds(v, key, Str(s))
  }

  predicate NumberAt(v: Value, key: string, n: nat) {
    Holds(v, key, Num(n)) && n < 18_446_744_073_709_551_616
  }

  predicate IdAt(env: Env, v: Value, key: string, id: NodeId) {
    TextAt(v, key, id) && env.nodeIdOk(id)
  }

  ghost predicate TimeAt(v: Value, key: string, t: Time) {
    exists s :: TextAt(v, key, s) && Rfc3339.Parse(s) == Some(t)
  }

  /** Absent, null or an empty text, or else an instant. */
  ghost predicate OptionalTimeAt(v: Value, key: string, t: Option<Time>) {
    match t
    case None => Lacks(v, key) || Holds(v, key, Null) || TextAt(v, key, "")
    case Some(at) => TimeAt(v, key, at)
  }

  ghost predicate HexAt(v: Value, key: string, bytes: seq<Byte>) {
    exists s :: TextAt(v, key, s) && Hex.Decode(s) == Some(bytes)
  }

  ghost predicate ListAt<B>(v: Value, key: string, f: Value -> Option<B>, xs: seq<B>) {
    exists items :: Holds(v, key, Arr(items)) && ReadsAll(f, items, Some(xs))
  }

  lemma {:induction false} CollectReads<B>(f: Value -> Option<B>, items: seq<Value>, xs: seq<B>)
    ensures Collect(f, items) == Some(xs) <==> ReadsAll(f, items, Some(xs))
  {
    if items == [] {
      assert ReadsAll(f, items, Some(xs)) <==> xs == [];
    } else if xs == [] {
      var r := Collect(f, items);
      assert r.Some? ==> |r.value| > 0;
    } else {
      CollectReads(f, items[1..], xs[1..]);
      assert xs == [xs[0]] + xs[1..];
      ReadsHead(f, items, xs);
      var rest := Collect(f, items[1..]);
      if f(items[0]).Some? && rest.Some? {
        var all := [f(items[0]).value] + rest.value;
        assert all == xs ==> all[1..] == xs[1..] && all[1..] == rest.value;
      }
    }
  }

  lemma ReadsHead<B>(f: Value -> Option<B>, items: seq<Value>, xs: seq<B>)
    requires items != [] && xs != []
    ensures ReadsAll(f, items, Some(xs)) <==> f(items[0]) == Some(xs[0]) && ReadsAll(f, items[1..], Some(xs[1..]))
  {
    if ReadsAll(f, items[1..], Some(xs[1..])) && f(items[0]) == Some(xs[0]) {
      forall i | 0 <= i < |items|
        ensures f(items[i]) == Some(xs[i])
      {
        if i > 0 {
          assert f(items[1..][i - 1]) == Some(xs[1..][i - 1]);
        }
      }
    }
  }

  /** The element readers of the lists below. */
  lemma Readers(env: Env, v: Value)
    ensures SlotReader(env)(v) == SlotFromValue(env, v) && KeyReader(env)(v) == KeyFromValue(env, v)
    ensures AttestationReader(env)(v) == AttestationFromValue(env, v)
    ensures WitnessReader(env)(v) == WitnessFromValue(env, v)
    ensures forall n :: NodeIdReader(env)(v) == Some(n) <==> v == Str(n) && env.nodeIdOk(n)
  {
  }

  lemma EmptyIsNoTime()
    ensures Rfc3339.Parse("") == None
  {
  }

  lemma OptTimeReads(v: Value, key: string, t: Option<Time>)
    requires v.Obj?
    ensures OptTime(Get(v.fields, key)) == Some(t) <==> OptionalTimeAt(v, key, t)
  {
    EmptyIsNoTime();
    hide Rfc3339.Parse;
    match Get(v.fields, key)
    case Some(Str(s)) =>
    case _ =>
  }

  lemma TimeReads(v: Value, key: string, t: Time)
    requires v.Obj?
    ensures GetTime(v.fields, key) == Some(t) <==> TimeAt(v, key, t)
  {
    hide Rfc3339.Parse;
  }

  // ---------------------------------------------------------------------
  // Intervals, keys and signatures
  // ---------------------------------------------------------------------

  /** A window is read exactly if it has a start and, unless the end is left
      open, an end that is not before it. */
  lemma IntervalAccepted(v: Value, i: Interval)
    ensures IntervalFromValue(v) == Some(i) <==>
      && TimeAt(v, "start", i.from) && OptionalTimeAt(v, "end", i.to)
      && (i.to.Some? ==> i.from <= i.to.value)
  {
    hide GetTime, OptTime, TimeAt, OptionalTimeAt;
    if v.Obj? {
      TimeReads(v, "start", i.from);
      OptTimeReads(v, "end", i.to);
      var from, to := GetTime(v.fields, "start"), OptTime(Get(v.fields, "end"));
      if from.Some? && to.Some? {
        TimeReads(v, "start", from.value);
        OptTimeReads(v, "end", to.value);
      }
    } else {
      NotAnObject(v);
    }
  }

  lemma NotAnObject(v: Value)
    ensures !v.Obj? ==> forall key, t :: !TimeAt(v, key, t)
  {
  }

  lemma TrustEntryAccepted(env: Env, v: Value, e: TrustListEntry)
    ensures TrustEntryFromValue(env, v) == Some(e) <==>
      && IdAt(env, v, "node", e.node) && TimeAt(v, "not_before", e.notBefore)
      && OptionalTimeAt(v, "superseded_at", e.supersededAt)
  {
    hide GetTime, OptTime, TimeAt, OptionalTimeAt;
    if v.Obj? {
      TimeReads(v, "not_before", e.notBefore);
      OptTimeReads(v, "superseded_at", e.supersededAt);
    }
  }

  /** The tokens agree letter by letter, whatever their case and hyphens. */
  function Letters(token: string): string {
    if token == "" then ""
    else if token[0] == '-' then Letters(token[1..])
    else [LowerChar(token[0])] + Letters(token[1..])
  }

  lemma {:induction false} PlainIsLetters(s: string)
    ensures PlainToken(s) == Letters(s)
  {
    if s != "" {
      PlainIsLetters(s[1..]);
      assert Lower(s)[1..] == Lower(s[1..]);
      assert LowerChar(s[0]) == '-' <==> s[0] == '-';
      assert "" + Letters(s[1..]) == Letters(s[1..]);
    }
  }

  lemma PublicAccepted(env: Env, v: Value, k: PublicKey)
    ensures PublicFromValue(env, v) == Some(k) <==>
      && HexAt(v, "public", k.bytes) && env.suiteOfKey(k.bytes) == Some(k.suite)
      && exists token :: TextAt(v, "suite", token) && Letters(token) == Letters(k.suite.token)
  {
    hide Hex.Decode, Letters;
    if v.Obj? && GetStr(v.fields, "suite").Some? {
      PlainIsLetters(GetStr(v.fields, "suite").value);
      hide PlainToken;
      var hex := GetStr(v.fields, "public");
      if hex.Some? && Hex.Decode(hex.value).Some? && env.suiteOfKey(Hex.Decode(hex.value).value).Some? {
        PlainIsLetters(env.suiteOfKey(Hex.Decode(hex.value).value).value.token);
      }
    }
  }

  /** A slot is read exactly if its suite and key id are, and its signature is
      absent, null, or as long in bytes as the suite demands. */
  lemma SlotAccepted(env: Env, v: Value, s: SignatureSlot)
    ensures SlotFromValue(env, v) == Some(s) <==>
      && (exists token :: TextAt(v, "suite", token) && env.parseSuite(token) == Some(s.suite))
      && TextAt(v, "key_id", s.keyId) && env.keyIdOk(s.keyId)
      && match s.signature
         case None => Lacks(v, "signature") || Holds(v, "signature", Null)
         case Some(bytes) => HexAt(v, "signature", bytes) && |bytes| == env.signatureLen(s.suite)
  {
    hide Hex.Decode;
    if v.Obj? {
      OptHexReads(v, "signature", s.signature);
    }
  }

  lemma OptHexReads(v: Value, key: string, b: Option<seq<Byte>>)
    requires v.Obj?
    ensures OptHex(Get(v.fields, key)) == Some(b) <==>
      match b
      case None => Lacks(v, key) || Holds(v, key, Null)
      case Some(bytes) => HexAt(v, key, bytes)
  {
    hide Hex.Decode;
    match Get(v.fields, key)
    case Some(Str(s)) =>
    case _ =>
  }

  lemma SlotsRead(env: Env, v: Value, key: string, slots: seq<SignatureSlot>)
    requires v.Obj?
    ensures GetSlots(env, v.fields, key) == Some(slots) <==> ListAt(v, key, SlotReader(env), slots)
  {
    hide ReadsAll;
    var items := GetArr(v.fields, key);
    if items.Some? {
      CollectReads(SlotReader(env), items.value, slots);
      assert Holds(v, key, Arr(items.value));
    }
  }

  // ---------------------------------------------------------------------
  // Revocations
  // ---------------------------------------------------------------------

  lemma SubjectAccepted(env: Env, v: Value, s: RevokedSubject)
    ensures SubjectFromValue(env, v) == Some(s) <==>
      match s
      case Key(k) => TextAt(v, "kind", "key") && TextAt(v, "id", k) && env.keyIdOk(k)
      case Node(n) => TextAt(v, "kind", "node") && IdAt(env, v, "id", n)
      case Passport(p) => TextAt(v, "kind", "passport") && TextAt(v, "id", p) && env.passportOk(p)
      case Condition(n, c) =>
        && TextAt(v, "kind", "condition") && (exists id :: TextAt(v, "id", id)) && IdAt(env, v, "node", n)
        && Holds(v, "condition", c.json) && env.conditionOk(c.json)
  {
    if v.Obj? && GetStr(v.fields, "id").Some? {
      assert TextAt(v, "id", GetStr(v.fields, "id").value);
    }
  }

  ghost predicate ReasonIs(env: Env, v: Value, r: RevocationReason) {
    match r
    case KeyCompromise(after) => TextAt(v, "token", "key-compromise") && TimeAt(v, "after", after)
    case Cessation => TextAt(v, "token", "cessation")
    case Supersession(n) => TextAt(v, "token", "supersession") && IdAt(env, v, "by", n)
    case AffiliationChange => TextAt(v, "token", "affiliation-change")
    case Misissuance => TextAt(v, "token", "misissuance")
    case FraudulentIssuance => TextAt(v, "token", "fraudulent-issuance")
    case AuthorityCompromised(at) => TextAt(v, "token", "authority-compromised") && TimeAt(v, "detected_at", at)
    case ConditionWithdrawal => TextAt(v, "token", "condition-withdrawal")
  }

  lemma ReasonAccepted(env: Env, v: Value, r: RevocationReason)
    ensures ReasonFromValue(env, v) == Some(r) <==> ReasonIs(env, v, r)
  {
    hide GetTime, TimeAt;
    if v.Obj? {
      match r
      case KeyCompromise(after) => TimeReads(v, "after", after);
      case AuthorityCompromised(at) => TimeReads(v, "detected_at", at);
      case _ =>
    }
  }

  lemma QuorumAccepted(env: Env, v: Value, q: QuorumAttestation)
    ensures QuorumFromValue(env, v) == Some(q) <==>
      && IdAt(env, v, "quorum", q.quorum) && NumberAt(v, "threshold", q.threshold)
      && ListAt(v, "signatures", SlotReader(env), q.signatures)
  {
    hide GetSlots, ListAt;
    if v.Obj? {
      SlotsRead(env, v, "signatures", q.signatures);
    }
  }

  /** A revocation is read exactly if its parts are; the attestation may be
      absent or null. */
  lemma RevocationAccepted(env: Env, v: Value, r: Revocation)
    ensures RevocationFromValue(env, v) == Some(r) <==>
      && (exists s :: Holds(v, "subject", s) && SubjectFromValue(env, s) == Some(r.subject))
      && (exists x :: Holds(v, "reason", x) && ReasonFromValue(env, x) == Some(r.reason))
      && TimeAt(v, "declared_at", r.declaredAt) && IdAt(env, v, "declared_by", r.declaredBy)
      && (exists w :: Holds(v, "window", w) && IntervalFromValue(w) == Some(r.window))
      && match r.quorum
         case None => Lacks(v, "quorum") || Holds(v, "quorum", Null)
         case Some(q) => exists a :: a != Null && Holds(v, "quorum", a) && QuorumFromValue(env, a) == Some(q)
  {
    hide GetTime, TimeAt, SubjectFromValue, ReasonFromValue, IntervalFromValue, QuorumFromValue;
    if v.Obj? {
      TimeReads(v, "declared_at", r.declaredAt);
      OptQuorumReads(env, v, r.quorum);
    } else {
      NotAnObject(v);
    }
  }

  lemma OptQuorumReads(env: Env, v: Value, q: Option<QuorumAttestation>)
    requires v.Obj?
    ensures OptQuorum(env, Get(v.fields, "quorum")) == Some(q) <==>
      match q
      case None => Lacks(v, "quorum") || Holds(v, "quorum", Null)
      case Some(att) => exists a :: a != Null && Holds(v, "quorum", a) && QuorumFromValue(env, a) == Some(att)
  {
    hide QuorumFromValue;
    match Get(v.fields, "quorum")
    case Some(Null) =>
    case Some(a) => assert Holds(v, "quorum", a);
    case None =>
  }

  // ---------------------------------------------------------------------
  // Nodes, edges and the master list
  // ---------------------------------------------------------------------

  /** Collecting into an ordered set: increasing, and the same elements. */
  lemma {:induction false} OrderedIsSet(xs: seq<NodeId>)
    ensures WireRoundTrip.Increasing(Ordered(xs))
    ensures forall x :: x in Ordered(xs) <==> x in xs
  {
    if xs != [] {
      var n := |xs| - 1;
      OrderedIsSet(xs[..n]);
      InsertKeeps(xs[n], Ordered(xs[..n]));
      assert forall x :: x in xs <==> x in xs[..n] || x == xs[n];
    }
  }

  lemma {:induction false} InsertKeeps(x: NodeId, xs: seq<NodeId>)
    requires WireRoundTrip.Increasing(xs)
    ensures WireRoundTrip.Increasing(Insert(x, xs))
    ensures forall y :: y in Insert(x, xs) <==> y == x || y in xs
  {
    if xs != [] && x != xs[0] {
      var head, tail := xs[0], xs[1..];
      LessTrichotomy(x, head);
      assert forall y :: y in xs <==> y == head || y in tail;
      if Less(x, head) {
        forall y | y in xs
          ensures Less(x, y)
        {
          var i :| 0 <= i < |xs| && xs[i] == y;
          if i > 0 {
            LessTransitive(x, head, y);
          }
        }
        Headed(x, xs);
      } else {
        assert WireRoundTrip.Increasing(tail);
        InsertKeeps(x, tail);
        forall y | y in Insert(x, tail)
          ensures Less(head, y)
        {
          if y != x {
            var i :| 0 <= i < |tail| && tail[i] == y;
            assert xs[i + 1] == y;
          }
        }
        Headed(head, Insert(x, tail));
      }
    }
  }

  lemma Headed(x: NodeId, xs: seq<NodeId>)
    requires WireRoundTrip.Increasing(xs) && forall y :: y in xs ==> Less(x, y)
    ensures WireRoundTrip.Increasing([x] + xs)
    ensures forall y :: y in [x] + xs <==> y == x || y in xs
  {
    var all := [x] + xs;
    forall i, j | 0 <= i < j < |all|
      ensures Less(all[i], all[j])
    {
      assert all[j] == xs[j - 1] && xs[j - 1] in xs;
      if i > 0 {
        assert all[i] == xs[i - 1];
      }
    }
  }

  /** A node kind: one of three words, or an object with a threshold and a list
      of members, whose order and repetitions do not matter. */
  lemma KindAccepted(env: Env, v: Value, k: NodeKind)
    ensures KindFromValue(env, v) == Some(k) <==>
      match k
      case Root => v == Str("root")
      case Delegated => v == Str("delegated")
      case End => v == Str("end")
      case ThresholdGroup(threshold, members) =>
        exists g, listed ::
          && Holds(v, "threshold_group", g) && NumberAt(g, "threshold", threshold)
          && ListAt(g, "members", NodeIdReader(env), listed) && members == Ordered(listed)
  {
    hide Ordered, ReadsAll;
    if v.Obj? && Get(v.fields, "threshold_group").Some? {
      var g := Get(v.fields, "threshold_group").value;
      assert Holds(v, "threshold_group", g);
      if g.Obj? {
        MembersRead(env, g);
      }
    }
  }

  lemma MembersRead(env: Env, g: Value)
    requires g.Obj?
    ensures forall listed :: ListAt(g, "members", NodeIdReader(env), listed) <==>
      GetArr(g.fields, "members").Some? && Collect(NodeIdReader(env), GetArr(g.fields, "members").value) == Some(listed)
  {
    hide ReadsAll;
    var items := GetArr(g.fields, "members");
    if items.Some? {
      assert Holds(g, "members", Arr(items.value));
      forall listed
        ensures Collect(NodeIdReader(env), items.value) == Some(listed)
           <==> ReadsAll(NodeIdReader(env), items.value, Some(listed))
      {
        CollectReads(NodeIdReader(env), items.value, listed);
      }
    }
  }

  lemma KeyAccepted(env: Env, v: Value, k: RegisteredKey)
    ensures KeyFromValue(env, v) == Some(k) <==>
      && TextAt(v, "key_id", k.keyId) && env.keyIdOk(k.keyId) && PublicFromValue(env, v) == Some(k.public)
      && k.keyId == env.keyIdOf(k.public)
  {
    hide PublicFromValue;
    if !v.Obj? {
      assert !TextAt(v, "key_id", k.keyId);
    }
  }

  /** A node is read exactly if its id and kind are, and its keys, if they are a
      list, each in its place; anything else counts as no keys. */
  lemma NodeAccepted(env: Env, v: Value, n: DelegationNode)
    ensures NodeFromValue(env, v) == Some(n) <==>
      && IdAt(env, v, "id", n.id)
      && (exists k :: Holds(v, "kind", k) && KindFromValue(env, k) == Some(n.kind))
      && (ListAt(v, "keys", KeyReader(env), n.keys)
          || (n.keys == [] && !exists items :: Holds(v, "keys", Arr(items))))
  {
    hide KindFromValue, ReadsAll;
    if v.Obj? {
      var items := GetArr(v.fields, "keys");
      if items.Some? {
        assert Holds(v, "keys", Arr(items.value));
        CollectReads(KeyReader(env), items.value, n.keys);
      }
      if Get(v.fields, "kind").Some? {
        assert Holds(v, "kind", Get(v.fields, "kind").value);
      }
    }
  }

  lemma EdgeAccepted(env: Env, v: Value, c: DelegationCredential)
    ensures EdgeFromValue(env, v) == Some(c) <==>
      && IdAt(env, v, "parent", c.parent) && IdAt(env, v, "child", c.child)
      && Holds(v, "scope", c.scope.json) && env.scopeOk(c.scope.json)
      && ListAt(v, "signatures", SlotReader(env), c.signatures)
  {
    hide GetSlots, ListAt;
    if v.Obj? {
      SlotsRead(env, v, "signatures", c.signatures);
    }
  }

  lemma AttestationAccepted(env: Env, v: Value, w: WitnessAttestation)
    ensures AttestationFromValue(env, v) == Some(w) <==>
      && IdAt(env, v, "witness", w.witnessId) && TimeAt(v, "at", w.at)
      && exists s :: Holds(v, "slot", s) && SlotFromValue(env, s) == Some(w.slot)
  {
    hide GetTime, TimeAt, SlotFromValue;
    if v.Obj? {
      TimeReads(v, "at", w.at);
      if Get(v.fields, "slot").Some? {
        assert Holds(v, "slot", Get(v.fields, "slot").value);
      }
    }
  }

  lemma MasterEntryAccepted(env: Env, v: Value, e: MasterListEntry)
    ensures MasterEntryFromValue(env, v) == Some(e) <==>
      IdAt(env, v, "node", e.node) && ListAt(v, "attestations", AttestationReader(env), e.attestations)
  {
    hide ReadsAll;
    if v.Obj? && GetArr(v.fields, "attestations").Some? {
      var items := GetArr(v.fields, "attestations").value;
      assert Holds(v, "attestations", Arr(items));
      CollectReads(AttestationReader(env), items, e.attestations);
    }
  }

  lemma WitnessAccepted(env: Env, v: Value, w: (NodeId, PublicKey))
    ensures WitnessFromValue(env, v) == Some(w) <==>
      IdAt(env, v, "node", w.0) && PublicFromValue(env, v) == Some(w.1)
  {
    hide PublicFromValue;
  }

  /** A label is a kind, blanks aside, and after the first colon an id. */
  lemma LabelAccepted(env: Env, text: string, s: RevokedSubject)
    ensures SubjectFromLabel(env, text) == Some(s) <==>
      exists kind: string, id: string :: ':' !in kind && text == kind + ":" + id && LabelNames(env, Trim(kind), id, s)
  {
    hide Trim;
    var n := IndexOfColon(text);
    ColonFirst(text);
    if n < |text| {
      var kind, id := text[..n], text[n + 1..];
      assert text == kind + ":" + id && ':' !in kind;
      if SubjectFromLabel(env, text) == Some(s) {
        assert LabelNames(env, Trim(kind), id, s);
      }
    }
    forall kind: string, id: string | ':' !in kind && text == kind + ":" + id
      ensures n == |kind| && text[..n] == kind && text[n + 1..] == id
    {
      WireRoundTrip.ColonAfter(kind, id);
    }
  }

  lemma {:induction false} ColonFirst(s: string)
    ensures forall i :: 0 <= i < IndexOfColon(s) ==> s[i] != ':'
    ensures IndexOfColon(s) < |s| ==> s[IndexOfColon(s)] == ':'
  {
    if s != "" && s[0] != ':' {
      ColonFirst(s[1..]);
    }
  }

  predicate LabelNames(env: Env, kind: string, id: string, s: RevokedSubject) {
    match s
    case Key(k) => kind == "key" && k == id && env.keyIdOk(id)
    case Node(n) => kind == "node" && n == id && env.nodeIdOk(id)
    case Passport(p) => kind == "passport" && p == id && env.passportOk(id)
    case Condition(_, _) => false
  }

  // ---------------------------------------------------------------------
  // Records
  // ---------------------------------------------------------------------

  ghost predicate OptionalTextAt(v: Value, key: string, s: Option<string>) {
    match s
    case Some(t) => TextAt(v, key, t)
    case None => v.Obj? && !exists t :: TextAt(v, key, t)
  }

  ghost predicate TextOr(v: Value, key: string, default: string, s: string) {
    TextAt(v, key, s) || (v.Obj? && s == default && !exists t :: TextAt(v, key, t))
  }

  /** What a record's name and body say. */
  ghost predicate BodyIs(env: Env, name: string, body: Value, op: Op) {
    match op
    case RegisterNode(n) => name == "register-node" && NodeFromValue(env, body) == Some(n)
    case AddEdge(c) => name == "add-edge" && EdgeFromValue(env, body) == Some(c)
    case RegisterTrustList(jurisdiction, framework) =>
      && name == "register-trust-list" && TextAt(body, "jurisdiction", jurisdiction)
      && OptionalTextAt(body, "framework", framework)
    case UpsertTrustEntry(list, node, notBefore, supersededAt) =>
      && name == "upsert-trust-entry" && TextAt(body, "jurisdiction", list) && IdAt(env, body, "node", node)
      && TimeAt(body, "not_before", notBefore)
      && (match supersededAt
          case Some(t) => TimeAt(body, "superseded_at", t)
          case None => OptionalTextAt(body, "superseded_at", None))
    case SetWitnesses(m, ws) =>
      name == "set-witnesses" && NumberAt(body, "m", m) && ListAt(body, "witnesses", WitnessReader(env), ws)
    case UpsertMasterEntry(e) => name == "upsert-master-entry" && MasterEntryFromValue(env, body) == Some(e)
    case DeclareRevocation(r) => name == "declare-revocation" && RevocationFromValue(env, body) == Some(r)
    case RegisterEvidence(e) =>
      && name == "register-evidence" && TextAt(body, "id", e.id) && TextAt(body, "required_scope", e.requiredScope)
      && TextOr(body, "content_type", "application/octet-stream", e.contentType)
      && TextOr(body, "description", "", e.description) && HexAt(body, "content_hex", e.content)
    case EvidenceReleased(id, requester, scope) =>
      && name == "evidence-released" && TextAt(body, "id", id) && TextAt(body, "scope", scope)
      && OptionalTextAt(body, "requester", requester)
  }

  lemma StrReads(v: Value, key: string)
    requires v.Obj?
    ensures forall s :: GetStr(v.fields, key) == Some(s) <==> TextAt(v, key, s)
    ensures forall s :: GetStr(v.fields, key) == s <==> OptionalTextAt(v, key, s)
  {
    forall s
      ensures GetStr(v.fields, key) == s <==> OptionalTextAt(v, key, s)
    {
      if GetStr(v.fields, key).Some? {
        assert TextAt(v, key, GetStr(v.fields, key).value);
      }
    }
  }

  lemma TrustListReads(v: Value, op: Op)
    requires v.Obj?
    ensures TrustListFrom(v.fields) == Some(op) <==>
      && op.RegisterTrustList? && TextAt(v, "jurisdiction", op.jurisdiction)
      && OptionalTextAt(v, "framework", op.framework)
  {
    StrReads(v, "jurisdiction");
    StrReads(v, "framework");
    hide GetStr, TextAt, OptionalTextAt;
  }

  lemma OptTimeMemberReads(v: Value, key: string, t: Option<Time>)
    requires v.Obj?
    ensures OptTimeMember(v.fields, key) == Some(t) <==>
      match t
      case Some(at) => TimeAt(v, key, at)
      case None => OptionalTextAt(v, key, None)
  {
    StrReads(v, key);
    hide Rfc3339.Parse, GetStr, OptionalTextAt, TextAt;
    if GetStr(v.fields, key).Some? {
      assert TextAt(v, key, GetStr(v.fields, key).value);
    }
  }

  lemma EntryReads(env: Env, v: Value, op: Op)
    requires v.Obj?
    ensures TrustEntryFrom(env, v.fields) == Some(op) <==>
      && op.UpsertTrustEntry? && TextAt(v, "jurisdiction", op.list) && IdAt(env, v, "node", op.trusted)
      && TimeAt(v, "not_before", op.notBefore)
      && (match op.supersededAt
          case Some(t) => TimeAt(v, "superseded_at", t)
          case None => OptionalTextAt(v, "superseded_at", None))
  {
    hide GetTime, TimeAt, OptTimeMember, OptionalTextAt;
    if op.UpsertTrustEntry? {
      TimeReads(v, "not_before", op.notBefore);
      OptTimeMemberReads(v, "superseded_at", op.supersededAt);
    }
  }

  lemma EvidenceReads(v: Value, op: Op)
    requires v.Obj?
    ensures EvidenceFrom(v.fields) == Some(op) <==>
      && op.RegisterEvidence? && TextAt(v, "id", op.evidence.id)
      && TextAt(v, "required_scope", op.evidence.requiredScope)
      && TextOr(v, "content_type", "application/octet-stream", op.evidence.contentType)
      && TextOr(v, "description", "", op.evidence.description) && HexAt(v, "content_hex", op.evidence.content)
  {
    hide Hex.Decode;
    StrReads(v, "id");
    StrReads(v, "required_scope");
    StrReads(v, "content_type");
    StrReads(v, "description");
    StrReads(v, "content_hex");
    hide GetStr, TextAt;
    if op.RegisterEvidence? {
      TextOrReads(v, "content_type", "application/octet-stream", op.evidence.contentType);
      TextOrReads(v, "description", "", op.evidence.description);
    }
  }

  lemma TextOrReads(v: Value, key: string, default: string, s: string)
    requires v.Obj?
    ensures StrOr(GetStr(v.fields, key), default) == s <==> TextOr(v, key, default, s)
  {
    StrReads(v, key);
    hide GetStr, TextAt;
    if GetStr(v.fields, key).Some? {
      assert TextAt(v, key, GetStr(v.fields, key).value);
    }
  }

  lemma WitnessesRead(env: Env, v: Value, op: Op)
    requires v.Obj?
    ensures WitnessesFrom(env, v.fields) == Some(op) <==>
      op.SetWitnesses? && NumberAt(v, "m", op.m) && ListAt(v, "witnesses", WitnessReader(env), op.witnesses)
  {
    hide ReadsAll;
    if GetArr(v.fields, "witnesses").Some? && op.SetWitnesses? {
      var items := GetArr(v.fields, "witnesses").value;
      assert Holds(v, "witnesses", Arr(items));
      CollectReads(WitnessReader(env), items, op.witnesses);
    }
  }

  lemma ReleaseReads(v: Value, op: Op)
    requires v.Obj?
    ensures ReleaseFrom(v.fields) == Some(op) <==>
      && op.EvidenceReleased? && TextAt(v, "id", op.id) && TextAt(v, "scope", op.scope)
      && OptionalTextAt(v, "requester", op.requester)
  {
    StrReads(v, "id");
    StrReads(v, "scope");
    StrReads(v, "requester");
    hide GetStr, TextAt, OptionalTextAt;
  }

  /** Which reader each name selects. */
  lemma DispatchGraph(env: Env, body: Value)
    ensures OpFrom(env, "register-node", body)
         == (var n := NodeFromValue(env, body); if n.None? then None else Some(RegisterNode(n.value)))
    ensures OpFrom(env, "add-edge", body)
         == (var c := EdgeFromValue(env, body); if c.None? then None else Some(AddEdge(c.value)))
    ensures OpFrom(env, "register-trust-list", body) == if body.Obj? then TrustListFrom(body.fields) else None
  {
    hide NodeFromValue, EdgeFromValue, MasterEntryFromValue, RevocationFromValue, TrustListFrom, TrustEntryFrom,
      EvidenceFrom, WitnessesFrom, ReleaseFrom;
  }

  lemma DispatchLists(env: Env, body: Value)
    ensures OpFrom(env, "upsert-trust-entry", body) == if body.Obj? then TrustEntryFrom(env, body.fields) else None
    ensures OpFrom(env, "set-witnesses", body) == if body.Obj? then WitnessesFrom(env, body.fields) else None
    ensures OpFrom(env, "upsert-master-entry", body)
         == (var e := MasterEntryFromValue(env, body); if e.None? then None else Some(UpsertMasterEntry(e.value)))
  {
    hide NodeFromValue, EdgeFromValue, MasterEntryFromValue, RevocationFromValue, TrustListFrom, TrustEntryFrom,
      EvidenceFrom, WitnessesFrom, ReleaseFrom;
  }

  lemma DispatchLedger(env: Env, body: Value)
    ensures OpFrom(env, "declare-revocation", body)
         == (var r := RevocationFromValue(env, body); if r.None? then None else Some(DeclareRevocation(r.value)))
    ensures OpFrom(env, "register-evidence", body) == if body.Obj? then EvidenceFrom(body.fields) else None
    ensures OpFrom(env, "evidence-released", body) == if body.Obj? then ReleaseFrom(body.fields) else None
  {
    hide NodeFromValue, EdgeFromValue, MasterEntryFromValue, RevocationFromValue, TrustListFrom, TrustEntryFrom,
      EvidenceFrom, WitnessesFrom, ReleaseFrom;
  }

  /** What each reader yields. */
  lemma ReadersYield(env: Env, f: seq<Field>)
    ensures TrustListFrom(f).Some? ==> TrustListFrom(f).value.RegisterTrustList?
    ensures TrustEntryFrom(env, f).Some? ==> TrustEntryFrom(env, f).value.UpsertTrustEntry?
    ensures WitnessesFrom(env, f).Some? ==> WitnessesFrom(env, f).value.SetWitnesses?
    ensures EvidenceFrom(f).Some? ==> EvidenceFrom(f).value.RegisterEvidence?
    ensures ReleaseFrom(f).Some? ==> ReleaseFrom(f).value.EvidenceReleased?
  {
    hide Hex.Decode, GetTime, OptTimeMember, Collect;
  }

  /** What is read under a name is an operation of that name. */
  predicate IsName(name: string) {
    || name == "register-node"
    || name == "add-edge"
    || name == "register-trust-list"
    || name == "upsert-trust-entry"
    || name == "set-witnesses"
    || name == "upsert-master-entry"
    || name == "declare-revocation"
    || name == "register-evidence"
    || name == "evidence-released"
  }

  lemma DispatchOthers(env: Env, name: string, body: Value)
    requires !IsName(name)
    ensures OpFrom(env, name, body) == None
  {
    hide NodeFromValue, EdgeFromValue, MasterEntryFromValue, RevocationFromValue, TrustListFrom, TrustEntryFrom,
      EvidenceFrom, WitnessesFrom, ReleaseFrom;
  }

  lemma ReadUnderName(env: Env, name: string, body: Value)
    ensures OpFrom(env, name, body).Some? ==> OpName(OpFrom(env, name, body).value) == name
  {
    hide NodeFromValue, EdgeFromValue, MasterEntryFromValue, RevocationFromValue, TrustListFrom, TrustEntryFrom,
      EvidenceFrom, WitnessesFrom, ReleaseFrom, OpFrom;
    DispatchGraph(env, body);
    DispatchLists(env, body);
    DispatchLedger(env, body);
    if body.Obj? {
      ReadersYield(env, body.fields);
    }
    if !IsName(name) {
      DispatchOthers(env, name, body);
    }
  }

  lemma SaidUnderName(env: Env, name: string, body: Value, op: Op)
    ensures BodyIs(env, name, body, op) ==> name == OpName(op)
  {
  }

  lemma OnlyObjects(v: Value)
    requires !v.Obj?
    ensures forall key, s :: !TextAt(v, key, s)
    ensures forall key, n :: !NumberAt(v, key, n)
  {
  }

  lemma BodyOfGraphOp(env: Env, body: Value, op: Op)
    requires op.RegisterNode? || op.AddEdge? || op.RegisterTrustList?
    ensures OpFrom(env, OpName(op), body) == Some(op) <==> BodyIs(env, OpName(op), body, op)
  {
    hide OpFrom, NodeFromValue, EdgeFromValue, MasterEntryFromValue, RevocationFromValue, TrustListFrom,
      TrustEntryFrom, EvidenceFrom, WitnessesFrom, ReleaseFrom, TimeAt, ListAt, HexAt, TextOr, OptionalTextAt,
      TextAt, NumberAt;
    DispatchGraph(env, body);
    if body.Obj? {
      TrustListReads(body, op);
    } else {
      OnlyObjects(body);
    }
  }

  lemma BodyOfListsOp(env: Env, body: Value, op: Op)
    requires op.UpsertTrustEntry? || op.SetWitnesses? || op.UpsertMasterEntry?
    ensures OpFrom(env, OpName(op), body) == Some(op) <==> BodyIs(env, OpName(op), body, op)
  {
    hide OpFrom, NodeFromValue, EdgeFromValue, MasterEntryFromValue, RevocationFromValue, TrustListFrom,
      TrustEntryFrom, EvidenceFrom, WitnessesFrom, ReleaseFrom, TimeAt, ListAt, HexAt, TextOr, OptionalTextAt,
      TextAt, NumberAt;
    DispatchLists(env, body);
    if body.Obj? {
      EntryReads(env, body, op);
      WitnessesRead(env, body, op);
    } else {
      OnlyObjects(body);
    }
  }

  lemma BodyOfLedgerOp(env: Env, body: Value, op: Op)
    requires op.DeclareRevocation? || op.RegisterEvidence? || op.EvidenceReleased?
    ensures OpFrom(env, OpName(op), body) == Some(op) <==> BodyIs(env, OpName(op), body, op)
  {
    hide OpFrom, NodeFromValue, EdgeFromValue, MasterEntryFromValue, RevocationFromValue, TrustListFrom,
      TrustEntryFrom, EvidenceFrom, WitnessesFrom, ReleaseFrom, TimeAt, ListAt, HexAt, TextOr, OptionalTextAt,
      TextAt, NumberAt;
    DispatchLedger(env, body);
    if body.Obj? {
      EvidenceReads(body, op);
      ReleaseReads(body, op);
    } else {
      OnlyObjects(body);
    }
  }

  lemma BodyOfOp(env: Env, body: Value, op: Op)
    ensures OpFrom(env, OpName(op), body) == Some(op) <==> BodyIs(env, OpName(op), body, op)
  {
    hide OpFrom, OpName, BodyIs;
    if op.RegisterNode? || op.AddEdge? || op.RegisterTrustList? {
      BodyOfGraphOp(env, body, op);
    } else if op.UpsertTrustEntry? || op.SetWitnesses? || op.UpsertMasterEntry? {
      BodyOfListsOp(env, body, op);
    } else {
      BodyOfLedgerOp(env, body, op);
    }
  }

  lemma BodyAccepted(env: Env, name: string, body: Value, op: Op)
    ensures OpFrom(env, name, body) == Some(op) <==> BodyIs(env, name, body, op)
  {
    hide OpFrom, OpName, BodyIs;
    BodyOfOp(env, body, op);
    ReadUnderName(env, name, body);
    SaidUnderName(env, name, body, op);
  }

  /** A journal record is read exactly if it has a number, an instant, one of the
      nine names and a body that says its operation. */
  lemma RecordAccepted(env: Env, v: Value, r: AuditRecord)
    ensures FromJson(env, v) == Some(r) <==>
      && NumberAt(v, "seq", r.seqNo) && TimeAt(v, "recorded_at", r.recordedAt)
      && exists name, body :: TextAt(v, "op", name) && Holds(v, "body", body) && BodyIs(env, name, body, r.op)
  {
    hide GetTime, TimeAt, OpFrom, BodyIs;
    if v.Obj? {
      TimeReads(v, "recorded_at", r.recordedAt);
      var name, body := GetStr(v.fields, "op"), Get(v.fields, "body");
      if name.Some? && body.Some? {
        assert TextAt(v, "op", name.value) && Holds(v, "body", body.value);
        BodyAccepted(env, name.value, body.value, r.op);
      }
    }
  }

  // ---------------------------------------------------------------------
  // What is written for people to read
  // ---------------------------------------------------------------------

  /** An entry is in force from its first instant on, until it is superseded. */
  lemma InForceMeans(e: TrustListEntry, t: Time)
    ensures InForceAt(e, t) <==>
      e.notBefore <= t && !(e.supersededAt.Some? && e.supersededAt.value <= t)
  {
  }

  lemma ShownInterval(i: Interval)
    ensures Holds(IntervalToValue(i), "open", Bool(i.to == None))
  {
    WireRoundTrip.Lookup3(
      Field("end", OptTimeText(i.to)), Field("open", Bool(i.to.None?)), Field("start", TimeText(i.from)));
  }

  lemma ShownKey(k: RegisteredKey)
    ensures Holds(KeyToValue(k), "public_len", Num(|k.public.bytes|))
    ensures Holds(PublicToValue(k.public), "public_len", Num(|k.public.bytes|))
  {
    var f := PublicFields(k.public);
    WireRoundTrip.Lookup3(f[0], f[1], f[2]);
    WireRoundTrip.Lookup4(Field("key_id", Str(k.keyId)), f[0], f[1], f[2]);
    assert f == [f[0], f[1], f[2]];
    assert [Field("key_id", Str(k.keyId))] + f == [Field("key_id", Str(k.keyId)), f[0], f[1], f[2]];
  }

  lemma ShownSubject(env: Env, s: RevokedSubject)
    ensures TextAt(SubjectToValue(env, s), "label", Label(env, s))
  {
    var f := SubjectToValue(env, s).fields;
    if s.Condition? {
      WireRoundTrip.Lookup5(f[0], f[1], f[2], f[3], f[4]);
      assert f == [f[0], f[1], f[2], f[3], f[4]];
      var shown := env.conditionText(s.condition.json);
      assert "condition:" + (s.holder + ":`" + shown + "`") == "condition:" + s.holder + ":`" + shown + "`";
    } else {
      WireRoundTrip.Lookup3(f[0], f[1], f[2]);
      assert f == [f[0], f[1], f[2]];
    }
  }

  lemma ShownReason(r: RevocationReason)
    ensures Holds(ReasonToValue(r), "retroactive", Bool(r.IsRetroactive()))
  {
    hide TimeText;
    var a, b := Field("retroactive", Bool(r.IsRetroactive())), Field("token", Str(ReasonToken(r)));
    WireRoundTrip.Lookup2(a, b);
    var f := ReasonToValue(r).fields;
    if |f| == 3 {
      WireRoundTrip.Lookup3(f[0], a, b);
      assert f == [f[0], a, b];
    } else {
      assert f == [a, b];
    }
  }

  lemma ShownEntry(e: TrustListEntry, at: Time)
    ensures Holds(TrustEntryToValue(e, at), "in_force_at_as_of", Bool(InForceAt(e, at)))
  {
    var f := TrustEntryToValue(e, at).fields;
    WireRoundTrip.Lookup4(f[0], f[1], f[2], f[3]);
    assert f == [f[0], f[1], f[2], f[3]];
  }

  lemma ShownWitness(env: Env, witnesses: map<NodeId, PublicKey>, order: seq<NodeId>, i: nat)
    requires i < |order| && forall id :: id in order ==> id in witnesses
    ensures var v := WitnessesToValue(env, witnesses, order);
      v.Arr? && |v.items| == |order| && TextAt(v.items[i], "key_id", env.keyIdOf(witnesses[order[i]]))
  {
    var k := witnesses[order[i]];
    var f := PublicFields(k);
    var a, b := Field("key_id", Str(env.keyIdOf(k))), Field("node", Str(order[i]));
    WireRoundTrip.Lookup5(a, b, f[0], f[1], f[2]);
    assert [a] + [b] + f == [a, b, f[0], f[1], f[2]];
  }
}
