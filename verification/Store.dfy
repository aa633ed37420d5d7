/** The trust store of src/store.rs: state kept in fields and updated in place,
    an audit log, and an append-only journal. */
module Store {
  import opened Text
  import opened Signatif
  import opened Records
  import opened State
  import opened Journal
  import Quorum

  function OpsOf(log: seq<AuditRecord>): (ops: seq<Op>)
    ensures |ops| == |log|
    ensures forall i :: 0 <= i < |log| ==> ops[i] == log[i].op
  {
    seq(|log|, i requires 0 <= i < |log| => log[i].op)
  }

  lemma OpsSnoc(log: seq<AuditRecord>, r: AuditRecord)
    ensures OpsOf(log + [r]) == OpsOf(log) + [r.op]
  {
  }

  /** The records that seeding an empty store writes. */
  function SeedRecords(seedOps: seq<Op>, clock: seq<Time>): (rs: seq<AuditRecord>)
    requires |clock| == |seedOps|
    ensures |rs| == |seedOps|
  {
    seq(|seedOps|, i requires 0 <= i < |seedOps| => AuditRecord(i + 1, clock[i], seedOps[i]))
  }

  /** The log of a store opened on a file. */
  function OpenLog(env: Env, file: string, seedWhenEmpty: bool, seedOps: seq<Op>, clock: seq<Time>): seq<AuditRecord>
    requires |clock| == |seedOps|
  {
    var replayed := RecordsOf(env, file);
    if seedWhenEmpty && replayed == [] then SeedRecords(seedOps, clock) else replayed
  }

  /** The file as opening leaves it. */
  function OpenFile(env: Env, file: string, seedWhenEmpty: bool, seedOps: seq<Op>, clock: seq<Time>): string
    requires |clock| == |seedOps|
  {
    if seedWhenEmpty && RecordsOf(env, file) == [] then file + Written(env, SeedRecords(seedOps, clock)) else file
  }

  class Store {
    const env: Env
    var graph: TrustGraph
    var trustLists: map<string, TrustList>
    var frameworks: map<string, Option<string>>
    var master: MasterList
    var ledger: seq<Revocation>
    var evidence: map<string, Evidence>
    var log: seq<AuditRecord>
    var journal: Option<string>

    /** What the journal file held at the start, and how many records the
        replay took from it. */
    ghost var base: string
    ghost var replayed: nat

    function View(): State
      reads this
    {
      State(graph, trustLists, frameworks, master, ledger, evidence)
    }

    /** The live state is the fold of the log; the journal is the original
        file and the records written since, in order and numbered by position. */
    ghost predicate Valid()
      reads this
    {
      && View() == Fold(env, OpsOf(log))
      && replayed <= |log|
      && (forall i :: replayed <= i < |log| ==> log[i].seqNo == i + 1)
      && (journal.None? ==> replayed == 0)
      && (journal.Some? ==>
            && log[..replayed] == RecordsOf(env, base)
            && journal.value == base + Written(env, log[replayed..]))
    }

    /** Everything recorded since the store was opened was admitted when it was
        recorded, whatever the replay had found before. */
    ghost predicate Clean()
      reads this
    {
      Admitted(env, OpsOf(log), replayed)
    }

    /** One record was journaled, applied and logged, and nothing else done. */
    twostate predicate Appended(new r: AuditRecord)
      reads this
    {
      && log == old(log) + [r]
      && View() == Step(env, old(View()), r.op)
      && journal == (if old(journal).None? then None else Some(old(journal).value + Line(env, r)))
      && base == old(base) && replayed == old(replayed)
    }

    /** What a typed entry point does: a refused call changes nothing; an
        admitted one applies its operation, once, and answers the record. */
    twostate predicate Answers(op: Op, now: Time, new r: Result<AuditRecord>)
      reads this
    {
      var refusal := Refusal(env, old(View()), op);
      if refusal.Some? then r == Err(refusal.value) && unchanged(this)
      else
        && r == Ok(AuditRecord(|old(log)| + 1, now, op))
        && Appended(r.value)
        && Apply(env, old(View()), op) == Ok(View())
        && (old(Clean()) ==> Clean())
    }

    // -------------------------------------------------------------------
    // Opening
    // -------------------------------------------------------------------

    /** `Store::open`. `file` is the journal's content, empty if it does not
        exist yet; without a journal there is nothing to replay. */
    constructor (env: Env, file: Option<string>, seedWhenEmpty: bool, seedOps: seq<Op>, clock: seq<Time>)
      requires |clock| == |seedOps|
      ensures Valid() && this.env == env
      ensures var text := if file.Some? then file.value else "";
        && base == text
        && log == OpenLog(env, text, seedWhenEmpty, seedOps, clock)
        && journal == (if file.Some? then Some(OpenFile(env, text, seedWhenEmpty, seedOps, clock)) else None)
        && replayed == |RecordsOf(env, text)|
      ensures log == RecordsOf(env, base) || History(env, seedOps) ==> Clean()
    {
      hide Apply, Step, Fold, RecordsOf, Written, Lines, Admitted, Refusal;
      this.env := env;
      graph, master := TrustGraph(map[], []), MasterList(1, 0, map[], map[]);
      trustLists, frameworks, ledger, evidence := map[], map[], [], map[];
      log, journal := [], None;
      base, replayed := "", 0;
      new;
      NothingRecorded(env);
      NothingWritten(env);
      FoldNothing(env);
      assert OpsOf([]) == [];
      if file.Some? {
        Replay(file.value);
        journal := file;
        base, replayed := file.value, |log|;
        assert log[replayed..] == [] && file.value + "" == file.value;
        assert log[..replayed] == log;
      }
      if seedWhenEmpty && log == [] {
        SeedFixtures(seedOps, clock);
        assert log[0..] == log;
        assert OpsOf(log) == seedOps;
      }
      if |log| <= replayed {
        NoneSince(env, OpsOf(log), replayed);
      }
    }

    /** `replay`: skip blank and unreadable lines, apply and log the others;
        an operation that fails to apply is logged all the same. */
    method Replay(text: string)
      requires log == [] && View() == EMPTY
      modifies this
      ensures log == RecordsOf(env, text) && View() == Fold(env, OpsOf(log))
      ensures journal == old(journal) && base == old(base) && replayed == old(replayed)
    {
      hide Apply, Step, Fold, RecordOf, Lines;
      var lines := Lines(text);
      assert OpsOf([]) == [];
      FoldNothing(env);
      for i := 0 to |lines|
        invariant View() == Fold(env, OpsOf(log))
        invariant RecordsOf(env, text) == log + RecordsOfLines(env, lines[i..])
        invariant journal == old(journal) && base == old(base) && replayed == old(replayed)
      {
        var read := RecordOf(env, lines[i]);
        ghost var rest := lines[i..];
        assert rest[0] == lines[i] && rest[1..] == lines[i + 1..];
        assert log + (read + RecordsOfLines(env, lines[i + 1..])) == (log + read) + RecordsOfLines(env, lines[i + 1..]);
        if read != [] {
          assert read == [read[0]];
          OpsSnoc(log, read[0]);
          FoldSnoc(env, OpsOf(log), read[0].op);
          var _ := ApplyOp(read[0].op);
          log := log + [read[0]];
        } else {
          assert log + read == log;
        }
      }
      assert lines[|lines|..] == [] && log + [] == log;
    }

    /** `seed_fixtures`. */
    method SeedFixtures(seedOps: seq<Op>, clock: seq<Time>)
      requires Valid() && log == [] && |clock| == |seedOps|
      modifies this
      ensures Valid() && log == SeedRecords(seedOps, clock)
      ensures base == old(base) && replayed == old(replayed)
      ensures journal == if old(journal).None? then None else Some(base + Written(env, log))
    {
      hide Apply, Step, Fold, Written, Line, RecordsOf;
      ghost var all := SeedRecords(seedOps, clock);
      for i := 0 to |seedOps|
        invariant Valid() && log == all[..i]
        invariant base == old(base) && replayed == old(replayed) == 0
        invariant journal.Some? <==> old(journal).Some?
      {
        assert all[..i + 1] == all[..i] + [all[i]];
        var _ := Record(seedOps[i], clock[i]);
      }
      assert all[..|seedOps|] == all;
      assert log[0..] == log;
    }

    // -------------------------------------------------------------------
    // Applying and recording
    // -------------------------------------------------------------------

    /** `apply_op`. */
    method ApplyOp(op: Op) returns (r: Result<()>)
      modifies this`graph, this`trustLists, this`frameworks, this`master, this`ledger, this`evidence
      ensures View() == Step(env, old(View()), op)
      ensures r == match Apply(env, old(View()), op) { case Ok(_) => Ok(()) case Err(e) => Err(e) }
    {
      match op
      case RegisterNode(node) =>
        MergeInto(node);
        return Ok(());
      case AddEdge(credential) =>
        var g := Signatif.AddEdge(env, graph, credential);
        if g.None? {
          return Err(Invalid);
        }
        graph := g.value;
        return Ok(());
      case RegisterTrustList(jurisdiction, framework) =>
        var key := Upper(jurisdiction);
        if key in trustLists {
          return Err(Conflict);
        }
        trustLists := trustLists[key := TrustList(jurisdiction, map[])];
        frameworks := frameworks[key := framework];
        return Ok(());
      case UpsertTrustEntry(jurisdiction, node, notBefore, supersededAt) =>
        var key := Upper(jurisdiction);
        if key !in trustLists {
          return Err(NotFound);
        }
        var list := WriteEntry(trustLists[key], node, notBefore, supersededAt);
        trustLists := trustLists[key := list];
        return Ok(());
      case SetWitnesses(m, witnesses) =>
        if m == 0 {
          return Err(Invalid);
        }
        if witnesses == [] {
          return Err(Invalid);
        }
        if m > |witnesses| {
          return Err(Invalid);
        }
        master := NewMaster(m, witnesses, master.entries);
        return Ok(());
      case UpsertMasterEntry(entry) =>
        var known := CheckWitnesses(entry);
        if !known {
          return Err(Invalid);
        }
        master := master.(entries := master.entries[entry.node := entry]);
        return Ok(());
      case DeclareRevocation(revocation) =>
        var holds := CheckQuorum(revocation);
        if !holds {
          return Err(Invalid);
        }
        var l := Declare(ledger, revocation);
        if l.None? {
          return Err(Invalid);
        }
        ledger := l.value;
        return Ok(());
      case RegisterEvidence(item) =>
        if item.id in evidence {
          return Err(Conflict);
        }
        evidence := evidence[item.id := item];
        return Ok(());
      case EvidenceReleased(_, _, _) =>
        return Ok(());
    }

    /** Insert or merge: the incoming kind, and the keys not yet known. */
    method MergeInto(node: DelegationNode)
      modifies this`graph
      ensures graph == MergeNode(old(graph), node)
    {
      graph := Signatif.AddNode(graph, node);
      var existing := graph.nodes[node.id].(kind := node.kind);
      ghost var start := existing.keys;
      for i := 0 to |node.keys|
        invariant existing == graph.nodes[node.id].(kind := node.kind, keys := existing.keys)
        invariant MergeKeys(existing.keys, node.keys[i..]) == MergeKeys(start, node.keys)
      {
        var k := node.keys[i];
        assert node.keys[i..][0] == k && node.keys[i..][1..] == node.keys[i + 1..];
        if k.keyId !in KeyIds(existing.keys) {
          existing := existing.(keys := existing.keys + [k]);
        }
      }
      graph := graph.(nodes := graph.nodes[node.id := existing]);
    }

    /** `apply_entry` of src/wire.rs. */
    method WriteEntry(list: TrustList, node: NodeId, notBefore: Time, supersededAt: Option<Time>) returns (l: TrustList)
      ensures l == ApplyEntry(list, node, notBefore, supersededAt)
    {
      var entry;
      if node in list.entries {
        entry := list.entries[node];
        if entry.notBefore != notBefore {
          entry := entry.(notBefore := notBefore);
        }
        entry := entry.(supersededAt := supersededAt);
      } else {
        entry := TrustListEntry(node, notBefore, supersededAt);
      }
      l := list.(entries := list.entries[node := entry]);
    }

    method CheckWitnesses(entry: MasterListEntry) returns (known: bool)
      ensures known == WitnessesKnown(master, entry)
    {
      for i := 0 to |entry.attestations|
        invariant forall a :: a in entry.attestations[..i] ==> a.witnessId in master.witnesses
      {
        assert entry.attestations[..i + 1] == entry.attestations[..i] + [entry.attestations[i]];
        if entry.attestations[i].witnessId !in master.witnesses {
          return false;
        }
      }
      assert entry.attestations[..|entry.attestations|] == entry.attestations;
      return true;
    }

    method CheckQuorum(revocation: Revocation) returns (holds: bool)
      ensures holds == QuorumHolds(env, graph, revocation)
    {
      if revocation.reason.IsRetroactive() {
        if revocation.quorum.None? {
          return false;
        }
        var v := Quorum.Judge(env, graph, revocation.quorum.value, env.statementBytes(revocation));
        return v.quorate;
      }
      return true;
    }

    /** `record`: journal, apply, log. */
    method Record(op: Op, now: Time) returns (r: AuditRecord)
      requires Valid()
      modifies this
      ensures Valid() && r == AuditRecord(|old(log)| + 1, now, op) && Appended(r)
    {
      hide Apply, Step, Fold, Written, Line, RecordsOf;
      r := AuditRecord(|log| + 1, now, op);
      if journal.Some? {
        journal := Some(journal.value + Line(env, r));
      }
      var _ := ApplyOp(op);
      log := log + [r];
      OpsSnoc(old(log), r);
      FoldSnoc(env, OpsOf(old(log)), op);
      WrittenSnoc(env, old(log)[replayed..], r);
      assert log[replayed..] == old(log)[replayed..] + [r];
      assert log[..replayed] == old(log)[..replayed];
    }

    // -------------------------------------------------------------------
    // Typed entry points
    // -------------------------------------------------------------------

    /** Recording what was admitted is what an entry point owes. */
    method RecordAdmitted(op: Op, now: Time) returns (r: AuditRecord)
      requires Valid() && Refusal(env, View(), op).None?
      modifies this
      ensures Valid() && Answers(op, now, Ok(r))
    {
      hide Apply, Refusal, Fold, Admitted, Written, RecordsOf;
      AdmittedApplies(env, View(), op);
      AdmittedSnoc(env, OpsOf(log), op, replayed);
      r := Record(op, now);
      OpsSnoc(old(log), r);
    }

    method RegisterNode(node: DelegationNode, now: Time) returns (r: Result<AuditRecord>)
      requires Valid()
      modifies this
      ensures Valid() && Answers(Op.RegisterNode(node), now, r)
    {
      hide Apply, Step, Fold, Admitted, Written, RecordsOf;
      var rec := RecordAdmitted(Op.RegisterNode(node), now);
      return Ok(rec);
    }

    method AddEdge(credential: DelegationCredential, now: Time) returns (r: Result<AuditRecord>)
      requires Valid()
      modifies this
      ensures Valid() && Answers(Op.AddEdge(credential), now, r)
    {
      hide Apply, Step, Fold, Admitted, Written, RecordsOf;
      var clone := graph;
      if Signatif.AddEdge(env, clone, credential).None? {
        return Err(Invalid);
      }
      var rec := RecordAdmitted(Op.AddEdge(credential), now);
      return Ok(rec);
    }

    method RegisterTrustList(jurisdiction: string, framework: Option<string>, now: Time)
      returns (r: Result<AuditRecord>)
      requires Valid()
      modifies this
      ensures Valid() && Answers(Op.RegisterTrustList(jurisdiction, framework), now, r)
    {
      hide Apply, Step, Fold, Admitted, Written, RecordsOf;
      if Upper(jurisdiction) in trustLists {
        return Err(Conflict);
      }
      var rec := RecordAdmitted(Op.RegisterTrustList(jurisdiction, framework), now);
      return Ok(rec);
    }

    method UpsertTrustEntry(jurisdiction: string, node: NodeId, notBefore: Time, supersededAt: Option<Time>, now: Time)
      returns (r: Result<AuditRecord>)
      requires Valid()
      modifies this
      ensures Valid() && Answers(Op.UpsertTrustEntry(jurisdiction, node, notBefore, supersededAt), now, r)
    {
      hide Apply, Step, Fold, Admitted, Written, RecordsOf;
      if Upper(jurisdiction) !in trustLists {
        return Err(NotFound);
      }
      var rec := RecordAdmitted(Op.UpsertTrustEntry(jurisdiction, node, notBefore, supersededAt), now);
      return Ok(rec);
    }

    method SetWitnesses(m: nat, witnesses: seq<(NodeId, PublicKey)>, now: Time) returns (r: Result<AuditRecord>)
      requires Valid()
      modifies this
      ensures Valid() && Answers(Op.SetWitnesses(m, witnesses), now, r)
    {
      hide Apply, Step, Fold, Admitted, Written, RecordsOf;
      if m == 0 || witnesses == [] || m > |witnesses| {
        return Err(Invalid);
      }
      var rec := RecordAdmitted(Op.SetWitnesses(m, witnesses), now);
      return Ok(rec);
    }

    method UpsertMasterEntry(entry: MasterListEntry, now: Time) returns (r: Result<AuditRecord>)
      requires Valid()
      modifies this
      ensures Valid() && Answers(Op.UpsertMasterEntry(entry), now, r)
    {
      hide WitnessesKnown, Apply, Step, Fold, Admitted, Written, RecordsOf;
      var known := CheckWitnesses(entry);
      if !known {
        return Err(Invalid);
      }
      var rec := RecordAdmitted(Op.UpsertMasterEntry(entry), now);
      return Ok(rec);
    }

    method DeclareRevocation(revocation: Revocation, now: Time) returns (r: Result<AuditRecord>)
      requires Valid()
      modifies this
      ensures Valid() && Answers(Op.DeclareRevocation(revocation), now, r)
    {
      hide QuorumHolds, Refusal, Declare, Apply, Step, Fold, Admitted, Written, Line, RecordsOf;
      DeclarationRefusal(env, View(), revocation);
      var holds := CheckQuorum(revocation);
      if !holds {
        return Err(Invalid);
      }
      var clone := ledger;
      if Declare(clone, revocation).None? {
        return Err(Invalid);
      }
      var rec := RecordAdmitted(Op.DeclareRevocation(revocation), now);
      return Ok(rec);
    }

    method RegisterEvidence(item: Evidence, now: Time) returns (r: Result<AuditRecord>)
      requires Valid()
      modifies this
      ensures Valid() && Answers(Op.RegisterEvidence(item), now, r)
    {
      hide Apply, Step, Fold, Admitted, Written, RecordsOf;
      if item.id in evidence {
        return Err(Conflict);
      }
      if Trim(item.id) == "" {
        return Err(Invalid);
      }
      if Trim(item.requiredScope) == "" {
        return Err(Invalid);
      }
      if item.content == [] {
        return Err(Invalid);
      }
      var rec := RecordAdmitted(Op.RegisterEvidence(item), now);
      return Ok(rec);
    }

    /** `release_evidence`: the document as registered, and a record of the
        release; a refusal leaves no record. */
    method ReleaseEvidence(id: string, requester: Option<string>, scope: string, now: Time)
      returns (r: Result<Evidence>)
      requires Valid()
      modifies this
      ensures r == ReleaseResult(old(View()), id, scope)
      ensures r.Err? ==> unchanged(this)
      ensures r.Ok? ==> View() == old(View())
      ensures r.Ok? ==>
        Answers(Op.EvidenceReleased(id, requester, scope), now,
                Ok(AuditRecord(|old(log)| + 1, now, Op.EvidenceReleased(id, requester, scope))))
      ensures Valid()
    {
      hide Apply, Step, Fold, Admitted, Written, RecordsOf;
      if id !in evidence {
        return Err(NotFound);
      }
      var item := evidence[id];
      if scope != item.requiredScope {
        return Err(Invalid);
      }
      var released := item;
      ReleaseChangesNothing(env, View(), id, requester, scope);
      var rec := RecordAdmitted(Op.EvidenceReleased(id, requester, scope), now);
      return Ok(released);
    }
  }

  lemma NoneSince(env: Env, ops: seq<Op>, n: nat)
    requires |ops| <= n
    ensures Admitted(env, ops, n)
  {
  }

  lemma WrittenSnoc(env: Env, log: seq<AuditRecord>, r: AuditRecord)
    ensures Written(env, log + [r]) == Written(env, log) + Line(env, r)
  {
    WrittenConcat(env, log, [r]);
    hide Line;
    assert [r][1..] == [] && Written(env, [r]) == Line(env, r) + Written(env, []);
    assert Line(env, r) + "" == Line(env, r);
  }
}
