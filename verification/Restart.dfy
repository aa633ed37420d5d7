/** Starting again on a journal: what a reopened store holds. */
module Restart {
  import opened Text
  import opened Signatif
  import opened Records
  import opened State
  import opened Journal
  import opened Store
  import Histories
  import Lives
  import Quorum
  import Rfc3339
  import Wire

  ghost predicate AllFit(env: Env, log: seq<AuditRecord>) {
    forall r :: r in log ==> RecordFits(env, r)
  }

  /** What the next start reads of a run: all that was replayed, if nothing was
      written; else what complete lines held, and the fitting records written
      since, without the first if it shared a torn line. */
  ghost function Survivors(env: Env, d: Lives.Disk, since: seq<AuditRecord>): seq<AuditRecord> {
    if since == [] then Lives.Replayed(env, d)
    else d.closed + Fitting(env, if d.tail == [] then since else since[1..])
  }

  /** Replay refinement, on a journal in whatever condition earlier crashes left
      it: the next start reads back exactly the survivors. */
  lemma JournalReplays(s: Store, d: Lives.Disk)
    requires s.Valid() && s.journal.Some? && Lives.Holds(s.env, s.base, d)
    requires TypedLog(s.env, s.log[s.replayed..])
    ensures s.log[..s.replayed] == Lives.Replayed(s.env, d)
    ensures RecordsOf(s.env, s.journal.value) == Survivors(s.env, d, s.log[s.replayed..])
  {
    hide Fold, RecordsOf, Written, TypedLog, Fitting, Lives.Holds, Lives.Write, Lives.Salvaged;
    var since, all := s.log[s.replayed..], s.journal.value;
    Lives.HeldIsReplayed(s.env, s.base, d);
    assert all[..|all|] == all && |all| - |s.base| == |Written(s.env, since)|;
    NextStartReplays(s, d, |all|);
    Lives.UncutLife(s.env, d, since);
    NothingSalvaged(s.env);
    var kept := d.closed + Fitting(s.env, if since == [] || d.tail == [] then since else since[1..]);
    assert kept + [] == kept;
  }

  lemma NothingSalvaged(env: Env)
    ensures Lives.Salvaged(env, []) == []
  {
  }

  /** So the log and with it the whole state come back exactly when nothing was
      written, or when the store was opened on a complete line and every record
      written since fits. */
  lemma RestartRestores(s: Store, d: Lives.Disk)
    requires s.Valid() && s.journal.Some? && Lives.Holds(s.env, s.base, d)
    requires TypedLog(s.env, s.log[s.replayed..])
    ensures var since := s.log[s.replayed..];
      var intact := since == [] || (d.tail == [] && AllFit(s.env, since));
      && (RecordsOf(s.env, s.journal.value) == s.log <==> intact)
      && (intact ==> Fold(s.env, OpsOf(RecordsOf(s.env, s.journal.value))) == s.View())
  {
    hide Fold, RecordsOf, Written, AllFit, TypedLog, Lives.Holds;
    JournalReplays(s, d);
    assert s.log == s.log[..s.replayed] + s.log[s.replayed..];
    SurvivorsAreAll(s.env, d, s.log[s.replayed..]);
  }

  lemma SurvivorsAreAll(env: Env, d: Lives.Disk, since: seq<AuditRecord>)
    ensures Survivors(env, d, since) == Lives.Replayed(env, d) + since
       <==> since == [] || (d.tail == [] && AllFit(env, since))
  {
    hide RecordFits, Lives.Salvaged;
    NothingSalvaged(env);
    if since != [] {
      FittingAll(env, since);
      FittingAll(env, since[1..]);
      assert d.closed + [] == d.closed;
      SameTail(d.closed, Fitting(env, since), since);
    }
  }

  lemma SameTail<T>(a: seq<T>, b: seq<T>, c: seq<T>)
    ensures a + b == a + c <==> b == c
  {
    assert (a + b)[|a|..] == b && (a + c)[|a|..] == c;
  }

  /** A run leaves the journal as it found it in one respect: if it ended a
      line, it still does. */
  lemma JournalStaysClosed(s: Store)
    requires s.Valid() && s.journal.Some? && Closed(s.base)
    ensures Closed(s.journal.value)
  {
    hide Fold, RecordsOf, Written;
    WrittenClosed(s.env, s.log[s.replayed..]);
  }

  /** The two together, as a run: a store opened on the journal of another
      one holds the same log and the same state, and can be reopened in turn. */
  method Reopen(s: Store, seedWhenEmpty: bool, seedOps: seq<Op>, clock: seq<Time>) returns (t: Store)
    requires s.Valid() && s.journal.Some? && Closed(s.base) && s.log != []
    requires TypedLog(s.env, s.log[s.replayed..]) && AllFit(s.env, s.log[s.replayed..])
    requires |clock| == |seedOps|
    ensures t.Valid() && t.Clean() && t.env == s.env
    ensures t.log == s.log && t.View() == s.View() && t.journal == s.journal
    ensures Some(t.base) == s.journal && Closed(t.base) && t.replayed == |t.log|
    ensures s.base == Written(s.env, s.log[..s.replayed]) ==> t.base == Written(t.env, t.log)
  {
    hide Fold, RecordsOf, Written, OpenLog, OpenFile, Closed, AllFit, TypedLog, Admitted, Lives.Holds;
    Lives.ClosedHolds(s.env, s.base);
    RestartRestores(s, Lives.Disk(RecordsOf(s.env, s.base), []));
    JournalStaysClosed(s);
    if s.base == Written(s.env, s.log[..s.replayed]) {
      WholeJournal(s);
    }
    NothingSeeded(s.env, s.journal.value, seedWhenEmpty, seedOps, clock);
    t := new Store(s.env, s.journal, seedWhenEmpty, seedOps, clock);
  }

  lemma NothingSeeded(env: Env, file: string, seedWhenEmpty: bool, seedOps: seq<Op>, clock: seq<Time>)
    requires |clock| == |seedOps| && RecordsOf(env, file) != []
    ensures OpenLog(env, file, seedWhenEmpty, seedOps, clock) == RecordsOf(env, file)
    ensures OpenFile(env, file, seedWhenEmpty, seedOps, clock) == file
  {
    hide RecordsOf, Written;
  }

  lemma WholeJournal(s: Store)
    requires s.Valid() && s.journal.Some? && s.base == Written(s.env, s.log[..s.replayed])
    ensures s.journal.value == Written(s.env, s.log)
  {
    hide Fold, RecordsOf, Written;
    WrittenConcat(s.env, s.log[..s.replayed], s.log[s.replayed..]);
    assert s.log == s.log[..s.replayed] + s.log[s.replayed..];
  }

  /** A crash at any point of writing: what the next start finds is the log as
      it stood at some earlier moment, and so the state of that moment. If the
      whole journal is this service's own, the cut may lie anywhere in it. */
  lemma CrashRestoresMoment(s: Store, k: nat) returns (n: nat)
    requires s.Valid() && s.journal.Some? && Closed(s.base)
    requires TypedLog(s.env, s.log) && AllFit(s.env, s.log[s.replayed..])
    requires |s.base| <= k || s.base == Written(s.env, s.log[..s.replayed])
    requires k <= |s.journal.value|
    ensures n <= |s.log| && RecordsOf(s.env, s.journal.value[..k]) == s.log[..n]
    ensures |s.base| <= k ==> s.replayed <= n
    ensures k == |s.journal.value| ==> n == |s.log|
  {
    hide Fold, RecordsOf, Written, AllFit, TypedLog;
    var past, since := s.log[..s.replayed], s.log[s.replayed..];
    assert s.log == past + since;
    TypedParts(s.env, past, since);
    if |s.base| <= k {
      var m := k - |s.base|;
      var whole := CutRestores(s.env, s.base, since, m);
      n := s.replayed + whole;
      assert s.journal.value[..k] == s.base + Written(s.env, since)[..m];
      Slices(s.log, s.replayed, whole);
    } else {
      WrittenReplays(s.env, past);
      FittingAll(s.env, past);
      AllFitOf(s.env, past);
      NothingRecorded(s.env);
      n := CutRestores(s.env, "", past, k);
      assert s.journal.value[..k] == "" + Written(s.env, past)[..k];
      assert past[..n] == s.log[..n];
    }
  }

  lemma TypedParts(env: Env, a: seq<AuditRecord>, b: seq<AuditRecord>)
    requires TypedLog(env, a + b)
    ensures TypedLog(env, a) && TypedLog(env, b)
  {
    hide TypedRecord;
    assert forall r :: r in a || r in b ==> r in a + b;
  }

  lemma AllFitOf(env: Env, log: seq<AuditRecord>)
    requires forall r :: r in log ==> RecordFits(env, r)
    ensures AllFit(env, log)
  {
  }

  lemma Slices<T>(s: seq<T>, a: nat, b: nat)
    requires a + b <= |s|
    ensures s[..a] + s[a..][..b] == s[..a + b]
  {
  }

  lemma CutRestores(env: Env, base: string, since: seq<AuditRecord>, m: nat) returns (whole: nat)
    requires Closed(base) && TypedLog(env, since) && AllFit(env, since)
    requires m <= |Written(env, since)|
    ensures whole <= |since|
    ensures RecordsOf(env, base + Written(env, since)[..m]) == RecordsOf(env, base) + since[..whole]
    ensures m == |Written(env, since)| ==> whole == |since|
  {
    hide RecordsOf, RecordFits, Written;
    whole := WholeRecords(env, since, m);
    CrashRecoversPrefix(env, since, m);
    WholeRecordsMaximal(env, since, m);
    AllFitPrefix(env, since, whole);
    FittingAll(env, since[..whole]);
    ClosedRecords(env, base, Written(env, since)[..m]);
    if whole < |since| {
      WrittenSplit(env, since, whole);
    }
  }

  lemma AllFitPrefix(env: Env, log: seq<AuditRecord>, n: nat)
    requires AllFit(env, log) && n <= |log|
    ensures AllFit(env, log[..n])
  {
  }

  lemma WrittenSplit(env: Env, log: seq<AuditRecord>, n: nat)
    requires n < |log|
    ensures |Written(env, log)| >= |Written(env, log[..n])| + |RecordText(env, log[n])| + 1
  {
    hide RecordText;
    assert log == log[..n] + log[n..];
    WrittenConcat(env, log[..n], log[n..]);
    assert Written(env, log[n..]) == Line(env, log[n]) + Written(env, log[n..][1..]);
  }

  // ---------------------------------------------------------------------
  // The live store
  // ---------------------------------------------------------------------

  /** Retroactive safety of a live store, whatever journal it was opened on:
      what its ledger holds was declared by a record of its log, and if it is
      retroactive was quorate against the graph that the records before it
      built. */
  lemma LedgerIsSafe(s: Store, r: Revocation) returns (i: nat)
    requires s.Valid() && r in s.ledger
    ensures i < |s.log| && s.log[i].op == DeclareRevocation(r)
    ensures r.reason.IsRetroactive() ==>
      && r.quorum.Some?
      && Quorum.VerdictOf(s.env, Fold(s.env, OpsOf(s.log[..i])).graph, r.quorum.value, s.env.statementBytes(r)).quorate
  {
    hide Fold, Quorum.VerdictOf;
    assert s.View().ledger == s.ledger;
    i := Histories.RetroactiveSafety(s.env, OpsOf(s.log), r);
    assert OpsOf(s.log)[..i] == OpsOf(s.log[..i]);
  }

  /** What a live store releases is what a record of its log registered. */
  lemma ReleasesAsRegistered(s: Store, id: string, scope: string) returns (i: nat)
    requires s.Valid() && ReleaseResult(s.View(), id, scope).Ok?
    ensures i < |s.log| && s.log[i].op == RegisterEvidence(ReleaseResult(s.View(), id, scope).value)
    ensures s.log[i].op.evidence.id == id && s.log[i].op.evidence.requiredScope == scope
  {
    hide Fold;
    i := Histories.EvidenceWasRegistered(s.env, OpsOf(s.log), id);
  }

  /** Whatever journal it was opened on, each release that a store records
      follows a registration in its log, of that id and under that scope. */
  lemma ReleaseIsJustified(s: Store, i: nat) returns (j: nat)
    requires s.Valid() && s.Clean() && s.replayed <= i < |s.log| && s.log[i].op.EvidenceReleased?
    ensures j < i && s.log[j].op.RegisterEvidence?
    ensures s.log[j].op.evidence.id == s.log[i].op.id && s.log[j].op.evidence.requiredScope == s.log[i].op.scope
  {
    hide Fold, Refusal;
    j := Histories.ReleaseWasRegistered(s.env, OpsOf(s.log), i);
  }

  // ---------------------------------------------------------------------
  // Crashes, one after another
  // ---------------------------------------------------------------------

  /** One life of a store, opened on whatever earlier crashes left and cut at
      any point of what it wrote. The account of the disk carries on, and tells
      the log that the next start replays; that start's `base` is the cut file,
      so the lemma applies again, life after life. */
  lemma NextStartReplays(s: Store, d: Lives.Disk, k: nat)
    requires s.Valid() && s.journal.Some? && Lives.Holds(s.env, s.base, d)
    requires TypedLog(s.env, s.log[s.replayed..]) && |s.base| <= k <= |s.journal.value|
    ensures var left := s.journal.value[..k];
      var after := Lives.Write(s.env, d, s.log[s.replayed..], k - |s.base|);
      && Lives.Holds(s.env, left, after)
      && RecordsOf(s.env, left) == Lives.Replayed(s.env, after)
      && d.closed <= after.closed
  {
    hide Fold, RecordsOf, Written, TypedLog, Lives.Holds, Lives.Write, Lives.Replayed;
    var since, m := s.log[s.replayed..], k - |s.base|;
    assert s.journal.value[..k] == s.base + Written(s.env, since)[..m];
    Lives.WriteHolds(s.env, s.base, d, since, m);
    Lives.HeldIsReplayed(s.env, s.journal.value[..k], Lives.Write(s.env, d, since, m));
    Lives.ClosedLinesKept(s.env, d, since, m);
  }

  /** A store that was opened on a torn line and has since written records
      will, at the next start, have lost the first of them, and with it the
      record on the torn line even if only its newline was missing. */
  lemma TornRestartLoses(s: Store, text: string, torn: AuditRecord, k: nat)
    requires s.Valid() && s.journal.Some? && Closed(text)
    requires 0 < k <= |RecordText(s.env, torn)| && s.base == text + RecordText(s.env, torn)[..k]
    requires s.replayed < |s.log| && TypedLog(s.env, s.log[s.replayed..])
    ensures RecordsOf(s.env, s.journal.value) == RecordsOf(s.env, text) + Fitting(s.env, s.log[s.replayed..][1..])
  {
    hide Fold, RecordsOf, RecordText, Written, TypedLog;
    TornTailSwallowsNext(s.env, text, torn, k, s.log[s.replayed..]);
  }

  // ---------------------------------------------------------------------
  // A record that does not come back
  // ---------------------------------------------------------------------

  /** The entry point takes a trust-list entry dated by a text that the parser
      accepts, applies it and journals it; the next start does not find it. */
  lemma UnprintableIsLost(s: Store, j: string, node: NodeId, now: Time)
    requires s.Valid() && s.journal.Some? && Closed(s.base)
    requires |s.log| + 1 < Wire.U64 && s.env.nodeIdOk(node) && Upper(j) in s.trustLists
    ensures var at := Rfc3339.LAST + 60;
      var op := UpsertTrustEntry(j, node, at, None);
      var r := AuditRecord(|s.log| + 1, now, op);
      && Rfc3339.Parse("9999-12-31T23:59:59-00:01") == Some(at)
      && Refusal(s.env, s.View(), op).None?
      && Histories.EntryOf(Step(s.env, s.View(), op), Upper(j), node) == Some(TrustListEntry(node, at, None))
      && RecordsOf(s.env, s.journal.value + Line(s.env, r)) == RecordsOf(s.env, s.journal.value)
  {
    hide Fold, RecordsOf, Rfc3339.Parse, Rfc3339.Printable, Step, Refusal, Upper, Histories.EntryOf,
      Histories.ListsAligned, Line, Closed, TypedRecord, RecordFits;
    var at := Rfc3339.LAST + 60;
    var op := UpsertTrustEntry(j, node, at, None);
    var r := AuditRecord(|s.log| + 1, now, op);
    Rfc3339.OffsetLeavesRange();
    Histories.ListsStayAligned(s.env, OpsOf(s.log));
    assert s.View().trustLists == s.trustLists;
    Histories.EntryStep(s.env, s.View(), op, Upper(j), node);
    EntryRefusal(s.env, s.View(), op);
    JournalStaysClosed(s);
    EntryUnfit(s.env, r);
    UnfitLineIsSkipped(s.env, s.journal.value, r);
  }

  lemma EntryUnfit(env: Env, r: AuditRecord)
    requires r.seqNo < Wire.U64 && r.op.UpsertTrustEntry? && env.nodeIdOk(r.op.trusted)
    requires !Rfc3339.Printable(r.op.notBefore)
    ensures TypedRecord(env, r) && !RecordFits(env, r)
  {
  }

  lemma UnfitLineIsSkipped(env: Env, text: string, r: AuditRecord)
    requires Closed(text) && TypedRecord(env, r) && !RecordFits(env, r)
    ensures RecordsOf(env, text + Line(env, r)) == RecordsOf(env, text)
  {
    hide RecordsOf, Line, TypedRecord, RecordFits, Written;
    AppendReplays(env, text, [r]);
    WrittenSnoc(env, [], r);
    NothingWritten(env);
    assert [] + [r] == [r] && "" + Line(env, r) == Line(env, r);
    assert Fitting(env, [r]) == [] + Fitting(env, [r][1..]);
  }

  // ---------------------------------------------------------------------
  // Numbering
  // ---------------------------------------------------------------------

  /** Numbered without a gap, from `n + 1` on. */
  predicate NumberedFrom(log: seq<AuditRecord>, n: nat) {
    forall i :: 0 <= i < |log| ==> log[i].seqNo == n + i + 1
  }

  /** The next number, as `record` assigns it, exceeds those in use. */
  predicate NextIsFresh(log: seq<AuditRecord>) {
    log != [] ==> log[|log| - 1].seqNo < |log| + 1
  }

  /** What does not fit comes after all that does. */
  ghost predicate LossesLast(env: Env, log: seq<AuditRecord>) {
    forall i, j :: 0 <= i < j < |log| && RecordFits(env, log[j]) ==> RecordFits(env, log[i])
  }

  /** How the numbers of what is kept show what was lost. */
  predicate Tells(kept: seq<AuditRecord>, log: seq<AuditRecord>, n: nat) {
    && (NumberedFrom(kept, n) <==> kept <= log)
    && (kept != [] ==> kept[0].seqNo >= n + 1 && kept[|kept| - 1].seqNo >= n + |kept|)
    && (!(kept <= log) <==> kept != [] && kept[|kept| - 1].seqNo > n + |kept|)
  }

  /** What is kept of consecutively numbered records is consecutive exactly if
      it is a prefix, exactly if the losses come last; otherwise the last
      number kept is beyond the count. */
  lemma {:induction false} KeptNumbers(env: Env, log: seq<AuditRecord>, n: nat)
    requires NumberedFrom(log, n)
    ensures Tells(Fitting(env, log), log, n)
    ensures Fitting(env, log) <= log <==> LossesLast(env, log)
    decreases log
  {
    hide RecordFits, LossesLast, NumberedFrom, Tells;
    if log == [] {
      NothingTells(env, n);
    } else {
      var r, tail := log[0], log[1..];
      NumberedHead(log, n);
      KeptNumbers(env, tail, n + 1);
      var rest := Fitting(env, tail);
      assert log == [r] + tail;
      if RecordFits(env, r) {
        KeptHead(r, rest, tail, n);
        LossLater(env, log);
      } else {
        assert [] + rest == rest;
        LostHead(r, rest, tail, n);
        LossFirst(env, log);
      }
    }
  }

  lemma NothingTells(env: Env, n: nat)
    ensures Tells([], [], n) && LossesLast(env, [])
  {
  }

  lemma KeptHead(r: AuditRecord, rest: seq<AuditRecord>, tail: seq<AuditRecord>, n: nat)
    requires r.seqNo == n + 1 && Tells(rest, tail, n + 1)
    ensures Tells([r] + rest, [r] + tail, n)
    ensures [r] + rest <= [r] + tail <==> rest <= tail
  {
    hide NumberedFrom;
    NumberedHead([r] + rest, n);
    assert ([r] + rest)[1..] == rest && ([r] + tail)[1..] == tail;
    if [r] + rest <= [r] + tail {
      assert rest == ([r] + tail)[..1 + |rest|][1..];
    }
  }

  lemma LostHead(r: AuditRecord, rest: seq<AuditRecord>, tail: seq<AuditRecord>, n: nat)
    requires r.seqNo == n + 1 && Tells(rest, tail, n + 1)
    ensures Tells(rest, [r] + tail, n)
    ensures rest <= [r] + tail <==> rest == []
  {
    if rest != [] {
      assert rest[0].seqNo > n + 1 && ([r] + tail)[0] == r;
    }
  }

  lemma NumberedHead(log: seq<AuditRecord>, n: nat)
    requires log != []
    ensures NumberedFrom(log, n) <==> log[0].seqNo == n + 1 && NumberedFrom(log[1..], n + 1)
  {
    if NumberedFrom(log[1..], n + 1) {
      assert forall i :: 1 <= i < |log| ==> log[i] == log[1..][i - 1];
    }
  }

  lemma LossLater(env: Env, log: seq<AuditRecord>)
    requires log != [] && RecordFits(env, log[0])
    ensures LossesLast(env, log) <==> LossesLast(env, log[1..])
  {
    hide RecordFits;
    var tail := log[1..];
    assert forall i :: 0 <= i < |tail| ==> tail[i] == log[i + 1];
    if LossesLast(env, tail) {
      forall i, j | 0 <= i < j < |log| && RecordFits(env, log[j])
        ensures RecordFits(env, log[i])
      {
        if i > 0 {
          assert tail[i - 1] == log[i] && tail[j - 1] == log[j];
        }
      }
    }
  }

  lemma {:induction false} LossFirst(env: Env, log: seq<AuditRecord>)
    requires log != [] && !RecordFits(env, log[0])
    ensures LossesLast(env, log) <==> Fitting(env, log[1..]) == []
  {
    hide RecordFits;
    var tail := log[1..];
    assert forall i :: 0 <= i < |tail| ==> tail[i] == log[i + 1];
    if exists i :: 0 <= i < |tail| && RecordFits(env, tail[i]) {
      SomeFits(env, tail);
    } else {
      NothingFits(env, tail);
    }
  }

  lemma {:induction false} NothingFits(env: Env, log: seq<AuditRecord>)
    requires forall i :: 0 <= i < |log| ==> !RecordFits(env, log[i])
    ensures Fitting(env, log) == []
  {
    hide RecordFits;
    if log != [] {
      NothingFits(env, log[1..]);
    }
  }

  lemma {:induction false} SomeFits(env: Env, log: seq<AuditRecord>)
    requires exists i :: 0 <= i < |log| && RecordFits(env, log[i])
    ensures Fitting(env, log) != []
  {
    if log != [] && !RecordFits(env, log[0]) {
      var i :| 0 <= i < |log| && RecordFits(env, log[i]);
      assert log[1..][i - 1] == log[i];
      SomeFits(env, log[1..]);
    }
  }

  /** A store numbers on from what it replayed, gap-free exactly if that was. */
  lemma NumberingKept(s: Store)
    requires s.Valid()
    ensures NumberedFrom(s.log, 0) <==> NumberedFrom(s.log[..s.replayed], 0)
    ensures NumberedFrom(s.log[s.replayed..], s.replayed)
  {
    hide Fold, RecordsOf;
    assert forall i :: 0 <= i < s.replayed ==> s.log[i] == s.log[..s.replayed][i];
  }

  ghost predicate NoneFits(env: Env, log: seq<AuditRecord>) {
    forall r :: r in log ==> !RecordFits(env, r)
  }

  lemma FittingNone(env: Env, log: seq<AuditRecord>)
    ensures Fitting(env, log) == [] <==> NoneFits(env, log)
  {
    hide RecordFits;
    if NoneFits(env, log) {
      assert forall i :: 0 <= i < |log| ==> log[i] in log;
      NothingFits(env, log);
    } else {
      var r :| r in log && RecordFits(env, r);
      var i :| 0 <= i < |log| && log[i] == r;
      SomeFits(env, log);
    }
  }

  /** No record that is lost was followed by one that is kept. */
  ghost predicate NoGapSince(env: Env, d: Lives.Disk, since: seq<AuditRecord>) {
    || since == []
    || (if d.tail == [] then LossesLast(env, since) else NoneFits(env, since[1..]))
  }

  /** After the next start, on a journal in whatever condition earlier crashes
      had left it, the numbers are gap-free exactly if no lost record was
      followed by a kept one; and exactly then the next number is fresh. */
  lemma NumberingAfterRestart(s: Store, d: Lives.Disk)
    requires s.Valid() && s.journal.Some? && Lives.Holds(s.env, s.base, d)
    requires TypedLog(s.env, s.log[s.replayed..]) && NumberedFrom(s.log[..s.replayed], 0)
    ensures var next, since := RecordsOf(s.env, s.journal.value), s.log[s.replayed..];
      && (NumberedFrom(next, 0) <==> NoGapSince(s.env, d, since))
      && (NextIsFresh(next) <==> NoGapSince(s.env, d, since))
  {
    hide Fold, RecordsOf, Written, Fitting, LossesLast, NoneFits, TypedLog, Lives.Holds, NumberedFrom;
    NumberingKept(s);
    JournalReplays(s, d);
    var since := s.log[s.replayed..];
    if since == [] {
      NumberedIsFresh(s.log[..s.replayed]);
    } else if d.tail == [] {
      NothingSalvaged(s.env);
      assert d.closed + [] == d.closed;
      KeptNumbers(s.env, since, s.replayed);
      ToldByKept(d.closed, Fitting(s.env, since), since, s.replayed);
    } else {
      SwallowedRepeatsNumber(s, d);
    }
  }

  lemma NumberedIsFresh(log: seq<AuditRecord>)
    requires NumberedFrom(log, 0)
    ensures NextIsFresh(log)
  {
  }

  lemma ToldByKept(past: seq<AuditRecord>, kept: seq<AuditRecord>, log: seq<AuditRecord>, n: nat)
    requires NumberedFrom(past, 0) && |past| == n && Tells(kept, log, n)
    ensures NumberedFrom(past + kept, 0) <==> kept <= log
    ensures NextIsFresh(past + kept) <==> kept <= log
  {
    Continued(past, kept);
  }

  lemma Continued(past: seq<AuditRecord>, kept: seq<AuditRecord>)
    requires NumberedFrom(past, 0)
    ensures NumberedFrom(past + kept, 0) <==> NumberedFrom(kept, |past|)
    ensures NextIsFresh(past + kept) <==> kept == [] || kept[|kept| - 1].seqNo <= |past| + |kept|
  {
    var all := past + kept;
    assert forall i :: 0 <= i < |past| ==> all[i] == past[i];
    assert forall i :: 0 <= i < |kept| ==> all[|past| + i] == kept[i];
    if NumberedFrom(all, 0) {
      forall i | 0 <= i < |kept|
        ensures kept[i].seqNo == |past| + i + 1
      {
        assert all[|past| + i].seqNo == |past| + i + 1;
      }
    }
  }

  /** After a torn line, however many crashes it was glued by: once a record has
      been swallowed, any that the next start finds behind it leaves a gap, and
      the next number does not exceed those in use. */
  lemma SwallowedRepeatsNumber(s: Store, d: Lives.Disk)
    requires s.Valid() && s.journal.Some? && Lives.Holds(s.env, s.base, d)
    requires TypedLog(s.env, s.log[s.replayed..]) && NumberedFrom(s.log[..s.replayed], 0)
    requires d.tail != [] && s.replayed < |s.log|
    ensures var next, behind := RecordsOf(s.env, s.journal.value), s.log[s.replayed..][1..];
      && (NumberedFrom(next, 0) <==> NoneFits(s.env, behind))
      && (NextIsFresh(next) <==> NoneFits(s.env, behind))
  {
    hide Fold, RecordsOf, Written, Fitting, NoneFits, TypedLog, Lives.Holds, Lives.Salvaged;
    NumberingKept(s);
    JournalReplays(s, d);
    var behind := s.log[s.replayed..][1..];
    assert d.closed <= s.log[..s.replayed];
    NumberedPrefix(d.closed, s.log[..s.replayed]);
    assert NumberedFrom(behind, s.replayed + 1);
    KeptNumbers(s.env, behind, s.replayed + 1);
    Swallowed(d.closed, Fitting(s.env, behind), behind, s.replayed + 1);
    FittingNone(s.env, behind);
  }

  lemma NumberedPrefix(a: seq<AuditRecord>, b: seq<AuditRecord>)
    requires a <= b && NumberedFrom(b, 0)
    ensures NumberedFrom(a, 0)
  {
  }

  lemma Swallowed(past: seq<AuditRecord>, kept: seq<AuditRecord>, log: seq<AuditRecord>, n: nat)
    requires NumberedFrom(past, 0) && |past| < n && Tells(kept, log, n)
    ensures NumberedFrom(past + kept, 0) <==> kept == []
    ensures NextIsFresh(past + kept) <==> kept == []
  {
    Continued(past, kept);
  }
}
