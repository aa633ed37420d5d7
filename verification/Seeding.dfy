/** When the fixtures are written: over openings, runs and crashes. */
module Seeding {
  import opened Text
  import opened Signatif
  import opened Records
  import opened Journal
  import opened Store
  import opened Lives
  import Restart
  import Wire

  /** The store is opened, seeding if it replays nothing, runs, and is cut. */
  datatype Session = Session(clock: seq<Time>, run: seq<AuditRecord>, cut: nat)

  ghost predicate TypedSeeds(env: Env, seedOps: seq<Op>) {
    |seedOps| < Wire.U64 && forall op :: op in seedOps ==> TypedOp(env, op)
  }

  lemma SeedsAreTyped(env: Env, seedOps: seq<Op>, clock: seq<Time>)
    requires TypedSeeds(env, seedOps) && |clock| == |seedOps|
    ensures TypedLog(env, SeedRecords(seedOps, clock))
  {
    hide TypedOp;
    forall r | r in SeedRecords(seedOps, clock)
      ensures TypedRecord(env, r)
    {
      var i :| 0 <= i < |seedOps| && SeedRecords(seedOps, clock)[i] == r;
      assert seedOps[i] in seedOps;
    }
  }

  /** What a session writes to the journal it finds. */
  function SessionWrites(env: Env, file: string, seedOps: seq<Op>, s: Session): seq<AuditRecord>
    requires |s.clock| == |seedOps|
  {
    (if RecordsOf(env, file) == [] then SeedRecords(seedOps, s.clock) else []) + s.run
  }

  ghost predicate Held(env: Env, seedOps: seq<Op>, s: Session) {
    |s.clock| == |seedOps| && TypedLog(env, s.run)
  }

  ghost predicate AllHeld(env: Env, seedOps: seq<Op>, sessions: seq<Session>) {
    TypedSeeds(env, seedOps) && forall i :: 0 <= i < |sessions| ==> Held(env, seedOps, sessions[i])
  }

  function Least(a: nat, b: nat): nat {
    if a < b then a else b
  }

  ghost function LifeOf(env: Env, file: string, seedOps: seq<Op>, s: Session): Life
    requires |s.clock| == |seedOps|
  {
    var written := SessionWrites(env, file, seedOps, s);
    Life(written, Least(s.cut, |Written(env, written)|))
  }

  lemma LifeIsLived(env: Env, file: string, seedOps: seq<Op>, s: Session)
    requires TypedSeeds(env, seedOps) && Held(env, seedOps, s)
    ensures Lived(env, LifeOf(env, file, seedOps, s))
  {
    hide TypedRecord, RecordsOf, Written;
    SeedsAreTyped(env, seedOps, s.clock);
    var seeds := SeedRecords(seedOps, s.clock);
    assert forall r :: r in seeds + s.run ==> r in seeds || r in s.run;
  }

  /** An opening writes the fixtures exactly if seeding is on and the journal
      replays nothing: then all of them, numbered from one, and nothing else. */
  lemma OpeningMeans(env: Env, file: string, on: bool, seedOps: seq<Op>, clock: seq<Time>)
    requires |clock| == |seedOps|
    ensures var log, after := OpenLog(env, file, on, seedOps, clock), OpenFile(env, file, on, seedOps, clock);
      if on && |RecordsOf(env, file)| == 0 then
        && |log| == |seedOps| && after == file + Written(env, log)
        && forall i :: 0 <= i < |log| ==> log[i] == AuditRecord(1 + i, clock[i], seedOps[i])
      else log == RecordsOf(env, file) && after == file
  {
    hide RecordsOf, Written;
  }

  /** The journal after some sessions: each appends to what the ones before it
      left, as much as its cut lets through. */
  ghost function FileOf(env: Env, file: string, seedOps: seq<Op>, sessions: seq<Session>): string
    requires AllHeld(env, seedOps, sessions)
  {
    if sessions == [] then file
    else
      var n := |sessions| - 1;
      assert Held(env, seedOps, sessions[n]);
      var before := FileOf(env, file, seedOps, sessions[..n]);
      var life := LifeOf(env, before, seedOps, sessions[n]);
      before + Written(env, life.written)[..life.cut]
  }

  ghost function DiskOf(env: Env, file: string, seedOps: seq<Op>, sessions: seq<Session>): Disk
    requires AllHeld(env, seedOps, sessions)
  {
    if sessions == [] then Disk(RecordsOf(env, file), [])
    else
      var n := |sessions| - 1;
      assert Held(env, seedOps, sessions[n]);
      var life := LifeOf(env, FileOf(env, file, seedOps, sessions[..n]), seedOps, sessions[n]);
      Write(env, DiskOf(env, file, seedOps, sessions[..n]), life.written, life.cut)
  }

  /** The log that each start replays, over any alternation of openings, runs
      and crashes. */
  lemma {:induction false} SessionsReplay(env: Env, file: string, seedOps: seq<Op>, sessions: seq<Session>)
    requires Closed(file) && AllHeld(env, seedOps, sessions)
    ensures Holds(env, FileOf(env, file, seedOps, sessions), DiskOf(env, file, seedOps, sessions))
    ensures RecordsOf(env, FileOf(env, file, seedOps, sessions)) == Replayed(env, DiskOf(env, file, seedOps, sessions))
  {
    hide RecordsOf, Holds, Replayed, Write, SessionWrites, TypedSeeds, TypedLog;
    if sessions == [] {
      ClosedHolds(env, file);
    } else {
      var n := |sessions| - 1;
      assert Held(env, seedOps, sessions[n]);
      var before := FileOf(env, file, seedOps, sessions[..n]);
      var life := LifeOf(env, before, seedOps, sessions[n]);
      SessionsReplay(env, file, seedOps, sessions[..n]);
      LifeIsLived(env, before, seedOps, sessions[n]);
      WriteHolds(env, before, DiskOf(env, file, seedOps, sessions[..n]), life.written, life.cut);
    }
    HeldIsReplayed(env, FileOf(env, file, seedOps, sessions), DiskOf(env, file, seedOps, sessions));
  }

  /** Does session `i` write the fixtures? */
  ghost predicate Seeds(env: Env, file: string, seedOps: seq<Op>, sessions: seq<Session>, i: nat)
    requires AllHeld(env, seedOps, sessions) && i < |sessions|
  {
    RecordsOf(env, FileOf(env, file, seedOps, sessions[..i])) == []
  }

  /** Once a complete line holds a record, no later session writes fixtures,
      whatever crashes. */
  lemma {:induction false} ClosedNeverSeeds(env: Env, file: string, seedOps: seq<Op>, sessions: seq<Session>, i: nat)
    requires Closed(file) && AllHeld(env, seedOps, sessions) && i <= |sessions|
    requires DiskOf(env, file, seedOps, sessions[..i]).closed != []
    ensures DiskOf(env, file, seedOps, sessions).closed != []
    ensures RecordsOf(env, FileOf(env, file, seedOps, sessions)) != []
  {
    hide RecordsOf, TypedSeeds, Salvaged, FileOf, Holds;
    SessionsReplay(env, file, seedOps, sessions);
    if i == |sessions| {
      assert sessions[..i] == sessions;
    } else {
      var init := sessions[..|sessions| - 1];
      assert init[..i] == sessions[..i];
      ClosedNeverSeeds(env, file, seedOps, init, i);
      LastKeepsClosed(env, file, seedOps, sessions);
      hide DiskOf;
    }
  }

  lemma LastKeepsClosed(env: Env, file: string, seedOps: seq<Op>, sessions: seq<Session>)
    requires AllHeld(env, seedOps, sessions) && sessions != []
    ensures DiskOf(env, file, seedOps, sessions[..|sessions| - 1]).closed <= DiskOf(env, file, seedOps, sessions).closed
  {
    hide RecordsOf, Write, TypedSeeds, SessionWrites;
    var n := |sessions| - 1;
    assert Held(env, seedOps, sessions[n]);
    var life := LifeOf(env, FileOf(env, file, seedOps, sessions[..n]), seedOps, sessions[n]);
    ClosedLinesKept(env, DiskOf(env, file, seedOps, sessions[..n]), life.written, life.cut);
  }

  ghost predicate Uncut(env: Env, file: string, seedOps: seq<Op>, sessions: seq<Session>, i: nat)
    requires AllHeld(env, seedOps, sessions) && i < |sessions| && Held(env, seedOps, sessions[i])
  {
    var life := LifeOf(env, FileOf(env, file, seedOps, sessions[..i]), seedOps, sessions[i]);
    sessions[i].cut >= |Written(env, life.written)|
  }

  /** Some sessions could follow after which an opening writes the fixtures. */
  ghost predicate MaySeedAgain(env: Env, file: string, seedOps: seq<Op>, sessions: seq<Session>) {
    exists more :: LeadsToSeeding(env, file, seedOps, sessions, more)
  }

  ghost predicate LeadsToSeeding(env: Env, file: string, seedOps: seq<Op>, sessions: seq<Session>, more: seq<Session>) {
    AllHeld(env, seedOps, sessions + more) && RecordsOf(env, FileOf(env, file, seedOps, sessions + more)) == []
  }

  /** Exactly when the fixtures are never written again, whatever runs and
      crashes follow: when a complete line holds a record. */
  lemma SeedsAtMostOnce(env: Env, file: string, seedOps: seq<Op>, sessions: seq<Session>)
    requires Closed(file) && AllHeld(env, seedOps, sessions)
    ensures !MaySeedAgain(env, file, seedOps, sessions) <==> DiskOf(env, file, seedOps, sessions).closed != []
  {
    hide AllHeld, DiskOf, FileOf, RecordsOf;
    if MaySeedAgain(env, file, seedOps, sessions) {
      var more :| LeadsToSeeding(env, file, seedOps, sessions, more);
      var all := sessions + more;
      assert all[..|sessions|] == sessions;
      if DiskOf(env, file, seedOps, sessions).closed != [] {
        ClosedNeverSeeds(env, file, seedOps, all, |sessions|);
      }
    }
    if DiskOf(env, file, seedOps, sessions).closed == [] {
      var more := WayToSeeding(env, file, seedOps, sessions);
    }
  }

  /** If no complete line holds a record, one more session is enough. */
  lemma WayToSeeding(env: Env, file: string, seedOps: seq<Op>, sessions: seq<Session>) returns (more: seq<Session>)
    requires Closed(file) && AllHeld(env, seedOps, sessions)
    requires DiskOf(env, file, seedOps, sessions).closed == []
    ensures LeadsToSeeding(env, file, seedOps, sessions, more)
  {
    hide RecordsOf, TypedSeeds, Write, Written, DiskOf, FileOf, Salvaged, Holds, RecordFits;
    SessionsReplay(env, file, seedOps, sessions);
    var d := DiskOf(env, file, seedOps, sessions);
    if Replayed(env, d) == [] {
      more := [];
      assert sessions + more == sessions;
    } else {
      Restart.NothingSalvaged(env);
      var run := [AuditRecord(2, 0, RegisterTrustList("", None))];
      assert TypedLog(env, run);
      var s := Session(seq(|seedOps|, i => 0), run, |Written(env, run)|);
      more := [s];
      var all := sessions + more;
      assert all[..|sessions|] == sessions && all[|sessions|] == s;
      SessionsReplay(env, file, seedOps, all);
      LastSession(env, file, seedOps, sessions, s);
      assert [] + run == run;
      UncutLife(env, d, run);
      assert run[1..] == [];
    }
  }

  lemma LastSession(env: Env, file: string, seedOps: seq<Op>, sessions: seq<Session>, s: Session)
    requires AllHeld(env, seedOps, sessions) && Held(env, seedOps, s)
    ensures AllHeld(env, seedOps, sessions + [s])
    ensures var life := LifeOf(env, FileOf(env, file, seedOps, sessions), seedOps, s);
      DiskOf(env, file, seedOps, sessions + [s])
      == Write(env, DiskOf(env, file, seedOps, sessions), life.written, life.cut)
  {
    hide RecordsOf, TypedSeeds, Write, Written, TypedLog, FileOf;
    assert (sessions + [s])[..|sessions|] == sessions;
  }

  /** For one session after others, told from what it writes: no later opening
      writes the fixtures exactly if a complete line held a record already, or
      this session completed the line of a fitting one; its first record does
      not count if it shares a torn line. */
  lemma SessionEndsSeeding(env: Env, file: string, seedOps: seq<Op>, sessions: seq<Session>, s: Session)
    requires Closed(file) && AllHeld(env, seedOps, sessions) && Held(env, seedOps, s)
    ensures var d := DiskOf(env, file, seedOps, sessions);
      var life := LifeOf(env, FileOf(env, file, seedOps, sessions), seedOps, s);
      var n := WholeLines(env, life.written, life.cut);
      !MaySeedAgain(env, file, seedOps, sessions + [s])
      <==> d.closed != []
           || !Restart.NoneFits(env, if d.tail == [] || n == 0 then life.written[..n] else life.written[1..n])
  {
    hide MaySeedAgain, RecordsOf, AllHeld, Held, DiskOf, FileOf, Write, Fitting, LifeOf, Restart.NoneFits;
    LastSession(env, file, seedOps, sessions, s);
    SeedsAtMostOnce(env, file, seedOps, sessions + [s]);
    HeldClock(env, seedOps, s);
    var d := DiskOf(env, file, seedOps, sessions);
    var life := LifeOf(env, FileOf(env, file, seedOps, sessions), seedOps, s);
    var n := WholeLines(env, life.written, life.cut);
    LinesClosed(env, d, life.written, life.cut);
    Restart.FittingNone(env, if d.tail == [] || n == 0 then life.written[..n] else life.written[1..n]);
  }

  lemma HeldClock(env: Env, seedOps: seq<Op>, s: Session)
    requires Held(env, seedOps, s)
    ensures |s.clock| == |seedOps|
  {
  }

  /** So of two sessions at most one writes the fixtures, whatever runs between
      them, if the first was not cut, began on a complete line and wrote a
      fixture that fits. */
  lemma UncutSeedsOnce(env: Env, file: string, seedOps: seq<Op>, sessions: seq<Session>, i: nat, j: nat)
    requires Closed(file) && AllHeld(env, seedOps, sessions) && i < j < |sessions|
    requires Held(env, seedOps, sessions[i]) && Uncut(env, file, seedOps, sessions, i)
    requires DiskOf(env, file, seedOps, sessions[..i]).tail == []
    requires exists f :: 0 <= f < |seedOps| && RecordFits(env, SeedRecords(seedOps, sessions[i].clock)[f])
    ensures !(Seeds(env, file, seedOps, sessions, i) && Seeds(env, file, seedOps, sessions, j))
  {
    hide RecordsOf, RecordFits, TypedSeeds, TypedLog, Write, Written, Salvaged;
    if Seeds(env, file, seedOps, sessions, i) {
      var now := sessions[..i + 1];
      assert now[..i] == sessions[..i] && now[i] == sessions[i];
      var d := DiskOf(env, file, seedOps, sessions[..i]);
      var seeds := SeedRecords(seedOps, sessions[i].clock);
      UncutLife(env, d, seeds + sessions[i].run);
      Restart.SomeFits(env, seeds);
      FittingConcat(env, seeds, sessions[i].run);
      assert DiskOf(env, file, seedOps, now).closed == d.closed + Fitting(env, seeds + sessions[i].run);
      assert sessions[..j][..i + 1] == now;
      ClosedNeverSeeds(env, file, seedOps, sessions[..j], i + 1);
    }
  }

  /** Sessions that are not cut end every line they write. */
  lemma {:induction false} UncutLeavesNoTail(env: Env, file: string, seedOps: seq<Op>, sessions: seq<Session>)
    requires Closed(file) && AllHeld(env, seedOps, sessions)
    requires forall i :: 0 <= i < |sessions| ==>
      Held(env, seedOps, sessions[i]) && Uncut(env, file, seedOps, sessions, i)
    ensures DiskOf(env, file, seedOps, sessions).tail == []
  {
    if sessions != [] {
      hide Held, TypedSeeds, Uncut, DiskOf;
      var n := |sessions| - 1;
      var init := sessions[..n];
      forall i | 0 <= i < n
        ensures Held(env, seedOps, init[i]) && Uncut(env, file, seedOps, init, i)
      {
        assert init[i] == sessions[i];
        SameUncut(env, file, seedOps, sessions, n, i);
      }
      UncutLeavesNoTail(env, file, seedOps, init);
      LastUncut(env, file, seedOps, sessions);
    }
  }

  lemma SameUncut(env: Env, file: string, seedOps: seq<Op>, sessions: seq<Session>, n: nat, i: nat)
    requires AllHeld(env, seedOps, sessions) && i < n <= |sessions| && Held(env, seedOps, sessions[i])
    requires Uncut(env, file, seedOps, sessions, i)
    ensures Uncut(env, file, seedOps, sessions[..n], i)
  {
    hide TypedSeeds, FileOf, LifeOf;
    assert sessions[..n][..i] == sessions[..i];
  }

  lemma LastUncut(env: Env, file: string, seedOps: seq<Op>, sessions: seq<Session>)
    requires AllHeld(env, seedOps, sessions) && sessions != []
    requires var n := |sessions| - 1;
      && Held(env, seedOps, sessions[n]) && Uncut(env, file, seedOps, sessions, n)
      && DiskOf(env, file, seedOps, sessions[..n]).tail == []
    ensures DiskOf(env, file, seedOps, sessions).tail == []
  {
    hide RecordsOf, Write, Written, TypedSeeds, SessionWrites, Fitting;
    var n := |sessions| - 1;
    var life := LifeOf(env, FileOf(env, file, seedOps, sessions[..n]), seedOps, sessions[n]);
    UncutLife(env, DiskOf(env, file, seedOps, sessions[..n]), life.written);
  }

  /** A crash midway through the first seeding. The next start replays the
      fixtures that got through. If there is none, it writes all fixtures anew,
      behind the torn text; otherwise it writes none. And no start after it ever
      writes them exactly if a fixture that fits got through with its newline. */
  lemma CrashWhileSeeding(env: Env, seedOps: seq<Op>, clock: seq<Time>, k: nat, again: seq<Time>)
    requires TypedSeeds(env, seedOps) && |clock| == |again| == |seedOps|
    requires k <= |Written(env, SeedRecords(seedOps, clock))|
    ensures var seeds := SeedRecords(seedOps, clock);
      var file := Written(env, seeds)[..k];
      var kept := Fitting(env, seeds[..WholeRecords(env, seeds, k)]);
      && RecordsOf(env, file) == kept
      && OpenLog(env, file, true, seedOps, again) == (if kept == [] then SeedRecords(seedOps, again) else kept)
      && OpenFile(env, file, true, seedOps, again)
         == (if kept == [] then file + Written(env, SeedRecords(seedOps, again)) else file)
    ensures var seeds := SeedRecords(seedOps, clock);
      !MaySeedAgain(env, "", seedOps, [Session(clock, [], k)])
      <==> !Restart.NoneFits(env, seeds[..WholeLines(env, seeds, k)])
  {
    hide RecordsOf, Written, Fitting, WholeRecords, WholeLines, TypedSeeds, TypedLog, MaySeedAgain, Restart.NoneFits;
    SeedsAreTyped(env, seedOps, clock);
    CrashRecoversPrefix(env, SeedRecords(seedOps, clock), k);
    CrashedSeeding(env, seedOps, clock, k);
  }

  lemma CrashedSeeding(env: Env, seedOps: seq<Op>, clock: seq<Time>, k: nat)
    requires TypedSeeds(env, seedOps) && |clock| == |seedOps|
    requires k <= |Written(env, SeedRecords(seedOps, clock))|
    ensures var seeds := SeedRecords(seedOps, clock);
      !MaySeedAgain(env, "", seedOps, [Session(clock, [], k)])
      <==> !Restart.NoneFits(env, seeds[..WholeLines(env, seeds, k)])
  {
    hide RecordsOf, Written, WholeLines, TypedSeeds, MaySeedAgain, Restart.NoneFits;
    var seeds, s := SeedRecords(seedOps, clock), Session(clock, [], k);
    NothingRecorded(env);
    assert seeds + [] == seeds && [] + [s] == [s];
    SessionEndsSeeding(env, "", seedOps, [], s);
  }

  /** Seeding can happen twice: the crash leaves the first fixture without its
      newline, the next session appends one record to that line, and so the
      start after it replays nothing and writes the fixtures again. */
  lemma SeedsTwice(env: Env, seedOps: seq<Op>, clock: seq<Time>, run: AuditRecord, again: seq<Time>)
    requires TypedSeeds(env, seedOps) && seedOps != [] && |clock| == |again| == |seedOps|
    requires TypedRecord(env, run) && RecordFits(env, SeedRecords(seedOps, clock)[0])
    ensures var file := RecordText(env, SeedRecords(seedOps, clock)[0]);
      && file <= Written(env, SeedRecords(seedOps, clock))
      && OpenFile(env, file, true, seedOps, again) == file
      && RecordsOf(env, file + Line(env, run)) == []
      && OpenFile(env, file + Line(env, run), true, seedOps, again)
         == file + Line(env, run) + Written(env, SeedRecords(seedOps, again))
  {
    hide RecordsOf, RecordText, TypedRecord, RecordFits, TypedSeeds;
    var seeds := SeedRecords(seedOps, clock);
    var first := seeds[0];
    var file := RecordText(env, first);
    SeedsAreTyped(env, seedOps, clock);
    assert first in seeds;
    OneRecord(env, first);
    TextIsOneLine(env, first);
    TornTailSwallowsNext(env, "", first, |file|, [run]);
    WrittenSnoc(env, [], run);
    NothingWritten(env);
    NothingRecorded(env);
    assert [] + [run] == [run] && file[..|file|] == file && [run][1..] == [];
    assert "" + file + Written(env, [run]) == file + Line(env, run);
    hide Line;
  }

  /** If the very first record was torn, the log replays empty and the fixtures
      are written after the torn text; the start after that has lost the first
      of them. */
  lemma SeedingAfterTornStart(env: Env, torn: AuditRecord, k: nat, seedOps: seq<Op>, clock: seq<Time>)
    requires |clock| == |seedOps| && seedOps != [] && 0 < k < |RecordText(env, torn)|
    requires TypedLog(env, SeedRecords(seedOps, clock))
    ensures var file := RecordText(env, torn)[..k];
      && OpenLog(env, file, true, seedOps, clock) == SeedRecords(seedOps, clock)
      && RecordsOf(env, OpenFile(env, file, true, seedOps, clock)) == Fitting(env, SeedRecords(seedOps, clock)[1..])
  {
    hide RecordsOf, RecordText, Fitting, TypedLog, Written;
    var file := RecordText(env, torn)[..k];
    var seeds := SeedRecords(seedOps, clock);
    TornLine(env, torn, k);
    TornTailSwallowsNext(env, "", torn, k, seeds);
    assert "" + file + Written(env, seeds) == file + Written(env, seeds);
    NothingRecorded(env);
    assert [] + Fitting(env, seeds[1..]) == Fitting(env, seeds[1..]);
  }
}
