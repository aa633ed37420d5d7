/** A journal over many lives of the store: each opens whatever the last crash
    left, writes on, and may itself be cut short at any character. */
module Lives {
  import opened Text
  import opened Signatif
  import opened Records
  import opened Journal
  import JsonPrefix

  // ---------------------------------------------------------------------
  // A line that crashes have glued together
  // ---------------------------------------------------------------------

  /** The first `length` characters of a record's text. */
  datatype Piece = Piece(record: AuditRecord, length: nat)

  predicate Cut(env: Env, p: Piece) {
    0 < p.length <= |RecordText(env, p.record)|
  }

  predicate AllCut(env: Env, ps: seq<Piece>) {
    forall p :: p in ps ==> Cut(env, p)
  }

  function Glued(env: Env, ps: seq<Piece>): string
    requires AllCut(env, ps)
  {
    if ps == [] then ""
    else
      assert Cut(env, ps[0]);
      RecordText(env, ps[0].record)[..ps[0].length] + Glued(env, ps[1..])
  }

  /** What a line of pieces replays as: its record if it is one whole record,
      and nothing otherwise. */
  ghost function Salvaged(env: Env, ps: seq<Piece>): (rs: seq<AuditRecord>)
    ensures |rs| <= 1
  {
    if |ps| == 1 && ps[0].length == |RecordText(env, ps[0].record)| && RecordFits(env, ps[0].record) then
      [ps[0].record]
    else []
  }

  ghost predicate TypedPieces(env: Env, ps: seq<Piece>) {
    forall p :: p in ps ==> TypedRecord(env, p.record)
  }

  lemma {:induction false} GluedContinues(env: Env, ps: seq<Piece>)
    requires AllCut(env, ps) && ps != []
    ensures JsonPrefix.Continuation(Glued(env, ps)) && OneLine(Glued(env, ps))
  {
    hide RecordText, JsonPrefix.Continuation;
    var p, more := ps[0], ps[1..];
    assert Cut(env, p);
    if more != [] {
      GluedContinues(env, more);
    }
    TextIsOneLine(env, p.record);
    PieceContinues(env, p, Glued(env, more));
  }

  lemma PieceContinues(env: Env, p: Piece, rest: string)
    requires Cut(env, p) && (rest == "" || JsonPrefix.Continuation(rest))
    ensures JsonPrefix.Continuation(RecordText(env, p.record)[..p.length] + rest)
  {
    RecordHead(env, p.record);
    JsonPrefix.CutContinues(ToJson(env, p.record), p.length, rest);
  }

  /** However many crashes have glued a line together, it replays as a record
      only if it is one whole record. */
  lemma GluedLine(env: Env, ps: seq<Piece>)
    requires AllCut(env, ps) && TypedPieces(env, ps) && ps != []
    ensures RecordOf(env, Glued(env, ps)) == Salvaged(env, ps)
  {
    hide TypedRecord, RecordFits, RecordText, RecordOf;
    var p, more := ps[0], ps[1..];
    assert Cut(env, p) && TypedRecord(env, p.record);
    var text := RecordText(env, p.record);
    if more != [] {
      GluedContinues(env, more);
      JoinedPieces(env, p, Glued(env, more));
    } else {
      assert Glued(env, ps) == text[..p.length];
      if p.length == |text| {
        assert text[..p.length] == text;
        WholeLine(env, p.record);
      } else {
        CutLine(env, p.record, p.length);
      }
    }
  }

  lemma JoinedPieces(env: Env, p: Piece, rest: string)
    requires Cut(env, p) && JsonPrefix.Continuation(rest)
    ensures RecordOf(env, RecordText(env, p.record)[..p.length] + rest) == []
  {
    RecordHead(env, p.record);
    hide ToJson, JsonPrefix.Continuation;
    JsonPrefix.JoinedRefused(ToJson(env, p.record), p.length, rest);
  }

  lemma CutLine(env: Env, r: AuditRecord, k: nat)
    requires k < |RecordText(env, r)|
    ensures RecordOf(env, RecordText(env, r)[..k]) == []
  {
    RecordHead(env, r);
    JsonPrefix.PrefixRefused(ToJson(env, r), k);
  }

  // ---------------------------------------------------------------------
  // A journal at any moment
  // ---------------------------------------------------------------------

  /** The records that the complete lines replay as, and the pieces of the last
      line if it has no newline. */
  datatype Disk = Disk(closed: seq<AuditRecord>, tail: seq<Piece>)

  /** The log that a start replays. */
  ghost function Replayed(env: Env, d: Disk): seq<AuditRecord> {
    d.closed + Salvaged(env, d.tail)
  }

  /** The journal after the first `k` characters of what a life writes. */
  ghost function Write(env: Env, d: Disk, written: seq<AuditRecord>, k: nat): Disk
    decreases written
  {
    if written == [] || k == 0 then d
    else
      var r, n := written[0], |RecordText(env, written[0])|;
      if k <= n then d.(tail := d.tail + [Piece(r, k)])
      else Write(env, Disk(d.closed + Salvaged(env, d.tail + [Piece(r, n)]), []), written[1..], k - n - 1)
  }

  ghost predicate Holds(env: Env, text: string, d: Disk) {
    AllCut(env, d.tail) && TypedPieces(env, d.tail) && exists head :: HoldsAfter(env, text, d, head)
  }

  ghost predicate HoldsAfter(env: Env, text: string, d: Disk, head: string)
    requires AllCut(env, d.tail)
  {
    Closed(head) && RecordsOf(env, head) == d.closed && text == head + Glued(env, d.tail)
  }

  lemma ClosedHolds(env: Env, text: string)
    requires Closed(text)
    ensures Holds(env, text, Disk(RecordsOf(env, text), []))
  {
    hide RecordsOf;
    var d := Disk(RecordsOf(env, text), []);
    assert text == text + Glued(env, d.tail);
    assert HoldsAfter(env, text, d, text);
  }

  /** A start replays what the disk holds. */
  lemma HeldIsReplayed(env: Env, text: string, d: Disk)
    requires Holds(env, text, d)
    ensures RecordsOf(env, text) == Replayed(env, d)
  {
    hide RecordsOf, Glued, Salvaged;
    var head :| HoldsAfter(env, text, d, head);
    ClosedRecords(env, head, Glued(env, d.tail));
    GluedEnd(env, d.tail);
  }

  lemma GluedEnd(env: Env, ps: seq<Piece>)
    requires AllCut(env, ps) && TypedPieces(env, ps)
    ensures RecordsOf(env, Glued(env, ps)) == Salvaged(env, ps)
  {
    if ps == [] {
      NothingRecorded(env);
    } else {
      hide RecordsOf, RecordOf, Glued, Salvaged;
      GluedContinues(env, ps);
      OnlyLine(env, Glued(env, ps));
      GluedLine(env, ps);
    }
  }

  lemma {:induction false} GluedSnoc(env: Env, ps: seq<Piece>, p: Piece)
    requires AllCut(env, ps) && Cut(env, p)
    ensures AllCut(env, ps + [p])
    ensures Glued(env, ps + [p]) == Glued(env, ps) + RecordText(env, p.record)[..p.length]
  {
    hide RecordText;
    if ps == [] {
      assert [] + [p] == [p] && [p][1..] == [];
    } else {
      GluedSnoc(env, ps[1..], p);
      assert (ps + [p])[1..] == ps[1..] + [p];
      assert Cut(env, ps[0]);
      var a, b := RecordText(env, ps[0].record)[..ps[0].length], Glued(env, ps[1..]);
      var c := RecordText(env, p.record)[..p.length];
      assert a + (b + c) == (a + b) + c;
    }
  }

  /** Writing on keeps the account, wherever it is cut. */
  lemma {:induction false} WriteHolds(env: Env, text: string, d: Disk, written: seq<AuditRecord>, k: nat)
    requires Holds(env, text, d) && TypedLog(env, written) && k <= |Written(env, written)|
    ensures Holds(env, text + Written(env, written)[..k], Write(env, d, written, k))
    decreases written
  {
    hide RecordText, TypedRecord, RecordsOf, Glued, Holds, Salvaged;
    if written == [] || k == 0 {
      assert text + Written(env, written)[..k] == text;
    } else {
      var r, tail := written[0], written[1..];
      var line, rest := Line(env, r), Written(env, tail);
      var n := |RecordText(env, r)|;
      TextIsOneLine(env, r);
      assert r in written && TypedLog(env, tail);
      if k <= n {
        assert Written(env, written)[..k] == RecordText(env, r)[..k];
        PieceHolds(env, text, d, Piece(r, k));
      } else {
        LineHolds(env, text, d, r);
        var m := k - n - 1;
        var next := Disk(d.closed + Salvaged(env, d.tail + [Piece(r, n)]), []);
        WriteHolds(env, text + line, next, tail, m);
        assert Written(env, written)[..k] == line + rest[..m];
        assert text + line + rest[..m] == text + (line + rest[..m]);
      }
    }
  }

  lemma PieceHolds(env: Env, text: string, d: Disk, p: Piece)
    requires Holds(env, text, d) && Cut(env, p) && TypedRecord(env, p.record)
    ensures Holds(env, text + RecordText(env, p.record)[..p.length], d.(tail := d.tail + [p]))
  {
    hide RecordText, RecordsOf, TypedRecord;
    var head :| HoldsAfter(env, text, d, head);
    GluedSnoc(env, d.tail, p);
    hide Glued;
    var more := RecordText(env, p.record)[..p.length];
    assert head + Glued(env, d.tail) + more == head + (Glued(env, d.tail) + more);
    assert HoldsAfter(env, text + more, d.(tail := d.tail + [p]), head);
  }

  lemma LineCloses(env: Env, head: string, ps: seq<Piece>)
    requires Closed(head) && AllCut(env, ps) && TypedPieces(env, ps) && ps != []
    ensures RecordsOf(env, head + Glued(env, ps) + "\n") == RecordsOf(env, head) + Salvaged(env, ps)
  {
    GluedContinues(env, ps);
    GluedLine(env, ps);
    LineAfter(env, head, Glued(env, ps));
  }

  lemma LineAfter(env: Env, head: string, line: string)
    requires Closed(head) && OneLine(line)
    ensures RecordsOf(env, head + line + "\n") == RecordsOf(env, head) + RecordOf(env, line)
  {
    hide RecordsOf, RecordOf, OneLine, Closed;
    var end := line + "\n";
    assert end + "" == end && head + line + "\n" == head + end;
    ClosedRecords(env, head, end);
    FirstRecord(env, line, "");
    NothingRecorded(env);
    assert RecordOf(env, line) + [] == RecordOf(env, line);
  }

  lemma LineHolds(env: Env, text: string, d: Disk, r: AuditRecord)
    requires Holds(env, text, d) && TypedRecord(env, r)
    ensures var line := d.tail + [Piece(r, |RecordText(env, r)|)];
      Holds(env, text + Line(env, r), Disk(d.closed + Salvaged(env, line), []))
  {
    TextIsOneLine(env, r);
    hide RecordText, RecordsOf, TypedRecord, Salvaged;
    var whole := Piece(r, |RecordText(env, r)|);
    var head :| HoldsAfter(env, text, d, head);
    GluedSnoc(env, d.tail, whole);
    hide Glued;
    LineCloses(env, head, d.tail + [whole]);
    var t, g := RecordText(env, r), Glued(env, d.tail);
    assert t[..whole.length] == t;
    assert (head + g) + (t + "\n") == head + (g + t) + "\n";
    ClosedHolds(env, text + Line(env, r));
  }

  // ---------------------------------------------------------------------
  // Many lives
  // ---------------------------------------------------------------------

  /** What a life writes, and how much of it reaches the disk. */
  datatype Life = Life(written: seq<AuditRecord>, cut: nat)

  ghost predicate Lived(env: Env, life: Life) {
    TypedLog(env, life.written) && life.cut <= |Written(env, life.written)|
  }

  ghost predicate AllLived(env: Env, lives: seq<Life>) {
    forall i :: 0 <= i < |lives| ==> Lived(env, lives[i])
  }

  ghost function FileAfter(env: Env, file: string, lives: seq<Life>): string
    requires AllLived(env, lives)
  {
    if lives == [] then file
    else
      var last := lives[|lives| - 1];
      assert Lived(env, last);
      FileAfter(env, file, lives[..|lives| - 1]) + Written(env, last.written)[..last.cut]
  }

  ghost function DiskAfter(env: Env, d: Disk, lives: seq<Life>): Disk {
    if lives == [] then d
    else
      var last := lives[|lives| - 1];
      Write(env, DiskAfter(env, d, lives[..|lives| - 1]), last.written, last.cut)
  }

  lemma {:induction false} LivesHold(env: Env, file: string, d: Disk, lives: seq<Life>)
    requires Holds(env, file, d) && AllLived(env, lives)
    ensures Holds(env, FileAfter(env, file, lives), DiskAfter(env, d, lives))
  {
    hide Holds, Write, TypedLog;
    if lives != [] {
      var last := lives[|lives| - 1];
      assert Lived(env, last);
      var init := lives[..|lives| - 1];
      LivesHold(env, file, d, init);
      WriteHolds(env, FileAfter(env, file, init), DiskAfter(env, d, init), last.written, last.cut);
    }
  }

  /** The log that a start replays after any number of lives, each cut at any
      character: the fitting records that ended up alone on their line. */
  lemma LivesReplay(env: Env, file: string, lives: seq<Life>)
    requires Closed(file) && AllLived(env, lives)
    ensures RecordsOf(env, FileAfter(env, file, lives))
         == Replayed(env, DiskAfter(env, Disk(RecordsOf(env, file), []), lives))
  {
    hide RecordsOf, Holds, Replayed;
    ClosedHolds(env, file);
    var d := Disk(RecordsOf(env, file), []);
    LivesHold(env, file, d, lives);
    HeldIsReplayed(env, FileAfter(env, file, lives), DiskAfter(env, d, lives));
  }

  /** Whatever is written and cut afterwards, complete lines keep what they
      hold. */
  lemma {:induction false} ClosedLinesKept(env: Env, d: Disk, written: seq<AuditRecord>, k: nat)
    ensures d.closed <= Write(env, d, written, k).closed
    decreases written
  {
    hide RecordText, Salvaged;
    if written != [] && k > 0 {
      var r, n := written[0], |RecordText(env, written[0])|;
      if k > n {
        ClosedLinesKept(env, Disk(d.closed + Salvaged(env, d.tail + [Piece(r, n)]), []), written[1..], k - n - 1);
      }
    }
  }

  /** A life that is not cut leaves no torn line, and loses nothing that fits
      but a first record that shares its line. */
  lemma {:induction false} UncutLife(env: Env, d: Disk, written: seq<AuditRecord>)
    ensures var after := Write(env, d, written, |Written(env, written)|);
      if written == [] then after == d
      else after == Disk(d.closed + Fitting(env, if d.tail == [] then written else written[1..]), [])
    decreases written
  {
    hide RecordFits, RecordText;
    if written != [] {
      var r, tail := written[0], written[1..];
      var n := |RecordText(env, r)|;
      var first := Salvaged(env, d.tail + [Piece(r, n)]);
      assert |Written(env, written)| == n + 1 + |Written(env, tail)|;
      UncutLife(env, Disk(d.closed + first, []), tail);
      assert tail == [] ==> Fitting(env, tail) == [];
      assert first == if d.tail == [] && RecordFits(env, r) then [r] else [];
      assert (d.closed + first) + Fitting(env, tail) == d.closed + (first + Fitting(env, tail));
      assert d.tail == [] ==> Fitting(env, written) == first + Fitting(env, tail);
    }
  }

  /** How many records of a log lie in the first `k` characters of its journal
      with their newlines. */
  function WholeLines(env: Env, log: seq<AuditRecord>, k: nat): (n: nat)
    ensures n <= |log|
    decreases log
  {
    if log == [] || k <= |RecordText(env, log[0])| then 0
    else 1 + WholeLines(env, log[1..], k - |RecordText(env, log[0])| - 1)
  }

  /** Exactly what a life adds to the complete lines: the fitting records whose
      newlines it wrote, without the first if that shares a torn line. */
  lemma {:induction false} LinesClosed(env: Env, d: Disk, written: seq<AuditRecord>, k: nat)
    ensures var n := WholeLines(env, written, k);
      Write(env, d, written, k).closed
      == d.closed + Fitting(env, if d.tail == [] || n == 0 then written[..n] else written[1..n])
    decreases written
  {
    hide RecordFits, RecordText, Salvaged;
    var n := WholeLines(env, written, k);
    if n == 0 {
      assert written[..0] == [] && d.closed + [] == d.closed;
    } else {
      var r, tail := written[0], written[1..];
      var len := |RecordText(env, r)|;
      var first := Salvaged(env, d.tail + [Piece(r, len)]);
      var after := Disk(d.closed + first, []);
      assert Write(env, d, written, k) == Write(env, after, tail, k - len - 1);
      LinesClosed(env, after, tail, k - len - 1);
      hide Write, WholeLines, Fitting;
      var rest := tail[..n - 1];
      assert written[1..n] == rest && written[..n] == [r] + rest;
      OneLineSalvaged(env, d.tail, r);
      FirstFitting(env, r, rest);
      JoinsAfter(d.closed, first, Fitting(env, rest));
      assert [] + Fitting(env, rest) == Fitting(env, rest);
    }
  }

  lemma OneLineSalvaged(env: Env, tail: seq<Piece>, r: AuditRecord)
    ensures Salvaged(env, tail + [Piece(r, |RecordText(env, r)|)])
         == if tail == [] && RecordFits(env, r) then [r] else []
  {
    hide RecordFits, RecordText;
  }

  lemma FirstFitting(env: Env, r: AuditRecord, rest: seq<AuditRecord>)
    ensures Fitting(env, [r] + rest) == (if RecordFits(env, r) then [r] else []) + Fitting(env, rest)
  {
    hide RecordFits;
    assert ([r] + rest)[1..] == rest;
  }

  /** A crash that cuts into what earlier lives had written leaves what fewer
      lives, the last one cut shorter, would have left. */
  lemma {:induction false} CutAnywhere(env: Env, file: string, lives: seq<Life>, k: nat) returns (fewer: seq<Life>)
    requires AllLived(env, lives) && |file| <= k <= |FileAfter(env, file, lives)|
    ensures AllLived(env, fewer) && FileAfter(env, file, fewer) == FileAfter(env, file, lives)[..k]
    ensures |fewer| <= |lives| && forall i :: 0 <= i < |fewer| - 1 ==> fewer[i] == lives[i]
  {
    hide Written, TypedLog;
    if lives == [] {
      fewer := [];
    } else {
      var n := |lives| - 1;
      var init, last := lives[..n], lives[n];
      assert Lived(env, last);
      var before := FileAfter(env, file, init);
      if k <= |before| {
        fewer := CutAnywhere(env, file, init, k);
        assert FileAfter(env, file, lives)[..k] == before[..k];
      } else {
        var shorter := Life(last.written, k - |before|);
        assert Lived(env, shorter);
        fewer := init + [shorter];
        assert fewer[..n] == init;
      }
    }
  }
}
