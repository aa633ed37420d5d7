/** The journal of src/store.rs as text: one line for each record, read back
    line by line. A crash cuts the text at a character boundary. */
module Journal {
  import opened Text
  import opened Signatif
  import opened Records
  import Json
  import JsonPrefix
  import Wire

  // ---------------------------------------------------------------------
  // Lines
  // ---------------------------------------------------------------------

  function IndexOf(s: string, c: char): (n: nat)
    ensures n <= |s|
    ensures n < |s| ==> s[n] == c
    ensures forall i :: 0 <= i < n ==> s[i] != c
  {
    if s == "" || s[0] == c then 0 else 1 + IndexOf(s[1..], c)
  }

  /** A terminated line loses one `\r` before its `\n`. */
  function StripReturn(line: string): string {
    if line != "" && line[|line| - 1] == '\r' then line[..|line| - 1] else line
  }

  /** `BufRead::lines`: a last line without `\n` counts, an empty one does not. */
  function Lines(s: string): seq<string>
    decreases |s|
  {
    if s == "" then []
    else
      var n := IndexOf(s, '\n');
      if n == |s| then [s] else [StripReturn(s[..n])] + Lines(s[n + 1..])
  }

  /** What replaying one line yields: nothing for blank and refused lines. */
  function RecordOf(env: Env, line: string): (rs: seq<AuditRecord>)
    ensures |rs| <= 1
  {
    if Trim(line) == "" then []
    else
      var v := Json.FromText(line);
      if v.None? then []
      else
        var r := FromJson(env, v.value);
        if r.None? then [] else [r.value]
  }

  function RecordsOfLines(env: Env, lines: seq<string>): seq<AuditRecord> {
    if lines == [] then [] else RecordOf(env, lines[0]) + RecordsOfLines(env, lines[1..])
  }

  /** The log that replaying the text builds. */
  function RecordsOf(env: Env, text: string): seq<AuditRecord> {
    RecordsOfLines(env, Lines(text))
  }

  // ---------------------------------------------------------------------
  // Written records
  // ---------------------------------------------------------------------

  function RecordText(env: Env, r: AuditRecord): string {
    Json.Print(ToJson(env, r))
  }

  /** What `writeln!` appends. */
  function Line(env: Env, r: AuditRecord): string {
    RecordText(env, r) + "\n"
  }

  function Written(env: Env, log: seq<AuditRecord>): string {
    if log == [] then "" else Line(env, log[0]) + Written(env, log[1..])
  }

  ghost predicate TypedLog(env: Env, log: seq<AuditRecord>) {
    forall r :: r in log ==> TypedRecord(env, r)
  }

  /** The records of a log that survive the codec. */
  ghost function Fitting(env: Env, log: seq<AuditRecord>): seq<AuditRecord> {
    if log == [] then [] else (if RecordFits(env, log[0]) then [log[0]] else []) + Fitting(env, log[1..])
  }

  lemma {:induction false} FittingAll(env: Env, log: seq<AuditRecord>)
    ensures (forall r :: r in log ==> RecordFits(env, r)) <==> Fitting(env, log) == log
    ensures |Fitting(env, log)| <= |log|
  {
    if log != [] {
      FittingAll(env, log[1..]);
      assert log == [log[0]] + log[1..];
      assert forall r :: r in log <==> r == log[0] || r in log[1..];
      if Fitting(env, log) == log {
        assert |Fitting(env, log)| == |log|;
      }
    }
  }

  lemma {:induction false} FittingConcat(env: Env, a: seq<AuditRecord>, b: seq<AuditRecord>)
    ensures Fitting(env, a + b) == Fitting(env, a) + Fitting(env, b)
  {
    if a == [] {
      assert a + b == b && [] + Fitting(env, b) == Fitting(env, b);
    } else {
      hide RecordFits;
      var all := a + b;
      assert all[0] == a[0] && all[1..] == a[1..] + b;
      FittingConcat(env, a[1..], b);
      JoinsAfter(if RecordFits(env, a[0]) then [a[0]] else [], Fitting(env, a[1..]), Fitting(env, b));
    }
  }

  lemma JoinsAfter<T>(x: seq<T>, y: seq<T>, z: seq<T>)
    ensures x + (y + z) == (x + y) + z
  {
  }

  lemma {:induction false} WrittenConcat(env: Env, a: seq<AuditRecord>, b: seq<AuditRecord>)
    ensures Written(env, a + b) == Written(env, a) + Written(env, b)
  {
    if a == [] {
      assert a + b == b && "" + Written(env, b) == Written(env, b);
    } else {
      hide Line;
      var all := a + b;
      assert all[0] == a[0] && all[1..] == a[1..] + b;
      WrittenConcat(env, a[1..], b);
      JoinsAfter(Line(env, a[0]), Written(env, a[1..]), Written(env, b));
    }
  }

  lemma {:induction false} RecordsConcat(env: Env, a: seq<string>, b: seq<string>)
    ensures RecordsOfLines(env, a + b) == RecordsOfLines(env, a) + RecordsOfLines(env, b)
  {
    if a == [] {
      assert a + b == b && [] + RecordsOfLines(env, b) == RecordsOfLines(env, b);
    } else {
      hide RecordOf;
      var all := a + b;
      assert all[0] == a[0] && all[1..] == a[1..] + b;
      RecordsConcat(env, a[1..], b);
      JoinsAfter(RecordOf(env, a[0]), RecordsOfLines(env, a[1..]), RecordsOfLines(env, b));
    }
  }

  lemma NothingWritten(env: Env)
    ensures Written(env, []) == ""
  {
  }

  lemma NothingRecorded(env: Env)
    ensures RecordsOf(env, "") == []
  {
  }

  predicate OneLine(s: string) {
    forall i :: 0 <= i < |s| ==> s[i] != '\n' && s[i] != '\r'
  }

  lemma TextIsOneLine(env: Env, r: AuditRecord)
    ensures OneLine(RecordText(env, r)) && RecordText(env, r) != "" && RecordText(env, r)[0] == '{'
  {
    JsonPrefix.PrintNoControl(ToJson(env, r));
  }

  lemma {:induction false} TrimEndKeeps(s: string)
    requires s != "" && !IsWhitespace(s[0])
    ensures TrimEnd(s) != ""
  {
    if IsWhitespace(s[|s| - 1]) {
      assert |s| > 1;
      TrimEndKeeps(s[..|s| - 1]);
    }
  }

  /** A line that begins with a brace is not blank. */
  lemma BraceNotBlank(s: string)
    requires s != "" && s[0] == '{'
    ensures Trim(s) != ""
  {
    assert TrimStart(s) == s;
    TrimEndKeeps(s);
  }

  /** Replaying a whole line gives its record, if the record fits. */
  lemma WholeLine(env: Env, r: AuditRecord)
    requires TypedRecord(env, r)
    ensures RecordOf(env, RecordText(env, r)) == if RecordFits(env, r) then [r] else []
  {
    hide ToJson, FromJson, Json.Print, Json.FromText, Trim, RecordFits, TypedRecord;
    TextIsOneLine(env, r);
    BraceNotBlank(RecordText(env, r));
    Json.TextRoundTrip(ToJson(env, r));
    RecordReadBack(env, r);
  }

  lemma {:induction false} IndexIs(s: string, c: char, t: string)
    requires forall i :: 0 <= i < |s| ==> s[i] != c
    ensures IndexOf(s + [c] + t, c) == |s|
  {
    var u := s + [c] + t;
    assert u[|s|] == c;
    assert forall i :: 0 <= i < |s| ==> u[i] == s[i];
  }

  lemma SplitLine(line: string, more: string)
    requires forall i :: 0 <= i < |line| ==> line[i] != '\n'
    ensures Lines(line + "\n" + more) == [StripReturn(line)] + Lines(more)
  {
    hide StripReturn;
    IndexIs(line, '\n', more);
    var u := line + "\n" + more;
    assert u == line + ['\n'] + more;
    assert u[..|line|] == line && u[|line| + 1..] == more;
  }

  lemma FirstLine(s: string, rest: string)
    requires OneLine(s)
    ensures Lines(s + "\n" + rest) == [s] + Lines(rest)
  {
    SplitLine(s, rest);
  }

  /** A line may end in `\r\n` as well. */
  lemma ReturnDropped(s: string, rest: string)
    requires OneLine(s)
    ensures Lines(s + "\r\n" + rest) == [s] + Lines(rest)
  {
    var line := s + "\r";
    SplitLine(line, rest);
    assert line + "\n" + rest == s + "\r\n" + rest && line[..|line| - 1] == s;
  }

  lemma LastLine(s: string)
    requires OneLine(s) && s != ""
    ensures Lines(s) == [s]
  {
    assert IndexOf(s, '\n') == |s|;
  }

  /** Text that ends a line. */
  predicate Closed(text: string) {
    text == "" || text[|text| - 1] == '\n'
  }

  lemma {:induction false} ClosedLines(text: string, rest: string)
    requires Closed(text)
    ensures Lines(text + rest) == Lines(text) + Lines(rest)
    decreases |text|
  {
    hide StripReturn, Lines;
    if text == "" {
      assert text + rest == rest;
      NoLines(rest);
    } else {
      var n := IndexOf(text, '\n');
      assert text[|text| - 1] == '\n';
      var line, more := text[..n], text[n + 1..];
      assert text == line + "\n" + more;
      SplitLine(line, more);
      SplitLine(line, more + rest);
      assert text + rest == line + "\n" + (more + rest);
      ClosedLines(more, rest);
      assert [StripReturn(line)] + (Lines(more) + Lines(rest)) == ([StripReturn(line)] + Lines(more)) + Lines(rest);
    }
  }

  lemma NoLines(rest: string)
    ensures Lines("") + Lines(rest) == Lines(rest)
  {
  }

  lemma ClosedRecords(env: Env, text: string, rest: string)
    requires Closed(text)
    ensures RecordsOf(env, text + rest) == RecordsOf(env, text) + RecordsOf(env, rest)
  {
    ClosedLines(text, rest);
    RecordsConcat(env, Lines(text), Lines(rest));
  }

  lemma {:induction false} WrittenClosed(env: Env, log: seq<AuditRecord>)
    ensures Closed(Written(env, log))
  {
    if log != [] {
      WrittenClosed(env, log[1..]);
    }
  }

  lemma FirstRecord(env: Env, line: string, rest: string)
    requires OneLine(line)
    ensures RecordsOf(env, line + "\n" + rest) == RecordOf(env, line) + RecordsOf(env, rest)
  {
    FirstLine(line, rest);
    var ls := Lines(line + "\n" + rest);
    assert ls[0] == line && ls[1..] == Lines(rest);
  }

  /** Replaying what was written gives back exactly the records that fit. */
  lemma {:induction false} WrittenReplays(env: Env, log: seq<AuditRecord>)
    requires TypedLog(env, log)
    ensures RecordsOf(env, Written(env, log)) == Fitting(env, log)
  {
    if log != [] {
      hide RecordFits, TypedRecord, RecordText, RecordOf, Lines;
      var r, tail := log[0], log[1..];
      assert TypedLog(env, tail);
      WrittenReplays(env, tail);
      TextIsOneLine(env, r);
      FirstRecord(env, RecordText(env, r), Written(env, tail));
      WholeLine(env, r);
    } else {
      assert Lines("") == [];
    }
  }

  /** Appending to a journal whose last line is complete adds exactly the
      records that fit to the log that the next start replays. */
  lemma AppendReplays(env: Env, text: string, log: seq<AuditRecord>)
    requires Closed(text) && TypedLog(env, log)
    ensures RecordsOf(env, text + Written(env, log)) == RecordsOf(env, text) + Fitting(env, log)
  {
    ClosedRecords(env, text, Written(env, log));
    WrittenReplays(env, log);
  }

  // ---------------------------------------------------------------------
  // A crash
  // ---------------------------------------------------------------------

  lemma OnlyLine(env: Env, line: string)
    requires OneLine(line) && line != ""
    ensures RecordsOf(env, line) == RecordOf(env, line)
  {
    hide RecordOf;
    LastLine(line);
    assert [line][1..] == [] && RecordsOfLines(env, []) == [];
  }

  /** A cut inside a record's text leaves nothing of the record. */
  lemma TornLine(env: Env, r: AuditRecord, k: nat)
    requires k < |RecordText(env, r)|
    ensures RecordsOf(env, RecordText(env, r)[..k]) == []
  {
    hide Json.Print, Json.FromText, ToJson, Trim;
    TextIsOneLine(env, r);
    var cut := RecordText(env, r)[..k];
    if k == 0 {
      assert Lines(cut) == [];
    } else {
      OnlyLine(env, cut);
      RecordIsObject(env, r);
      JsonPrefix.PrefixRefused(ToJson(env, r), k);
    }
  }

  lemma RecordIsObject(env: Env, r: AuditRecord)
    ensures ToJson(env, r).Obj?
  {
  }

  /** How many records of a log lie whole in the first `k` characters of its
      journal, the last one with or without its newline. */
  function WholeRecords(env: Env, log: seq<AuditRecord>, k: nat): (n: nat)
    ensures n <= |log|
  {
    if log == [] || k < |RecordText(env, log[0])| then 0
    else
      var len := |Line(env, log[0])|;
      1 + if k < len then 0 else WholeRecords(env, log[1..], k - len)
  }

  /** Crash consistency: cut the journal of any log anywhere, and replaying it
      recovers the fitting records among the first `WholeRecords`, which is
      the longest prefix whose text lies within the cut. */
  lemma {:induction false} CrashRecoversPrefix(env: Env, log: seq<AuditRecord>, k: nat)
    requires TypedLog(env, log) && k <= |Written(env, log)|
    ensures RecordsOf(env, Written(env, log)[..k]) == Fitting(env, log[..WholeRecords(env, log, k)])
  {
    hide RecordFits, TypedRecord, RecordText, RecordOf, Lines;
    if log == [] {
      WrittenReplays(env, []);
      assert Written(env, log)[..k] == "";
    } else {
      var r, tail := log[0], log[1..];
      assert r in log;
      var text, line := RecordText(env, r), Line(env, r);
      var rest := Written(env, tail);
      var n := WholeRecords(env, log, k);
      TextIsOneLine(env, r);
      if k < |text| {
        assert Written(env, log)[..k] == text[..k];
        TornLine(env, r, k);
        assert log[..0] == [];
      } else if k < |line| {
        assert Written(env, log)[..k] == text;
        OneRecord(env, r);
        assert log[..1] == [r];
        assert Fitting(env, [r]) == (if RecordFits(env, r) then [r] else []) + Fitting(env, []);
      } else {
        var m := k - |line|;
        assert TypedLog(env, tail);
        CrashRecoversPrefix(env, tail, m);
        assert Written(env, log)[..k] == text + "\n" + rest[..m];
        FirstRecord(env, text, rest[..m]);
        WholeLine(env, r);
        assert log[..n] == [r] + tail[..n - 1];
        assert log[..n][1..] == tail[..n - 1];
      }
    }
  }

  lemma OneRecord(env: Env, r: AuditRecord)
    requires TypedRecord(env, r)
    ensures RecordsOf(env, RecordText(env, r)) == if RecordFits(env, r) then [r] else []
  {
    hide RecordText, RecordOf, RecordFits, RecordsOf;
    TextIsOneLine(env, r);
    OnlyLine(env, RecordText(env, r));
    WholeLine(env, r);
  }

  /** The prefix is the longest one: its text lies within the cut, but for the
      last newline, and the next record's does not. */
  lemma {:induction false} WholeRecordsMaximal(env: Env, log: seq<AuditRecord>, k: nat)
    requires k <= |Written(env, log)|
    ensures var n := WholeRecords(env, log, k);
      && |Written(env, log[..n])| <= k + 1
      && (n < |log| ==> k < |Written(env, log[..n])| + |RecordText(env, log[n])|)
  {
    hide RecordText;
    if log != [] {
      var n := WholeRecords(env, log, k);
      var r, tail := log[0], log[1..];
      var len := |Line(env, r)|;
      if n == 0 {
        assert log[..0] == [];
      } else if k < len {
        assert log[..1] == [r] && [r][1..] == [];
        assert n < |log| ==> log[1] == tail[0];
      } else {
        WholeRecordsMaximal(env, tail, k - len);
        assert log[..n][1..] == tail[..n - 1];
        assert n < |log| ==> log[n] == tail[n - 1];
      }
    }
  }

  // ---------------------------------------------------------------------
  // Writing on after a crash
  // ---------------------------------------------------------------------

  lemma PlainHead(c: char, s: string)
    requires c as int >= 0x20 && c != '\"' && c != '\\'
    ensures |Json.Quote([c] + s)| >= 2
    ensures Json.Quote([c] + s)[0] == '\"' && Json.Quote([c] + s)[1] == c
  {
    assert Json.Escape([c] + s)[0] == Json.EscapeChar(c)[0];
  }

  /** A record's text opens with its `body` member. */
  lemma RecordHead(env: Env, r: AuditRecord)
    ensures ToJson(env, r).Obj? && JsonPrefix.LetterHead(RecordText(env, r))
  {
    var v := ToJson(env, r);
    hide OpBody, OpName, Wire.TimeText, Json.ParseValue, Json.Quote;
    PlainHead('b', "ody");
    assert "b" + "ody" == "body";
    var body := Json.PrintFields(v.fields);
    var first := v.fields[0];
    assert first.key == "body";
    assert Json.Quote("body") <= Json.PrintField(first) <= body;
    assert body[0] == '\"' && body[1] == 'b';
    assert Json.Print(v) == "{" + body + "}";
  }

  /** `open` appends straight after whatever it finds. If the crash left a
      torn line, the first record written afterwards shares that line, and
      the next start loses both: all of the record that was torn, even when
      only its newline was missing, and the first record written since. */
  lemma TornTailSwallowsNext(env: Env, text: string, torn: AuditRecord, k: nat, log: seq<AuditRecord>)
    requires Closed(text) && TypedLog(env, log) && log != []
    requires 0 < k <= |RecordText(env, torn)|
    ensures RecordsOf(env, text + RecordText(env, torn)[..k] + Written(env, log))
         == RecordsOf(env, text) + Fitting(env, log[1..])
  {
    hide RecordText, Lines, RecordOf, RecordsOf, Fitting, TypedRecord;
    var tail := RecordText(env, torn)[..k];
    var next := RecordText(env, log[0]);
    var rest := Written(env, log[1..]);
    var joined := tail + next;
    TextIsOneLine(env, torn);
    TextIsOneLine(env, log[0]);
    assert OneLine(joined) && joined[0] == '{';
    Regroup(text, tail, next, rest);
    ClosedRecords(env, text, joined + "\n" + rest);
    FirstRecord(env, joined, rest);
    JoinedLine(env, torn, k, log[0]);
    assert TypedLog(env, log[1..]);
    WrittenReplays(env, log[1..]);
  }

  lemma Regroup(text: string, tail: string, next: string, rest: string)
    ensures text + tail + (next + "\n" + rest) == text + ((tail + next) + "\n" + rest)
  {
  }

  lemma JoinedLine(env: Env, torn: AuditRecord, k: nat, next: AuditRecord)
    requires 0 < k <= |RecordText(env, torn)|
    ensures RecordOf(env, RecordText(env, torn)[..k] + RecordText(env, next)) == []
  {
    RecordHead(env, torn);
    RecordHead(env, next);
    hide ToJson, Json.Print;
    var t := RecordText(env, next);
    JsonPrefix.CutContinues(ToJson(env, next), |t|, "");
    assert t[..|t|] + "" == t;
    JsonPrefix.JoinedRefused(ToJson(env, torn), k, t);
  }
}
