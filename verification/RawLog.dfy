/** The log's rows as they lie in memory: what the writers leave in them, what the dump prints of them, and when that
    is the log of LogBuffer. */
module RawLog {
  import opened CString
  import opened LogBuffer

  const MESSAGE_SIZE := 100

  /** No writer reaches further than this into a row. */
  const MAX_LINE := 2 * MESSAGE_SIZE + |RESET|

  // ---------- strings in memory ----------

  /** What %s and strlen read: the characters up to the first NUL. */
  function Visible(s: string): (v: string)
    ensures |v| <= |s| && v == s[..|v|] && IsCString(v)
    ensures |v| < |s| ==> s[|v|] == NUL
  {
    if s == "" || s[0] == NUL then "" else [s[0]] + Visible(s[1..])
  }

  lemma {:induction false} VisibleIs(s: string, k: nat)
    requires k <= |s| && IsCString(s[..k]) && (k < |s| ==> s[k] == NUL)
    ensures Visible(s) == s[..k]
  {
    if k > 0 {
      assert s[0] in s[..k];
      assert s[1..][..k - 1] == s[..k][1..];
      VisibleIs(s[1..], k - 1);
    }
  }

  predicate Blank(s: string) { forall j :: 0 <= j < |s| ==> s[j] == NUL }

  /** Nothing but NUL after the first NUL. */
  predicate Padded(s: string) { Blank(s[|Visible(s)|..]) }

  /** What a buffer of bufsz characters holds, read up to the length that vsnprintf reports: the last character of a
      text of just that size is replaced by NUL. */
  function Buffered(bufsz: nat, text: string): (s: string)
    requires |text| <= bufsz
    ensures |s| == |text|
  {
    if |text| < bufsz || text == "" then text else text[..bufsz - 1] + [NUL]
  }

  /** The characters a writer copies: prefix and message as their buffers give them back, and the reset sequence. */
  function Content(prefix: string, text: string, reset: string): (s: string)
    requires |prefix| <= MESSAGE_SIZE && |text| <= MESSAGE_SIZE
    ensures |s| == |prefix| + |text| + |reset|
  {
    Buffered(MESSAGE_SIZE, prefix) + Buffered(MESSAGE_SIZE, text) + reset
  }

  // ---------- the rows ----------

  /** printed holds the lines on the console; tail counts the rows in use. */
  datatype Raw = Raw(printed: seq<string>, rows: seq<string>, tail: nat)

  predicate Sized(rows: seq<string>) {
    |rows| == NUM_LOG_LINES && forall i :: 0 <= i < |rows| ==> |rows[i]| == LINE_SIZE && Blank(rows[i][MAX_LINE..])
  }

  predicate Formed(s: Raw) { Sized(s.rows) && s.tail < FULL_IDX }

  function Lines(rows: seq<string>): seq<string> { seq(|rows|, i requires 0 <= i < |rows| => Visible(rows[i])) }

  /** memset over the length that strlen sees. */
  function Cleared(row: string): (r: string)
    ensures |r| == |row|
  {
    seq(|row|, j requires 0 <= j < |row| => if j < |Visible(row)| then NUL else row[j])
  }

  /** The rows before i are cleared. */
  function ClearedTo(rows: seq<string>, i: nat): (r: seq<string>)
    ensures |r| == |rows|
  {
    seq(|rows|, k requires 0 <= k < |rows| => if k < i then Cleared(rows[k]) else rows[k])
  }

  lemma ClearedSized(rows: seq<string>, i: nat)
    requires Sized(rows)
    ensures Sized(ClearedTo(rows, i))
  {
    var all := ClearedTo(rows, i);
    forall k | 0 <= k < |all| ensures Blank(all[k][MAX_LINE..]) {
      forall j | 0 <= j < |all[k][MAX_LINE..]| ensures all[k][MAX_LINE..][j] == NUL {
        assert rows[k][MAX_LINE..][j] == NUL;
      }
    }
  }

  function RawDump(s: Raw): (t: Raw)
    requires Formed(s)
    ensures Formed(t)
  {
    ClearedSized(s.rows, s.tail);
    Raw(s.printed + Lines(s.rows[..s.tail]), ClearedTo(s.rows, s.tail), 0)
  }

  function RawMakeRoom(s: Raw): (t: Raw)
    requires Formed(s)
    ensures Formed(t) && t.tail < FULL_IDX - 1
  {
    if s.tail == FULL_IDX - 1 then RawDump(s) else s
  }

  function Overlay(row: string, text: string): string
    requires |text| <= |row|
  {
    text + row[|text|..]
  }

  lemma OverlayBlank(row: string, content: string)
    requires |row| == LINE_SIZE && Blank(row[MAX_LINE..]) && |content| <= MAX_LINE
    ensures |Overlay(row, content)| == LINE_SIZE && Blank(Overlay(row, content)[MAX_LINE..])
  {
    assert Overlay(row, content)[MAX_LINE..] == row[MAX_LINE..];
  }

  /** The rows with one more line. */
  function Appended(r: Raw, row: string): (t: Raw)
    requires r.tail < |r.rows|
  {
    Raw(r.printed, r.rows[r.tail := row], r.tail + 1)
  }

  /** The new line covers the front of the next row. */
  function RawWrite(s: Raw, content: string): (t: Raw)
    requires Formed(s) && |content| <= MAX_LINE
    ensures Formed(t)
  {
    var r := RawMakeRoom(s);
    OverlayBlank(r.rows[r.tail], content);
    Appended(r, Overlay(r.rows[r.tail], content))
  }

  // ---------- the log behind the rows ----------

  /** The rows in use hold one line and zeros, the others only zeros. */
  predicate Clean(s: Raw) {
    Formed(s) && forall i :: 0 <= i < |s.rows| ==> if i < s.tail then Padded(s.rows[i]) else Blank(s.rows[i])
  }

  function Abs(s: Raw): Log
    requires s.tail <= |s.rows|
  {
    Log(s.printed, Lines(s.rows[..s.tail]))
  }

  /** Clearing what is visible leaves only zeros exactly when nothing lies behind the first NUL. */
  lemma ClearedBlank(row: string)
    ensures Blank(Cleared(row)) <==> Padded(row)
  {
    var n := |Visible(row)|;
    if Padded(row) {
      forall j | 0 <= j < |row| ensures Cleared(row)[j] == NUL {
        if n <= j { assert row[n..][j - n] == NUL; }
      }
    } else {
      var j :| 0 <= j < |row[n..]| && row[n..][j] != NUL;
      assert Cleared(row)[n + j] == row[n..][j];
    }
  }

  /** A dump is that of the log; it leaves zeros in every row exactly when the rows were clean before. */
  lemma DumpIs(s: Raw)
    requires Formed(s) && forall i :: s.tail <= i < |s.rows| ==> Blank(s.rows[i])
    ensures Abs(RawDump(s)) == Dump(Abs(s))
    ensures Clean(RawDump(s)) <==> Clean(s)
  {
    var t := RawDump(s);
    forall i | 0 <= i < s.tail ensures Blank(t.rows[i]) <==> Padded(s.rows[i]) {
      ClearedBlank(s.rows[i]);
    }
    assert Lines(t.rows[..0]) == [];
    if Clean(t) {
      forall i | 0 <= i < s.tail ensures Padded(s.rows[i]) {
        assert Blank(t.rows[i]);
      }
    }
  }

  lemma {:induction false} VisibleConcat(s: string, z: string)
    requires Blank(z)
    ensures Visible(s + z) == Visible(s) && (Padded(s + z) <==> Padded(s))
  {
    var n := |Visible(s)|;
    assert (s + z)[..n] == s[..n];
    VisibleIs(s + z, n);
    assert (s + z)[n..] == s[n..] + z;
    BlankConcat(s[n..], z);
  }

  lemma BlankConcat(s: string, z: string)
    ensures Blank(s + z) <==> Blank(s) && Blank(z)
  {
    if Blank(s + z) {
      forall j | 0 <= j < |s| ensures s[j] == NUL { assert (s + z)[j] == NUL; }
      forall j | 0 <= j < |z| ensures z[j] == NUL { assert (s + z)[|s| + j] == NUL; }
    }
  }

  lemma RoomIs(s: Raw)
    requires Clean(s)
    ensures var r := RawMakeRoom(s);
            Clean(r) && Abs(r) == MakeRoom(Abs(s))
  {
    DumpIs(s);
  }

  lemma LinesAppend(rows: seq<string>, k: nat, row: string)
    requires k < |rows|
    ensures Lines(rows[k := row][..k + 1]) == Lines(rows[..k]) + [Visible(row)]
  {
    assert rows[k := row][..k + 1] == rows[..k] + [row];
  }

  lemma AppendClean(r: Raw, row: string)
    requires Clean(r) && r.tail < FULL_IDX - 1
    requires |row| == LINE_SIZE && Blank(row[MAX_LINE..])
    ensures Formed(Appended(r, row)) && (Clean(Appended(r, row)) <==> Padded(row))
  {
    var t := Appended(r, row);
    assert Clean(t) ==> Padded(t.rows[r.tail]);
  }

  lemma BlankRest(row: string, n: nat)
    requires Blank(row) && n <= |row|
    ensures Blank(row[n..])
  {
  }

  lemma OverlayShows(row: string, content: string)
    requires Blank(row) && |content| <= |row|
    ensures Visible(Overlay(row, content)) == Visible(content)
    ensures Padded(Overlay(row, content)) <==> Padded(content)
  {
    BlankRest(row, |content|);
    VisibleConcat(content, row[|content|..]);
  }

  lemma AppendIs(r: Raw, content: string)
    requires Clean(r) && r.tail < FULL_IDX - 1 && |content| <= MAX_LINE
    ensures var t := Appended(r, Overlay(r.rows[r.tail], content));
            && Formed(t) && (Clean(t) <==> Padded(content))
            && Abs(t) == Log(r.printed, Lines(r.rows[..r.tail]) + [Visible(content)])
  {
    var row := r.rows[r.tail];
    OverlayShows(row, content);
    OverlayBlank(row, content);
    LinesAppend(r.rows, r.tail, Overlay(row, content));
    AppendClean(r, Overlay(row, content));
  }

  /** A writer adds to the log what its content shows before the first NUL, and the rows stay clean exactly when it
      has nothing behind that. */
  lemma WriteIs(s: Raw, content: string)
    requires Clean(s) && |content| <= MAX_LINE
    ensures var t := RawWrite(s, content);
            Abs(t) == Write(Abs(s), Visible(content)) && (Clean(t) <==> Padded(content))
  {
    RoomIs(s);
    AppendIs(RawMakeRoom(s), content);
  }

  // ---------- what a line shows ----------

  lemma CutByNul(s: string, rest: string)
    requires IsCString(s)
    ensures Visible(s + [NUL] + rest) == s && (Padded(s + [NUL] + rest) <==> Blank(rest))
  {
    var c := s + [NUL] + rest;
    assert c[..|s|] == s;
    VisibleIs(c, |s|);
    assert c[|s|..] == [NUL] + rest;
    BlankConcat([NUL], rest);
  }

  lemma NotBlank(s: string)
    requires s != "" && s[0] != NUL
    ensures !Blank(s)
  {
  }

  /** What a line of given texts shows, and whether something stays behind its first NUL. */
  lemma ContentShows(prefix: string, text: string, reset: string)
    requires |prefix| <= MESSAGE_SIZE && |text| <= MESSAGE_SIZE
    requires IsCString(prefix) && IsCString(text) && IsCString(reset)
    ensures var c := Content(prefix, text, reset);
            && Visible(c) == (if |prefix| == MESSAGE_SIZE then prefix[..MESSAGE_SIZE - 1]
                              else if |text| == MESSAGE_SIZE then prefix + text[..MESSAGE_SIZE - 1]
                              else prefix + text + reset)
            && (Padded(c) <==> if |prefix| == MESSAGE_SIZE then text + reset == ""
                               else |text| == MESSAGE_SIZE ==> reset == "")
  {
    var c := Content(prefix, text, reset);
    var front := MESSAGE_SIZE - 1;
    if |prefix| == MESSAGE_SIZE {
      var rest := Buffered(MESSAGE_SIZE, text) + reset;
      CutByNul(prefix[..front], rest);
      assert c == prefix[..front] + [NUL] + rest;
      if rest != "" {
        assert text != "" ==> rest[0] == text[0] && text[0] in text;
        assert text == "" ==> rest[0] == reset[0] && reset[0] in reset;
        NotBlank(rest);
      }
    } else if |text| == MESSAGE_SIZE {
      CutByNul(prefix + text[..front], reset);
      assert c == prefix + text[..front] + [NUL] + reset;
      if reset != "" { NotBlank(reset); }
    } else {
      assert c[..|c|] == c;
      VisibleIs(c, |c|);
    }
  }

  /** The log gains the line its texts spell exactly when both are shorter than their buffers and hold no NUL. */
  lemma WriteWholeIff(s: Raw, prefix: string, text: string, reset: string)
    requires Clean(s) && |prefix| <= MESSAGE_SIZE && |text| <= MESSAGE_SIZE && |reset| <= |RESET|
    ensures Abs(RawWrite(s, Content(prefix, text, reset))) == Write(Abs(s), prefix + text + reset)
            <==> |prefix| < MESSAGE_SIZE && |text| < MESSAGE_SIZE && IsCString(prefix + text + reset)
  {
    var c, whole := Content(prefix, text, reset), prefix + text + reset;
    WriteIs(s, c);
    VisibleWholeIff(prefix, text, reset);
    var p, q := Write(Abs(s), Visible(c)).pending, Write(Abs(s), whole).pending;
    assert p[|p| - 1] == Visible(c) && q[|q| - 1] == whole;
  }

  lemma VisibleWholeIff(prefix: string, text: string, reset: string)
    requires |prefix| <= MESSAGE_SIZE && |text| <= MESSAGE_SIZE
    ensures Visible(Content(prefix, text, reset)) == prefix + text + reset
            <==> |prefix| < MESSAGE_SIZE && |text| < MESSAGE_SIZE && IsCString(prefix + text + reset)
  {
    var c := Content(prefix, text, reset);
    assert |prefix| == MESSAGE_SIZE ==> c[MESSAGE_SIZE - 1] == NUL;
    assert |text| == MESSAGE_SIZE ==> c[|prefix| + MESSAGE_SIZE - 1] == NUL;
    assert |Visible(c)| == |c| ==> IsCString(c);
    if |prefix| < MESSAGE_SIZE && |text| < MESSAGE_SIZE && IsCString(c) {
      assert c[..|c|] == c;
      VisibleIs(c, |c|);
    }
  }

  /** What a prefix of just the buffer's size leaves behind its NUL survives the dump, and a later line of as many
      characters is shown with it. */
  lemma StaleShows(s: Raw, prefix: string, text: string, reset: string, line: string)
    requires Clean(s) && s.tail == 0 && |prefix| == MESSAGE_SIZE && |text| < MESSAGE_SIZE && |reset| <= |RESET|
    requires IsCString(prefix) && IsCString(text) && IsCString(reset) && |line| == MESSAGE_SIZE && IsCString(line)
    ensures Abs(RawWrite(RawDump(RawWrite(s, Content(prefix, text, reset))), line)).pending == [line + text + reset]
  {
    var c := Content(prefix, text, reset);
    var t := RawWrite(s, c);
    WriteIs(s, c);
    BlankRest(s.rows[0], |c|);
    StaleRow(prefix, text, reset, s.rows[0][|c|..], line);
    var u := RawWrite(RawDump(t), line);
    assert u.rows[..u.tail] == [Overlay(Cleared(Overlay(s.rows[0], c)), line)];
  }

  lemma StaleRow(prefix: string, text: string, reset: string, zeros: string, line: string)
    requires |prefix| == MESSAGE_SIZE && |text| < MESSAGE_SIZE && Blank(zeros) && |line| == MESSAGE_SIZE
    requires IsCString(prefix) && IsCString(text) && IsCString(reset) && IsCString(line)
    ensures Visible(Overlay(Cleared(Content(prefix, text, reset) + zeros), line)) == line + text + reset
  {
    var front := prefix[..MESSAGE_SIZE - 1];
    var row := Content(prefix, text, reset) + zeros;
    CutByNul(front, text + reset + zeros);
    assert row == front + [NUL] + (text + reset + zeros);
    assert Cleared(row)[|line|..] == text + reset + zeros;
    var whole := line + text + reset;
    assert Overlay(Cleared(row), line) == whole + zeros;
    VisibleConcat(whole, zeros);
    assert whole[..|whole|] == whole;
    VisibleIs(whole, |whole|);
  }

  // ---------- whole runs ----------

  /** A line of three texts, a line too long for a row, or a dump. */
  datatype RawCall = LineCall(prefix: string, text: string, reset: string) | TooLongCall | ClearCall

  /** At most bound characters for the two texts that pass through a buffer. */
  predicate Short(call: RawCall, bound: nat) {
    call.LineCall? ==> |call.prefix| <= bound && |call.text| <= bound && |call.reset| <= |RESET|
  }

  predicate AllShort(calls: seq<RawCall>, bound: nat) {
    forall i :: 0 <= i < |calls| ==> Short(calls[i], bound)
  }

  /** Short texts that are C strings. */
  predicate Within(call: RawCall, bound: nat) {
    Short(call, bound) && (call.LineCall? ==> IsCString(call.prefix) && IsCString(call.text) && IsCString(call.reset))
  }

  predicate AllWithin(calls: seq<RawCall>, bound: nat) {
    forall i :: 0 <= i < |calls| ==> Within(calls[i], bound)
  }

  function RawStep(s: Raw, call: RawCall): (t: Raw)
    requires Formed(s) && Short(call, MESSAGE_SIZE)
    ensures Formed(t)
  {
    match call
    case LineCall(prefix, text, reset) =>
      RawWrite(s, Content(prefix, text, reset))
    case TooLongCall => RawMakeRoom(s)
    case ClearCall => RawDump(s)
  }

  function RawRun(s: Raw, calls: seq<RawCall>): (t: Raw)
    requires Formed(s) && AllShort(calls, MESSAGE_SIZE)
    ensures Formed(t)
    decreases |calls|
  {
    if calls == [] then s else RawRun(RawStep(s, calls[0]), calls[1..])
  }

  /** The call of the log that a call means. */
  function Meant(call: RawCall): LogCall {
    match call
    case LineCall(prefix, text, reset) => WriteCall(prefix + text + reset)
    case TooLongCall => RefusedCall
    case ClearCall => DumpCall
  }

  function AllMeant(calls: seq<RawCall>): seq<LogCall> {
    if calls == [] then [] else [Meant(calls[0])] + AllMeant(calls[1..])
  }

  function Zeros(): (r: string)
    ensures |r| == LINE_SIZE && Blank(r)
  {
    seq(LINE_SIZE, _ => NUL)
  }

  function Empty(): (s: Raw)
    ensures Clean(s) && Abs(s) == Log([], [])
  {
    var s := Raw([], seq(NUM_LOG_LINES, _ => Zeros()), 0);
    assert Lines(s.rows[..0]) == [];
    s
  }

  lemma StepRefines(s: Raw, call: RawCall)
    requires Clean(s) && Within(call, MESSAGE_SIZE - 1)
    ensures Clean(RawStep(s, call)) && Abs(RawStep(s, call)) == LogStep(Abs(s), Meant(call))
  {
    RoomIs(s);
    DumpIs(s);
    if call.LineCall? {
      WriteIs(s, Content(call.prefix, call.text, call.reset));
      ContentShows(call.prefix, call.text, call.reset);
    }
  }

  lemma {:induction false} RunRefines(s: Raw, calls: seq<RawCall>)
    requires Clean(s) && AllWithin(calls, MESSAGE_SIZE - 1)
    ensures Clean(RawRun(s, calls)) && Abs(RawRun(s, calls)) == LogRun(Abs(s), AllMeant(calls))
    decreases |calls|
  {
    if calls != [] {
      StepRefines(s, calls[0]);
      RunRefines(RawStep(s, calls[0]), calls[1..]);
    }
  }

  /** From start-up on, every run of calls with texts up to a bound leaves the log it means exactly when the bound is
      below the size of the message buffers. */
  lemma RunsRefineIff(bound: nat)
    requires bound <= MESSAGE_SIZE
    ensures (forall calls :: AllWithin(calls, bound) ==> Abs(RawRun(Empty(), calls)) == LogRun(Log([], []), AllMeant(calls)))
            <==> bound < MESSAGE_SIZE
  {
    if bound < MESSAGE_SIZE {
      forall calls | AllWithin(calls, bound)
        ensures Abs(RawRun(Empty(), calls)) == LogRun(Log([], []), AllMeant(calls))
      {
        RunRefines(Empty(), calls);
      }
    } else {
      var prefix, text := Prefix("INFO", "f", 1), seq(MESSAGE_SIZE, _ => 'a');
      PrefixIsShort("INFO", "f", 1);
      var calls := [LineCall(prefix, text, "")];
      WriteWholeIff(Empty(), prefix, text, "");
      RunOne(calls[0]);
      assert AllWithin(calls, bound);
    }
  }

  lemma RunOne(call: RawCall)
    requires Short(call, MESSAGE_SIZE)
    ensures RawRun(Empty(), [call]) == RawStep(Empty(), call)
    ensures LogRun(Log([], []), AllMeant([call])) == LogStep(Log([], []), Meant(call))
  {
    assert AllMeant([call]) == [Meant(call)];
    assert LogRun(LogStep(Log([], []), Meant(call)), []) == LogStep(Log([], []), Meant(call));
  }

  /** From start-up on, over every run of calls with texts below 100 characters: the lines printed and then the lines
      that the rows show are the lines written, in order, and the rows not in use are zero. */
  lemma RunConserves(calls: seq<RawCall>)
    requires AllWithin(calls, MESSAGE_SIZE - 1)
    ensures var r := RawRun(Empty(), calls);
            && r.printed + Lines(r.rows[..r.tail]) == Written(AllMeant(calls))
            && forall i :: r.tail <= i < |r.rows| ==> Blank(r.rows[i])
  {
    RunRefines(Empty(), calls);
    LogConserved(Log([], []), AllMeant(calls));
    var r := RawRun(Empty(), calls);
    assert AllLines(Abs(r)) == AllLines(Log([], [])) + Written(AllMeant(calls));
    assert AllLines(Log([], [])) == [];
  }
}
