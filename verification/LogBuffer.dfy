/** The log: a fixed number of rows filled by two writers and emptied, in order, onto the console. */
module LogBuffer {
  import opened CString
  import opened Numerals
  import opened Format

  const NUM_LOG_LINES := 50
  const LINE_SIZE := 900
  const FULL_IDX := NUM_LOG_LINES
  const LOG_SIZE_OVERFLOW := -2
  const RESET := "\U{1b}[0m"

  // ---------- the log as a value ----------

  /** Lines already printed and lines still in the rows. */
  datatype Log = Log(printed: seq<string>, pending: seq<string>)

  function Dump(s: Log): Log { Log(s.printed + s.pending, []) }

  /** A writer empties a full buffer first. */
  function MakeRoom(s: Log): Log { if |s.pending| == FULL_IDX - 1 then Dump(s) else s }

  function Write(s: Log, line: string): Log {
    var r := MakeRoom(s);
    r.(pending := r.pending + [line])
  }

  /** A refused write has emptied a full buffer all the same. */
  datatype LogCall = WriteCall(line: string) | RefusedCall | DumpCall

  function LogStep(s: Log, call: LogCall): Log {
    match call
    case WriteCall(line) => Write(s, line)
    case RefusedCall => MakeRoom(s)
    case DumpCall => Dump(s)
  }

  function LogRun(s: Log, calls: seq<LogCall>): Log
    decreases |calls|
  {
    if calls == [] then s else LogRun(LogStep(s, calls[0]), calls[1..])
  }

  function Spoken(call: LogCall): seq<string> { if call.WriteCall? then [call.line] else [] }

  function Written(calls: seq<LogCall>): seq<string> {
    if calls == [] then [] else Spoken(calls[0]) + Written(calls[1..])
  }

  function AllLines(s: Log): seq<string> { s.printed + s.pending }

  lemma StepConserves(s: Log, call: LogCall)
    requires |s.pending| < FULL_IDX
    ensures var t := LogStep(s, call);
            |t.pending| < FULL_IDX && AllLines(t) == AllLines(s) + Spoken(call)
  {
  }

  lemma RunUnfolds(s: Log, calls: seq<LogCall>)
    requires calls != []
    ensures LogRun(s, calls) == LogRun(LogStep(s, calls[0]), calls[1..])
    ensures Written(calls) == Spoken(calls[0]) + Written(calls[1..])
  {
  }

  lemma LinesAssociative(a: seq<string>, b: seq<string>, c: seq<string>)
    ensures (a + b) + c == a + (b + c)
  {
  }

  /** Over any run of writers, refused writers and dumps no line is lost, repeated or reordered, and the rows never fill up. */
  lemma {:induction false} LogConserved(s: Log, calls: seq<LogCall>)
    requires |s.pending| < FULL_IDX
    ensures var r := LogRun(s, calls);
            AllLines(r) == AllLines(s) + Written(calls) && |r.pending| < FULL_IDX
    decreases |calls|
  {
    if calls != [] {
      RunUnfolds(s, calls);
      StepConserves(s, calls[0]);
      LinesAssociative(AllLines(s), Spoken(calls[0]), Written(calls[1..]));
      LogConserved(LogStep(s, calls[0]), calls[1..]);
    }
  }

  /** What the console shows for printed lines. */
  function Shown(lines: seq<string>): string {
    if lines == [] then "" else Shown(lines[..|lines| - 1]) + lines[|lines| - 1] + "\n"
  }

  lemma ShownAppend(lines: seq<string>, line: string)
    ensures Shown(lines + [line]) == Shown(lines) + line + "\n"
  {
    assert (lines + [line])[..|lines|] == lines;
  }

  lemma {:induction false} ShownConcat(a: seq<string>, b: seq<string>)
    ensures Shown(a + b) == Shown(a) + Shown(b)
    decreases |b|
  {
    if b == [] {
      assert a + b == a;
    } else {
      var front, last := b[..|b| - 1], b[|b| - 1];
      ShownConcat(a, front);
      ShownAppend(a + front, last);
      ShownAppend(front, last);
      Associative(Shown(a), Shown(front), last);
      Associative(Shown(a), Shown(front) + last, "\n");
      assert a + b == a + front + [last] && b == front + [last];
    }
  }

  // ---------- when lines are printed ----------

  function Writes(lines: seq<string>): seq<LogCall> { seq(|lines|, i requires 0 <= i < |lines| => WriteCall(lines[i])) }

  lemma {:induction false} WrittenWrites(lines: seq<string>)
    ensures Written(Writes(lines)) == lines
  {
    if lines != [] {
      assert Writes(lines)[1..] == Writes(lines[1..]);
      WrittenWrites(lines[1..]);
    }
  }

  /** How many of m lines are printed when p lines were pending before: rows are emptied 49 at a time, by the write that
      finds 49 in use. */
  function Emptied(p: nat, m: nat): (k: nat)
    ensures k <= p + m
  {
    if m == 0 then 0 else (p + m - 1) / 49 * 49
  }

  lemma {:induction false} WritesPrint(s: Log, lines: seq<string>)
    requires |s.pending| <= 49
    ensures var r := LogRun(s, Writes(lines));
            |r.printed| == |s.printed| + Emptied(|s.pending|, |lines|)
    decreases |lines|
  {
    if lines != [] {
      assert Writes(lines)[1..] == Writes(lines[1..]);
      WritesPrint(Write(s, lines[0]), lines[1..]);
      EmptiedStep(|s.pending|, |lines|);
    }
  }

  lemma EmptiedStep(p: nat, m: nat)
    requires p <= 49 && 0 < m
    ensures Emptied(p, m) == if p == 49 then 49 + Emptied(1, m - 1) else Emptied(p + 1, m - 1)
  {
  }

  /** Lines written when no row is in use. */
  lemma WritesFromEmpty(printed: seq<string>, lines: seq<string>)
    ensures LogRun(Log(printed, []), Writes(lines))
            == Log(printed + lines[..Emptied(0, |lines|)], lines[Emptied(0, |lines|)..])
  {
    var s := Log(printed, []);
    WritesPrint(s, lines);
    LogConserved(s, Writes(lines));
    WrittenWrites(lines);
    assert AllLines(s) == printed;
    var r := LogRun(s, Writes(lines));
    SplitsAgree(r.printed, r.pending, printed, lines, Emptied(0, |lines|));
  }

  lemma DumpedRun(calls: seq<LogCall>, more: seq<LogCall>)
    ensures LogRun(Log([], []), calls + ([DumpCall] + more)) == LogRun(Log(Written(calls), []), more)
  {
    var s := LogRun(Log([], []), calls);
    LogConserved(Log([], []), calls);
    assert AllLines(Log([], [])) == [];
    assert Dump(s) == Log(Written(calls), []);
    LogRunConcat(Log([], []), calls, [DumpCall] + more);
    RunUnfolds(s, [DumpCall] + more);
    assert ([DumpCall] + more)[1..] == more;
  }

  /** After any calls a dump empties the rows; of m >= 1 lines written after it, the first (m - 1) / 49 * 49 are printed
      and the others pending. */
  lemma PrintedAndPending(calls: seq<LogCall>, lines: seq<string>)
    requires lines != []
    ensures var r := LogRun(Log([], []), calls + ([DumpCall] + Writes(lines)));
            var k := (|lines| - 1) / 49 * 49;
            k <= |lines| && r.printed == Written(calls) + lines[..k] && r.pending == lines[k..]
  {
    DumpedRun(calls, Writes(lines));
    WritesFromEmpty(Written(calls), lines);
  }

  lemma SplitsAgree(a: seq<string>, b: seq<string>, c: seq<string>, d: seq<string>, k: nat)
    requires a + b == c + d && k <= |d| && |a| == |c| + k
    ensures a == c + d[..k] && b == d[k..]
  {
    assert a == (a + b)[..|c| + k] && b == (a + b)[|c| + k..];
  }

  lemma {:induction false} LogRunConcat(s: Log, a: seq<LogCall>, b: seq<LogCall>)
    ensures LogRun(s, a + b) == LogRun(LogRun(s, a), b)
    decreases |a|
  {
    if a == [] {
      assert a + b == b;
    } else {
      assert (a + b)[1..] == a[1..] + b;
      LogRunConcat(LogStep(s, a[0]), a[1..], b);
    }
  }

  /** From start-up on. */
  lemma PrintedFromStart(lines: seq<string>)
    requires lines != []
    ensures var r := LogRun(Log([], []), Writes(lines));
            var k := (|lines| - 1) / 49 * 49;
            k <= |lines| && r.printed == lines[..k] && r.pending == lines[k..]
  {
    WritesFromEmpty([], lines);
  }

  // ---------- the texts ----------

  function Location(file: string, line: int): string {
    "] " + file + ":" + Dec(line) + " "
  }

  predicate PrefixArgs(level: string, file: string, line: int) {
    IsCString(level) && IsCString(file) && -INT_MAX <= line <= INT_MAX
  }

  function Prefix(level: string, file: string, line: int): string {
    "[" + level + Location(file, line)
  }

  function ColoredPrefix(color: string, level: string, file: string, line: int): string {
    color + " " + Prefix(level, file, line)
  }

  lemma PrefixIsShort(level: string, file: string, line: int)
    requires PrefixArgs(level, file, line)
    ensures IsCString(Prefix(level, file, line)) && |Prefix(level, file, line)| <= |level| + |file| + 16
  {
    DecLength(line);
  }

  /** Plain text, a string and the rest. */
  lemma NextStr(plain: string, s: string, fmt: string, args: seq<Arg>, text: string, whole: string, all: seq<Arg>, result: string)
    requires '%' !in plain && IsCString(s) && Yields(fmt, args, text)
    requires whole == plain + "%s" + fmt && all == [StrArg(s)] + args && result == plain + s + text
    ensures Yields(whole, all, result)
  {
    YieldsNext(plain, "%s", StrArg(s), fmt, args, text);
  }

  lemma LineExpands(line: int)
    requires -INT_MAX <= line <= INT_MAX
    ensures Yields(":%d ", [IntArg(line)], ":" + Dec(line) + " ")
  {
    YieldsPlain(" ");
    YieldsNext(":", "%d", IntArg(line), " ", [], " ");
    assert ":" + "%d" + " " == ":%d " && [IntArg(line)] + [] == [IntArg(line)];
  }

  lemma LocationExpands(file: string, line: int)
    requires IsCString(file) && -INT_MAX <= line <= INT_MAX
    ensures Yields("] %s:%d ", [StrArg(file), IntArg(line)], Location(file, line))
  {
    LineExpands(line);
    NextStr("] ", file, ":%d ", [IntArg(line)], ":" + Dec(line) + " ",
            "] %s:%d ", [StrArg(file), IntArg(line)], Location(file, line));
  }

  lemma PrefixExpands(level: string, file: string, line: int)
    requires PrefixArgs(level, file, line)
    ensures Yields("[%s] %s:%d ", [StrArg(level), StrArg(file), IntArg(line)], Prefix(level, file, line))
  {
    LocationExpands(file, line);
    NextStr("[", level, "] %s:%d ", [StrArg(file), IntArg(line)], Location(file, line),
            "[%s] %s:%d ", [StrArg(level), StrArg(file), IntArg(line)], Prefix(level, file, line));
  }

  lemma ColoredPrefixExpands(color: string, level: string, file: string, line: int)
    requires PrefixArgs(level, file, line) && IsCString(color)
    ensures Yields("%s [%s] %s:%d ", [StrArg(color), StrArg(level), StrArg(file), IntArg(line)],
                   ColoredPrefix(color, level, file, line))
  {
    SpacedPrefixExpands(level, file, line);
    NextStr("", color, " [%s] %s:%d ", [StrArg(level), StrArg(file), IntArg(line)], " " + Prefix(level, file, line),
            "%s [%s] %s:%d ", [StrArg(color), StrArg(level), StrArg(file), IntArg(line)], ColoredPrefix(color, level, file, line));
  }

  lemma SpacedPrefixExpands(level: string, file: string, line: int)
    requires PrefixArgs(level, file, line)
    ensures Yields(" [%s] %s:%d ", [StrArg(level), StrArg(file), IntArg(line)], " " + Prefix(level, file, line))
  {
    LocationExpands(file, line);
    NextStr(" [", level, "] %s:%d ", [StrArg(file), IntArg(line)], Location(file, line),
            " [%s] %s:%d ", [StrArg(level), StrArg(file), IntArg(line)], " " + Prefix(level, file, line));
  }
}
