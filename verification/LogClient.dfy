/** Whole runs of the log's writers and its dump in memory. */
module LogClient {
  import opened CString
  import opened Format
  import opened LogBuffer
  import opened RawLog
  import opened Logger

  /** A call with the arguments a caller gives it. */
  datatype Call =
    | Plain(fmt: string, level: string, file: string, line: int, args: seq<Arg>)
    | Colored(fmt: string, color: string, level: string, file: string, line: int, args: seq<Arg>)
    | Flush

  /** The prefix and the message of a line. */
  function PrefixOf(q: Call): string
    requires !q.Flush?
  {
    if q.Plain? then Prefix(q.level, q.file, q.line) else ColoredPrefix(q.color, q.level, q.file, q.line)
  }

  /** The call is within the writers' contracts. */
  predicate Proper(q: Call) {
    !q.Flush? ==>
      && MessageArgs(q.fmt, q.args) && PrefixArgs(q.level, q.file, q.line) && (q.Colored? ==> IsCString(q.color))
      && LineArgs(PrefixOf(q), Expand(q.fmt, q.args))
  }

  type Request = q: Call | Proper(q) witness Flush

  /** A dump, or a line whose texts are C strings that come through their buffers whole. */
  predicate Modest(q: Request) {
    !q.Flush? ==> |PrefixOf(q)| < 100 && |Expand(q.fmt, q.args)| < 100 && IsCString(Expand(q.fmt, q.args))
  }

  type ModestRequest = q: Request | Modest(q) witness Flush

  type ModestLine = q: ModestRequest | !q.Flush? witness Plain("", "INFO", "f", 1, [])

  function Asked(q: Request): (call: RawCall)
    ensures Short(call, MESSAGE_SIZE)
  {
    if q.Flush? then ClearCall
    else if |PrefixOf(q)| + |Expand(q.fmt, q.args)| > LINE_SIZE then TooLongCall
    else LineCall(PrefixOf(q), Expand(q.fmt, q.args), if q.Colored? then RESET else "")
  }

  function Map<T, U>(f: T -> U, s: seq<T>): (r: seq<U>)
    ensures |r| == |s| && forall i :: 0 <= i < |s| ==> r[i] == f(s[i])
  {
    seq(|s|, i requires 0 <= i < |s| => f(s[i]))
  }

  lemma MapAround<T, U>(f: T -> U, a: seq<T>, x: T, b: seq<T>)
    ensures Map(f, a + ([x] + b)) == Map(f, a) + ([f(x)] + Map(f, b))
  {
  }

  lemma MapTail<T, U>(f: T -> U, s: seq<T>)
    requires s != []
    ensures Map(f, s) == [f(s[0])] + Map(f, s[1..])
  {
  }

  function AllAsked(requests: seq<Request>): (calls: seq<RawCall>)
    ensures AllShort(calls, MESSAGE_SIZE)
  {
    Map(Asked, requests)
  }

  /** The calls up to the first line that is refused, whose panic ends the run. */
  function UpToRefusal(calls: seq<RawCall>): (served: seq<RawCall>)
    ensures AllShort(calls, MESSAGE_SIZE) ==> AllShort(served, MESSAGE_SIZE)
  {
    if calls == [] then [] else [calls[0]] + if calls[0].TooLongCall? then [] else UpToRefusal(calls[1..])
  }

  function Served(requests: seq<Request>): (calls: seq<RawCall>)
    ensures AllShort(calls, MESSAGE_SIZE)
  {
    UpToRefusal(AllAsked(requests))
  }

  method Serve(log: LogRows, q: Request) returns (ok: bool)
    requires log.Valid()
    modifies log, log.rows
    ensures log.Valid() && log.raw == RawStep(old(log.raw), Asked(q)) && ok == !Asked(q).TooLongCall?
  {
    var r := 0;
    match q {
      case Plain(fmt, level, file, line, args) => r := log.WriteToBuffer(fmt, level, file, line, args);
      case Colored(fmt, color, level, file, line, args) =>
        r := log.WriteToBufferColored(fmt, color, level, file, line, args);
      case Flush => log.DumpBuffer();
    }
    ok := r == 0;
  }

  /** A run in memory leaves the rows and the console of the run on values. */
  method ServeAll(log: LogRows, requests: seq<Request>) returns (ok: bool)
    requires log.Valid()
    modifies log, log.rows
    ensures log.Valid() && log.raw == RawRun(old(log.raw), Served(requests))
    ensures log.console == Shown(RawRun(old(log.raw), Served(requests)).printed)
    ensures ok == (TooLongCall !in Served(requests))
    decreases |requests|
  {
    if requests == [] { return true; }
    AskedTail(requests);
    ok := Serve(log, requests[0]);
    if ok { ok := ServeAll(log, requests[1..]); }
  }

  lemma AskedTail(requests: seq<Request>)
    requires requests != []
    ensures AllAsked(requests) == [Asked(requests[0])] + AllAsked(requests[1..])
  {
    MapTail(Asked, requests);
  }

  // ---------- what a run prints ----------

  /** The line that a call is for. */
  function LineOf(q: ModestLine): string {
    PrefixOf(q) + Expand(q.fmt, q.args) + if q.Colored? then "\U{1b}[0m" else ""
  }

  function LinesOf(lines: seq<ModestLine>): seq<string> {
    Map(LineOf, lines)
  }

  /** The call of the log that a request means. */
  function AsLog(q: ModestRequest): LogCall { if q.Flush? then DumpCall else WriteCall(LineOf(q)) }

  function AllAsLog(requests: seq<ModestRequest>): seq<LogCall> {
    Map(AsLog, requests)
  }

  lemma AskedIs(q: ModestRequest)
    ensures Within(Asked(q), MESSAGE_SIZE - 1) && !Asked(q).TooLongCall?
    ensures Meant(Asked(q)) == AsLog(q)
  {
    if !q.Flush? { PrefixIsShort(q.level, q.file, q.line); }
  }

  predicate NoneRefused(calls: seq<RawCall>) { forall i :: 0 <= i < |calls| ==> !calls[i].TooLongCall? }

  lemma {:induction false} AllServed(calls: seq<RawCall>)
    requires NoneRefused(calls)
    ensures UpToRefusal(calls) == calls
  {
    if calls != [] { AllServed(calls[1..]); }
  }

  lemma {:induction false} RefusalEnds(before: seq<RawCall>, rest: seq<RawCall>)
    requires NoneRefused(before)
    ensures UpToRefusal(before + ([TooLongCall] + rest)) == before + [TooLongCall]
  {
    var calls := before + ([TooLongCall] + rest);
    if before == [] {
      assert calls == [TooLongCall] + rest;
    } else {
      assert calls[1..] == before[1..] + ([TooLongCall] + rest);
      RefusalEnds(before[1..], rest);
    }
  }

  lemma ModestServed(requests: seq<ModestRequest>)
    ensures Served(requests) == AllAsked(requests) && NoneRefused(AllAsked(requests))
    ensures AllWithin(Served(requests), MESSAGE_SIZE - 1)
  {
    var calls := AllAsked(requests);
    forall i | 0 <= i < |calls| ensures Within(calls[i], MESSAGE_SIZE - 1) && !calls[i].TooLongCall? {
      AskedIs(requests[i]);
    }
    AllServed(calls);
  }

  lemma {:induction false} AllMeantAt(calls: seq<RawCall>)
    ensures |AllMeant(calls)| == |calls|
    ensures forall i :: 0 <= i < |calls| ==> AllMeant(calls)[i] == Meant(calls[i])
  {
    if calls != [] { AllMeantAt(calls[1..]); }
  }

  lemma ModestMeans(requests: seq<ModestRequest>)
    ensures AllMeant(Served(requests)) == AllAsLog(requests)
  {
    ModestServed(requests);
    AllMeantAt(Served(requests));
    forall i | 0 <= i < |requests| ensures AllMeant(Served(requests))[i] == AllAsLog(requests)[i] {
      AskedIs(requests[i]);
    }
  }

  lemma LinesAsLog(lines: seq<ModestLine>)
    ensures AllAsLog(lines) == Writes(LinesOf(lines))
  {
  }

  /** Any calls, a dump, and lines. */
  function WithFlush(before: seq<ModestRequest>, lines: seq<ModestLine>): seq<ModestRequest> { before + ([Flush] + lines) }

  lemma FlushAsLog(before: seq<ModestRequest>, lines: seq<ModestLine>)
    ensures AllAsLog(WithFlush(before, lines)) == AllAsLog(before) + ([DumpCall] + Writes(LinesOf(lines)))
  {
    LinesAsLog(lines);
    MapAround<ModestRequest, LogCall>(AsLog, before, Flush, lines);
  }

  /** From start-up, with any calls, a dump, and then m >= 1 lines: printed are the lines written before the dump and the
      first (m - 1) / 49 * 49 after it, and the rows show the others. */
  lemma ServedPrints(before: seq<ModestRequest>, lines: seq<ModestLine>)
    requires lines != []
    ensures var r := RawRun(Empty(), Served(WithFlush(before, lines)));
            var k := Emptied(0, |lines|);
            Abs(r) == Log(Written(AllAsLog(before)) + LinesOf(lines)[..k], LinesOf(lines)[k..])
  {
    var requests := WithFlush(before, lines);
    ModestServed(requests);
    ModestMeans(requests);
    FlushAsLog(before, lines);
    RunRefines(Empty(), Served(requests));
    PrintedAndPending(AllAsLog(before), LinesOf(lines));
  }

  /** A line too long for a row ends the run: what comes after it is not served. */
  lemma ServedStops(before: seq<ModestRequest>, q: Request, rest: seq<Request>)
    requires !q.Flush? && |PrefixOf(q)| + |Expand(q.fmt, q.args)| > 900
    ensures Served(before + ([q] + rest)) == Served(before) + [TooLongCall]
  {
    AskedConcat(before, q, rest);
    ModestServed(before);
    RefusalEnds(AllAsked(before), AllAsked(rest));
  }

  lemma AskedConcat(before: seq<Request>, q: Request, rest: seq<Request>)
    ensures AllAsked(before + ([q] + rest)) == AllAsked(before) + ([Asked(q)] + AllAsked(rest))
  {
    MapAround(Asked, before, q, rest);
  }
}
