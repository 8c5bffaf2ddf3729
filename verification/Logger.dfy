/** The log's rows in memory, its writers and its dump. */
module Logger {
  import opened CString
  import opened Numerals
  import opened Format
  import opened Printf
  import opened LogBuffer
  import opened RawLog

  const PRINTF_SIZE := 1024
  predicate MessageArgs(fmt: string, args: seq<Arg>) {
    IsCString(fmt) && Ready(fmt, args) && |Expand(fmt, args)| <= INT_MAX
  }

  /** The two texts of a line are either no longer than their buffers or refused for exceeding a row together; with
      anything between, the writer copies from beyond a buffer. */
  predicate LineArgs(prefix: string, text: string) {
    |prefix| <= INT_MAX && |text| <= INT_MAX
    && (|prefix| + |text| <= LINE_SIZE ==> |prefix| <= MESSAGE_SIZE && |text| <= MESSAGE_SIZE)
  }

  /** What a buffer gives back for as many characters as vsnprintf reported, when that is no more than it has, is the
      text itself exactly when the text is shorter than the buffer. */
  lemma KeptWhole(bufsz: nat, text: string, rest: string)
    requires 0 < bufsz && |text| <= bufsz && IsCString(text)
    ensures var buffer := text[..Kept(bufsz, |text|)] + [NUL] + rest;
            buffer[..|text|] == Buffered(bufsz, text) && (buffer[..|text|] == text <==> |text| < bufsz)
  {
    StoredBuffered(bufsz, text, rest);
    if |text| == bufsz {
      assert Buffered(bufsz, text)[bufsz - 1] == NUL;
      assert text[bufsz - 1] in text;
    }
  }

  lemma StoredBuffered(bufsz: nat, text: string, rest: string)
    requires 0 < bufsz && |text| <= bufsz
    ensures (text[..Kept(bufsz, |text|)] + [NUL] + rest)[..|text|] == Buffered(bufsz, text)
  {
    if |text| < bufsz { assert text[..|text|] == text; }
  }

  /** vsnprintf into a fresh zeroed message buffer.  The size it reports lies within the buffer exactly for texts of
      up to 100 characters. */
  method BuildMessage(fmt: string, args: seq<Arg>, ghost text: string) returns (out: array<char>, size: nat)
    requires MessageArgs(fmt, args) && Expand(fmt, args) == text
    ensures fresh(out) && out.Length == MESSAGE_SIZE && size == |text|
    ensures size <= out.Length <==> |text| <= MESSAGE_SIZE
    ensures |text| <= MESSAGE_SIZE ==> out[..size] == Buffered(MESSAGE_SIZE, text)
  {
    out := new char[MESSAGE_SIZE](_ => NUL);
    ghost var zeros := out[..];
    size := Vsnprintf(out, MESSAGE_SIZE, fmt, args);
    if |text| <= MESSAGE_SIZE { StoredBuffered(MESSAGE_SIZE, text, zeros[Kept(MESSAGE_SIZE, size) + 1..]); }
  }

  method BuildPrefix(level: string, file: string, line: int) returns (out: array<char>, size: nat)
    requires PrefixArgs(level, file, line) && |Prefix(level, file, line)| <= INT_MAX
    ensures fresh(out) && out.Length == MESSAGE_SIZE && size == |Prefix(level, file, line)|
    ensures size <= MESSAGE_SIZE ==> out[..size] == Buffered(MESSAGE_SIZE, Prefix(level, file, line))
  {
    PrefixExpands(level, file, line);
    assert Spelled("[%s] %s:%d ");
    out, size := BuildMessage("[%s] %s:%d ", [StrArg(level), StrArg(file), IntArg(line)], Prefix(level, file, line));
  }

  method BuildColoredPrefix(color: string, level: string, file: string, line: int) returns (out: array<char>, size: nat)
    requires PrefixArgs(level, file, line) && IsCString(color) && |ColoredPrefix(color, level, file, line)| <= INT_MAX
    ensures fresh(out) && out.Length == MESSAGE_SIZE && size == |ColoredPrefix(color, level, file, line)|
    ensures size <= MESSAGE_SIZE ==> out[..size] == Buffered(MESSAGE_SIZE, ColoredPrefix(color, level, file, line))
  {
    ColoredPrefixExpands(color, level, file, line);
    assert Spelled("%s [%s] %s:%d ");
    out, size := BuildMessage("%s [%s] %s:%d ", [StrArg(color), StrArg(level), StrArg(file), IntArg(line)],
                              ColoredPrefix(color, level, file, line));
  }

  method ResetText() returns (out: array<char>)
    ensures fresh(out) && out.Length == |RESET| && out[..|RESET|] == RESET
  {
    out := new char[|RESET|](i requires 0 <= i < |RESET| => RESET[i]);
    assert out[..|RESET|] == RESET;
  }

  class LogRows {
    const rows: array2<char>
    var tail: nat
    var console: string
    ghost var raw: Raw

    ghost predicate RowIs(i: nat, row: string)
      requires i < rows.Length0
      reads rows
    {
      |row| == rows.Length1 && forall j :: 0 <= j < |row| ==> rows[i, j] == row[j]
    }

    ghost predicate RowsAre(all: seq<string>)
      reads rows
    {
      |all| == rows.Length0 == NUM_LOG_LINES && forall k :: 0 <= k < |all| ==> RowIs(k, all[k])
    }

    ghost predicate Valid()
      reads this, rows
    {
      && rows.Length0 == NUM_LOG_LINES && rows.Length1 == LINE_SIZE
      && Formed(raw) && tail == raw.tail
      && console == Shown(raw.printed)
      && RowsAre(raw.rows)
    }

    constructor ()
      ensures Valid() && raw == Empty() && fresh(rows)
      ensures rows.Length0 == 50 && rows.Length1 == 900 && tail == 0 && console == ""
    {
      rows := new char[NUM_LOG_LINES, LINE_SIZE]((i, j) => NUL);
      tail, console, raw := 0, "", Empty();
      new;
      assert forall k :: 0 <= k < NUM_LOG_LINES ==> RowIs(k, Empty().rows[k]);
    }

    /** putchar for each of the first length characters. */
    method Print(data: array<char>, length: nat)
      requires length <= data.Length
      modifies this`console
      ensures console == old(console) + data[..length]
    {
      for i := 0 to length
        invariant console == old(console) + data[..i]
      {
        console := console + [data[i]];
      }
    }

    /** printf: the text on the console, with NUL for its last character when it is just as long as the buffer. */
    method PrintF(fmt: string, args: seq<Arg>) returns (written: nat)
      requires IsCString(fmt) && Ready(fmt, args) && |Expand(fmt, args)| <= 1024
      modifies this`console
      ensures console == old(console) + Buffered(1024, Expand(fmt, args)) && written == |Expand(fmt, args)|
    {
      var buf := new char[PRINTF_SIZE];
      ghost var was := buf[..];
      written := Vsnprintf(buf, PRINTF_SIZE, fmt, args);
      StoredBuffered(PRINTF_SIZE, Expand(fmt, args), was[Kept(PRINTF_SIZE, written) + 1..]);
      Print(buf, written);
    }

    /** memcpy into a row. */
    method CopyToRow(row: nat, at: nat, src: array<char>, n: nat)
      requires row < rows.Length0 && at + n <= rows.Length1 && n <= src.Length
      modifies rows
      ensures forall i, j :: 0 <= i < rows.Length0 && 0 <= j < rows.Length1
                             ==> rows[i, j] == if i == row && at <= j < at + n then src[j - at] else old(rows[i, j])
    {
      for k := 0 to n
        invariant forall i, j :: 0 <= i < rows.Length0 && 0 <= j < rows.Length1
                                 ==> rows[i, j] == if i == row && at <= j < at + k then src[j - at] else old(rows[i, j])
      {
        rows[row, at + k] := src[k];
      }
    }

    /** strlen of a row. */
    method RowLength(i: nat, ghost row: string) returns (len: nat)
      requires i < rows.Length0 && RowIs(i, row) && |Visible(row)| < |row|
      ensures len == |Visible(row)|
    {
      len := 0;
      ghost var line := Visible(row);
      VisibleAt(row);
      while rows[i, len] != NUL
        invariant len <= |line|
        decreases |line| - len
      {
        assert row[|line|] == NUL;
        len := len + 1;
      }
    }

    /** Zero the first n characters of a row. */
    method ClearRow(row: nat, n: nat)
      requires row < rows.Length0 && n <= rows.Length1
      modifies rows
      ensures forall i, j :: 0 <= i < rows.Length0 && 0 <= j < rows.Length1
                             ==> rows[i, j] == if i == row && j < n then NUL else old(rows[i, j])
    {
      for k := 0 to n
        invariant forall i, j :: 0 <= i < rows.Length0 && 0 <= j < rows.Length1
                                 ==> rows[i, j] == if i == row && j < k then NUL else old(rows[i, j])
      {
        rows[row, k] := NUL;
      }
    }

    /** The string a row holds, as %s reads it. */
    method RowString(i: nat, ghost row: string) returns (s: string)
      requires i < rows.Length0 && RowIs(i, row) && |Visible(row)| < |row|
      ensures s == Visible(row)
    {
      var len := RowLength(i, row);
      s := seq(len, j requires 0 <= j < len && len <= rows.Length1 && i < rows.Length0 reads rows => rows[i, j]);
    }

    /** Print the rows in order, one line each, and zero what was printed. */
    method DumpBuffer()
      requires Valid()
      modifies this, rows
      ensures Valid() && raw == RawDump(old(raw))
      ensures tail == 0 && console == old(console) + Shown(Lines(old(raw).rows[..old(tail)]))
    {
      ShownConcat(raw.printed, Lines(raw.rows[..tail]));
      DumpRows(tail, raw.rows, raw.printed);
      tail := 0;
      raw := RawDump(raw);
    }

    /** The loop of the dump. */
    method DumpRows(n: nat, ghost all: seq<string>, ghost printed: seq<string>)
      requires rows.Length1 == LINE_SIZE && Sized(all) && RowsAre(all) && n <= |all| && console == Shown(printed)
      modifies this`console, rows
      ensures RowsAre(ClearedTo(all, n)) && console == Shown(printed + Lines(all[..n]))
    {
      ClearedNone(all);
      ShownNone(printed, all);
      for i := 0 to n
        invariant RowsAre(ClearedTo(all, i)) && console == Shown(printed + Lines(all[..i]))
      {
        VisibleShort(all[i]);
        DumpRow(i, all);
        ShownNext(printed, all, i);
      }
    }

    /** One round of the dump. */
    method DumpRow(i: nat, ghost all: seq<string>)
      requires rows.Length1 == LINE_SIZE && i < |all| && RowsAre(ClearedTo(all, i)) && |Visible(all[i])| <= MAX_LINE
      modifies this`console, rows
      ensures RowsAre(ClearedTo(all, i + 1)) && console == old(console) + Visible(all[i]) + "\n"
    {
      assert RowIs(i, ClearedTo(all, i)[i]);
      var row := RowString(i, all[i]);
      PrintLine(row);
      var len := RowLength(i, all[i]);
      ClearRow(i, len);
      ghost var next := ClearedTo(all, i + 1);
      forall k | 0 <= k < |all| ensures RowIs(k, next[k]) {
        assert old(RowIs(k, ClearedTo(all, i)[k]));
      }
    }

    method PrintLine(line: string)
      requires IsCString(line) && |line| < LINE_SIZE
      modifies this`console
      ensures console == old(console) + line + "\n"
    {
      YieldsPlain("\n");
      NextStr("", line, "\n", [], "\n", "%s\n", [StrArg(line)], line + "\n");
      assert Spelled("%s\n");
      var _ := PrintF("%s\n", [StrArg(line)]);
      assert console == old(console) + (line + "\n");
    }

    /** Copy up to three texts to the front of the next row. */
    method Append(prefix: array<char>, prefixSize: nat, buf: array<char>, size: nat, reset: array<char>, resetSize: nat)
      requires Valid() && prefixSize <= prefix.Length && size <= buf.Length && resetSize <= reset.Length
      requires prefixSize + size + resetSize <= MAX_LINE
      requires tail < FULL_IDX - 1
      modifies this, rows
      ensures Valid() && raw == RawWrite(old(raw), prefix[..prefixSize] + buf[..size] + reset[..resetSize])
      ensures console == old(console) && tail == old(tail) + 1
    {
      ghost var content := prefix[..prefixSize] + buf[..size] + reset[..resetSize];
      ghost var t := RawWrite(raw, content);
      assert RowIs(tail, raw.rows[tail]);
      CopyToRow(tail, 0, prefix, prefixSize);
      CopyToRow(tail, prefixSize, buf, size);
      CopyToRow(tail, prefixSize + size, reset, resetSize);
      forall i | 0 <= i < NUM_LOG_LINES && i != tail ensures RowIs(i, t.rows[i]) {
        assert old(RowIs(i, raw.rows[i]));
      }
      assert RowIs(tail, t.rows[tail]);
      raw := t;
      tail := tail + 1;
    }

    /** A call that found these rows and this console has printed the rows if only one more was unused, and nothing
        otherwise; then it has used as many more as given. */
    ghost predicate EmptiedIfFull(was: Raw, shown: string, used: nat)
      reads this
    {
      if was.tail + 1 < 50 then console == shown && tail == was.tail + used
      else 49 <= |was.rows| && console == shown + Shown(Lines(was.rows[..49])) && tail == used
    }

    /** write_to_buffer: "[level] file:line message".  A line too long for a row is refused with a panic. */
    method WriteToBuffer(fmt: string, level: string, file: string, line: int, args: seq<Arg>) returns (r: int)
      requires Valid() && MessageArgs(fmt, args) && PrefixArgs(level, file, line)
      requires LineArgs(Prefix(level, file, line), Expand(fmt, args))
      modifies this, rows
      ensures Valid()
      ensures r == if |Prefix(level, file, line)| + |Expand(fmt, args)| > LINE_SIZE then LOG_SIZE_OVERFLOW else 0
      ensures EmptiedIfFull(old(raw), old(console), if r == 0 then 1 else 0)
      ensures r == LOG_SIZE_OVERFLOW ==> raw == RawMakeRoom(old(raw))
      ensures r == 0 ==> raw == RawWrite(old(raw), Content(Prefix(level, file, line), Expand(fmt, args), ""))
    {
      if tail == FULL_IDX - 1 { DumpBuffer(); }
      var buf, size := BuildMessage(fmt, args, Expand(fmt, args));
      var prefix, prefixSize := BuildPrefix(level, file, line);
      if prefixSize + size > LINE_SIZE { return LOG_SIZE_OVERFLOW; }
      assert buf[..0] == "";
      Append(prefix, prefixSize, buf, size, buf, 0);
      return 0;
    }

    /** write_to_buffer_colored: the same line between a color and the reset sequence. */
    method WriteToBufferColored(fmt: string, color: string, level: string, file: string, line: int, args: seq<Arg>)
      returns (r: int)
      requires Valid() && MessageArgs(fmt, args) && PrefixArgs(level, file, line) && IsCString(color)
      requires LineArgs(ColoredPrefix(color, level, file, line), Expand(fmt, args))
      modifies this, rows
      ensures Valid()
      ensures r == if |ColoredPrefix(color, level, file, line)| + |Expand(fmt, args)| > LINE_SIZE then LOG_SIZE_OVERFLOW else 0
      ensures EmptiedIfFull(old(raw), old(console), if r == 0 then 1 else 0)
      ensures r == LOG_SIZE_OVERFLOW ==> raw == RawMakeRoom(old(raw))
      ensures r == 0 ==> raw == RawWrite(old(raw), Content(ColoredPrefix(color, level, file, line), Expand(fmt, args), "\U{1b}[0m"))
    {
      if tail == FULL_IDX - 1 { DumpBuffer(); }
      var buf, size := BuildMessage(fmt, args, Expand(fmt, args));
      var prefix, prefixSize := BuildColoredPrefix(color, level, file, line);
      if prefixSize + size > LINE_SIZE { return LOG_SIZE_OVERFLOW; }
      var reset := ResetText();
      Append(prefix, prefixSize, buf, size, reset, |RESET|);
      return 0;
    }
  }

  lemma VisibleAt(row: string)
    ensures forall j :: 0 <= j < |Visible(row)| ==> row[j] != NUL
  {
    var v := Visible(row);
    assert forall j :: 0 <= j < |v| ==> row[j] == v[j] && v[j] in v;
  }

  lemma VisibleShort(row: string)
    requires |row| == LINE_SIZE && Blank(row[MAX_LINE..])
    ensures |Visible(row)| <= MAX_LINE
  {
    assert row[MAX_LINE] == row[MAX_LINE..][0] == NUL;
    VisibleAt(row);
  }

  lemma ClearedNone(all: seq<string>)
    ensures ClearedTo(all, 0) == all
  {
  }

  lemma ShownNone(printed: seq<string>, all: seq<string>)
    ensures Shown(printed + Lines(all[..0])) == Shown(printed)
  {
    assert printed + Lines(all[..0]) == printed;
  }

  lemma ShownNext(printed: seq<string>, all: seq<string>, i: nat)
    requires i < |all|
    ensures Shown(printed + Lines(all[..i + 1])) == Shown(printed + Lines(all[..i])) + Visible(all[i]) + "\n"
  {
    ShownAppend(printed + Lines(all[..i]), Visible(all[i]));
    assert printed + Lines(all[..i]) + [Visible(all[i])] == printed + Lines(all[..i + 1]);
  }
}
