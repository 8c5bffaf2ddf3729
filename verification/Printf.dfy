/** vsnprintf over a character buffer, proved against the expansion of its format. */
module Printf {
  import opened CString
  import opened Numerals
  import opened Conversions
  import opened Format

  /** Characters of an n-character text that a buffer of size bufsz keeps, next to the final NUL. */
  function Kept(bufsz: nat, n: nat): nat {
    if n < bufsz then n else if bufsz == 0 then 0 else bufsz - 1
  }

  /** The buffer after the text done was put out: what fits of it, then what was there before. */
  ghost predicate Stored(now: seq<char>, was: seq<char>, bufsz: nat, out: nat, done: string) {
    && bufsz <= |was| && out == Kept(bufsz, |done|)
    && now == done[..out] + was[out..]
  }

  method Put(buffer: array<char>, bufsz: nat, c: char, o: nat, w: nat, ghost was: seq<char>, ghost done: string)
    returns (out: nat, written: nat)
    requires Stored(buffer[..], was, bufsz, o, done) && w == |done|
    modifies buffer
    ensures Stored(buffer[..], was, bufsz, out, done + [c]) && written == |done + [c]|
  {
    out, written := o, w;
    if written + 1 < bufsz {
      buffer[out] := c;
      out := out + 1;
      assert buffer[..] == (done + [c])[..out] + was[out..];
    } else {
      assert (done + [c])[..out] == done[..out];
    }
    written := written + 1;
  }

  /** The copying loops: all characters of a text. */
  method PutAll(buffer: array<char>, bufsz: nat, s: string, o: nat, w: nat, ghost was: seq<char>, ghost done: string)
    returns (out: nat, written: nat)
    requires Stored(buffer[..], was, bufsz, o, done) && w == |done|
    modifies buffer
    ensures Stored(buffer[..], was, bufsz, out, done + s) && written == |done + s|
  {
    out, written := o, w;
    assert done + s[..0] == done;
    for i := 0 to |s|
      invariant Stored(buffer[..], was, bufsz, out, done + s[..i]) && written == |done + s[..i]|
    {
      out, written := Put(buffer, bufsz, s[i], out, written, was, done + s[..i]);
      assert done + s[..i] + [s[i]] == done + s[..i + 1];
    }
    assert s[..|s|] == s;
  }

  /** The text of a number directive, built in a scratch buffer. */
  method Scratch(k: Kind, a: Arg) returns (text: string)
    requires Accepts(k, a) && TakesArg(k) && !k.CharConv? && !k.StrConv?
    ensures text == Text(k, a)
  {
    var temp := Convert(k, a);
    TextTerminated(k, a);
    ghost var n := |Text(k, a)|;
    assert forall i :: 0 <= i < n ==> temp[i] == temp[..n][i];
    var len := Strlen(temp);
    text := temp[..len];
  }

  /** The conversion into a zeroed buffer of 32 characters. */
  method Convert(k: Kind, a: Arg) returns (temp: array<char>)
    requires Accepts(k, a) && TakesArg(k) && !k.CharConv? && !k.StrConv?
    ensures |Text(k, a)| < temp.Length && temp[..|Text(k, a)|] == Text(k, a) && temp[|Text(k, a)|] == NUL
  {
    temp := new char[32](_ => NUL);
    assert temp[0] == NUL;
    TextTerminated(k, a);
    match k {
      case IntConv => ToStr(temp, a.i);
      case HexConv => IntToHex(temp, a.u, 8);
      case LongLongHex => IntToHex(temp, a.u, 16);
      case UIntConv => ToStr(temp, ToInt(a.u));
      case LongLongUnsigned => ToStr(temp, ToInt(a.u));
      case LongUnsigned => ToStr(temp, ToInt(a.u));
    }
  }

  lemma TextTerminated(k: Kind, a: Arg)
    requires Accepts(k, a) && TakesArg(k) && !k.CharConv? && !k.StrConv?
    ensures |Text(k, a)| <= 16 && IsCString(Text(k, a))
  {
    match k {
      case IntConv => DecLength(a.i);
      case HexConv => HexRoundTrip(a.u, 8);
      case LongLongHex => HexRoundTrip(a.u, 16);
      case UIntConv => DecLength(ToInt(a.u));
      case LongLongUnsigned => DecLength(ToInt(a.u));
      case LongUnsigned => DecLength(ToInt(a.u));
    }
  }

  /** Which directive starts at position f, and the position of its last character: the three long forms are
      recognised with strncmp. */
  method Recognise(fmt: string, f: nat) returns (k: Kind, last: nat)
    requires IsCString(fmt) && f <= |fmt| && Complete(fmt[f..])
    ensures k == KindOf(fmt[f..]) && last == f + Width(k) - 1 && last < |fmt|
  {
    WidthFits(fmt[f..]);
    var c := At(fmt, f);
    if c == '%' { return Percent, f; }
    if c == 'c' { return CharConv, f; }
    if c == 's' { return StrConv, f; }
    if c == 'd' { return IntConv, f; }
    if c == 'u' { return UIntConv, f; }
    if c == 'x' { return HexConv, f; }
    var r := Strncmp(fmt[f..], "llx", 3);
    SpanOfWord(fmt[f..], "llx");
    if r == 0 { return LongLongHex, f + 2; }
    r := Strncmp(fmt[f..], "llu", 3);
    SpanOfWord(fmt[f..], "llu");
    if r == 0 { return LongLongUnsigned, f + 2; }
    r := Strncmp(fmt[f..], "lu", 2);
    SpanOfWord(fmt[f..], "lu");
    if r == 0 { return LongUnsigned, f + 1; }
    return Unknown, f;
  }

  lemma SpanOfWord(s: string, word: string)
    requires |s| < |word| ==> s != word[..|s|]
    ensures s[..Span(s, word, |word|)] == word[..Span(s, word, |word|)] <==> Starts(s, word)
  {
    if |s| < |word| { assert s[..|s|] == s; } else { assert word[..|word|] == word; }
  }

  /** The first strncmp accepts exactly the long hex directive and the formats that end inside a directive: these
      are why a format must be complete. */
  lemma CutOffReadsAsLongHex(rest: string)
    ensures rest[..Span(rest, "llx", 3)] == "llx"[..Span(rest, "llx", 3)] <==> Starts(rest, "llx") || !Complete(rest)
  {
  }

  /** The characters before f and the arguments before a are dealt with, and what is done completes to text. */
  ghost predicate Reached(fmt: string, args: seq<Arg>, f: nat, a: nat, done: string, text: string) {
    && f <= |fmt| && a <= |args| && Ready(fmt[f..], args[a..])
    && done + Expand(fmt[f..], args[a..]) == text
  }

  lemma ReadyUnfolds(fmt: string, args: seq<Arg>)
    requires Ready(fmt, args) && fmt != ""
    ensures HeadReady(fmt, args)
  {
  }

  lemma ReachedNext(fmt: string, args: seq<Arg>, f: nat, a: nat, done: string, text: string, f': nat, a': nat)
    requires Reached(fmt, args, f, a, done, text) && f < f' <= |fmt| && a <= a' <= |args|
    requires fmt[f'..] == FormatTail(fmt[f..], args[a..]) && args[a'..] == ArgsTail(fmt[f..], args[a..])
    ensures Reached(fmt, args, f', a', done + Head(fmt[f..], args[a..]), text)
  {
    Associative(done, Head(fmt[f..], args[a..]), Expand(fmt[f'..], args[a'..]));
  }

  lemma ReachedEnd(fmt: string, args: seq<Arg>, f: nat, a: nat, done: string, text: string)
    requires Reached(fmt, args, f, a, done, text) && f == |fmt|
    ensures done == text
  {
  }

  /** Formats and stores at most bufsz - 1 characters and a NUL; returns the length of the whole text. */
  method Vsnprintf(buffer: array<char>, bufsz: nat, fmt: string, args: seq<Arg>) returns (written: nat)
    requires bufsz <= buffer.Length && IsCString(fmt) && Ready(fmt, args)
    requires |Expand(fmt, args)| <= INT_MAX
    modifies buffer
    ensures written == |Expand(fmt, args)|
    ensures bufsz == 0 ==> buffer[..] == old(buffer[..])
    ensures bufsz > 0 ==> var k := Kept(bufsz, written);
                          buffer[..] == Expand(fmt, args)[..k] + [NUL] + old(buffer[k + 1..])
  {
    ghost var was := buffer[..];
    var out;
    out, written := PutFormat(buffer, bufsz, fmt, args, Expand(fmt, args));
    Terminate(buffer, bufsz, out, written, was, Expand(fmt, args));
    assert bufsz > 0 ==> was[Kept(bufsz, written) + 1..] == old(buffer[Kept(bufsz, written) + 1..]);
  }

  /** The loop over the format. */
  method PutFormat(buffer: array<char>, bufsz: nat, fmt: string, args: seq<Arg>, ghost text: string)
    returns (out: nat, written: nat)
    requires bufsz <= buffer.Length && IsCString(fmt) && Ready(fmt, args) && text == Expand(fmt, args)
    modifies buffer
    ensures Stored(buffer[..], old(buffer[..]), bufsz, out, text) && written == |text|
  {
    var f: nat, a: nat := 0, 0;
    out := 0;
    written := 0;
    ghost var was, done := buffer[..], "";
    while f < |fmt|
      invariant Reached(fmt, args, f, a, done, text)
      invariant Stored(buffer[..], was, bufsz, out, done) && written == |done|
      decreases |fmt| - f
    {
      f, a, out, written, done := PutHead(buffer, bufsz, fmt, f, args, a, out, written, was, done, text);
    }
    ReachedEnd(fmt, args, f, a, done, text);
  }

  method Terminate(buffer: array<char>, bufsz: nat, ghost out: nat, written: nat, ghost was: seq<char>, ghost done: string)
    requires Stored(buffer[..], was, bufsz, out, done) && written == |done|
    modifies buffer
    ensures bufsz == 0 ==> buffer[..] == was
    ensures bufsz > 0 ==> buffer[..] == done[..Kept(bufsz, written)] + [NUL] + was[Kept(bufsz, written) + 1..]
  {
    if bufsz > 0 {
      if written >= bufsz { buffer[bufsz - 1] := NUL; } else { buffer[written] := NUL; }
      assert buffer[..] == done[..out] + [NUL] + was[out + 1..];
    }
  }

  /** The next character of the format, or the next directive. */
  method PutHead(buffer: array<char>, bufsz: nat, fmt: string, f: nat, args: seq<Arg>, a: nat, o: nat, w: nat,
                 ghost was: seq<char>, ghost done: string, ghost text: string)
    returns (f': nat, a': nat, out: nat, written: nat, ghost more: string)
    requires f < |fmt| && IsCString(fmt) && Reached(fmt, args, f, a, done, text)
    requires Stored(buffer[..], was, bufsz, o, done) && w == |done|
    modifies buffer
    ensures f < f' && Reached(fmt, args, f', a', more, text)
    ensures Stored(buffer[..], was, bufsz, out, more) && written == |more|
  {
    ReadyUnfolds(fmt[f..], args[a..]);
    more := done + Head(fmt[f..], args[a..]);
    if fmt[f] != '%' {
      out, written := Put(buffer, bufsz, fmt[f], o, w, was, done);
      f', a' := f + 1, a;
    } else {
      f', a', out, written := Directive(buffer, bufsz, fmt, f + 1, args, a, o, w, was, done);
    }
    ReachedNext(fmt, args, f, a, done, text, f', a');
  }

  /** One directive; f is the position after its '%'. */
  method Directive(buffer: array<char>, bufsz: nat, fmt: string, f: nat, args: seq<Arg>, a: nat, o: nat, w: nat,
                   ghost was: seq<char>, ghost done: string)
    returns (f': nat, a': nat, out: nat, written: nat)
    requires 0 < f <= |fmt| && a <= |args| && IsCString(fmt) && fmt[f - 1] == '%' && HeadReady(fmt[f - 1..], args[a..])
    requires Stored(buffer[..], was, bufsz, o, done) && w == |done|
    modifies buffer
    ensures f < f' <= |fmt| && fmt[f'..] == FormatTail(fmt[f - 1..], args[a..])
    ensures a <= a' <= |args| && args[a'..] == ArgsTail(fmt[f - 1..], args[a..])
    ensures Stored(buffer[..], was, bufsz, out, done + Head(fmt[f - 1..], args[a..]))
    ensures written == |done + Head(fmt[f - 1..], args[a..])|
  {
    assert fmt[f - 1..][1..] == fmt[f..];
    var k, last := Recognise(fmt, f);
    f', a', out, written := last + 1, a, o, w;
    match k {
      case Percent =>
        out, written := Put(buffer, bufsz, '%', out, written, was, done);
      case CharConv =>
        out, written := Put(buffer, bufsz, (args[a].i % 0x100) as char, out, written, was, done);
        a' := a + 1;
      case StrConv =>
        out, written := PutAll(buffer, bufsz, args[a].s, out, written, was, done);
        a' := a + 1;
      case Unknown =>
        out, written := Echo(buffer, bufsz, fmt, f, out, written, was, done);
      case _ =>
        var temp := Scratch(k, args[a]);
        out, written := PutAll(buffer, bufsz, temp, out, written, was, done);
        a' := a + 1;
    }
  }

  lemma SliceNone(done: string, s: string, i: nat)
    requires i <= |s|
    ensures done + s[i..i] == done
  {
  }

  lemma SliceNext(done: string, s: string, i: nat, j: nat)
    requires i <= j < |s|
    ensures done + s[i..j] + [s[j]] == done + s[i..j + 1]
    ensures |s[i..j + 1]| == j + 1 - i
  {
    assert s[i..j] + [s[j]] == s[i..j + 1];
  }

  /** An unknown directive is put out as it stands: the '%' and the character after it.  (The loop that moves the
      start to the next '%' stops at once, because the start is at one.) */
  method Echo(buffer: array<char>, bufsz: nat, fmt: string, f: nat, o: nat, w: nat, ghost was: seq<char>, ghost done: string)
    returns (out: nat, written: nat)
    requires 0 < f < |fmt| && IsCString(fmt) && fmt[f - 1] == '%'
    requires Stored(buffer[..], was, bufsz, o, done) && w == |done|
    modifies buffer
    ensures Stored(buffer[..], was, bufsz, out, done + ['%', fmt[f]]) && written == |done| + 2
  {
    out, written := o, w;
    var start := f - 1;
    SliceNone(done, fmt, start);
    while start <= f
      invariant f - 1 <= start <= f + 1
      invariant Stored(buffer[..], was, bufsz, out, done + fmt[f - 1..start]) && written == |done| + start - (f - 1)
    {
      out, written := Put(buffer, bufsz, At(fmt, start), out, written, was, done + fmt[f - 1..start]);
      SliceNext(done, fmt, f - 1, start);
      start := start + 1;
    }
    assert fmt[f - 1..start] == ['%', fmt[f]];
  }
}
