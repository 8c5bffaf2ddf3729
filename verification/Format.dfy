/** What a format string and its arguments expand to, with no buffer in sight. */
module Format {
  import opened CString
  import opened Numerals

  datatype Arg =
    | IntArg(i: int)
    | UIntArg(u: nat)
    | ULongArg(u: nat)
    | ULongLongArg(u: nat)
    | StrArg(s: string)

  datatype Kind =
    | Percent
    | CharConv
    | StrConv
    | IntConv
    | UIntConv
    | HexConv
    | LongLongHex
    | LongLongUnsigned
    | LongUnsigned
    | Unknown

  /** After the '%' something follows that is not the cut-off start of a long directive. */
  predicate Complete(rest: string) { rest != "" && rest != "l" && rest != "ll" }

  predicate Starts(s: string, word: string) { |word| <= |s| && s[..|word|] == word }

  function KindOf(rest: string): Kind
    requires Complete(rest)
  {
    if rest[0] == '%' then Percent
    else if rest[0] == 'c' then CharConv
    else if rest[0] == 's' then StrConv
    else if rest[0] == 'd' then IntConv
    else if rest[0] == 'u' then UIntConv
    else if rest[0] == 'x' then HexConv
    else if Starts(rest, "llx") then LongLongHex
    else if Starts(rest, "llu") then LongLongUnsigned
    else if Starts(rest, "lu") then LongUnsigned
    else Unknown
  }

  /** Characters the directive occupies after the '%'. */
  function Width(k: Kind): nat {
    match k
    case LongLongHex => 3
    case LongLongUnsigned => 3
    case LongUnsigned => 2
    case _ => 1
  }

  lemma WidthFits(rest: string)
    requires Complete(rest)
    ensures Width(KindOf(rest)) <= |rest|
  {
  }

  predicate TakesArg(k: Kind) { !k.Percent? && !k.Unknown? }

  /** The argument has the type the directive reads, and a value the conversion is defined for. */
  predicate Accepts(k: Kind, a: Arg) {
    match k
    case CharConv => a.IntArg? && IsInt(a.i)
    case StrConv => a.StrArg? && IsCString(a.s)
    case IntConv => a.IntArg? && IsInt(a.i) && -INT_MAX <= a.i
    case UIntConv => a.UIntArg? && a.u < 0x1_0000_0000 && -INT_MAX <= ToInt(a.u)
    case HexConv => a.UIntArg? && a.u < 0x1_0000_0000
    case LongLongHex => a.ULongLongArg? && a.u < 0x1_0000_0000_0000_0000
    case LongLongUnsigned => a.ULongLongArg? && a.u < 0x1_0000_0000_0000_0000 && -INT_MAX <= ToInt(a.u)
    case LongUnsigned => a.ULongArg? && a.u < 0x1_0000_0000 && -INT_MAX <= ToInt(a.u)
    case _ => true
  }

  /** The unsigned conversions pass their value through an int. */
  function Text(k: Kind, a: Arg): string
    requires TakesArg(k) && Accepts(k, a)
  {
    match k
    case CharConv => [(a.i % 0x100) as char]
    case StrConv => a.s
    case IntConv => Dec(a.i)
    case HexConv => Hex(a.u, 8)
    case LongLongHex => Hex(a.u, 16)
    case UIntConv => Dec(ToInt(a.u))
    case LongUnsigned => Dec(ToInt(a.u))
    case LongLongUnsigned => Dec(ToInt(a.u))
  }

  predicate HeadReady(fmt: string, args: seq<Arg>)
    requires fmt != ""
  {
    fmt[0] == '%' ==> Complete(fmt[1..]) && (var k := KindOf(fmt[1..]); TakesArg(k) ==> args != [] && Accepts(k, args[0]))
  }

  /** The text of the first character or directive. */
  function Head(fmt: string, args: seq<Arg>): string
    requires fmt != "" && HeadReady(fmt, args)
  {
    if fmt[0] != '%' then [fmt[0]] else
      var k := KindOf(fmt[1..]);
      if k.Percent? then "%" else if k.Unknown? then ['%', fmt[1]] else Text(k, args[0])
  }

  function FormatTail(fmt: string, args: seq<Arg>): (r: string)
    requires fmt != "" && HeadReady(fmt, args)
    ensures |r| < |fmt|
  {
    if fmt[0] != '%' then fmt[1..] else
      WidthFits(fmt[1..]);
      fmt[1 + Width(KindOf(fmt[1..]))..]
  }

  function ArgsTail(fmt: string, args: seq<Arg>): seq<Arg>
    requires fmt != "" && HeadReady(fmt, args)
  {
    if fmt[0] == '%' && TakesArg(KindOf(fmt[1..])) then args[1..] else args
  }

  /** No directive is cut off by the end of the format and every directive finds its argument. */
  predicate Ready(fmt: string, args: seq<Arg>)
    decreases |fmt|
  {
    fmt != "" ==> HeadReady(fmt, args) && Ready(FormatTail(fmt, args), ArgsTail(fmt, args))
  }

  function Expand(fmt: string, args: seq<Arg>): string
    requires Ready(fmt, args)
    decreases |fmt|
  {
    if fmt == "" then "" else Head(fmt, args) + Expand(FormatTail(fmt, args), ArgsTail(fmt, args))
  }

  /** Without directives a format expands to itself. */
  lemma {:induction false} ExpandPlain(fmt: string, args: seq<Arg>)
    requires '%' !in fmt
    ensures Ready(fmt, args) && Expand(fmt, args) == fmt && ArgCount(fmt, args) == 0
    decreases |fmt|
  {
    if fmt != "" {
      ExpandPlain(fmt[1..], args);
    }
  }

  function ArgCount(fmt: string, args: seq<Arg>): nat
    requires Ready(fmt, args)
    decreases |fmt|
  {
    if fmt == "" then 0 else
      ArgCount(FormatTail(fmt, args), ArgsTail(fmt, args)) + |args| - |ArgsTail(fmt, args)|
  }

  lemma ExpandStep(fmt: string, args: seq<Arg>, text: string, f: string, a: seq<Arg>)
    requires fmt != "" && HeadReady(fmt, args) && Ready(f, a)
    requires Head(fmt, args) == text && FormatTail(fmt, args) == f && ArgsTail(fmt, args) == a
    ensures Ready(fmt, args) && Expand(fmt, args) == text + Expand(f, a)
    ensures ArgCount(fmt, args) == ArgCount(f, a) + |args| - |a|
  {
  }

  /** Always true: a proof mentions Spelled(fmt) where it needs to look inside Yields(fmt, ...). */
  predicate Spelled(fmt: string) { true }

  /** The format consumes exactly these arguments and expands to this text. */
  ghost predicate Yields(fmt: string, args: seq<Arg>, text: string) {
    forall f: string {:trigger Spelled(f)} :: f == fmt ==>
      Ready(f, args) && ArgCount(f, args) == |args| && Expand(f, args) == text
  }

  /** Expansion of a concatenation is the concatenation of the expansions, when the first format takes all of its
      arguments. */
  lemma {:induction false} ExpandConcat(f: string, a: seq<Arg>, t: string, g: string, b: seq<Arg>, u: string)
    requires Yields(f, a, t) && Yields(g, b, u)
    ensures Yields(f + g, a + b, t + u)
    decreases |f|
  {
    assert Spelled(f) && Spelled(g);
    if f == "" {
      assert f + g == g && a + b == b && t + u == u;
    } else {
      var text, f', a' := Head(f, a), FormatTail(f, a), ArgsTail(f, a);
      ConcatStep(f, a, g, b);
      ExpandConcat(f', a', Expand(f', a'), g, b, u);
      ExpandStep(f, a, text, f', a');
      assert Spelled(f' + g);
      ExpandStep(f + g, a + b, text, f' + g, a' + b);
      Associative(text, Expand(f', a'), u);
    }
  }

  lemma YieldsPlain(fmt: string)
    requires '%' !in fmt
    ensures Yields(fmt, [], fmt)
  {
    ExpandPlain(fmt, []);
  }

  lemma YieldsDirective(fmt: string, k: Kind, a: Arg)
    requires fmt != "" && fmt[0] == '%' && Complete(fmt[1..]) && KindOf(fmt[1..]) == k && Width(k) == |fmt| - 1
    requires TakesArg(k) && Accepts(k, a)
    ensures Yields(fmt, [a], Text(k, a))
  {
    assert fmt[|fmt|..] == "";
    ExpandStep(fmt, [a], Text(k, a), "", []);
  }

  lemma YieldsOne(fmt: string, a: Arg)
    requires |fmt| == 2 && fmt[0] == '%' && fmt[1] in "csdux" && Accepts(KindOf(fmt[1..]), a)
    ensures Yields(fmt, [a], Text(KindOf(fmt[1..]), a))
  {
    YieldsDirective(fmt, KindOf(fmt[1..]), a);
  }

  /** Plain text, one directive, and the rest. */
  lemma YieldsNext(plain: string, one: string, arg: Arg, fmt: string, args: seq<Arg>, text: string)
    requires '%' !in plain && Yields(fmt, args, text)
    requires |one| == 2 && one[0] == '%' && one[1] in "csdux" && Accepts(KindOf(one[1..]), arg)
    ensures Yields(plain + one + fmt, [arg] + args, plain + Text(KindOf(one[1..]), arg) + text)
  {
    YieldsPlain(plain);
    YieldsOne(one, arg);
    ExpandConcat(plain, [], plain, one, [arg], Text(KindOf(one[1..]), arg));
    assert [] + [arg] == [arg];
    ExpandConcat(plain + one, [arg], plain + Text(KindOf(one[1..]), arg), fmt, args, text);
  }

  lemma Associative(x: string, y: string, z: string)
    ensures x + (y + z) == (x + y) + z
  {
  }

  lemma ConcatStep(f: string, a: seq<Arg>, g: string, b: seq<Arg>)
    requires f != "" && HeadReady(f, a)
    ensures HeadReady(f + g, a + b) && Head(f + g, a + b) == Head(f, a)
    ensures FormatTail(f + g, a + b) == FormatTail(f, a) + g
    ensures ArgsTail(f + g, a + b) == ArgsTail(f, a) + b
  {
    if f[0] == '%' {
      DirectiveConcat(f[1..], a, g, b);
      assert (f + g)[1..] == f[1..] + g;
      assert f == "%" + f[1..];
    } else {
      assert (f + g)[1..] == f[1..] + g;
    }
  }

  lemma DirectiveConcat(rest: string, a: seq<Arg>, g: string, b: seq<Arg>)
    requires HeadReady("%" + rest, a)
    ensures Complete(rest) && Complete(rest + g) && KindOf(rest + g) == KindOf(rest)
    ensures Width(KindOf(rest)) <= |rest| && (rest + g)[Width(KindOf(rest))..] == rest[Width(KindOf(rest))..] + g
    ensures TakesArg(KindOf(rest)) ==> a != [] && (a + b)[0] == a[0] && (a + b)[1..] == a[1..] + b
  {
    assert ("%" + rest)[1..] == rest;
    KindExtends(rest, g);
  }

  lemma KindExtends(rest: string, more: string)
    requires Complete(rest)
    ensures Complete(rest + more)
    ensures KindOf(rest + more) == KindOf(rest) && Width(KindOf(rest)) <= |rest|
  {
    StartsExtends(rest, more, "llx");
    StartsExtends(rest, more, "llu");
    StartsExtends(rest, more, "lu");
  }

  /** A string that is not a proper start of the word starts with it exactly when its extensions do. */
  lemma StartsExtends(s: string, more: string, word: string)
    requires |s| < |word| ==> s != word[..|s|]
    ensures Starts(s + more, word) == Starts(s, word)
  {
  }
}
