/** Formatted output: the unbounded expansion of a format for the two printers of the system,
    and vsnprintf of libc/src/stdio.c, which writes it into a bounded buffer. */
module Format {
  import opened Options
  import opened Arith
  import opened Numerals

  const LIMIT_OF_ZERO: nat := ULONG - 1

  datatype Arg =
    | IntArg(i: int) | UintArg(u: nat) | PtrArg(p: nat) | StrArg(s: Option<string>) | CharArg(c: char)
    | LongArg(l: int) | UlongArg(ul: nat)

  datatype Printer = Libc | Kernel

  // ----- The unbounded expansion -----

  predicate Takes(k: char) { k in "diuxXpsc" }

  /** The argument has the type and range that `va_arg` expects for the directive. */
  predicate Fits(k: char, a: Arg) {
    match k
    case 'd' => a.IntArg? && -0x8000_0000 <= a.i < 0x8000_0000
    case 'i' => a.IntArg? && -0x8000_0000 <= a.i < 0x8000_0000
    case 'u' => a.UintArg? && a.u < 0x1_0000_0000
    case 'x' => a.UintArg? && a.u < 0x1_0000_0000
    case 'X' => a.UintArg? && a.u < 0x1_0000_0000
    case 'p' => a.PtrArg? && a.p < ULONG
    case 's' => a.StrArg? && (a.s.Some? ==> NUL !in a.s.value)
    case 'c' => a.CharArg?
    case _ => false
  }

  function Upper(s: string): (r: string)
    ensures |r| == |s|
  {
    seq(|s|, i requires 0 <= i < |s| => if 'a' <= s[i] <= 'f' then (s[i] as int - 32) as char else s[i])
  }

  /** The text of one directive; the two printers differ on %X and %p. */
  function Piece(pr: Printer, k: char, a: Arg): string
    requires Fits(k, a)
  {
    match a
    case IntArg(i) => Text(i, 10)
    case UintArg(u) =>
      if k == 'u' then Text(u, 10)
      else if k == 'X' && pr == Kernel then Upper(Text(u, 16))
      else Text(u, 16)
    case PtrArg(p) => "0x" + Text(if pr == Kernel then p % 0x1_0000_0000 else p, 16)
    case StrArg(s) => if s.Some? then s.value else "(null)"
    case CharArg(c) => [c]
  }

  /** The `%lu`, `%ld` and `%lx` that only the kernel's printer knows. */
  predicate Long(pr: Printer, fmt: string) { pr == Kernel && Directive(fmt) && fmt[1] == 'l' }

  predicate LongFits(k: char, a: Arg) {
    if k == 'd' then a.LongArg? && LONG_MIN <= a.l < -LONG_MIN else a.UlongArg? && a.ul < ULONG
  }

  function LongPiece(k: char, a: Arg): string
    requires LongFits(k, a)
  {
    if k == 'd' then Text(a.l, 10) else Text(a.ul, if k == 'u' then 10 else 16)
  }

  /** The first conversion or literal of a format: its text, and how much it uses up. */
  datatype Unit = Unit(text: string, chars: nat, args: nat)

  predicate Directive(fmt: string) { |fmt| > 1 && fmt[0] == '%' }

  /** The arguments suit the first unit. A `%l` that ends the format is excluded: the
      kernel's printer would read past the terminator. */
  predicate Ready(pr: Printer, fmt: string, args: seq<Arg>) {
    if Long(pr, fmt) then |fmt| > 2 && (fmt[2] in "udx" ==> args != [] && LongFits(fmt[2], args[0]))
    else Directive(fmt) && Takes(fmt[1]) ==> args != [] && Fits(fmt[1], args[0])
  }

  function First(pr: Printer, fmt: string, args: seq<Arg>): (u: Unit)
    requires fmt != [] && Ready(pr, fmt, args)
    ensures 0 < u.chars <= |fmt| && u.args <= |args|
  {
    if !Directive(fmt) then Unit([fmt[0]], 1, 0)
    else if Long(pr, fmt) then
      if fmt[2] in "udx" then Unit(LongPiece(fmt[2], args[0]), 3, 1) else Unit("", 3, 0)
    else if Takes(fmt[1]) then Unit(Piece(pr, fmt[1], args[0]), 2, 1)
    else if fmt[1] == '%' then Unit("%", 2, 0)
    else Unit(['%', fmt[1]], 2, 0)
  }

  predicate Matches(pr: Printer, fmt: string, args: seq<Arg>)
    decreases |fmt|
  {
    fmt == [] || (Ready(pr, fmt, args) && var u := First(pr, fmt, args); Matches(pr, fmt[u.chars..], args[u.args..]))
  }

  function Expand(pr: Printer, fmt: string, args: seq<Arg>): string
    requires Matches(pr, fmt, args)
    decreases |fmt|
  {
    if fmt == [] then [] else
    var u := First(pr, fmt, args);
    u.text + Expand(pr, fmt[u.chars..], args[u.args..])
  }

  /** Every directive satisfies `ok`. */
  predicate AllDirectives(fmt: string, ok: set<char>)
    decreases |fmt|
  {
    fmt == [] ||
    if Directive(fmt) then fmt[1] in ok && AllDirectives(fmt[2..], ok) else AllDirectives(fmt[1..], ok)
  }

  const SUPPORTED: set<char> := {'d', 'i', 'u', 'x', 'X', 'p', 's', 'c', '%'}
  const COMMON: set<char> := {'d', 'i', 'u', 'x', 's', 'c', '%'}

  /** On the common directives the two expansions are the same. */
  lemma {:induction false} SameOutput(fmt: string, args: seq<Arg>)
    requires Matches(Libc, fmt, args) && AllDirectives(fmt, COMMON)
    ensures Matches(Kernel, fmt, args) && Expand(Kernel, fmt, args) == Expand(Libc, fmt, args)
    decreases |fmt|
  {
    if fmt != [] {
      var u := First(Libc, fmt, args);
      assert First(Kernel, fmt, args) == u;
      SameOutput(fmt[u.chars..], args[u.args..]);
    }
  }

  // ----- Rendering one number through the 32-byte local buffer -----

  lemma Powers()
    ensures Pow(10, 10) == 10_000_000_000 && Pow(16, 8) == 0x1_0000_0000 && Pow(16, 16) == ULONG
    ensures Pow(10, 20) == 100_000_000_000_000_000_000
  {
    assert Pow(10, 5) == 100000;
    assert Pow(10, 15) == 1_000_000_000_000_000;
    assert Pow(16, 4) == 65536;
    assert Pow(16, 12) == 0x1_0000_0000_0000;
  }

  /** Why `char buf[32]` is enough, for both printers. */
  lemma TextsAreShort(k: char, a: Arg)
    requires Fits(k, a) || LongFits(k, a)
    ensures a.IntArg? ==> |Text(a.i, 10)| <= 11 && |Numeral(Abs(a.i), 10)| <= 10
    ensures a.UintArg? ==> |Text(a.u, 10)| <= 10 && |Text(a.u, 16)| <= 8
    ensures a.PtrArg? ==> |Text(a.p, 16)| <= 16
    ensures a.LongArg? ==> |Numeral(Abs(a.l), 10)| <= 20
    ensures a.UlongArg? ==> |Numeral(a.ul, 10)| <= 20 && |Numeral(a.ul, 16)| <= 16
  {
    Powers();
    match a
    case IntArg(i) => NumeralLength(Abs(i), 10, 10);
    case UintArg(u) => NumeralLength(u, 10, 10); NumeralLength(u, 16, 8);
    case PtrArg(p) => NumeralLength(p, 16, 16);
    case LongArg(l) => NumeralLength(Abs(l), 10, 20);
    case UlongArg(ul) => NumeralLength(ul, 10, 20); NumeralLength(ul, 16, 16);
    case StrArg(_) =>
    case CharArg(_) =>
  }

  lemma TextHasNoNul(v: int, base: nat)
    requires 2 <= base <= 36
    ensures NUL !in Text(v, base)
  {
    NumeralDenotes(Abs(v), base);
    assert forall c <- Numeral(Abs(v), base) :: IsDigit(c, base);
  }

  /** Reading a buffer up to its terminator, as every user of the conversions does. */
  method CString(buf: array<char>, ghost t: string) returns (s: string)
    requires |t| < buf.Length && buf[..|t|] == t && buf[|t|] == NUL && NUL !in t
    ensures s == t
  {
    var p := 0;
    while buf[p] != NUL
      invariant 0 <= p <= |t| && (p < |t| ==> buf[p] == t[p])
      decreases |t| - p
    {
      assert buf[..|t|][p] == t[p];
      p := p + 1;
      if p < |t| { assert buf[..|t|][p] == t[p]; }
    }
    s := buf[..p];
  }

  /** The number as it is read back from a local buffer after ltoa and its siblings. */
  method Render(v: int, base: nat) returns (s: string)
    requires 2 <= base <= 36 && |Text(v, base)| < 32
    ensures s == Text(v, base)
  {
    var buf := new char[32];
    Ltoa(v, buf, base);
    TextHasNoNul(v, base);
    s := CString(buf, Text(v, base));
  }

  method RenderArg(k: char, a: Arg) returns (s: string)
    requires Fits(k, a)
    ensures s == Piece(Libc, k, a)
  {
    TextsAreShort(k, a);
    match a
    case IntArg(i) => s := Render(i, 10);
    case UintArg(u) => s := Render(u, if k == 'u' then 10 else 16);
    case PtrArg(p) => s := Render(p, 16); s := "0x" + s;
    case StrArg(str) => s := if str.Some? then str.value else "(null)";
    case CharArg(c) => s := [c];
  }

  // ----- vsnprintf -----

  /** `size - 1` in 64-bit arithmetic. */
  function Limit(size: nat): nat { if size == 0 then LIMIT_OF_ZERO else size - 1 }

  /** Copies characters while there is room below `cap`. */
  method Copy(buf: array<char>, start: nat, cap: nat, text: string) returns (count: nat)
    requires start <= cap && Min(start + |text|, cap) <= buf.Length
    modifies buf
    ensures count == Min(start + |text|, cap)
    ensures buf[..count] == old(buf[..start]) + text[..count - start]
  {
    count := start;
    while count - start < |text| && count < cap
      invariant start <= count <= cap && count - start <= |text| && count <= buf.Length
      invariant buf[..count] == old(buf[..start]) + text[..count - start]
    {
      buf[count] := text[count - start];
      assert text[..count + 1 - start] == text[..count - start] + [text[count - start]];
      count := count + 1;
    }
  }

  /** The switch of vsnprintf: `known` is false in its default case. */
  method NextUnit(fmt: string, args: seq<Arg>) returns (text: string, used: nat, taken: nat, known: bool)
    requires fmt != [] && Ready(Libc, fmt, args)
    ensures Unit(text, used, taken) == First(Libc, fmt, args)
    ensures known <==> Known(fmt)
  {
    used, taken, known := 1, 0, true;
    if |fmt| > 1 && fmt[0] == '%' {
      used := 2;
      if Takes(fmt[1]) {
        text := RenderArg(fmt[1], args[0]);
        taken := 1;
      } else if fmt[1] == '%' {
        text := "%";
      } else {
        text, known := ['%', fmt[1]], false;
      }
    } else {
      text := [fmt[0]];
    }
  }

  predicate Known(fmt: string) { Directive(fmt) ==> fmt[1] in SUPPORTED }

  /** With `room` characters left, output ends in an unsupported directive of which only the
      first of its two characters fits. */
  predicate Overruns(fmt: string, args: seq<Arg>, room: nat)
    requires Matches(Libc, fmt, args)
    decreases |fmt|
  {
    fmt != [] && room > 0 &&
    var u := First(Libc, fmt, args);
    if |u.text| <= room then Overruns(fmt[u.chars..], args[u.args..], room - |u.text|) else !Known(fmt)
  }

  /** Supported directives never overrun. */
  lemma {:induction false} SupportedFits(fmt: string, args: seq<Arg>, room: nat)
    requires Matches(Libc, fmt, args) && AllDirectives(fmt, SUPPORTED)
    ensures !Overruns(fmt, args, room)
    decreases |fmt|
  {
    if fmt != [] && room > 0 {
      var u := First(Libc, fmt, args);
      if |u.text| <= room { SupportedFits(fmt[u.chars..], args[u.args..], room - |u.text|); }
    }
  }

  /** `vsnprintf(buf, 2, "%q")`: both characters are written and the terminator is the third. */
  lemma OverrunExample()
    ensures Matches(Libc, "%q", []) && Overruns("%q", [], Limit(2))
  {
    assert First(Libc, "%q", []) == Unit("%q", 2, 0);
    assert "%q"[2..] == "";
  }

  /** The number of characters written: all that fit below the limit, and one more exactly
      when an unsupported directive overruns. */
  function Written(size: nat, fmt: string, args: seq<Arg>): nat
    requires Matches(Libc, fmt, args)
  {
    Min(|Expand(Libc, fmt, args)|, Limit(size) + if Overruns(fmt, args, Limit(size)) then 1 else 0)
  }

  /** The text is the first characters of the expansion, with a terminator when size is not 0.
      The caller's buffer must hold what is written, which is more than `size` characters
      exactly when the format overruns. */
  method Vsnprintf(buf: array<char>, size: nat, fmt: string, args: seq<Arg>) returns (count: nat)
    requires Matches(Libc, fmt, args) && NUL !in fmt
    requires Written(size, fmt, args) + (if size > 0 then 1 else 0) <= buf.Length
    modifies buf
    ensures var full := Expand(Libc, fmt, args);
            && count == Written(size, fmt, args) && count <= |full| && buf[..count] == full[..count]
            && (Overruns(fmt, args, Limit(size)) <==> count == Limit(size) + 1)
            && (size > 0 && !Overruns(fmt, args, size - 1) ==> count == if |full| < size then |full| else size - 1)
            && (size > 0 ==> buf[count] == NUL)
  {
    ghost var full, over := Expand(Libc, fmt, args), Overruns(fmt, args, Limit(size));
    var limit := Limit(size);
    count := 0;
    var f, a := fmt, args;
    while f != [] && count < limit
      invariant count <= buf.Length && Midway(buf[..count], limit, f, a, full, over)
      decreases |f|
    {
      count, f, a := PutUnit(buf, count, limit, f, a, full, over);
    }
    if size > 0 { buf[count] := NUL; }
  }

  /** So far `out` has been written, and `f` and `a` are left. */
  ghost predicate Midway(out: string, limit: nat, f: string, a: seq<Arg>, full: string, over: bool) {
    && Matches(Libc, f, a) && out <= full && |out| <= limit + 1
    && (|out| < limit ==> full[|out|..] == Expand(Libc, f, a))
    && (over <==> if |out| <= limit then Overruns(f, a, limit - |out|) else true)
  }

  /** One turn of the loop of vsnprintf. */
  method PutUnit(buf: array<char>, was: nat, limit: nat, f: string, a: seq<Arg>, ghost full: string, ghost over: bool)
    returns (count: nat, f': string, a': seq<Arg>)
    requires was < limit && was <= buf.Length && f != [] && Midway(buf[..was], limit, f, a, full, over)
    requires Min(|full|, limit + if over then 1 else 0) <= buf.Length
    modifies buf
    ensures |f'| < |f| && count <= buf.Length && Midway(buf[..count], limit, f', a', full, over)
  {
    ghost var u := First(Libc, f, a);
    ghost var rest := Expand(Libc, f[u.chars..], a[u.args..]);
    var text, used, taken, known := NextUnit(f, a);
    assert full[was..] == text + rest;
    count := Copy(buf, was, if known then limit else limit + 1, text);
    f', a' := f[used..], a[taken..];
    Advanced(full, was, count, text, rest);
  }

  lemma Advanced(full: string, was: nat, count: nat, text: string, rest: string)
    requires was <= |full| && full[was..] == text + rest && was <= count <= was + |text|
    ensures count <= |full| && full[..was] + text[..count - was] == full[..count]
    ensures count == was + |text| ==> full[count..] == rest
  {
    assert full == full[..was] + (text + rest);
  }
}
