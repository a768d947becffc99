/** console_vprintf of kernel/src/console.c: the expansion of a format, laid down on the
    paper that the console is a window on. */
module ConsoleFormat {
  import opened Arith
  import opened Numerals
  import opened Format
  import opened PaperRoll
  import opened Console

  /** A byte as the signed `char` that console_putchar receives. */
  function Signed(c: char): int { if c as int < 128 then c as int else c as int - 256 }

  function Typed(text: string): (es: seq<Event>)
    ensures |es| == |text| && forall i | 0 <= i < |es| :: es[i] == Char(Signed(text[i]))
  {
    seq(|text|, i requires 0 <= i < |text| => Char(Signed(text[i])))
  }

  lemma TypedAppend(a: string, b: string)
    ensures Typed(a + b) == Typed(a) + Typed(b)
  {
  }

  lemma {:induction false} ApplyAppend(p: Paper, w: nat, h: nat, scroll: bool, a: seq<Event>, b: seq<Event>)
    requires Good(p, w, h)
    ensures ApplyAll(p, w, h, scroll, a + b) == ApplyAll(ApplyAll(p, w, h, scroll, a), w, h, scroll, b)
    decreases |a|
  {
    if a == [] {
      assert a + b == b;
    } else {
      assert (a + b)[1..] == a[1..] + b;
      ApplyAppend(Apply(p, w, h, scroll, a[0]), w, h, scroll, a[1..], b);
    }
  }

  predicate Bytes(text: string) { forall c <- text :: c as int < 256 }

  // ----- The console's own number conversion -----

  const TABLE: string := "0123456789abcdef"

  lemma TableDigits(d: nat)
    requires d < 16
    ensures TABLE[d] == Digit(d)
  {
    if d == 0 {} else if d == 1 {} else if d == 2 {} else if d == 3 {} else if d == 4 {} else if d == 5 {}
    else if d == 6 {} else if d == 7 {} else if d == 8 {} else if d == 9 {} else if d == 10 {} else if d == 11 {}
    else if d == 12 {} else if d == 13 {} else if d == 14 {} else {}
  }

  /** One turn of the digit loop: the table entry at `value - value / base * base`. */
  method TableDigit(value: nat, base: nat, ghost all: string, ghost at: nat) returns (c: char, next: nat)
    requires 2 <= base <= 16 && at <= |all| && all[at..] == LowFirst(value, base)
    ensures at < |all| && c == all[at] && (next != 0 ==> next < value)
    ensures all[at + 1..] == if next != 0 then LowFirst(next, base) else []
  {
    ghost var rest := all[at..];
    assert rest[0] == all[at] && rest[1..] == all[at + 1..];
    QuotRem(value, base);
    next := value / base;
    TableDigits(value - next * base);
    c := TABLE[value - next * base];
  }

  /** The do-while loop: table entries, lowest digit first. */
  method EmitTable(value: nat, str: array<char>, base: nat) returns (ptr: nat)
    requires 2 <= base <= 16 && |LowFirst(value, base)| < str.Length
    modifies str
    ensures ptr < str.Length && str[..ptr] == LowFirst(value, base)
  {
    ghost var all := LowFirst(value, base);
    var v, first := value, true;
    ptr := 0;
    while first || v != 0
      invariant 0 <= ptr <= |all| && (first ==> ptr == 0)
      invariant all[ptr..] == if first || v != 0 then LowFirst(v, base) else []
      invariant forall k | 0 <= k < ptr :: str[k] == all[k]
      decreases first, v
    {
      var c;
      c, v := TableDigit(v, base, all, ptr);
      str[ptr] := c;
      ptr := ptr + 1;
      first := false;
    }
  }

  /** itoa, uitoa, ltoa and ultoa of the console, which differ in the type of `value` only;
      negative values never reach them. */
  method Uitoa(value: nat, str: array<char>, base: nat)
    requires 2 <= base <= 16 && |Numeral(value, base)| < str.Length
    modifies str
    ensures str[..|Numeral(value, base)|] == Numeral(value, base) && str[|Numeral(value, base)|] == NUL
  {
    RevLowFirst(value, base);
    var ptr := EmitTable(value, str, base);
    ghost var digits := str[..ptr];
    str[ptr] := NUL;
    ghost var before := str[..];
    assert before[0..ptr] == digits;
    ReverseRange(str, 0, ptr);
    ReversedRange(before, str[..], 0, ptr);
    assert str[..][0..ptr] == str[..ptr];
  }

  lemma NumeralHasNoNul(v: nat, base: nat)
    requires 2 <= base <= 36
    ensures NUL !in Numeral(v, base)
  {
    NumeralDenotes(v, base);
    assert forall c <- Numeral(v, base) :: IsDigit(c, base);
  }

  /** The loop of `%X` that raises the letters of a buffer in place. */
  method RaiseLetters(buf: array<char>, ghost t: string)
    requires |t| < buf.Length && buf[..|t|] == t && buf[|t|] == NUL && NUL !in t
    modifies buf
    ensures buf[..|t|] == Upper(t) && buf[|t|] == NUL
  {
    var p := 0;
    assert forall k | 0 <= k < |t| :: buf[k] == buf[..|t|][k];
    while buf[p] != NUL
      invariant 0 <= p <= |t| && buf[|t|] == NUL
      invariant forall k | 0 <= k < p :: buf[k] == Upper(t)[k]
      invariant forall k | p <= k < |t| :: buf[k] == t[k]
      decreases |t| - p
    {
      if 'a' <= buf[p] <= 'f' { buf[p] := (buf[p] as int - 32) as char; }
      p := p + 1;
    }
  }

  /** A number through the console's 32-byte buffer, with raised letters if `raise`. */
  method Convert(v: nat, base: nat, raise: bool) returns (s: string)
    requires 2 <= base <= 16 && |Numeral(v, base)| < 32
    ensures s == if raise then Upper(Numeral(v, base)) else Numeral(v, base)
  {
    var buf := new char[32];
    ghost var t := Numeral(v, base);
    NumeralHasNoNul(v, base);
    Uitoa(v, buf, base);
    if raise {
      RaiseLetters(buf, t);
      assert NUL !in Upper(t) by { assert forall k | 0 <= k < |t| :: t[k] != NUL; }
      s := CString(buf, Upper(t));
    } else {
      s := CString(buf, t);
    }
  }

  // ----- console_vprintf -----

  /** A signed number: the sign first, then the magnitude. */
  method Signs(i: int) returns (s: string)
    requires |Numeral(Abs(i), 10)| < 32
    ensures s == Text(i, 10)
  {
    if i < 0 {
      s := Convert(-i, 10, false);
      s := "-" + s;
    } else {
      s := Convert(i, 10, false);
    }
  }

  /** The text of one directive as the console renders it. */
  method KernelPiece(k: char, a: Arg) returns (s: string)
    requires Fits(k, a) && Negatable(a)
    ensures s == Piece(Kernel, k, a)
  {
    TextsAreShort(k, a);
    match a
    case IntArg(i) => s := Signs(i);
    case UintArg(u) => s := Convert(u, if k == 'u' then 10 else 16, k == 'X');
    case PtrArg(p) =>
      TextsAreShort('x', UintArg(p % 0x1_0000_0000));
      s := Convert(p % 0x1_0000_0000, 16, false);
      s := "0x" + s;
    case StrArg(str) => s := if str.Some? then str.value else "(null)";
    case CharArg(c) => s := [c];
  }

  /** The same after `%l`, for the letter that follows. */
  method KernelLong(k: char, a: Arg) returns (s: string)
    requires LongFits(k, a) && Negatable(a) && k in "udx"
    ensures s == LongPiece(k, a)
  {
    TextsAreShort(k, a);
    if k == 'd' { s := Signs(a.l); } else { s := Convert(a.ul, if k == 'u' then 10 else 16, false); }
  }

  method KernelUnit(fmt: string, args: seq<Arg>) returns (text: string, used: nat, taken: nat)
    requires fmt != [] && Format.Ready(Kernel, fmt, args) && NegatableArgs(args)
    ensures Unit(text, used, taken) == First(Kernel, fmt, args)
  {
    used, taken := 1, 0;
    if |fmt| > 1 && fmt[0] == '%' {
      used := 2;
      if fmt[1] == 'l' {
        used := 3;
        if fmt[2] in "udx" {
          text := KernelLong(fmt[2], args[0]);
          taken := 1;
        } else {
          text := "";
        }
      } else if Takes(fmt[1]) {
        text := KernelPiece(fmt[1], args[0]);
        taken := 1;
      } else {
        text := if fmt[1] == '%' then "%" else ['%', fmt[1]];
      }
    } else {
      text := [fmt[0]];
    }
  }

  /** Typing more text where `out` has been typed already. */
  method Type(t: Terminal, text: string, ghost start: Paper, ghost out: string)
    requires t.Valid() && Bytes(text) && Good(start, t.width, t.height)
    requires t.paper == ApplyAll(start, t.width, t.height, t.scrollEnabled, Typed(out))
    modifies t`cursorX, t`cursorY, t`color, t`paper, t.buffer
    ensures t.Valid() && t.paper == ApplyAll(start, t.width, t.height, t.scrollEnabled, Typed(out + text))
  {
    TypedAppend(out, text);
    ApplyAppend(start, t.width, t.height, t.scrollEnabled, Typed(out), Typed(text));
    forall e | e in Typed(text) ensures -128 <= e.c <= 127 {
      var i :| 0 <= i < |text| && Typed(text)[i] == e;
      assert text[i] in text;
    }
    t.Play(Typed(text));
  }

  lemma UnitOfExpansion(full: string, out: string, f: string, a: seq<Arg>)
    requires f != [] && Matches(Kernel, f, a) && full == out + Expand(Kernel, f, a) && Bytes(full)
    ensures var u := First(Kernel, f, a);
            && Bytes(u.text) && Matches(Kernel, f[u.chars..], a[u.args..])
            && full == (out + u.text) + Expand(Kernel, f[u.chars..], a[u.args..])
  {
    var u := First(Kernel, f, a);
    var rest := Expand(Kernel, f[u.chars..], a[u.args..]);
    assert full == (out + u.text) + rest;
    assert forall c <- u.text :: c in full;
  }

  /** C leaves the negation of the least int and the least long undefined. */
  predicate Negatable(a: Arg) { (a.IntArg? ==> a.i > -0x8000_0000) && (a.LongArg? ==> a.l > LONG_MIN) }

  predicate NegatableArgs(args: seq<Arg>) { forall a <- args :: Negatable(a) }

  method Vprintf(t: Terminal, fmt: string, args: seq<Arg>)
    requires t.Valid() && Matches(Kernel, fmt, args) && NUL !in fmt && NegatableArgs(args)
    requires Bytes(Expand(Kernel, fmt, args))
    modifies t`cursorX, t`cursorY, t`color, t`paper, t.buffer
    ensures t.Valid()
    ensures t.paper == ApplyAll(old(t.paper), t.width, t.height, t.scrollEnabled, Typed(Expand(Kernel, fmt, args)))
  {
    var f, a := fmt, args;
    ghost var full, out, start := Expand(Kernel, fmt, args), "", t.paper;
    while f != []
      invariant t.Valid() && Matches(Kernel, f, a) && NegatableArgs(a) && full == out + Expand(Kernel, f, a)
      invariant t.paper == ApplyAll(start, t.width, t.height, t.scrollEnabled, Typed(out))
      decreases |f|
    {
      UnitOfExpansion(full, out, f, a);
      var text, used, taken := KernelUnit(f, a);
      Type(t, text, start, out);
      out := out + text;
      f, a := f[used..], a[taken..];
    }
    assert out == full;
  }

  /** The two printers agree: on the common directives and with room for everything, what the
      console shows is what vsnprintf left in its buffer, typed. */
  method PrintBoth(t: Terminal, buf: array<char>, size: nat, fmt: string, args: seq<Arg>) returns (count: nat)
    requires t.Valid() && Matches(Libc, fmt, args) && AllDirectives(fmt, COMMON) && NUL !in fmt && NegatableArgs(args)
    requires Bytes(Expand(Libc, fmt, args)) && |Expand(Libc, fmt, args)| < size <= buf.Length
    requires t.buffer as object != buf
    modifies t`cursorX, t`cursorY, t`color, t`paper, t.buffer, buf
    ensures t.Valid() && count == |Expand(Libc, fmt, args)| < buf.Length && buf[count] == NUL
    ensures t.paper == ApplyAll(old(t.paper), t.width, t.height, t.scrollEnabled, Typed(buf[..count]))
  {
    ghost var full := Expand(Libc, fmt, args);
    SameOutput(fmt, args);
    CommonIsSupported(fmt);
    SupportedFits(fmt, args, Limit(size));
    count := Vsnprintf(buf, size, fmt, args);
    assert buf[..count] == full;
    Vprintf(t, fmt, args);
  }

  lemma {:induction false} CommonIsSupported(fmt: string)
    requires AllDirectives(fmt, COMMON)
    ensures AllDirectives(fmt, SUPPORTED)
    decreases |fmt|
  {
    if fmt != [] { CommonIsSupported(if Directive(fmt) then fmt[2..] else fmt[1..]); }
  }
}
