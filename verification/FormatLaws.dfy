/** What the directives of libc/src/stdio.c and kernel/src/console.c mean, apart from how their
    texts are made: a number's text is the numeral that reads back as the number. */
module FormatLaws {
  import opened Arith
  import opened Options
  import opened Numerals
  import opened ParsingLaws
  import opened Format

  /** `s` is the numeral of `v` without superfluous zeros. */
  ghost predicate IsNumeral(s: string, base: nat, v: nat) {
    s != [] && AllDigits(s, base) && Value(s, base) == v && (s[0] == '0' ==> |s| == 1)
  }

  predicate NoUpper(s: string) { forall i | 0 <= i < |s| :: !('A' <= s[i] <= 'Z') }
  predicate NoLower(s: string) { forall i | 0 <= i < |s| :: !('a' <= s[i] <= 'z') }

  lemma {:induction false} NumeralIsLower(v: nat, base: nat)
    requires 2 <= base <= 36
    ensures NoUpper(Numeral(v, base))
    decreases v
  {
    if v >= base { NumeralIsLower(Quot(v, base), base); }
  }

  lemma NumeralIsNumeral(v: nat, base: nat)
    requires 2 <= base <= 36
    ensures IsNumeral(Numeral(v, base), base, v)
  {
    NumeralDenotes(v, base);
    NoLeadingZero(v, base);
  }

  lemma UpperIsRaised(v: nat)
    ensures Upper(Numeral(v, 16)) == Raised(Numeral(v, 16))
  {
    var n := Numeral(v, 16);
    NumeralDenotes(v, 16);
    assert forall i | 0 <= i < |n| :: IsDigit(n[i], 16);
  }

  lemma TextIsNumeral(v: nat, base: nat)
    requires 2 <= base <= 36
    ensures Text(v, base) == Numeral(v, base)
  {
  }

  // ----- Numbers -----

  /** %u is decimal and %x and %X are hexadecimal, on both printers; only the console's %X is
      in upper case. */
  lemma UnsignedPiece(pr: Printer, k: char, u: nat)
    requires (k == 'u' || k == 'x' || k == 'X') && u < 0x1_0000_0000
    ensures Fits(k, UintArg(u))
    ensures var s, base := Piece(pr, k, UintArg(u)), if k == 'u' then 10 else 16;
            && IsNumeral(s, base, u) && Parsed(s, 0, base) == (u, |s|)
            && (if pr == Kernel && k == 'X' then NoLower(s) else NoUpper(s))
  {
    var base := if k == 'u' then 10 else 16;
    TextIsNumeral(u, base);
    NumeralIsNumeral(u, base);
    if pr == Kernel && k == 'X' {
      UpperPiece(u);
    } else {
      NumeralIsLower(u, base);
      StrtoulOfUltoa(u, base);
    }
  }

  lemma UpperPiece(u: nat)
    requires u < ULONG
    ensures var s := Upper(Numeral(u, 16)); IsNumeral(s, 16, u) && Parsed(s, 0, 16) == (u, |s|) && NoLower(s)
  {
    NumeralIsNumeral(u, 16);
    UpperIsRaised(u);
    RaisedDenotes(Numeral(u, 16), 16);
    RaisedParses(u, 16);
  }

  /** A minus sign for negative numbers, then the magnitude in decimal. */
  lemma SignedText(i: int)
    requires LONG_MIN < i < -LONG_MIN
    ensures var s := Text(i, 10);
            && ParsedLong(s, 10) == (Some(i), |s|)
            && (if i >= 0 then IsNumeral(s, 10, i) else s[0] == '-' && IsNumeral(s[1..], 10, -i))
  {
    StrtolOfLtoa(i, 10);
    NumeralIsNumeral(Abs(i), 10);
    if i < 0 { assert Text(i, 10)[1..] == Numeral(-i, 10); } else { TextIsNumeral(i, 10); }
  }

  /** %d and %i are signed decimal on both printers. */
  lemma SignedPiece(pr: Printer, k: char, i: int)
    requires (k == 'd' || k == 'i') && -0x8000_0000 <= i < 0x8000_0000
    ensures Fits(k, IntArg(i))
    ensures var s := Piece(pr, k, IntArg(i));
            && ParsedLong(s, 10) == (Some(i), |s|)
            && (if i >= 0 then IsNumeral(s, 10, i) else s[0] == '-' && IsNumeral(s[1..], 10, -i))
  {
    SignedText(i);
  }

  /** %p is `0x` and the address in hexadecimal, of which the console keeps 32 bits. */
  lemma PointerPiece(pr: Printer, p: nat)
    requires p < ULONG
    ensures Fits('p', PtrArg(p))
    ensures var s, v := Piece(pr, 'p', PtrArg(p)), if pr == Kernel then p % 0x1_0000_0000 else p;
            |s| > 2 && s[..2] == "0x" && IsNumeral(s[2..], 16, v) && Parsed(s, 0, 16) == (v, |s|)
  {
    var v := if pr == Kernel then p % 0x1_0000_0000 else p;
    var s := Piece(pr, 'p', PtrArg(p));
    TextIsNumeral(v, 16);
    NumeralIsNumeral(v, 16);
    assert s == ['0', 'x'] + Numeral(v, 16);
    assert s[2..] == Numeral(v, 16);
    HexParses(v, 'x', 16);
  }

  /** %s is the string, or `(null)` for NULL, and %c the character. */
  lemma TextPieces(pr: Printer, s: string, c: char)
    requires NUL !in s
    ensures Piece(pr, 's', StrArg(Some(s))) == s && Piece(pr, 's', StrArg(None)) == "(null)"
    ensures Piece(pr, 'c', CharArg(c)) == [c]
  {
  }

  /** %lu and %lx of the console. */
  lemma LongUnsignedPiece(k: char, ul: nat)
    requires (k == 'u' || k == 'x') && ul < ULONG
    ensures var s, base := LongPiece(k, UlongArg(ul)), if k == 'u' then 10 else 16;
            IsNumeral(s, base, ul) && Parsed(s, 0, base) == (ul, |s|) && NoUpper(s)
  {
    LongUnsigned(ul, if k == 'u' then 10 else 16);
  }

  /** %ld of the console. */
  lemma LongSignedPiece(l: int)
    requires LONG_MIN < l < -LONG_MIN
    ensures var s := LongPiece('d', LongArg(l));
            && ParsedLong(s, 10) == (Some(l), |s|)
            && (if l >= 0 then IsNumeral(s, 10, l) else s[0] == '-' && IsNumeral(s[1..], 10, -l))
  {
    SignedText(l);
  }

  lemma LongUnsigned(ul: nat, base: nat)
    requires ul < ULONG && 2 <= base <= 36
    ensures var s := Text(ul, base); IsNumeral(s, base, ul) && Parsed(s, 0, base) == (ul, |s|) && NoUpper(s)
  {
    TextIsNumeral(ul, base);
    NumeralIsNumeral(ul, base);
    NumeralIsLower(ul, base);
    StrtoulOfUltoa(ul, base);
  }

  // ----- Formats -----

  /** The directives that vsnprintf supports. */
  lemma SupportedDirectives(k: char)
    ensures k in SUPPORTED <==> k in "diuxXpsc%"
    ensures k in COMMON <==> k in "diuxsc%"
  {
  }

  /** A character that is no percent sign stands for itself. */
  lemma ExpandLiteral(pr: Printer, c: char, f: string, args: seq<Arg>)
    requires c != '%' && Matches(pr, f, args)
    ensures Matches(pr, [c] + f, args) && Expand(pr, [c] + f, args) == [c] + Expand(pr, f, args)
  {
    Unfold(pr, [c] + f, args, Unit([c], 1, 0), f, args);
  }

  lemma Unfold(pr: Printer, fmt: string, args: seq<Arg>, u: Unit, f: string, rest: seq<Arg>)
    requires fmt != [] && Ready(pr, fmt, args) && First(pr, fmt, args) == u
    requires fmt[u.chars..] == f && args[u.args..] == rest && Matches(pr, f, rest)
    ensures Matches(pr, fmt, args) && Expand(pr, fmt, args) == u.text + Expand(pr, f, rest)
  {
  }

  /** So does a percent sign at the very end, and two of them are one. */
  lemma ExpandPercent(pr: Printer, f: string, args: seq<Arg>)
    requires Matches(pr, f, args)
    ensures Matches(pr, "%", args) && Expand(pr, "%", args) == "%"
    ensures Matches(pr, "%%" + f, args) && Expand(pr, "%%" + f, args) == "%" + Expand(pr, f, args)
  {
    Unfold(pr, "%", args, Unit("%", 1, 0), "", args);
    Unfold(pr, "%%" + f, args, Unit("%", 2, 0), f, args);
  }

  /** A directive takes one argument and is replaced by its text. */
  lemma ExpandDirective(pr: Printer, k: char, a: Arg, f: string, args: seq<Arg>)
    requires k in "diuxXpsc" && Fits(k, a) && Matches(pr, f, args)
    ensures var fmt, all := ['%', k] + f, [a] + args;
            Matches(pr, fmt, all) && Expand(pr, fmt, all) == Piece(pr, k, a) + Expand(pr, f, args)
  {
    Unfold(pr, ['%', k] + f, [a] + args, Unit(Piece(pr, k, a), 2, 1), f, args);
  }

  /** After `%l` the console takes `u`, `d` or `x`. */
  lemma ExpandLong(k: char, a: Arg, f: string, args: seq<Arg>)
    requires k in "udx" && LongFits(k, a) && Matches(Kernel, f, args)
    ensures var fmt, all := ['%', 'l', k] + f, [a] + args;
            Matches(Kernel, fmt, all) && Expand(Kernel, fmt, all) == LongPiece(k, a) + Expand(Kernel, f, args)
  {
    Unfold(Kernel, ['%', 'l', k] + f, [a] + args, Unit(LongPiece(k, a), 3, 1), f, args);
  }

  /** Any other directive stands for itself and takes no argument. */
  lemma ExpandUnknown(pr: Printer, k: char, f: string, args: seq<Arg>)
    requires k !in "diuxXpsc%" && !(pr == Kernel && k == 'l') && Matches(pr, f, args)
    ensures Matches(pr, ['%', k] + f, args) && Expand(pr, ['%', k] + f, args) == ['%', k] + Expand(pr, f, args)
  {
    Unfold(pr, ['%', k] + f, args, Unit(['%', k], 2, 0), f, args);
  }

  // ----- Printing and reading back -----

  /** vsnprintf of one directive, with room for its text. */
  method Print(buf: array<char>, size: nat, k: char, a: Arg) returns (out: string)
    requires k in "diux" && Fits(k, a) && |Piece(Libc, k, a)| < size <= buf.Length
    modifies buf
    ensures out == Piece(Libc, k, a)
  {
    OneDirective(k, a);
    var count := Vsnprintf(buf, size, ['%', k], [a]);
    out := buf[..count];
  }

  /** strtoul reads back what vsnprintf left for %u, and in base 16 for %x. */
  method PrintAndParse(buf: array<char>, size: nat, hex: bool, u: nat) returns (r: nat, end: nat)
    requires u < 0x1_0000_0000 && 10 < size <= buf.Length
    modifies buf
    ensures r == u
  {
    var k := if hex then 'x' else 'u';
    assert |Piece(Libc, k, UintArg(u))| <= 10 by { TextsAreShort(k, UintArg(u)); }
    UnsignedPiece(Libc, k, u);
    var text := Print(buf, size, k, UintArg(u));
    r, end := Strtoul(text, 0, if hex then 16 else 10);
  }

  /** strtol reads back what vsnprintf left for %d. */
  method PrintAndParseSigned(buf: array<char>, size: nat, i: int) returns (r: Option<int>, end: nat)
    requires -0x8000_0000 <= i < 0x8000_0000 && 11 < size <= buf.Length
    modifies buf
    ensures r == Some(i)
  {
    assert |Piece(Libc, 'd', IntArg(i))| <= 11 by { TextsAreShort('d', IntArg(i)); }
    SignedPiece(Libc, 'd', i);
    var text := Print(buf, size, 'd', IntArg(i));
    r, end := Strtol(text, 10);
  }

  lemma OneDirective(k: char, a: Arg)
    requires k in "diux" && Fits(k, a)
    ensures Matches(Libc, ['%', k], [a]) && Expand(Libc, ['%', k], [a]) == Piece(Libc, k, a)
    ensures AllDirectives(['%', k], SUPPORTED) && forall room: nat :: !Overruns(['%', k], [a], room)
  {
    ExpandDirective(Libc, k, a, "", []);
    assert ['%', k] + "" == ['%', k] && [a] + [] == [a];
    assert ['%', k][2..] == "";
    forall room: nat ensures !Overruns(['%', k], [a], room) { SupportedFits(['%', k], [a], room); }
  }
}
