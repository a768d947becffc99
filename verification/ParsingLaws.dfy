/** What strtoul and strtol of libc/src/string.c read, apart from how they scan: the digits of
    either case, base prefixes, white space and signs. */
module ParsingLaws {
  import opened Arith
  import opened Options
  import opened Numerals

  const LOWER: string := "0123456789abcdefghijklmnopqrstuvwxyz"
  const UPPER: string := "0123456789ABCDEFGHIJKLMNOPQRSTUVWXYZ"

  // ----- Digits -----

  /** The value's digit in lower and upper case, read and written. */
  predicate InTables(d: nat)
    requires d < 36
  {
    && Digit(d) == LOWER[d] && DigitOf(LOWER[d]) == d && DigitOf(UPPER[d]) == d
    && UPPER[d] == if d < 10 then LOWER[d] else (LOWER[d] as int - 32) as char
  }

  lemma FirstNine(d: nat)
    requires 0 <= d < 9
    ensures InTables(d)
  {
    if d == 0 {} else if d == 1 {} else if d == 2 {} else if d == 3 {} else if d == 4 {} else if d == 5 {} else
    if d == 6 {} else if d == 7 {} else {}
  }

  lemma SecondNine(d: nat)
    requires 9 <= d < 18
    ensures InTables(d)
  {
    if d == 9 {} else if d == 10 {} else if d == 11 {} else if d == 12 {} else if d == 13 {} else if d == 14 {} else
    if d == 15 {} else if d == 16 {} else {}
  }

  lemma ThirdNine(d: nat)
    requires 18 <= d < 27
    ensures InTables(d)
  {
    if d == 18 {} else if d == 19 {} else if d == 20 {} else if d == 21 {} else if d == 22 {} else if d == 23 {} else
    if d == 24 {} else if d == 25 {} else {}
  }

  lemma FourthNine(d: nat)
    requires 27 <= d < 36
    ensures InTables(d)
  {
    if d == 27 {} else if d == 28 {} else if d == 29 {} else if d == 30 {} else if d == 31 {} else if d == 32 {} else
    if d == 33 {} else if d == 34 {} else {}
  }

  /** The digit that is written for a value, and the values read for both of its cases. */
  lemma DigitTables(d: nat)
    requires d < 36
    ensures Digit(d) == LOWER[d] && DigitOf(LOWER[d]) == d && DigitOf(UPPER[d]) == d
    ensures UPPER[d] == if d < 10 then LOWER[d] else (LOWER[d] as int - 32) as char
  {
    if d < 9 { FirstNine(d); } else if d < 18 { SecondNine(d); }
    else if d < 27 { ThirdNine(d); } else { FourthNine(d); }
  }

  /** Nothing else is a digit. */
  lemma DigitIsInTables(c: char)
    requires DigitOf(c) >= 0
    ensures DigitOf(c) < 36 && (c == LOWER[DigitOf(c)] || c == UPPER[DigitOf(c)])
  {
    var d := DigitOf(c);
    assert c == Digit(d) || (d >= 10 && c == (Digit(d) as int - 32) as char);
    DigitTables(d);
  }

  lemma IsTableDigit(table: string, c: char)
    requires (table == LOWER || table == UPPER) && c in table
    ensures IsDigit(c, 36)
  {
    var d :| 0 <= d < |table| && table[d] == c;
    DigitTables(d);
  }

  function Raise(c: char): char { if 'a' <= c <= 'z' then (c as int - 32) as char else c }

  /** The text with its letters in upper case. */
  function Raised(s: string): (r: string)
    ensures |r| == |s| && forall i | 0 <= i < |s| :: r[i] == Raise(s[i])
  {
    seq(|s|, i requires 0 <= i < |s| => Raise(s[i]))
  }

  lemma {:induction false} RaisedDenotes(s: string, base: nat)
    requires AllDigits(s, base)
    ensures AllDigits(Raised(s), base) && Value(Raised(s), base) == Value(s, base)
    decreases |s|
  {
    if s != [] {
      var n := |s| - 1;
      RaisedDenotes(s[..n], base);
      assert Raised(s)[..n] == Raised(s[..n]);
      assert forall i | 0 <= i < |s| :: DigitOf(Raised(s)[i]) == DigitOf(s[i]);
    }
  }

  /** A digit is no space and no sign, and opens no prefix but that of base 16. */
  lemma DigitStart(s: string, p: nat, base: nat)
    requires p < |s| && 2 <= base <= 36 && IsDigit(s[p], base) && (base == 16 ==> !HexPrefix(s, p))
    ensures SkipSpaces(s, p) == p && SkipSign(s, p) == p && BaseAt(s, p, base) == (base, p)
  {
  }

  /** Numerals are read in upper case too. */
  lemma RaisedParses(v: nat, base: nat)
    requires 2 <= base <= 36 && v < ULONG
    ensures Parsed(Raised(Numeral(v, base)), 0, base) == (v, |Numeral(v, base)|)
  {
    var n := Numeral(v, base);
    var s := Raised(n);
    NumeralDenotes(v, base);
    RaisedDenotes(n, base);
    NoLeadingZero(v, base);
    if v == 0 { assert |n| == 1; }
    DigitStart(s, 0, base);
    assert s[0..] == s;
    DigitsParse(s, 0, base, s, v);
  }

  // ----- Prefixes -----

  lemma StartsWithZero(s: string, base: nat)
    requires |s| > 1 && s[0] == '0'
    ensures SkipSpaces(s, 0) == 0 && SkipSign(s, 0) == 0
  {
  }

  /** `0x` and `0X` before a hexadecimal numeral, in base 16 and in base 0. */
  lemma HexParses(v: nat, x: char, base: nat)
    requires v < ULONG && (x == 'x' || x == 'X') && (base == 16 || base == 0)
    ensures var s := ['0', x] + Numeral(v, 16); Parsed(s, 0, base) == (v, |s|)
  {
    var n := Numeral(v, 16);
    var s := ['0', x] + n;
    StartsWithZero(s, base);
    assert BaseAt(s, 0, base) == (16, 2);
    NumeralDenotes(v, 16);
    assert s[2..] == n;
    DigitsParse(s, 2, 16, n, v);
  }

  /** `0` before an octal numeral, in base 0. */
  lemma OctalParses(v: nat)
    requires v < ULONG
    ensures var s := ['0'] + Numeral(v, 8); Parsed(s, 0, 0) == (v, |s|)
  {
    var n := Numeral(v, 8);
    var s := ['0'] + n;
    NumeralDenotes(v, 8);
    assert IsDigit(n[0], 8) && s[1] == n[0];
    StartsWithZero(s, 0);
    assert BaseAt(s, 0, 0) == (8, 1);
    assert s[1..] == n;
    DigitsParse(s, 1, 8, n, v);
  }

  /** A decimal numeral in base 0. */
  lemma DecimalParses(v: nat)
    requires v < ULONG
    ensures Parsed(Numeral(v, 10), 0, 0) == (v, |Numeral(v, 10)|)
  {
    var n := Numeral(v, 10);
    NumeralDenotes(v, 10);
    NoLeadingZero(v, 10);
    assert IsDigit(n[0], 10) && n[0..] == n;
    if v > 0 {
      DigitStart(n, 0, 10);
      DigitsParse(n, 0, 10, n, v);
    } else {
      assert n == "0" && BaseAt(n, 0, 0) == (8, 1);
      DigitsParse(n, 1, 8, [], 0);
    }
  }

  // ----- White space and signs -----

  /** From place `k` on, `t` is `s`. */
  predicate TailAt(t: string, k: nat, s: string) {
    |t| == k + |s| && forall i | 0 <= i < |s| :: CharAt(t, k + i) == s[i]
  }

  lemma CharShift(t: string, k: nat, s: string, p: nat)
    requires TailAt(t, k, s)
    ensures CharAt(t, k + p) == CharAt(s, p)
  {
  }

  lemma {:induction false} SpacesShift(t: string, k: nat, s: string, p: nat)
    requires TailAt(t, k, s) && p <= |s|
    ensures SkipSpaces(t, k + p) == k + SkipSpaces(s, p)
    decreases |s| - p
  {
    CharShift(t, k, s, p);
    if IsSpace(CharAt(s, p)) { SpacesShift(t, k, s, p + 1); }
  }

  lemma {:induction false} RunShift(t: string, k: nat, s: string, p: nat, base: nat)
    requires TailAt(t, k, s) && p <= |s|
    ensures RunEnd(t, k + p, base) == k + RunEnd(s, p, base)
    decreases |s| - p
  {
    CharShift(t, k, s, p);
    if IsDigit(CharAt(s, p), base) { RunShift(t, k, s, p + 1, base); }
  }

  lemma SliceShift(t: string, k: nat, s: string, p: nat, end: nat)
    requires TailAt(t, k, s) && p <= end <= |s|
    ensures t[k + p..k + end] == s[p..end]
  {
    forall i | p <= i < end ensures t[k + i] == s[i] { CharShift(t, k, s, i); }
    assert forall j | 0 <= j < end - p :: t[k + p..k + end][j] == s[p..end][j];
  }

  lemma ParsedRunShift(t: string, k: nat, s: string, p: nat, base: nat)
    requires TailAt(t, k, s) && p <= |s|
    ensures var r := ParsedRun(s, p, base); ParsedRun(t, k + p, base) == (r.0, k + r.1)
  {
    RunShift(t, k, s, p, base);
    SliceShift(t, k, s, p, RunEnd(s, p, base));
  }

  lemma BaseShift(t: string, k: nat, s: string, p: nat, base: nat)
    requires TailAt(t, k, s)
    ensures BaseAt(t, k + p, base) == (BaseAt(s, p, base).0, k + BaseAt(s, p, base).1)
  {
    CharShift(t, k, s, p);
    CharShift(t, k, s, p + 1);
  }

  lemma SignShift(t: string, k: nat, s: string, p: nat)
    requires TailAt(t, k, s)
    ensures SkipSign(t, k + p) == k + SkipSign(s, p)
  {
    CharShift(t, k, s, p);
  }

  lemma PlacesShift(t: string, k: nat, s: string, base: nat)
    requires TailAt(t, k, s)
    ensures Places(t, k, base) == (Places(s, 0, base).0, k + Places(s, 0, base).1)
  {
    var spaces := SkipSpaces(s, 0);
    SpacesShift(t, k, s, 0);
    SignShift(t, k, s, spaces);
    BaseShift(t, k, s, SkipSign(s, spaces), base);
  }

  /** What comes before the place where reading starts does not matter. */
  lemma ParsedShift(t: string, k: nat, s: string, base: nat)
    requires TailAt(t, k, s)
    ensures var r := Parsed(s, 0, base); Parsed(t, k, base) == (r.0, k + r.1)
  {
    var b := Places(s, 0, base);
    PlacesShift(t, k, s, base);
    ParsedRunShift(t, k, s, b.1, b.0);
  }

  /** The text begins with neither white space nor sign. */
  predicate Bare(s: string) { !IsSpace(CharAt(s, 0)) && CharAt(s, 0) != '+' && CharAt(s, 0) != '-' }

  predicate Spaces(ws: string) { forall i | 0 <= i < |ws| :: ws[i] in [' ', '\t', '\n', '\U{b}', '\U{c}', '\r'] }

  predicate IsSign(sign: string) { sign == "" || sign == "+" || sign == "-" }

  lemma {:induction false} SkipAllSpaces(t: string, n: nat, p: nat)
    requires p <= n <= |t| && Spaces(t[..n]) && !IsSpace(CharAt(t, n))
    ensures SkipSpaces(t, p) == n
    decreases n - p
  {
    if p < n {
      assert t[..n][p] == t[p];
      SkipAllSpaces(t, n, p + 1);
    }
  }

  /** `t` is white space, perhaps a sign, and from place `k` on the text `s`. */
  predicate Prefixed(t: string, ws: string, sign: string, k: nat, s: string) {
    t == ws + sign + s && Spaces(ws) && IsSign(sign) && Bare(s) && k == |ws| + |sign|
  }

  lemma PastSign(t: string, ws: string, sign: string, k: nat, s: string)
    requires Prefixed(t, ws, sign, k, s)
    ensures TailAt(t, k, s) && SkipSpaces(t, 0) == |ws| && SkipSign(t, |ws|) == k
    ensures CharAt(t, |ws|) == '-' <==> sign == "-"
  {
    assert t[..|ws|] == ws;
    assert forall i | 0 <= i < |s| :: t[k + i] == s[i];
    assert CharAt(t, |ws|) == if sign == "" then CharAt(s, 0) else sign[0];
    SkipAllSpaces(t, |ws|, 0);
  }

  lemma PlacesPastSign(t: string, ws: string, sign: string, k: nat, s: string, base: nat)
    requires Prefixed(t, ws, sign, k, s)
    ensures Places(t, 0, base) == Places(t, k, base)
  {
    PastSign(t, ws, sign, k, s);
    CharShift(t, k, s, 0);
    assert SkipSpaces(t, k) == k && SkipSign(t, k) == k;
  }

  /** strtoul passes over leading white space and one sign of either kind. */
  lemma SpacesAndSign(t: string, ws: string, sign: string, k: nat, s: string, base: nat)
    requires Prefixed(t, ws, sign, k, s)
    ensures var r := Parsed(s, 0, base); Parsed(t, 0, base) == (r.0, k + r.1)
  {
    PlacesPastSign(t, ws, sign, k, s, base);
    PastSign(t, ws, sign, k, s);
    ParsedShift(t, k, s, base);
  }

  /** strtol does the same, and a minus sign negates. */
  lemma SpacesAndSignLong(t: string, ws: string, sign: string, k: nat, s: string, base: nat)
    requires Prefixed(t, ws, sign, k, s)
    ensures var r := Parsed(s, 0, base);
            var long := ToLong(r.0);
            ParsedLong(t, base)
            == (if sign != "-" then Some(long) else if long == LONG_MIN then None else Some(-long), k + r.1)
  {
    PastSign(t, ws, sign, k, s);
    ParsedShift(t, k, s, base);
  }

  /** Conversion to long keeps the value modulo 2^64. */
  lemma ToLongWraps(v: nat)
    requires v < ULONG
    ensures -0x8000_0000_0000_0000 <= ToLong(v) < 0x8000_0000_0000_0000
    ensures ToLong(v) == v || ToLong(v) == v - 0x1_0000_0000_0000_0000
  {
  }
}
