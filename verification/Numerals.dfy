/** Numbers to text and back: ltoa, ultoa, itoa and utoa of libc/src/stdlib.c, strtoul and
    strtol of libc/src/string.c. A C string is its characters up to the terminator. */
module Numerals {
  import opened Arith
  import opened Options

  const NUL: char := '\0'
  const ULONG: nat := 0x1_0000_0000_0000_0000
  const LONG_MIN: int := -0x8000_0000_0000_0000

  // ----- Positional notation -----

  /** Entry `d` of the digit table "0123456789abcdefghijklmnopqrstuvwxyz". */
  function Digit(d: nat): char
    requires d < 36
  {
    if d < 10 then ('0' as int + d) as char else ('a' as int + d - 10) as char
  }

  /** `v / b` and `v % b`, defined by subtraction to keep products out of the definitions
      built on them. */
  function Quot(v: nat, b: nat): (q: nat)
    requires 2 <= b
    ensures if v < b then q == 0 else 0 < q < v
    decreases v
  {
    if v < b then 0 else 1 + Quot(v - b, b)
  }

  function Rem(v: nat, b: nat): (r: nat)
    requires 2 <= b
    ensures r < b && (v < b ==> r == v)
    decreases v
  {
    if v < b then v else Rem(v - b, b)
  }

  lemma {:induction false} QuotRem(v: nat, b: nat)
    requires 2 <= b
    ensures v == Quot(v, b) * b + Rem(v, b) && v / b == Quot(v, b) && v % b == Rem(v, b)
    decreases v
  {
    if v >= b {
      QuotRem(v - b, b);
      assert (1 + Quot(v - b, b)) * b == b + Quot(v - b, b) * b;
    }
    DivUnique(v, b, Quot(v, b), Rem(v, b));
  }

  function Numeral(v: nat, base: nat): (s: string)
    requires 2 <= base <= 36
    ensures |s| > 0
    decreases v
  {
    if v < base then [Digit(v)] else Numeral(Quot(v, base), base) + [Digit(Rem(v, base))]
  }

  /** What `strtoul` takes a character for; -1 is no digit. */
  function DigitOf(c: char): int {
    if '0' <= c <= '9' then c as int - '0' as int
    else if 'a' <= c <= 'z' then c as int - 'a' as int + 10
    else if 'A' <= c <= 'Z' then c as int - 'A' as int + 10
    else -1
  }

  predicate IsDigit(c: char, base: nat) { 0 <= DigitOf(c) < base }

  predicate AllDigits(s: string, base: nat) { forall i | 0 <= i < |s| :: IsDigit(s[i], base) }

  function Value(s: string, base: nat): nat
    requires AllDigits(s, base)
  {
    if s == [] then 0 else Value(s[..|s| - 1], base) * base + DigitOf(s[|s| - 1])
  }

  lemma {:induction false} ValueAppend(s: string, c: char, base: nat)
    requires AllDigits(s, base) && IsDigit(c, base)
    ensures AllDigits(s + [c], base) && Value(s + [c], base) == Value(s, base) * base + DigitOf(c)
  {
    assert (s + [c])[..|s + [c]| - 1] == s;
  }

  /** The numeral of `v` is made of digits of the base and denotes `v`. */
  lemma {:induction false} NumeralDenotes(v: nat, base: nat)
    requires 2 <= base <= 36
    ensures AllDigits(Numeral(v, base), base) && Value(Numeral(v, base), base) == v
    decreases v
  {
    if v < base {
      ValueAppend([], Digit(v), base);
      assert [] + [Digit(v)] == Numeral(v, base);
    } else {
      var q, r := Quot(v, base), Rem(v, base);
      NumeralDenotes(q, base);
      ValueAppend(Numeral(q, base), Digit(r), base);
      QuotRem(v, base);
    }
  }

  /** No numeral but that of zero starts with a zero. */
  lemma {:induction false} NoLeadingZero(v: nat, base: nat)
    requires 2 <= base <= 36
    ensures Numeral(v, base)[0] == '0' <==> v == 0
    decreases v
  {
    if v < base {
    } else {
      NoLeadingZero(Quot(v, base), base);
    }
  }

  // ----- Printing -----

  function Rev(s: string): string {
    if s == [] then [] else Rev(s[1..]) + [s[0]]
  }

  lemma {:induction false} RevAppend(s: string, c: char)
    ensures Rev(s + [c]) == [c] + Rev(s)
  {
    if s == [] {
      assert s + [c] == [c];
      assert Rev([c]) == Rev([]) + [c];
    } else {
      assert (s + [c])[1..] == s[1..] + [c];
      RevAppend(s[1..], c);
    }
  }

  lemma {:induction false} RevAt(s: string, k: nat)
    ensures |Rev(s)| == |s|
    ensures k < |s| ==> Rev(s)[k] == s[|s| - 1 - k]
  {
    if s != [] {
      RevAt(s[1..], if k < |s| - 1 then k else 0);
    }
  }

  /** What ltoa writes: a minus sign in base 10 only, then the digits of the magnitude. */
  function Text(v: int, base: nat): string
    requires 2 <= base <= 36
  {
    (if v < 0 && base == 10 then "-" else "") + Numeral(Abs(v), base)
  }

  /** The loop that reverses `str[low..high]` in place. */
  method ReverseRange(str: array<char>, low: nat, high: nat)
    requires low <= high <= str.Length
    modifies str
    ensures forall k | low <= k < high :: str[k] == old(str[low + high - 1 - k])
    ensures forall k | 0 <= k < low :: str[k] == old(str[k])
    ensures forall k | high <= k < str.Length :: str[k] == old(str[k])
  {
    var i, j := low, high - 1;
    while i < j
      invariant low <= i <= j + 1 && i + j == low + high - 1
      invariant forall k | low <= k < i :: str[k] == old(str[low + high - 1 - k])
      invariant forall k | j < k < high :: str[k] == old(str[low + high - 1 - k])
      invariant forall k | i <= k <= j :: str[k] == old(str[k])
      invariant forall k | 0 <= k < low :: str[k] == old(str[k])
      invariant forall k | high <= k < str.Length :: str[k] == old(str[k])
    {
      str[i], str[j] := str[j], str[i];
      i, j := i + 1, j - 1;
    }
  }

  lemma ReversedRange(was: string, now: string, low: nat, high: nat)
    requires low <= high <= |was| == |now|
    requires forall k | low <= k < high :: now[k] == was[low + high - 1 - k]
    ensures now[low..high] == Rev(was[low..high])
  {
    var s, t, n := was[low..high], now[low..high], high - low;
    forall k | 0 <= k < n ensures t[k] == s[n - 1 - k] {
      assert t[k] == now[low + k] && s[n - 1 - k] == was[low + (n - 1 - k)];
    }
    RevByIndex(s, t);
  }

  lemma RevByIndex(s: string, t: string)
    requires |s| == |t| && forall k | 0 <= k < |s| :: t[k] == s[|s| - 1 - k]
    ensures t == Rev(s)
  {
    RevAt(s, 0);
    forall k | 0 <= k < |s| ensures t[k] == Rev(s)[k] { RevAt(s, k); }
  }

  /** The digits in the order the loop produces them. */
  function LowFirst(v: nat, base: nat): string
    requires 2 <= base <= 36
    decreases v
  {
    if v < base then [Digit(v)] else [Digit(Rem(v, base))] + LowFirst(Quot(v, base), base)
  }

  lemma {:induction false} RevLowFirst(v: nat, base: nat)
    requires 2 <= base <= 36
    ensures Rev(LowFirst(v, base)) == Numeral(v, base) && |LowFirst(v, base)| == |Numeral(v, base)|
    decreases v
  {
    var s := LowFirst(v, base);
    if v < base {
      assert Rev(s) == Rev(s[1..]) + [s[0]];
    } else {
      RevLowFirst(Quot(v, base), base);
      assert s[1..] == LowFirst(Quot(v, base), base);
    }
  }

  /** Truncated division takes the magnitude's digits off one by one, whatever the sign. */
  lemma Truncation(a: int, b: nat)
    requires b >= 2
    ensures Abs(CDiv(a, b)) == Quot(Abs(a), b) && Abs(CRem(a, b)) == Rem(Abs(a), b)
  {
    QuotRem(Abs(a), b);
  }

  /** `value % base`, made positive, and `value / base`. */
  method DivMod(v: int, base: nat) returns (digit: nat, next: int)
    requires base >= 2
    ensures digit == Rem(Abs(v), base) && Abs(next) == Quot(Abs(v), base)
  {
    Truncation(v, base);
    var res := CRem(v, base);
    digit := if res < 0 then -res else res;
    next := CDiv(v, base);
  }

  /** One turn of the digit loop: the character and the value left. */
  method NextDigit(v: int, base: nat, ghost all: string, ghost at: nat) returns (c: char, next: int)
    requires 2 <= base <= 36 && at <= |all| && all[at..] == LowFirst(Abs(v), base)
    ensures at < |all| && c == all[at] && (next != 0 ==> Abs(next) < Abs(v))
    ensures all[at + 1..] == if next != 0 then LowFirst(Abs(next), base) else []
  {
    ghost var rest := all[at..];
    assert rest[0] == all[at];
    assert rest[1..] == all[at + 1..];
    var digit;
    digit, next := DivMod(v, base);
    c := Digit(digit);
  }

  /** The do-while loop: remainders of truncated divisions, lowest digit first. */
  method EmitDigits(value: int, str: array<char>, low: nat, base: nat) returns (ptr: nat)
    requires 2 <= base <= 36 && low + |LowFirst(Abs(value), base)| <= str.Length
    modifies str
    ensures low <= ptr <= str.Length && str[..low] == old(str[..low])
    ensures str[low..ptr] == LowFirst(Abs(value), base)
  {
    ptr := low;
    var v := value;
    ghost var all, n := LowFirst(Abs(value), base), 0;
    var first := true;
    while first || v != 0
      invariant n <= |all| && ptr == low + n && ptr <= str.Length && (first ==> n == 0)
      invariant all[n..] == if first || v != 0 then LowFirst(Abs(v), base) else []
      invariant str[..low] == old(str[..low]) && str[low..ptr] == all[..n]
      decreases first, Abs(v)
    {
      var c;
      c, v := NextDigit(v, base, all, n);
      Append(str, low, ptr, c, all, n);
      ptr, n := ptr + 1, n + 1;
      first := false;
    }
  }

  /** Storing one character of `all` after those before it. */
  method Append(str: array<char>, low: nat, ptr: nat, c: char, ghost all: string, ghost n: nat)
    requires low <= ptr < str.Length && n < |all| && c == all[n] && str[low..ptr] == all[..n]
    modifies str
    ensures str[low..ptr + 1] == all[..n + 1] && str[..low] == old(str[..low])
  {
    str[ptr] := c;
    assert str[low..ptr + 1] == str[low..ptr] + [c];
  }

  /** ltoa; itoa is the same on int, and utoa and ultoa on unsigned values. The caller's
      buffer must hold the text and its terminator. */
  method Ltoa(value: int, str: array<char>, base: int)
    requires str.Length > 0
    requires 2 <= base <= 36 ==> |Text(value, base)| < str.Length
    modifies str
    ensures !(2 <= base <= 36) ==> str[0] == NUL
    ensures 2 <= base <= 36 ==> str[..|Text(value, base)|] == Text(value, base) && str[|Text(value, base)|] == NUL
  {
    if base < 2 || base > 36 { str[0] := NUL; return; }
    RevLowFirst(Abs(value), base);
    ghost var text, numeral := Text(value, base), Numeral(Abs(value), base);
    var low := 0;
    if value < 0 && base == 10 { str[0] := '-'; low := 1; }
    ghost var sign := str[..low];
    assert text == sign + numeral;
    var ptr := EmitDigits(value, str, low, base);
    str[ptr] := NUL;
    ghost var digits := str[low..ptr];
    ghost var before := str[..];
    ReverseRange(str, low, ptr);
    ReversedRange(before, str[..], low, ptr);
    assert str[low..ptr] == Rev(digits) == numeral by {
      assert before[low..ptr] == digits && str[..][low..ptr] == str[low..ptr];
    }
    assert str[..ptr] == str[..low] + str[low..ptr];
    assert str[..ptr] == text && ptr == |text|;
  }

  function Pow(b: nat, k: nat): nat { if k == 0 then 1 else b * Pow(b, k - 1) }

  /** `k` digits are enough for anything below `base` to the `k`. */
  lemma {:induction false} NumeralLength(v: nat, base: nat, k: nat)
    requires 2 <= base <= 36 && k > 0 && v < Pow(base, k)
    ensures |Numeral(v, base)| <= k
    decreases k
  {
    if v >= base {
      var p := Pow(base, k - 1);
      QuotBelow(v, base, p);
      assert k > 1;
      NumeralLength(Quot(v, base), base, k - 1);
    }
  }

  lemma QuotBelow(v: nat, base: nat, p: nat)
    requires 2 <= base && v < base * p
    ensures Quot(v, base) < p && (v >= base ==> p > 1)
  {
    QuotRem(v, base);
    QuotientBelow(v, base, p);
  }

  // ----- Parsing -----

  /** The character at `p`, or the terminator. */
  function CharAt(s: string, p: nat): char { if p < |s| then s[p] else NUL }

  /** `isspace` of libc/src/ctype.c */
  predicate IsSpace(c: char) { c == ' ' || 9 <= c as int <= 13 }

  function SkipSpaces(s: string, p: nat): (q: nat)
    ensures p <= q && !IsSpace(CharAt(s, q)) && (p <= |s| ==> q <= |s|)
    decreases if p < |s| then |s| - p else 0
  {
    if IsSpace(CharAt(s, p)) then SkipSpaces(s, p + 1) else p
  }

  function SkipSign(s: string, p: nat): (q: nat)
    ensures p <= q && (p <= |s| ==> q <= |s|)
  {
    if CharAt(s, p) == '+' || CharAt(s, p) == '-' then p + 1 else p
  }

  predicate HexPrefix(s: string, p: nat) {
    CharAt(s, p) == '0' && (CharAt(s, p + 1) == 'x' || CharAt(s, p + 1) == 'X')
  }

  /** The base in force and where its digits start. */
  function BaseAt(s: string, p: nat, base: nat): (r: (nat, nat))
    ensures p <= r.1 && (p <= |s| ==> r.1 <= |s|)
  {
    if base == 0 then
      if HexPrefix(s, p) then (16, p + 2)
      else if CharAt(s, p) == '0' then (8, p + 1)
      else (10, p)
    else if base == 16 && HexPrefix(s, p) then (16, p + 2)
    else (base, p)
  }

  /** The end of the longest run of digits from `p` on. */
  function RunEnd(s: string, p: nat, base: nat): (q: nat)
    ensures p <= q && !IsDigit(CharAt(s, q), base)
    ensures p <= |s| ==> q <= |s| && AllDigits(s[p..q], base)
    decreases if p < |s| then |s| - p else 0
  {
    if IsDigit(CharAt(s, p), base) then
      var q := RunEnd(s, p + 1, base);
      assert s[p..q] == [s[p]] + s[p + 1..q];
      q
    else p
  }

  lemma StepMod(x: nat, base: nat, d: nat)
    ensures (x % ULONG * base + d) % ULONG == (x * base + d) % ULONG
  {
    var q, r := x / ULONG, x % ULONG;
    assert x == q * ULONG + r;
    var a := r * base + d;
    assert x * base + d == q * base * ULONG + a by {
      assert (q * ULONG + r) * base == q * ULONG * base + r * base;
      assert q * ULONG * base == q * base * ULONG;
    }
    DivUnique(q * base * ULONG + a, ULONG, q * base + a / ULONG, a % ULONG);
  }

  /** What strtoul returns and where it leaves `*endptr`: the digit run after white space,
      one ignored sign and the base prefix, modulo 2^64. */
  function Parsed(s: string, start: nat, base: nat): (nat, nat)
    requires start <= |s|
  {
    var b := Places(s, start, base);
    ParsedRun(s, b.1, b.0)
  }

  /** The base in force and where the digits start, past white space, sign and prefix. */
  function Places(s: string, start: nat, base: nat): (b: (nat, nat))
    ensures start <= |s| ==> b.1 <= |s|
  {
    BaseAt(s, SkipSign(s, SkipSpaces(s, start)), base)
  }

  /** The value modulo 2^64 of the digit run at `p`, and its end. */
  function ParsedRun(s: string, p: nat, base: nat): (nat, nat)
    requires p <= |s|
  {
    var end := RunEnd(s, p, base);
    (Value(s[p..end], base) % ULONG, end)
  }

  method SkipPrefix(s: string, start: nat, baseArg: nat) returns (base: nat, p: nat)
    requires start <= |s|
    ensures (base, p) == Places(s, start, baseArg)
  {
    p := start;
    while IsSpace(CharAt(s, p))
      invariant SkipSpaces(s, p) == SkipSpaces(s, start)
      decreases if p < |s| then |s| - p else 0
    {
      p := p + 1;
    }
    if CharAt(s, p) == '+' || CharAt(s, p) == '-' { p := p + 1; }
    base := baseArg;
    if base == 0 {
      if CharAt(s, p) == '0' {
        if CharAt(s, p + 1) == 'x' || CharAt(s, p + 1) == 'X' {
          base, p := 16, p + 2;
        } else {
          base, p := 8, p + 1;
        }
      } else {
        base := 10;
      }
    } else if base == 16 && HexPrefix(s, p) {
      p := p + 2;
    }
  }

  method Strtoul(s: string, start: nat, base: nat) returns (result: nat, end: nat)
    requires start <= |s|
    ensures (result, end) == Parsed(s, start, base)
  {
    var b, p := SkipPrefix(s, start, base);
    result, end := ParseRun(s, p, b);
  }

  lemma OneMoreDigit(s: string, start: nat, p: nat, base: nat, result: nat)
    requires start <= p < |s| && AllDigits(s[start..p], base) && IsDigit(s[p], base)
    requires result == Value(s[start..p], base) % ULONG
    ensures AllDigits(s[start..p + 1], base)
    ensures (result * base + DigitOf(s[p])) % ULONG == Value(s[start..p + 1], base) % ULONG
  {
    assert s[start..p + 1] == s[start..p] + [s[p]];
    ValueAppend(s[start..p], s[p], base);
    StepMod(Value(s[start..p], base), base, DigitOf(s[p]));
  }

  /** The accumulation loop of strtoul. */
  method ParseRun(s: string, start: nat, base: nat) returns (result: nat, p: nat)
    requires start <= |s|
    ensures p == RunEnd(s, start, base) && result == Value(s[start..p], base) % ULONG
  {
    result, p := 0, start;
    while CharAt(s, p) != NUL
      invariant start <= p <= |s| && RunEnd(s, p, base) == RunEnd(s, start, base)
      invariant AllDigits(s[start..p], base) && result == Value(s[start..p], base) % ULONG
      decreases |s| - p
    {
      var digit := DigitOf(CharAt(s, p));
      if digit < 0 || digit >= base { break; }
      OneMoreDigit(s, start, p, base, result);
      result := (result * base + digit) % ULONG;
      p := p + 1;
    }
  }

  /** The conversion of unsigned long to long. */
  function ToLong(v: nat): int { if v < 0x8000_0000_0000_0000 then v else v - ULONG }

  /** Negating a long; C leaves the negation of LONG_MIN undefined. */
  function Negated(v: int): Option<int> { if v == LONG_MIN then None else Some(-v) }

  /** What strtol returns, None where that is undefined: the sign is taken here, and strtoul
      would skip one more. */
  function ParsedLong(s: string, base: nat): (Option<int>, nat) {
    var q := SkipSpaces(s, 0);
    var p := Parsed(s, SkipSign(s, q), base);
    (if CharAt(s, q) == '-' then Negated(ToLong(p.0)) else Some(ToLong(p.0)), p.1)
  }

  method Strtol(s: string, base: nat) returns (result: Option<int>, end: nat)
    ensures (result, end) == ParsedLong(s, base)
  {
    var p := 0;
    while IsSpace(CharAt(s, p))
      invariant p <= |s| && SkipSpaces(s, p) == SkipSpaces(s, 0)
      decreases |s| - p
    {
      p := p + 1;
    }
    var neg := CharAt(s, p) == '-';
    if neg || CharAt(s, p) == '+' { p := p + 1; }
    var res;
    res, end := Strtoul(s, p, base);
    result := if neg then Negated(ToLong(res)) else Some(ToLong(res));
  }

  // ----- Round trips -----

  lemma {:induction false} RunIsWhole(s: string, p: nat, base: nat)
    requires p <= |s| && AllDigits(s[p..], base)
    ensures RunEnd(s, p, base) == |s|
    decreases |s| - p
  {
    if p < |s| {
      assert s[p..][0] == s[p];
      assert s[p + 1..] == s[p..][1..];
      RunIsWhole(s, p + 1, base);
    }
  }

  /** The first digit is neither space nor sign and opens no base prefix. */
  lemma NoPrefix(s: string, p: nat, v: nat, base: nat)
    requires 2 <= base <= 36 && p <= |s| && s[p..] == Numeral(v, base)
    ensures SkipSpaces(s, p) == p && SkipSign(s, p) == p && BaseAt(s, p, base) == (base, p)
    ensures CharAt(s, p) != '-' && CharAt(s, p) != '+' && !IsSpace(CharAt(s, p))
  {
    var n := Numeral(v, base);
    NumeralDenotes(v, base);
    assert IsDigit(n[0], base) && s[p] == s[p..][0] == n[0];
    if base == 16 { NoHexPrefix(s, p, v); }
  }

  lemma NoHexPrefix(s: string, p: nat, v: nat)
    requires p <= |s| && s[p..] == Numeral(v, 16)
    ensures !HexPrefix(s, p)
  {
    NoLeadingZero(v, 16);
    assert s[p..][0] == s[p];
    if v == 0 { assert |s[p..]| == 1; }
  }

  /** A numeral is read whole and gives back its value. */
  lemma NumeralParses(s: string, p: nat, v: nat, base: nat)
    requires 2 <= base <= 36 && p <= |s| && s[p..] == Numeral(v, base) && v < ULONG
    ensures Parsed(s, p, base) == (v, |s|)
  {
    NoPrefix(s, p, v, base);
    NumeralDenotes(v, base);
    DigitsParse(s, p, base, s[p..], v);
  }

  lemma DigitsParse(s: string, p: nat, base: nat, digits: string, v: nat)
    requires p <= |s| && s[p..] == digits && AllDigits(digits, base) && Value(digits, base) == v < ULONG
    ensures ParsedRun(s, p, base) == (v, |s|)
  {
    RunIsWhole(s, p, base);
    assert s[p..|s|] == digits;
  }

  /** strtoul reads back what ultoa wrote, for every base and every 64-bit value, and stops
      at the terminator. */
  lemma StrtoulOfUltoa(v: nat, base: nat)
    requires 2 <= base <= 36 && v < ULONG
    ensures Parsed(Text(v, base), 0, base) == (v, |Text(v, base)|)
  {
    assert Text(v, base)[0..] == Numeral(v, base);
    NumeralParses(Text(v, base), 0, v, base);
  }

  /** strtol stops at the terminator of what ltoa wrote. It is undefined for LONG_MIN in
      base 10 and nowhere else. Where it is defined it gives the value back exactly for
      non-negative values, in base 10, and for LONG_MIN: the other bases drop the sign, which
      the conversion to long undoes for LONG_MIN alone. */
  lemma StrtolOfLtoa(v: int, base: nat)
    requires 2 <= base <= 36 && LONG_MIN <= v < -LONG_MIN
    ensures var r := ParsedLong(Text(v, base), base);
            && r.1 == |Text(v, base)|
            && (r.0.None? <==> base == 10 && v == LONG_MIN)
            && (r.0.Some? ==> (r.0.value == v <==> v >= 0 || base == 10 || v == LONG_MIN))
  {
    var s, m := Text(v, base), Abs(v);
    if v < 0 && base == 10 {
      assert s[0] == '-' && s[1..] == Numeral(m, base);
      assert SkipSpaces(s, 0) == 0 && SkipSign(s, 0) == 1;
      NumeralParses(s, 1, m, base);
    } else {
      assert s[0..] == Numeral(m, base);
      NoPrefix(s, 0, m, base);
      NumeralParses(s, 0, m, base);
    }
  }
}
