/** Splitting text into words: strtok_r of libc/src/string.c and shell_parse_line of
    tools/src/shell.c. */
module Tokens {
  import opened Options
  import opened Numerals

  /** The characters from `start` up to, not including, `end`. */
  datatype Span = Span(start: nat, end: nat)

  type Delims = set<char>

  // ----- What a split is -----

  /** A non-empty stretch without delimiters that cannot be made longer. */
  predicate MaximalRun(s: string, w: Span, d: Delims) {
    && w.start < w.end <= |s|
    && (forall k | w.start <= k < w.end :: s[k] !in d)
    && (w.start > 0 ==> s[w.start - 1] in d)
    && (w.end < |s| ==> s[w.end] in d)
  }

  /** `ws` are exactly the maximal delimiter-free runs that start before `p`, in order. */
  ghost predicate SplitUpTo(s: string, d: Delims, ws: seq<Span>, p: nat) {
    && p <= |s| && (p == 0 || p == |s| || s[p - 1] in d)
    && (forall w :: w in ws <==> MaximalRun(s, w, d) && w.start < p)
    && (forall i, j | 0 <= i < j < |ws| :: ws[i].end < ws[j].start)
  }

  /** From `p` on, delimiters up to `b`, then a run up to `e`. */
  predicate NextRun(s: string, d: Delims, p: nat, b: nat, e: nat) {
    && p <= b < e <= |s|
    && (forall k | p <= k < b :: s[k] in d)
    && (forall k | b <= k < e :: s[k] !in d)
    && (e < |s| ==> s[e] in d)
  }

  /** Where scanning goes on after a run that ends at `e`. */
  function Beyond(s: string, e: nat): nat { if e < |s| then e + 1 else |s| }

  lemma NextRunOnly(s: string, d: Delims, p: nat, b: nat, e: nat, w: Span)
    requires NextRun(s, d, p, b, e) && MaximalRun(s, w, d) && p <= w.start < Beyond(s, e)
    ensures w == Span(b, e)
  {
    assert s[w.start] !in d;
    assert w.start == b;
  }

  lemma SplitStep(s: string, d: Delims, ws: seq<Span>, p: nat, b: nat, e: nat)
    requires SplitUpTo(s, d, ws, p) && NextRun(s, d, p, b, e)
    ensures SplitUpTo(s, d, ws + [Span(b, e)], Beyond(s, e))
  {
    var vs, q := ws + [Span(b, e)], Beyond(s, e);
    assert MaximalRun(s, Span(b, e), d);
    forall w: Span ensures w in vs <==> MaximalRun(s, w, d) && w.start < q {
      assert w in vs <==> w in ws || w == Span(b, e);
      if MaximalRun(s, w, d) && p <= w.start < q { NextRunOnly(s, d, p, b, e, w); }
    }
    forall i, j | 0 <= i < j < |vs| ensures vs[i].end < vs[j].start {
      if j == |ws| { EndsBefore(s, d, ws, p, ws[i], b); }
    }
  }

  lemma EndsBefore(s: string, d: Delims, ws: seq<Span>, p: nat, w: Span, b: nat)
    requires SplitUpTo(s, d, ws, p) && w in ws && p <= b < |s| && (p > 0 ==> p < |s|)
    ensures w.end < b
  {
    assert MaximalRun(s, w, d) && w.start < p;
    assert s[p - 1] in d;
    assert w.end <= p - 1;
  }

  lemma SplitEnd(s: string, d: Delims, ws: seq<Span>, p: nat)
    requires SplitUpTo(s, d, ws, p) && forall k | p <= k < |s| :: s[k] in d
    ensures SplitUpTo(s, d, ws, |s|)
  {
    forall w: Span | MaximalRun(s, w, d) ensures w.start < p { assert s[w.start] !in d; }
  }

  /** A split is determined by the text. */
  lemma {:induction false} SplitUnique(s: string, d: Delims, vs: seq<Span>, ws: seq<Span>, p: nat)
    requires SplitUpTo(s, d, vs, p) && SplitUpTo(s, d, ws, p)
    ensures vs == ws
  {
    SameMembers(vs, ws);
  }

  predicate Ascending(ws: seq<Span>) {
    && (forall i | 0 <= i < |ws| :: ws[i].start < ws[i].end)
    && (forall i, j | 0 <= i < j < |ws| :: ws[i].end < ws[j].start)
  }

  lemma FirstIsMember(ws: seq<Span>)
    requires ws != []
    ensures ws[0] in ws
  {
  }

  lemma {:induction false} SameMembers(vs: seq<Span>, ws: seq<Span>)
    requires Ascending(vs) && Ascending(ws) && forall w :: w in vs <==> w in ws
    ensures vs == ws
    decreases |vs|
  {
    if vs == [] {
      if ws != [] { FirstIsMember(ws); }
    } else {
      var n, m := |vs| - 1, |ws| - 1;
      assert vs[n] in ws;
      assert ws[m] in vs;
      assert vs[n] == ws[m];
      forall w ensures w in vs[..n] <==> w in ws[..m] {
        assert w in vs <==> w in vs[..n] || w == vs[n];
        assert w in ws <==> w in ws[..m] || w == ws[m];
      }
      SameMembers(vs[..n], ws[..m]);
      assert vs == vs[..n] + [vs[n]] && ws == ws[..m] + [ws[m]];
    }
  }

  /** What has been split off up to some point is the beginning of the whole split. */
  lemma SplitIsPrefix(s: string, d: Delims, ws: seq<Span>, p: nat, all: seq<Span>)
    requires SplitUpTo(s, d, ws, p) && SplitUpTo(s, d, all, |s|)
    ensures ws <= all
  {
    forall w: Span ensures w in ws <==> w in all && w.start < p {}
    MembersBefore(ws, all, p);
  }

  lemma {:induction false} MembersBefore(ws: seq<Span>, all: seq<Span>, p: nat)
    requires Ascending(ws) && Ascending(all) && forall w :: w in ws <==> w in all && w.start < p
    ensures ws <= all
    decreases |all|
  {
    if all == [] {
      if ws != [] { FirstIsMember(ws); }
    } else {
      var n := |all| - 1;
      if all[n].start < p {
        forall w ensures w in ws <==> w in all {
          if w in all { var i :| 0 <= i < |all| && all[i] == w; assert i < n ==> all[i].end < all[n].start; }
        }
        SameMembers(ws, all);
      } else {
        forall w ensures w in ws <==> w in all[..n] && w.start < p {
          assert w in all <==> w in all[..n] || w == all[n];
        }
        MembersBefore(ws, all[..n], p);
      }
    }
  }

  // ----- The buffer -----

  /** The text from `p` to its terminator is still in place. */
  predicate TextAt(buf: seq<char>, p: nat, s: string) {
    && p <= |s| < |buf| && buf[|s|] == NUL
    && forall k | p <= k < |s| :: buf[k] == s[k] && s[k] != NUL
  }

  /** Only the characters right after the words have been overwritten. */
  ghost predicate Terminated(orig: seq<char>, now: seq<char>, ws: seq<Span>) {
    && |now| == |orig|
    && (forall w <- ws :: w.end < |now| && now[w.end] == NUL)
    && (forall k | 0 <= k < |now| && (forall w <- ws :: w.end != k) :: now[k] == orig[k])
  }

  lemma TerminateOne(orig: seq<char>, now: seq<char>, ws: seq<Span>, w: Span)
    requires Terminated(orig, now, ws) && w.end < |now|
    ensures Terminated(orig, now[w.end := NUL], ws + [w])
  {
    var vs, after := ws + [w], now[w.end := NUL];
    assert w in vs && forall v <- ws :: v in vs;
    forall k | 0 <= k < |now| && (forall v <- vs :: v.end != k) ensures after[k] == orig[k] {
      assert k != w.end;
      assert forall v <- ws :: v.end != k;
    }
  }

  /** Each word then stands in the buffer as a C string of its own. */
  lemma WordIsCString(orig: seq<char>, now: seq<char>, s: string, d: Delims, ws: seq<Span>, p: nat, w: Span)
    requires TextAt(orig, 0, s) && SplitUpTo(s, d, ws, p) && Terminated(orig, now, ws) && w in ws
    ensures w.start < w.end <= |s| < |now| && now[w.start..w.end] == s[w.start..w.end] && now[w.end] == NUL
  {
    assert MaximalRun(s, w, d);
    forall k | w.start <= k < w.end ensures now[k] == s[k] {
      forall v | v in ws ensures v.end != k {
        assert MaximalRun(s, v, d);
        assert s[k] !in d;
      }
    }
  }

  // ----- strtok_r -----

  class Tokenizer {
    var buf: array<char>
    /** `*saveptr`, None for NULL. */
    var save: Option<nat>

    constructor (buf: array<char>)
      ensures this.buf == buf && save == None
    {
      this.buf, save := buf, None;
    }

    /** The loops of strspn (`wanted` is true) and strcspn, from offset `p`. */
    method Scan(p: nat, d: Delims, wanted: bool, ghost s: string) returns (q: nat)
      requires TextAt(buf[..], p, s)
      ensures p <= q <= |s| && (q < |s| ==> (s[q] in d) != wanted)
      ensures forall k | p <= k < q :: (s[k] in d) == wanted
    {
      q := p;
      while buf[q] != NUL && (buf[q] in d) == wanted
        invariant p <= q <= |s|
        invariant forall k | p <= k < q :: (s[k] in d) == wanted
        decreases |s| - q
      {
        q := q + 1;
      }
    }

    /** One call. `str` is the argument, None for NULL; `s` is the text as it was before any
        call, of which the part from the pointer on is still in place. */
    method StrtokR(str: Option<nat>, d: Delims, ghost s: string) returns (token: Option<nat>, ghost e: nat)
      requires var from := if str.Some? then str else save; from.Some? ==> TextAt(buf[..], from.value, s)
      modifies this`save, buf
      ensures var from := if str.Some? then str else old(save);
              && (token.None? ==> save.None? && buf[..] == old(buf[..]))
              && (token.None? && from.Some? ==> forall k | from.value <= k < |s| :: s[k] in d)
              && (token.Some? ==>
                    && from.Some? && e < buf.Length
                    && NextRun(s, d, from.value, token.value, e)
                    && buf[..] == old(buf[..])[e := NUL]
                    && save == if e < |s| then Some(e + 1) else None)
    {
      e := 0;
      if str.Some? { save := str; }
      if save.None? { return None, e; }
      var b := Scan(save.value, d, true, s);
      save := Some(b);
      if buf[b] == NUL {
        save := None;
        return None, e;
      }
      token := Some(b);
      var q := Scan(b, d, false, s);
      e := q;
      if buf[q] != NUL {
        buf[q] := NUL;
        save := Some(q + 1);
      } else {
        assert buf[..] == buf[..][q := NUL];
        save := None;
      }
    }

    /** Calling strtok_r until it returns NULL, as its users do: the tokens are the maximal
        runs of the text, in order, and only the delimiter after each is overwritten. */
    method TokenizeAll(d: Delims, ghost s: string) returns (tokens: seq<nat>, ghost words: seq<Span>)
      requires TextAt(buf[..], 0, s)
      modifies this`save, buf
      ensures SplitUpTo(s, d, words, |s|) && Terminated(old(buf[..]), buf[..], words)
      ensures |tokens| == |words| && forall i | 0 <= i < |words| :: tokens[i] == words[i].start
    {
      tokens, words := [], [];
      var arg := Some(0);
      ghost var p: nat := 0;
      while true
        invariant |tokens| == |words| && forall i | 0 <= i < |words| :: tokens[i] == words[i].start
        invariant SplitUpTo(s, d, words, p) && Terminated(old(buf[..]), buf[..], words)
        invariant TextAt(buf[..], p, s)
        invariant var from := if arg.Some? then arg else save; if from.Some? then from.value == p else p == |s|
        decreases |s| - p, if arg.Some? || save.Some? then 1 else 0
      {
        var token;
        ghost var e;
        ghost var was := buf[..];
        token, e := StrtokR(arg, d, s);
        arg := None;
        if token.None? {
          SplitEnd(s, d, words, p);
          break;
        }
        SplitStep(s, d, words, p, token.value, e);
        TerminateOne(old(buf[..]), was, words, Span(token.value, e));
        tokens := tokens + [token.value];
        words := words + [Span(token.value, e)];
        p := Beyond(s, e);
      }
    }
  }

  // ----- shell_parse_line -----

  const WHITESPACE: Delims := {' ', '\t', '\n', '\U{b}', '\U{c}', '\r'}
  const SHELL_MAX_ARGS: nat := 64

  function First64(ws: seq<Span>): seq<Span> { if |ws| <= 64 then ws else ws[..64] }

  lemma FirstWords(s: string, words: seq<Span>, upTo: nat, all: seq<Span>)
    requires SplitUpTo(s, WHITESPACE, words, upTo) && SplitUpTo(s, WHITESPACE, all, |s|)
    requires |words| <= SHELL_MAX_ARGS && (|words| < SHELL_MAX_ARGS ==> upTo == |s|)
    ensures words == First64(all)
  {
    SplitIsPrefix(s, WHITESPACE, words, upTo, all);
    if upTo == |s| { SplitUnique(s, WHITESPACE, words, all, |s|); }
  }

  lemma WhitespaceIsIsspace(c: char)
    ensures (c in WHITESPACE <==> IsSpace(c)) && (c in WHITESPACE <==> c as int == 32 || 9 <= c as int <= 13)
  {
    assert '\t' as int == 9 && '\n' as int == 10 && '\U{b}' as int == 11 && '\U{c}' as int == 12 && '\r' as int == 13;
  }

  const QUOTE: char := '\"'

  /** Position `k` is inside quotes: an odd number of them comes before. */
  predicate Quoted(s: string, k: nat)
    requires k <= |s|
  {
    k > 0 && (Quoted(s, k - 1) != (s[k - 1] == QUOTE))
  }

  lemma {:induction false} QuotedIsOdd(s: string, k: nat)
    requires k <= |s|
    ensures Quoted(s, k) <==> multiset(s[..k])['\"'] % 2 == 1
    decreases k
  {
    if k > 0 {
      QuotedIsOdd(s, k - 1);
      assert s[..k] == s[..k - 1] + [s[k - 1]];
    }
  }

  /** The line with its quoted white space replaced by a letter. */
  function Masked(s: string): (m: string)
    ensures MaskOf(s, m)
    ensures forall k | 0 <= k < |s| && !Quoted(s, k) :: m[k] == s[k]
  {
    seq(|s|, k requires 0 <= k < |s| => if s[k] in WHITESPACE && Quoted(s, k) then 'x' else s[k])
  }

  /** White space in `m` is the unquoted white space of `s`. */
  ghost predicate MaskOf(s: string, m: string) {
    |m| == |s| && forall k | 0 <= k < |s| :: m[k] in WHITESPACE <==> s[k] in WHITESPACE && !Quoted(s, k)
  }

  lemma {:induction false} NeverQuoted(s: string, k: nat)
    requires QUOTE !in s && k <= |s|
    ensures !Quoted(s, k)
    decreases k
  {
    if k > 0 { assert s[k - 1] in s; NeverQuoted(s, k - 1); }
  }

  /** Without quotes the line is its own mask: it is split as it stands. */
  lemma MaskWithoutQuotes(s: string)
    requires QUOTE !in s
    ensures MaskOf(s, s)
  {
    forall k | 0 <= k < |s| ensures !Quoted(s, k) { NeverQuoted(s, k); }
  }

  /** White space leaves the quoting as it is. */
  lemma WhiteStep(s: string, k: nat)
    requires k < |s| && s[k] in WHITESPACE && !Quoted(s, k)
    ensures !Quoted(s, k + 1)
  {
    assert s[k] != QUOTE;
  }

  /** The parser overwrites the end of a word and every quote in it. */
  predicate CutBy(w: Span, s: string, k: nat) {
    k == w.end || (w.start <= k < w.end && k < |s| && s[k] == QUOTE)
  }

  ghost predicate Cut(orig: seq<char>, now: seq<char>, s: string, ws: seq<Span>) {
    && |now| == |orig|
    && (forall k, w | 0 <= k < |now| && w in ws && CutBy(w, s, k) :: now[k] == NUL)
    && (forall k | 0 <= k < |now| && (forall w <- ws :: !CutBy(w, s, k)) :: now[k] == orig[k])
  }

  lemma CutOne(orig: seq<char>, was: seq<char>, now: seq<char>, s: string, ws: seq<Span>, w: Span)
    requires Cut(orig, was, s, ws) && |now| == |was|
    requires forall k | 0 <= k < |now| :: now[k] == if CutBy(w, s, k) then NUL else was[k]
    ensures Cut(orig, now, s, ws + [w])
  {
    var vs := ws + [w];
    assert w in vs && forall v <- ws :: v in vs;
    forall k | 0 <= k < |now| && (forall v <- vs :: !CutBy(v, s, k)) ensures now[k] == orig[k] {
      assert forall v <- ws :: !CutBy(v, s, k);
    }
  }

  /** What a command sees of an argument: the word up to its first quote `q`, so the whole
      word exactly when there is no quote in it, and nothing when it starts with one. */
  lemma ArgumentText(orig: seq<char>, now: seq<char>, s: string, m: string, ws: seq<Span>, p: nat, w: Span, q: nat)
    requires TextAt(orig, 0, s) && MaskOf(s, m) && SplitUpTo(m, WHITESPACE, ws, p) && Cut(orig, now, s, ws) && w in ws
    requires w.start <= q <= w.end && (forall k | w.start <= k < q :: k < |s| && s[k] != QUOTE)
    requires q < w.end ==> q < |s| && s[q] == QUOTE
    ensures q <= |s| < |now| && now[w.start..q] == s[w.start..q] && now[q] == NUL
  {
    assert MaximalRun(m, w, WHITESPACE);
    assert CutBy(w, s, q);
    forall k | w.start <= k < q ensures now[k] == s[k] {
      forall v | v in ws ensures !CutBy(v, s, k) { NotCutBy(s, m, v, k); }
    }
  }

  lemma NotCutBy(s: string, m: string, v: Span, k: nat)
    requires |m| == |s| && k < |s| && m[k] !in WHITESPACE && s[k] != QUOTE && MaximalRun(m, v, WHITESPACE)
    ensures !CutBy(v, s, k)
  {
  }

  /** Midway through a line: `words` have been cut off and the next one starts at `p`. */
  ghost predicate Parsing(orig: seq<char>, now: seq<char>, s: string, m: string,
                          words: seq<Span>, upTo: nat, p: nat, inQuotes: bool)
  {
    && |m| == |s| && SplitUpTo(m, WHITESPACE, words, upTo) && Cut(orig, now, s, words)
    && upTo <= p <= |s| && TextAt(now, p, s)
    && (p < |s| ==> m[p] !in WHITESPACE && !inQuotes && !Quoted(s, p))
    && forall k | upTo <= k < p :: m[k] in WHITESPACE
  }

  class Shell {
    var line: array<char>
    var argv: seq<nat>

    constructor (line: array<char>)
      ensures this.line == line
    {
      this.line, argv := line, [];
    }

    method SkipWhite(p: nat, ghost s: string, ghost m: string) returns (q: nat)
      requires TextAt(line[..], p, s) && MaskOf(s, m) && (p < |s| ==> !Quoted(s, p))
      ensures p <= q <= |s| && (q < |s| ==> m[q] !in WHITESPACE && !Quoted(s, q))
      ensures forall k | p <= k < q :: m[k] in WHITESPACE
    {
      q := p;
      while line[q] != NUL && line[q] in WHITESPACE
        invariant p <= q <= |s| && (p < |s| ==> !Quoted(s, q))
        invariant forall k | p <= k < q :: m[k] in WHITESPACE
        decreases |s| - q
      {
        WhiteStep(s, q);
        q := q + 1;
      }
    }

    /** The scan to the end of one argument. */
    method EndArgument(b: nat, was: bool, ghost s: string, ghost m: string)
      returns (p: nat, inQuotes: bool, ghost e: nat)
      requires TextAt(line[..], b, s) && MaskOf(s, m) && b < |s| && m[b] !in WHITESPACE && was == Quoted(s, b)
      modifies line
      ensures NextRun(m, WHITESPACE, b, b, e) && p == Beyond(s, e) && e < line.Length && inQuotes == Quoted(s, p)
      ensures p < |s| ==> !inQuotes
      ensures forall k | 0 <= k < line.Length :: line[k] == if CutBy(Span(b, e), s, k) then NUL else old(line[k])
    {
      p, inQuotes := b, was;
      while line[p] != NUL
        invariant b <= p <= |s| && inQuotes == Quoted(s, p)
        invariant forall k | b <= k < p :: m[k] !in WHITESPACE
        invariant forall k | 0 <= k < line.Length ::
                    line[k] == if b <= k < p && s[k] == QUOTE then NUL else old(line[k])
        decreases |s| - p
      {
        assert line[p] == s[p];
        if line[p] == QUOTE {
          inQuotes := !inQuotes;
          line[p] := NUL;
        } else if !inQuotes && line[p] in WHITESPACE {
          e := p;
          line[p] := NUL;
          p := p + 1;
          return;
        }
        p := p + 1;
      }
      e := p;
    }

    /** One argument and the white space after it. */
    method NextArgument(b: nat, was: bool, ghost orig: seq<char>, ghost s: string, ghost m: string,
                        ghost words: seq<Span>, ghost upTo: nat)
      returns (p: nat, inQuotes: bool, ghost w: Span, ghost next: nat)
      requires MaskOf(s, m) && Parsing(orig, line[..], s, m, words, upTo, b, was) && b < |s|
      modifies line
      ensures b < p && w.start == b && Parsing(orig, line[..], s, m, words + [w], next, p, inQuotes)
    {
      ghost var e, before := 0, line[..];
      p, inQuotes, e := EndArgument(b, was, s, m);
      SplitStep(m, WHITESPACE, words, upTo, b, e);
      CutOne(orig, before, line[..], s, words, Span(b, e));
      w, next := Span(b, e), p;
      p := SkipWhite(p, s, m);
    }

    /** The arguments are the first 64 words of the split at unquoted white space, in order;
        fewer only when the line has no more. Only the ends of these words and the quotes in
        them are overwritten. */
    method ParseLine(ghost s: string, ghost m: string) returns (ghost words: seq<Span>, ghost upTo: nat)
      requires TextAt(line[..], 0, s) && MaskOf(s, m)
      modifies this`argv, line
      ensures SplitUpTo(m, WHITESPACE, words, upTo) && Cut(old(line[..]), line[..], s, words)
      ensures |words| <= SHELL_MAX_ARGS && (|words| < SHELL_MAX_ARGS ==> upTo == |s|)
      ensures |argv| == |words| && forall i | 0 <= i < |words| :: argv[i] == words[i].start
      ensures forall all | SplitUpTo(m, WHITESPACE, all, |s|) :: words == First64(all)
    {
      argv, words, upTo := [], [], 0;
      var inQuotes := false;
      var p := SkipWhite(0, s, m);
      while line[p] != NUL && |argv| < SHELL_MAX_ARGS
        invariant |argv| == |words| <= SHELL_MAX_ARGS && forall i | 0 <= i < |words| :: argv[i] == words[i].start
        invariant Parsing(old(line[..]), line[..], s, m, words, upTo, p, inQuotes)
        decreases |s| - p
      {
        argv := argv + [p];
        ghost var w;
        p, inQuotes, w, upTo := NextArgument(p, inQuotes, old(line[..]), s, m, words, upTo);
        words := words + [w];
      }
      if p == |s| { SplitEnd(m, WHITESPACE, words, upTo); upTo := |s|; }
      forall all | SplitUpTo(m, WHITESPACE, all, |s|) ensures words == First64(all) {
        FirstWords(m, words, upTo, all);
      }
    }
  }
}
