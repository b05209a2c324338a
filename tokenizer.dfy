/**
 * The argument parser of the kernel monitor's `runcmd`: it splits a
 * NUL-terminated line buffer in place into whitespace-separated tokens,
 * overwriting the whitespace it skips with NUL and recording the offset of
 * each token in an argument vector of MAXARGS slots.
 */
module Tokenizer {

  const NUL: char := '\0'

  /** Number of argv slots; at most MAXARGS - 1 tokens are accepted. */
  const MAXARGS: nat := 16

  /** Membership in the WHITESPACE string "\t\r\n ". */
  predicate IsSpace(c: char) {
    c == '\t' || c == '\r' || c == '\n' || c == ' '
  }

  /** An argv slot: a null pointer or a pointer to an offset of the buffer. */
  datatype Ptr = Null | At(offset: nat)

  /** What the parse loop ends with: a complete argument vector or the
      "Too many arguments" abort. */
  datatype Parsed = Args(argc: nat) | TooMany

  /** Length of the C string held in `s`: the index of its first NUL. */
  function StrLen(s: seq<char>): (n: nat)
    ensures n <= |s|
    ensures forall k :: 0 <= k < n ==> s[k] != NUL
    ensures n < |s| ==> s[n] == NUL
  {
    if s == [] || s[0] == NUL then 0 else 1 + StrLen(s[1..])
  }

  /** The C string held in the buffer `s`. */
  function CLine(s: seq<char>): seq<char>
  {
    s[..StrLen(s)]
  }

  /** The C string starting at offset `i` of `t`, as strcmp reads it. */
  function CStr(t: seq<char>, i: nat): seq<char>
    decreases |t| - i
  {
    if i >= |t| || t[i] == NUL then [] else [t[i]] + CStr(t, i + 1)
  }

  /** Where the run of non-whitespace characters starting at `i` ends. */
  function RunEnd(line: seq<char>, i: nat): (e: nat)
    requires i <= |line|
    ensures i <= e <= |line|
    ensures forall k :: i <= k < e ==> !IsSpace(line[k])
    ensures e == |line| || IsSpace(line[e])
    decreases |line| - i
  {
    if i == |line| || IsSpace(line[i]) then i else RunEnd(line, i + 1)
  }

  /** The token that starts at `x`. */
  function Token(line: seq<char>, x: nat): seq<char>
    requires x <= |line|
  {
    line[x..RunEnd(line, x)]
  }

  /** Offsets of the tokens of `line` at or after `i`, in the order the
      parse loop finds them: skip whitespace, record a token, scan past it. */
  function Starts(line: seq<char>, i: nat): seq<nat>
    requires i <= |line|
    decreases |line| - i
  {
    if i == |line| then []
    else if IsSpace(line[i]) then Starts(line, i + 1)
    else [i] + Starts(line, RunEnd(line, i))
  }

  /** Every recorded offset lies in the string, at or after `i`, on a
      non-whitespace character. */
  lemma {:induction false} StartsBounds(line: seq<char>, i: nat)
    requires i <= |line|
    ensures forall k :: 0 <= k < |Starts(line, i)| ==>
      i <= Starts(line, i)[k] < |line| && !IsSpace(line[Starts(line, i)[k]])
    decreases |line| - i
  {
    if i < |line| {
      if IsSpace(line[i]) {
        StartsBounds(line, i + 1);
      } else {
        var e := RunEnd(line, i);
        StartsBounds(line, e);
        var r, rest := Starts(line, i), Starts(line, e);
        assert r == [i] + rest;
        forall k | 0 < k < |r| ensures i <= r[k] < |line| && !IsSpace(line[r[k]]) {
          assert r[k] == rest[k - 1];
        }
      }
    }
  }

  /** Tokens are recorded left to right, each after the previous one. */
  lemma {:induction false} StartsIncreasing(line: seq<char>, i: nat)
    requires i <= |line|
    ensures forall k, l :: 0 <= k < l < |Starts(line, i)| ==> Starts(line, i)[k] < Starts(line, i)[l]
    decreases |line| - i
  {
    if i < |line| {
      if IsSpace(line[i]) {
        StartsIncreasing(line, i + 1);
        assert Starts(line, i) == Starts(line, i + 1);
      } else {
        var e := RunEnd(line, i);
        StartsIncreasing(line, e);
        StartsBounds(line, e);
        var r, rest := Starts(line, i), Starts(line, e);
        assert r == [i] + rest;
        assert i < e;
        forall k, l | 0 <= k < l < |r| ensures r[k] < r[l] {
          assert r[l] == rest[l - 1] && e <= rest[l - 1];
          if k > 0 {
            assert r[k] == rest[k - 1] && rest[k - 1] < rest[l - 1];
          }
        }
      }
    }
  }

  /** Independent description of a token: a maximal non-whitespace run
      begins at `x`. */
  ghost predicate IsTokenStart(line: seq<char>, x: int)
  {
    0 <= x < |line| && !IsSpace(line[x]) && (x == 0 || IsSpace(line[x - 1]))
  }

  /** `i` does not lie strictly inside a run of non-whitespace. */
  ghost predicate AtBoundary(line: seq<char>, i: nat)
    requires i <= |line|
  {
    i == 0 || i == |line| || IsSpace(line[i - 1]) || IsSpace(line[i])
  }

  /** The parse loop records exactly the beginnings of the maximal
      non-whitespace runs. */
  lemma {:induction false} StartsExactly(line: seq<char>, i: nat)
    requires i <= |line| && AtBoundary(line, i)
    ensures forall x :: x in Starts(line, i) <==> i <= x && IsTokenStart(line, x)
    decreases |line| - i
  {
    if i == |line| {
    } else if IsSpace(line[i]) {
      StartsExactly(line, i + 1);
    } else {
      var e := RunEnd(line, i);
      StartsExactly(line, e);
      forall x | i < x < e ensures !IsTokenStart(line, x) {
        assert !IsSpace(line[x - 1]);
      }
    }
  }

  /** The tokens of a whole line are its maximal non-whitespace runs, in
      increasing order. */
  lemma TokensAreRuns(line: seq<char>)
    ensures forall x :: x in Starts(line, 0) <==> IsTokenStart(line, x)
    ensures forall k, l :: 0 <= k < l < |Starts(line, 0)| ==> Starts(line, 0)[k] < Starts(line, 0)[l]
  {
    StartsExactly(line, 0);
    StartsIncreasing(line, 0);
  }

  /** The parse loop records nothing in a stretch of whitespace. */
  lemma {:induction false} NoTokens(line: seq<char>, i: nat)
    requires i <= |line|
    requires forall k :: i <= k < |line| ==> IsSpace(line[k])
    ensures Starts(line, i) == []
    decreases |line| - i
  {
    if i < |line| {
      NoTokens(line, i + 1);
    }
  }

  /** Result of the parse loop on the C string `line`. */
  function Parse(line: seq<char>): Parsed
  {
    var ts := Starts(line, 0);
    if |ts| < MAXARGS then Args(|ts|) else TooMany
  }

  /** How far the parse loop has overwritten whitespace when it stops: the
      whole string, or up to the token that overflowed argv. */
  function GobbleLimit(line: seq<char>): nat
  {
    var ts := Starts(line, 0);
    if |ts| < MAXARGS then |line| else ts[MAXARGS - 1]
  }

  /** Position `k` of `after` is position `k` of `before`, overwritten by
      NUL when it is whitespace below `limit`. */
  ghost predicate Kept(before: seq<char>, after: seq<char>, limit: nat, k: nat)
    requires k < |before| == |after|
  {
    after[k] == if k < limit && IsSpace(before[k]) then NUL else before[k]
  }

  /** `after` is `before` with every whitespace character below `limit`
      overwritten by NUL and every other character unchanged. */
  ghost predicate Gobbled(before: seq<char>, after: seq<char>, limit: nat)
  {
    |after| == |before| && forall k :: 0 <= k < |before| ==> Kept(before, after, limit, k)
  }

  /** Overwriting the whitespace character at `p` extends the gobbled prefix. */
  lemma GobbleSpace(s: seq<char>, t: seq<char>, p: nat)
    requires Gobbled(s, t, p) && p < |s| && IsSpace(s[p])
    ensures Gobbled(s, t[p := NUL], p + 1)
  {
    var t', q := t[p := NUL], p + 1;
    forall k | 0 <= k < |s| ensures Kept(s, t', q, k) {
      assert Kept(s, t, p, k);
    }
  }

  /** Passing over a non-whitespace character extends the gobbled prefix. */
  lemma GobbleSkip(s: seq<char>, t: seq<char>, p: nat)
    requires Gobbled(s, t, p) && p < |s| && !IsSpace(s[p])
    ensures Gobbled(s, t, p + 1)
  {
    var q := p + 1;
    forall k | 0 <= k < |s| ensures Kept(s, t, q, k) {
      assert Kept(s, t, p, k);
    }
  }

  /** Once the whitespace of the string is overwritten, the C string read at
      any offset of it is the run that starts there. */
  lemma {:induction false} ReadBack(s: seq<char>, t: seq<char>, x: nat)
    requires StrLen(s) < |s| && Gobbled(s, t, StrLen(s))
    requires x <= StrLen(s)
    ensures CStr(t, x) == Token(CLine(s), x)
    decreases StrLen(s) - x
  {
    var line := CLine(s);
    assert Kept(s, t, StrLen(s), x);
    if x < StrLen(s) && !IsSpace(line[x]) {
      ReadBack(s, t, x + 1);
      assert RunEnd(line, x) == RunEnd(line, x + 1);
      assert line[x..RunEnd(line, x)] == [line[x]] + line[x + 1..RunEnd(line, x)];
    }
  }

  /** Every argument of a fully parsed line reads back verbatim as the
      corresponding token of the original string. */
  lemma ArgumentsVerbatim(s: seq<char>, t: seq<char>)
    requires StrLen(s) < |s| && Gobbled(s, t, StrLen(s))
    ensures var ts := Starts(CLine(s), 0);
      forall j :: 0 <= j < |ts| ==> ts[j] <= |CLine(s)| && CStr(t, ts[j]) == Token(CLine(s), ts[j])
  {
    var ts := Starts(CLine(s), 0);
    StartsBounds(CLine(s), 0);
    forall j | 0 <= j < |ts| ensures CStr(t, ts[j]) == Token(CLine(s), ts[j]) {
      ReadBack(s, t, ts[j]);
    }
  }

  /** Slot `j` of the argument vector `av` points at token `j`. */
  ghost predicate Points(av: seq<Ptr>, ts: seq<nat>, j: nat)
    requires j < |av| && j < |ts|
  {
    av[j] == At(ts[j])
  }

  /** The first `argc` slots of `av` point at the first `argc` tokens. */
  ghost predicate Recorded(av: seq<Ptr>, ts: seq<nat>, argc: nat)
  {
    argc <= |av| && argc <= |ts| && forall j :: 0 <= j < argc ==> Points(av, ts, j)
  }

  /** Recording token `argc` in slot `argc` extends the recorded prefix. */
  lemma RecordNext(av: seq<Ptr>, ts: seq<nat>, argc: nat)
    requires Recorded(av, ts, argc) && argc < |av| && argc < |ts|
    ensures Recorded(av[argc := At(ts[argc])], ts, argc + 1)
  {
    var av', n := av[argc := At(ts[argc])], argc + 1;
    forall j | 0 <= j < n ensures Points(av', ts, j) {
      if j < argc {
        assert Points(av, ts, j);
      }
    }
  }

  /** The "gobble whitespace" loop of the parser: overwrites whitespace
      with NUL up to the next token or the end of the string. */
  method SkipSpaces(buf: array<char>, p: nat, ghost s: seq<char>) returns (q: nat)
    requires StrLen(s) < |s| == buf.Length && p <= StrLen(s)
    requires Gobbled(s, buf[..], p)
    modifies buf
    ensures p <= q <= StrLen(s) && Gobbled(s, buf[..], q) && buf[q] == s[q]
    ensures q < StrLen(s) ==> !IsSpace(s[q])
    ensures Starts(CLine(s), q) == Starts(CLine(s), p)
  {
    ghost var line := CLine(s);
    q := p;
    assert Kept(s, buf[..], q, q);
    while buf[q] != NUL && IsSpace(buf[q])
      invariant p <= q <= StrLen(s)
      invariant Gobbled(s, buf[..], q) && buf[q] == s[q]
      invariant Starts(line, q) == Starts(line, p)
      decreases StrLen(s) - q
    {
      GobbleSpace(s, buf[..], q);
      buf[q] := NUL;
      q := q + 1;
      assert Kept(s, buf[..], q, q);
    }
  }

  /** The "scan past next arg" loop of the parser: moves to the end of the
      token without changing the buffer. */
  method SkipToken(buf: array<char>, p: nat, ghost s: seq<char>) returns (q: nat)
    requires StrLen(s) < |s| == buf.Length && p <= StrLen(s)
    requires Gobbled(s, buf[..], p)
    ensures q == RunEnd(CLine(s), p) && Gobbled(s, buf[..], q)
  {
    ghost var line := CLine(s);
    q := p;
    assert Kept(s, buf[..], q, q);
    while buf[q] != NUL && !IsSpace(buf[q])
      invariant p <= q <= StrLen(s)
      invariant RunEnd(line, q) == RunEnd(line, p)
      invariant Gobbled(s, buf[..], q) && buf[q] == s[q]
      decreases StrLen(s) - q
    {
      GobbleSkip(s, buf[..], q);
      q := q + 1;
      assert Kept(s, buf[..], q, q);
    }
  }

  /**
   * The parse loop of `runcmd`. It overwrites whitespace with NUL while
   * advancing through `buf`, records each token's offset in `argv`, and
   * aborts on the MAXARGS-th token; on success argv[argc] is Null.
   */
  method Tokenize(buf: array<char>) returns (res: Parsed, argv: array<Ptr>)
    requires NUL in buf[..]
    modifies buf
    ensures fresh(argv) && argv.Length == MAXARGS
    ensures res == Parse(CLine(old(buf[..])))
    ensures Gobbled(old(buf[..]), buf[..], GobbleLimit(CLine(old(buf[..]))))
    ensures res.Args? ==>
      res.argc < MAXARGS && argv[res.argc] == Null &&
      forall j :: 0 <= j < res.argc ==> argv[j] == At(Starts(CLine(old(buf[..])), 0)[j])
  {
    ghost var s := buf[..];
    ghost var n := StrLen(s);
    ghost var line := CLine(s);
    ghost var ts := Starts(line, 0);
    argv := new Ptr[MAXARGS](_ => Null);
    var argc: nat := 0;
    var p: nat := 0;
    argv[argc] := Null;
    while true
      invariant p <= n < buf.Length
      invariant argc < MAXARGS && argc <= |ts| && ts[argc..] == Starts(line, p)
      invariant fresh(argv) && argv.Length == MAXARGS && Recorded(argv[..], ts, argc)
      invariant Gobbled(s, buf[..], p)
      decreases n - p
    {
      p := SkipSpaces(buf, p, s);
      if buf[p] == NUL {
        break;
      }
      if argc == MAXARGS - 1 {
        res := TooMany;
        return;
      }
      assert ts[argc] == Starts(line, p)[0] == p;
      RecordNext(argv[..], ts, argc);
      argv[argc] := At(p);
      argc := argc + 1;
      p := SkipToken(buf, p, s);
    }
    assert |ts| == argc;
    forall j | 0 <= j < argc ensures argv[j] == At(ts[j]) {
      assert Points(argv[..], ts, j);
    }
    argv[argc] := Null;
    res := Args(argc);
  }
}
