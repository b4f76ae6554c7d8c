/**
 * parseline in tsh.c (lines 169-217) as it runs: the command line is
 * copied into the static buffer `array[MAXLINE]`, the '\n' is overwritten
 * with a space, and the buffer is walked with a pointer.  Each token is
 * ended in place by writing a NUL over its delimiter, and `argv` receives a
 * pointer to its first character.  Pointers into the buffer are offsets
 * here and NULL is None.  ParseLine is proved to leave in `argv` exactly
 * the strings that Tokenizer.Parse describes.
 */
module LineParser {
  import opened Options
  import opened Limits
  import opened Format
  import opened Tokenizer

  /** The C string at offset `off` of `mem` is `s`: its characters, then a NUL. */
  predicate HoldsString(mem: seq<char>, off: nat, s: string)
  {
    off + |s| < |mem| && mem[off + |s|] == '\0' &&
    forall k :: 0 <= k < |s| ==> s[k] != '\0' && mem[off + k] == s[k]
  }

  /** No NUL in `s`: a C string can hold it. */
  predicate NoNul(s: string)
  {
    forall k :: 0 <= k < |s| ==> s[k] != '\0'
  }

  /**
   * From index `from` on, `buf` holds what the working copy `s` holds, and
   * the NUL that ends it: the part of the buffer parseline has yet to scan.
   */
  ghost predicate CopyFrom(buf: array<char>, s: string, from: nat)
    reads buf
  {
    from <= |s| < buf.Length && buf[|s|] == '\0' && NoNul(s) &&
    forall k :: from <= k < |s| ==> buf[k] == s[k]
  }

  /** One round of parseline's loop adds the token it cuts off to those before it. */
  lemma ScanFromStep(s: string, q: nat, start: nat, d: nat, toks: seq<string>, all: seq<string>)
    requires q <= |s| && TokenAt(s, q) == (start, Some(d))
    requires toks + ScanFrom(s, q) == all
    ensures start <= d < |s|
    ensures (toks + [s[start..d]]) + ScanFrom(s, d + 1) == all
    ensures |toks| < |all|
  {
    ScanFromUnfold(s, q, start, d);
    AppendAssoc(toks, [s[start..d]], ScanFrom(s, d + 1));
  }

  // ---------------------------------------------------------------------
  // The routines on the buffer

  /** `while (*buf && (*buf == ' ')) buf++;` */
  method SkipSpaces(buf: array<char>, b: nat, ghost s: string) returns (p: nat)
    requires CopyFrom(buf, s, b)
    ensures p == SkipFrom(s, b)
  {
    p := b;
    while buf[p] != '\0' && buf[p] == ' '
      invariant b <= p <= |s|
      invariant SkipFrom(s, p) == SkipFrom(s, b)
      decreases |s| - p
    {
      p := p + 1;
    }
  }

  /** strchr(buf + p, c): the first `c` before the terminating NUL. */
  method StrChr(buf: array<char>, p: nat, c: char, ghost s: string) returns (d: Option<nat>)
    requires CopyFrom(buf, s, p) && c != '\0'
    ensures d == FindFrom(s, p, c)
  {
    var j := p;
    while buf[j] != c && buf[j] != '\0'
      invariant p <= j <= |s|
      invariant FindFrom(s, j, c) == FindFrom(s, p, c)
      decreases |s| - j
    {
      j := j + 1;
    }
    if buf[j] == c {
      d := Some(j);
    } else {
      d := None;
    }
  }

  /**
   * The scan step of parseline: skip spaces, step past an opening quote and
   * look for the delimiter.  `start` is where the token begins, `delim`
   * where its delimiter is (None when strchr returns NULL).
   */
  method NextToken(buf: array<char>, q: nat, ghost s: string) returns (start: nat, delim: Option<nat>)
    requires CopyFrom(buf, s, q)
    ensures (start, delim) == TokenAt(s, q)
  {
    var p := SkipSpaces(buf, q, s);
    if buf[p] == '\'' {
      p := p + 1;
      delim := StrChr(buf, p, '\'', s);
    } else {
      delim := StrChr(buf, p, ' ', s);
    }
    start := p;
  }

  /**
   * The first `n` entries of `av` point at the strings `toks` in `mem`,
   * each ending before `bound`.
   */
  predicate ArgvHolds(mem: seq<char>, av: seq<Option<nat>>, toks: seq<string>, bound: nat)
  {
    |toks| <= |av| &&
    forall k :: 0 <= k < |toks| ==>
      av[k].Some? && av[k].value + |toks[k]| < bound && HoldsString(mem, av[k].value, toks[k])
  }

  /**
   * `argv[argc++] = buf; *delim = '\0';`: the token between `start` and the
   * delimiter becomes a C string, and the earlier ones, which end before
   * `q`, stay as they were.
   */
  lemma ArgvHoldsStep(mem: seq<char>, av: seq<Option<nat>>, toks: seq<string>, q: nat,
                      s: string, start: nat, d: nat)
    requires ArgvHolds(mem, av, toks, q) && |toks| < |av|
    requires q <= start <= d < |mem| && d <= |s| && NoNul(s)
    requires forall k :: start <= k < d ==> mem[k] == s[k]
    ensures ArgvHolds(mem[d := '\0'], av[|toks| := Some(start)], toks + [s[start..d]], d + 1)
  {
    var mem', av', toks' := mem[d := '\0'], av[|toks| := Some(start)], toks + [s[start..d]];
    forall k | 0 <= k < |toks'|
      ensures av'[k].Some? && av'[k].value + |toks'[k]| < d + 1 && HoldsString(mem', av'[k].value, toks'[k])
    {
      if k < |toks| {
        assert toks'[k] == toks[k] && av'[k] == av[k];
        assert HoldsString(mem, av[k].value, toks[k]);
      } else {
        assert toks'[k] == s[start..d] && av'[k] == Some(start);
      }
    }
  }

  /** `argv[argc++] = buf; *delim = '\0';` for the token from `start` to `d`. */
  method TakeToken(buf: array<char>, argv: array<Option<nat>>, argc: nat, start: nat, d: nat,
                   ghost s: string, ghost acc: seq<string>, ghost q: nat)
    requires CopyFrom(buf, s, q) && q <= start <= d < |s|
    requires argc == |acc| < argv.Length && ArgvHolds(buf[..], argv[..], acc, q)
    modifies buf, argv
    ensures CopyFrom(buf, s, d + 1)
    ensures ArgvHolds(buf[..], argv[..], acc + [s[start..d]], d + 1)
    ensures buf[..] == old(buf[..])[d := '\0']
    ensures argv[..] == old(argv[..])[argc := Some(start)]
  {
    ghost var mem := buf[..];
    ArgvHoldsStep(mem, argv[..], acc, q, s, start, d);
    argv[argc] := Some(start);
    buf[d] := '\0';
    assert buf[..] == mem[d := '\0'];
  }

  /** `*argv[argc-1] == '&'` tests the first character of the last argument. */
  lemma FirstCharacter(mem: seq<char>, off: nat, s: string)
    requires HoldsString(mem, off, s)
    ensures (mem[off] == '&') == IsAmpersand(s)
  {
  }

  /**
   * strcpy(array, cmdline) followed by `buf[strlen(buf)-1] = ' '`: the
   * buffer holds the working copy of the line and its NUL; the rest of
   * the static array keeps what the previous call left there.
   */
  method CopyLine(cmdline: string, buf: array<char>)
    requires 1 <= |cmdline| < buf.Length
    modifies buf
    ensures buf[..|cmdline|] == Buffer(cmdline) && buf[|cmdline|] == '\0'
    ensures forall k :: |cmdline| < k < buf.Length ==> buf[k] == old(buf[k])
  {
    for i := 0 to |cmdline|
      invariant buf[..i] == cmdline[..i]
      invariant forall k :: |cmdline| <= k < buf.Length ==> buf[k] == old(buf[k])
    {
      buf[i] := cmdline[i];
    }
    buf[|cmdline|] := '\0';
    buf[|cmdline| - 1] := ' ';
  }

  /** An argument vector that holds `toks` also holds a prefix of them. */
  lemma ArgvHoldsPrefix(mem: seq<char>, av: seq<Option<nat>>, av': seq<Option<nat>>, toks: seq<string>,
                        n: nat, bound: nat, bound': nat)
    requires ArgvHolds(mem, av, toks, bound) && n <= |toks| && bound <= bound' && |av'| == |av|
    requires forall k :: 0 <= k < n ==> av'[k] == av[k]
    ensures ArgvHolds(mem, av', toks[..n], bound')
  {
    forall k | 0 <= k < n
      ensures av'[k].Some? && av'[k].value + |toks[..n][k]| < bound' && HoldsString(mem, av'[k].value, toks[..n][k])
    {
      assert toks[..n][k] == toks[k];
    }
  }

  /**
   * One round of parseline's loop: `argv[argc++] = buf; *delim = '\0';
   * buf = delim + 1;`, the spaces skipped and the next delimiter found.
   * `toks` are the tokens cut off so far and `all` the whole scan.
   */
  method CutToken(buf: array<char>, argv: array<Option<nat>>, argc: nat, start: nat, d: nat,
                  ghost s: string, ghost toks: seq<string>, ghost q: nat, ghost all: seq<string>)
      returns (argc': nat, ghost toks': seq<string>, q': nat, start': nat, delim': Option<nat>)
    requires q <= |s| && CopyFrom(buf, s, q) && (start, Some(d)) == TokenAt(s, q)
    requires toks + ScanFrom(s, q) == all && |all| < argv.Length
    requires argc == |toks| && ArgvHolds(buf[..], argv[..], toks, q)
    modifies buf, argv
    ensures q < q' <= |s| && CopyFrom(buf, s, q') && (start', delim') == TokenAt(s, q')
    ensures toks' + ScanFrom(s, q') == all
    ensures argc' == |toks'| == argc + 1 && ArgvHolds(buf[..], argv[..], toks', q')
    ensures forall k :: |s| <= k < buf.Length ==> buf[k] == old(buf[k])
    ensures forall k :: argc' <= k < argv.Length ==> argv[k] == old(argv[k])
  {
    ScanFromStep(s, q, start, d, toks, all);
    TakeToken(buf, argv, argc, start, d, s, toks, q);
    toks' := toks + [s[start..d]];
    argc' := argc + 1;
    q' := d + 1;
    start', delim' := NextToken(buf, q', s);
  }

  /**
   * The loop of parseline that builds argv: `argc` tokens of the working
   * copy `s` are cut off and pointed at, in order.
   */
  method ScanTokens(buf: array<char>, argv: array<Option<nat>>, ghost s: string)
      returns (argc: nat, ghost toks: seq<string>)
    requires CopyFrom(buf, s, 0) && |ScanFrom(s, 0)| < argv.Length
    modifies buf, argv
    ensures toks == ScanFrom(s, 0) && argc == |toks|
    ensures ArgvHolds(buf[..], argv[..], toks, |s|)
    ensures forall k :: argc <= k < argv.Length ==> argv[k] == old(argv[k])
    ensures forall k :: |s| <= k < buf.Length ==> buf[k] == old(buf[k])
  {
    ghost var all := ScanFrom(s, 0);
    argc := 0;
    toks := [];
    var q: nat := 0;
    var start, delim := NextToken(buf, 0, s);
    while delim.Some?
      invariant q <= |s| && CopyFrom(buf, s, q) && (start, delim) == TokenAt(s, q)
      invariant toks + ScanFrom(s, q) == all
      invariant argc == |toks| && ArgvHolds(buf[..], argv[..], toks, q)
      invariant forall k :: |s| <= k < buf.Length ==> buf[k] == old(buf[k])
      invariant forall k :: argc <= k < argv.Length ==> argv[k] == old(argv[k])
      decreases |s| - q
    {
      argc, toks, q, start, delim := CutToken(buf, argv, argc, start, delim.value, s, toks, q, all);
    }
    ScanFromEnd(s, q);
    ArgvHoldsPrefix(buf[..], argv[..], argv[..], toks, |toks|, q, |s|);
    assert toks[..|toks|] == toks;
  }

  /**
   * The end of parseline: `argv[argc] = NULL`, then the '&' test on the
   * first character of the last argument, which is replaced by NULL when
   * it succeeds.  An empty argv is a background request.
   */
  method TestBackground(buf: array<char>, argv: array<Option<nat>>, argc: nat,
                        ghost toks: seq<string>, ghost bound: nat) returns (bg: bool)
    requires argc == |toks| < argv.Length && ArgvHolds(buf[..], argv[..], toks, bound)
    modifies argv
    ensures bg == SplitAmpersand(toks).bg
    ensures ArgvHolds(buf[..], argv[..], SplitAmpersand(toks).argv, bound)
    ensures forall k :: 0 <= k < argv.Length ==>
              argv[k] == if |SplitAmpersand(toks).argv| <= k <= |toks| then None else old(argv[k])
  {
    ghost var av := argv[..];
    argv[argc] := None;
    if argc == 0 {
      return true;
    }
    FirstCharacter(buf[..], argv[argc - 1].value, toks[argc - 1]);
    bg := buf[argv[argc - 1].value] == '&';
    var n := argc;
    if bg {
      n := argc - 1;
      argv[n] := None;
    }
    ArgvHoldsPrefix(buf[..], av, argv[..], toks, n, bound, bound);
    assert toks[..|toks|] == toks;
  }

  /**
   * parseline(cmdline, argv) with the static buffer `buf`.  `argv[k]` for
   * k < the number of arguments points at the k-th argument of Parse, the
   * entries from there through the last token are NULL, and the result is
   * the background flag.
   */
  method ParseLine(cmdline: string, buf: array<char>, argv: array<Option<nat>>) returns (bg: bool)
    requires buf.Length == MaxLine && argv.Length == MaxArgs
    requires 1 <= |cmdline| < MaxLine && NoNul(cmdline)
    requires |Tokens(cmdline)| < MaxArgs
    modifies buf, argv
    ensures bg == Parse(cmdline).bg
    ensures ArgvHolds(buf[..], argv[..], Parse(cmdline).argv, |cmdline|)
    ensures forall k :: |Parse(cmdline).argv| <= k <= |Tokens(cmdline)| ==> argv[k] == None
    ensures forall k :: |Tokens(cmdline)| < k < MaxArgs ==> argv[k] == old(argv[k])
    ensures forall k :: |cmdline| < k < MaxLine ==> buf[k] == old(buf[k])
  {
    CopyLine(cmdline, buf);
    ghost var s := Buffer(cmdline);
    assert CopyFrom(buf, s, 0) by {
      assert s[..|s| - 1] == cmdline[..|s| - 1];
      forall k | 0 <= k < |s|
        ensures s[k] != '\0' && buf[k] == s[k]
      {
        assert buf[k] == buf[..|s|][k];
        if k < |s| - 1 {
          assert s[k] == s[..|s| - 1][k] == cmdline[k];
        }
      }
    }
    var argc, toks := ScanTokens(buf, argv, s);
    bg := TestBackground(buf, argv, argc, toks, |s|);
  }
}
