/**
 * What parseline in tsh.c (lines 169-217) makes of a command line, as
 * functions on strings.  The line's last character (the '\n' fgets keeps)
 * becomes a space; then, from position 0 on, the scan repeatedly skips
 * spaces and cuts off a token: one that starts with a single quote runs to
 * the next single quote (the quotes themselves are not part of it), any
 * other runs to the next space, and the scan goes on just past that
 * delimiter.  A token without its delimiter is dropped and ends the scan.
 * A last token starting with '&' asks for a background job and is removed;
 * a line without tokens also counts as a background request.
 *
 * The scan is stated by positions in the string, as parseline's pointers
 * walk the buffer.
 */
module Tokenizer {
  import opened Options
  import opened Limits
  import opened Format

  /** `while (*buf && (*buf == ' ')) buf++;` from position `i`: where the spaces end. */
  function SkipFrom(s: string, i: nat): (p: nat)
    requires i <= |s|
    ensures i <= p <= |s|
    ensures p == |s| || s[p] != ' '
    decreases |s| - i
  {
    if i < |s| && s[i] == ' ' then SkipFrom(s, i + 1) else i
  }

  /** strchr from position `i`: the position of the first `c` there or later, None when there is none. */
  function FindFrom(s: string, i: nat, c: char): (r: Option<nat>)
    requires i <= |s|
    ensures r.Some? ==> i <= r.value < |s| && s[r.value] == c
    decreases |s| - i
  {
    if i == |s| then None
    else if s[i] == c then Some(i)
    else FindFrom(s, i + 1, c)
  }

  /**
   * One scan step from position `q`: where the token starts (past the
   * spaces and an opening quote) and where its delimiter is, None when
   * strchr finds none.
   */
  function TokenAt(s: string, q: nat): (r: (nat, Option<nat>))
    requires q <= |s|
    ensures q <= r.0 <= |s|
    ensures r.1.Some? ==> r.0 <= r.1.value < |s|
  {
    var p := SkipFrom(s, q);
    if p < |s| && s[p] == '\'' then (p + 1, FindFrom(s, p + 1, '\''))
    else (p, FindFrom(s, p, ' '))
  }

  /** The tokens the scan cuts off from position `q` on. */
  function ScanFrom(s: string, q: nat): seq<string>
    requires q <= |s|
    decreases |s| - q
  {
    var t := TokenAt(s, q);
    if t.1.None? then [] else [s[t.0..t.1.value]] + ScanFrom(s, t.1.value + 1)
  }

  /** The tokens of a whole string. */
  function Scan(s: string): seq<string>
  {
    ScanFrom(s, 0)
  }

  /** The working copy of the line: its last character replaced by a space. */
  function Buffer(line: string): (b: string)
    requires |line| >= 1
    ensures |b| == |line| && b[|b| - 1] == ' '
    ensures b[..|b| - 1] == line[..|line| - 1]
  {
    line[..|line| - 1] + " "
  }

  /** All the tokens of a command line, before the '&' test. */
  function Tokens(line: string): seq<string>
    requires |line| >= 1
  {
    Scan(Buffer(line))
  }

  /** The result of parseline: the argument vector and the background flag. */
  datatype Parsed = Parsed(argv: seq<string>, bg: bool)

  /** A token asks for a background job when its first character is '&'. */
  predicate IsAmpersand(tok: string)
  {
    tok != [] && tok[0] == '&'
  }

  /**
   * The '&' test on the tokens: a last token starting with '&' is removed
   * and asks for a background job, and so does an empty line.
   */
  function SplitAmpersand(toks: seq<string>): (p: Parsed)
    ensures toks == [] ==> p == Parsed([], true)
    ensures toks != [] && IsAmpersand(toks[|toks| - 1]) ==>
              p.bg && p.argv + [toks[|toks| - 1]] == toks
    ensures toks != [] && !IsAmpersand(toks[|toks| - 1]) ==> !p.bg && p.argv == toks
  {
    if toks == [] then Parsed([], true)
    else if IsAmpersand(toks[|toks| - 1]) then Parsed(toks[..|toks| - 1], true)
    else Parsed(toks, false)
  }

  /** parseline's result for a line (without its trailing NUL). */
  function Parse(line: string): Parsed
    requires |line| >= 1
  {
    SplitAmpersand(Tokens(line))
  }

  // ---------------------------------------------------------------------
  // The scan steps

  /** SkipFrom stops at the first position from `i` on that is not a space. */
  lemma {:induction false} SkipFromAt(s: string, i: nat, j: nat)
    requires i <= j <= |s|
    requires forall k :: i <= k < j ==> s[k] == ' '
    requires j == |s| || s[j] != ' '
    ensures SkipFrom(s, i) == j
    decreases j - i
  {
    if i < j {
      SkipFromAt(s, i + 1, j);
    }
  }

  /** FindFrom finds the first `c` from `i` on. */
  lemma {:induction false} FindFromAt(s: string, i: nat, j: nat, c: char)
    requires i <= j < |s| && s[j] == c
    requires forall k :: i <= k < j ==> s[k] != c
    ensures FindFrom(s, i, c) == Some(j)
    decreases j - i
  {
    if i < j {
      FindFromAt(s, i + 1, j, c);
    }
  }

  /** FindFrom finds nothing when there is no `c` from `i` on. */
  lemma {:induction false} FindFromNone(s: string, i: nat, c: char)
    requires i <= |s|
    requires forall k :: i <= k < |s| ==> s[k] != c
    ensures FindFrom(s, i, c) == None
    decreases |s| - i
  {
    if i < |s| {
      FindFromNone(s, i + 1, c);
    }
  }

  /** Everything SkipFrom steps over is a space. */
  lemma {:induction false} SkipFromSpaces(s: string, i: nat)
    requires i <= |s|
    ensures forall k :: i <= k < SkipFrom(s, i) ==> s[k] == ' '
    decreases |s| - i
  {
    if i < |s| && s[i] == ' ' {
      SkipFromSpaces(s, i + 1);
    }
  }

  /** FindFrom returns the first `c` from `i` on, and None only when there is none. */
  lemma {:induction false} FindFromFirst(s: string, i: nat, c: char)
    requires i <= |s|
    ensures FindFrom(s, i, c).Some? ==> forall k :: i <= k < FindFrom(s, i, c).value ==> s[k] != c
    ensures FindFrom(s, i, c).None? ==> forall k :: i <= k < |s| ==> s[k] != c
    decreases |s| - i
  {
    if i < |s| && s[i] != c {
      FindFromFirst(s, i + 1, c);
    }
  }

  /**
   * What one scan step finds: the spaces from `q` on are skipped; a token
   * that starts with a quote begins just after it and ends at the next
   * quote, any other begins there and ends at the next space; and no
   * delimiter is found only when there is no such character left.
   */
  lemma TokenAtSpec(s: string, q: nat)
    requires q <= |s|
    ensures var p, r := SkipFrom(s, q), TokenAt(s, q);
      var quoted := p < |s| && s[p] == '\'';
      var c := if quoted then '\'' else ' ';
      && (forall k :: q <= k < p ==> s[k] == ' ')
      && (p == |s| || s[p] != ' ')
      && r.0 == (if quoted then p + 1 else p)
      && (r.1.Some? ==> s[r.1.value] == c && forall k :: r.0 <= k < r.1.value ==> s[k] != c)
      && (r.1.None? ==> forall k :: r.0 <= k < |s| ==> s[k] != c)
  {
    var p := SkipFrom(s, q);
    SkipFromSpaces(s, q);
    if p < |s| && s[p] == '\'' {
      FindFromFirst(s, p + 1, '\'');
    } else {
      FindFromFirst(s, p, ' ');
    }
  }

  /** Where TokenAt finds a delimiter, ScanFrom cuts off that token and goes on past it. */
  lemma ScanFromUnfold(s: string, q: nat, start: nat, d: nat)
    requires q <= |s| && TokenAt(s, q) == (start, Some(d))
    ensures start <= d < |s|
    ensures ScanFrom(s, q) == [s[start..d]] + ScanFrom(s, d + 1)
  {
  }

  /** Where TokenAt finds no delimiter, ScanFrom stops. */
  lemma ScanFromEnd(s: string, q: nat)
    requires q <= |s| && TokenAt(s, q).1.None?
    ensures ScanFrom(s, q) == []
  {
  }

  /** Skipping spaces never changes the tokens that follow. */
  lemma ScanFromSkip(s: string, q: nat)
    requires q <= |s|
    ensures ScanFrom(s, SkipFrom(s, q)) == ScanFrom(s, q)
  {
    var p := SkipFrom(s, q);
    assert SkipFrom(s, p) == p;
    assert TokenAt(s, p) == TokenAt(s, q);
  }

  // ---------------------------------------------------------------------
  // The scan of a string from the point where it goes on as another one

  /** From position `off` on, `s` is `t`. */
  predicate SuffixIs(s: string, off: nat, t: string)
  {
    off + |t| == |s| && forall k :: 0 <= k < |t| ==> s[off + k] == t[k]
  }

  lemma {:induction false} SkipFromShift(s: string, off: nat, t: string, i: nat)
    requires SuffixIs(s, off, t) && i <= |t|
    ensures SkipFrom(s, off + i) == off + SkipFrom(t, i)
    decreases |t| - i
  {
    if i < |t| && t[i] == ' ' {
      SkipFromShift(s, off, t, i + 1);
    }
  }

  lemma {:induction false} FindFromShift(s: string, off: nat, t: string, i: nat, c: char)
    requires SuffixIs(s, off, t) && i <= |t|
    ensures FindFrom(s, off + i, c) == if FindFrom(t, i, c).Some? then Some(off + FindFrom(t, i, c).value) else None
    decreases |t| - i
  {
    if i < |t| && t[i] != c {
      FindFromShift(s, off, t, i + 1, c);
    }
  }

  lemma TokenAtShift(s: string, off: nat, t: string, i: nat)
    requires SuffixIs(s, off, t) && i <= |t|
    ensures TokenAt(s, off + i).0 == off + TokenAt(t, i).0
    ensures TokenAt(s, off + i).1 == if TokenAt(t, i).1.Some? then Some(off + TokenAt(t, i).1.value) else None
  {
    var p := SkipFrom(t, i);
    SkipFromShift(s, off, t, i);
    if p < |t| && t[p] == '\'' {
      FindFromShift(s, off, t, p + 1, '\'');
    } else {
      FindFromShift(s, off, t, p, ' ');
    }
  }

  lemma TokenAtShiftSome(s: string, off: nat, t: string, i: nat, start: nat, d: nat)
    requires SuffixIs(s, off, t) && i <= |t| && TokenAt(t, i) == (start, Some(d))
    ensures TokenAt(s, off + i) == (off + start, Some(off + d))
  {
    TokenAtShift(s, off, t, i);
  }

  /** A token of `t` is the same token of `s`, `off` positions further on. */
  lemma SliceShift(s: string, off: nat, t: string, start: nat, d: nat)
    requires SuffixIs(s, off, t) && start <= d <= |t|
    ensures s[off + start..off + d] == t[start..d]
  {
    forall k | 0 <= k < d - start
      ensures s[off + start..off + d][k] == t[start..d][k]
    {
      assert s[off + start..off + d][k] == s[off + (start + k)];
    }
  }

  /** One token of the scan of `t` from `i`, and of `s` from `off + i`. */
  lemma ScanFromShiftStep(s: string, off: nat, t: string, i: nat, start: nat, d: nat, rest: seq<string>)
    requires SuffixIs(s, off, t) && i <= |t| && TokenAt(t, i) == (start, Some(d))
    requires rest == ScanFrom(s, off + (d + 1))
    ensures d < |t|
    ensures ScanFrom(s, off + i) == [t[start..d]] + rest
  {
    TokenAtShiftSome(s, off, t, i, start, d);
    ScanFromUnfold(s, off + i, off + start, off + d);
    SliceShift(s, off, t, start, d);
    assert off + d + 1 == off + (d + 1);
  }

  /** The scan of `s` from `off + i` is the scan of `t` from `i`. */
  lemma {:induction false} ScanFromShift(s: string, off: nat, t: string, i: nat)
    requires SuffixIs(s, off, t) && i <= |t|
    ensures ScanFrom(s, off + i) == ScanFrom(t, i)
    decreases |t| - i
  {
    var r := TokenAt(t, i);
    if r.1.Some? {
      var start, d := r.0, r.1.value;
      ScanFromUnfold(t, i, start, d);
      ScanFromShift(s, off, t, d + 1);
      ScanFromShiftStep(s, off, t, i, start, d, ScanFrom(t, d + 1));
    } else {
      TokenAtShift(s, off, t, i);
      ScanFromEnd(t, i);
      ScanFromEnd(s, off + i);
    }
  }

  /** The scan of `a + b` from the end of `a` is the scan of `b`. */
  lemma ScanAfter(a: string, b: string)
    ensures ScanFrom(a + b, |a|) == Scan(b)
  {
    assert SuffixIs(a + b, |a|, b);
    ScanFromShift(a + b, |a|, b, 0);
  }

  // ---------------------------------------------------------------------
  // Properties of the scan

  /** Each token takes at least two characters: its own first one (or its quote) and its delimiter. */
  lemma {:induction false} ScanFromBound(s: string, q: nat)
    requires q <= |s|
    ensures 2 * |ScanFrom(s, q)| <= |s| - q
    decreases |s| - q
  {
    var t := TokenAt(s, q);
    if t.1.Some? {
      var start, d := t.0, t.1.value;
      var p := SkipFrom(s, q);
      ScanFromUnfold(s, q, start, d);
      if !(p < |s| && s[p] == '\'') {
        assert p < |s| && s[p] != ' ';
        assert d != p;
      }
      ScanFromBound(s, d + 1);
    } else {
      ScanFromEnd(s, q);
    }
  }

  /** One more leading space does not change the tokens. */
  lemma ScanSpace(s: string)
    ensures Scan(" " + s) == Scan(s)
  {
    var u := " " + s;
    assert u[0] == ' ';
    assert SkipFrom(u, 0) == SkipFrom(u, 1);
    ScanFromSkip(u, 0);
    ScanFromSkip(u, 1);
    ScanAfter(" ", s);
  }

  /** A line that is all spaces gives no tokens. */
  lemma ScanOfSpaces(s: string)
    requires forall i :: 0 <= i < |s| ==> s[i] == ' '
    ensures Scan(s) == []
  {
    SkipFromAt(s, 0, |s|);
    ScanFromEnd(s, 0);
  }

  /** A blank line is an empty background request (parseline returns 1). */
  lemma BlankLine(line: string)
    requires |line| >= 1
    requires forall i :: 0 <= i < |line| - 1 ==> line[i] == ' '
    ensures Parse(line) == Parsed([], true)
  {
    ScanOfSpaces(Buffer(line));
  }

  /** A word that scans as itself: non-empty, no space, no leading quote. */
  predicate BareWord(a: string)
  {
    a != [] && ' ' !in a && a[0] != '\''
  }

  /** A word a line can carry: a bare word or one without single quotes. */
  predicate Renderable(a: string)
  {
    BareWord(a) || '\'' !in a
  }

  /** How a word is written on the line: as it is, or in single quotes. */
  function Quote(a: string): string
  {
    if BareWord(a) then a else "'" + a + "'"
  }

  /** The words written one after the other, each followed by a space. */
  function Render(args: seq<string>): string
  {
    if args == [] then [] else Quote(args[0]) + " " + Render(args[1..])
  }

  /** The line a user types for `args`, with " &" when `bg`. */
  function CommandLine(args: seq<string>, bg: bool): string
  {
    Render(args) + (if bg then "&" else "") + "\n"
  }

  /** A bare word followed by a space is cut off as one token. */
  lemma ScanBare(a: string, r: string)
    requires BareWord(a)
    ensures Scan(a + " " + r) == [a] + Scan(r)
  {
    var s := a + " " + r;
    assert s[0] == a[0];
    SkipFromAt(s, 0, 0);
    assert forall k :: 0 <= k < |a| ==> s[k] == a[k];
    FindFromAt(s, 0, |a|, ' ');
    ScanFromUnfold(s, 0, 0, |a|);
    assert s[0..|a|] == a;
    ScanAfter(a + " ", r);
  }

  /** A quoted word followed by a space is cut off as one token. */
  lemma ScanQuoted(a: string, r: string)
    requires '\'' !in a
    ensures Scan("'" + a + "'" + " " + r) == [a] + Scan(r)
  {
    var w := "'" + a + "'";
    var s := w + (" " + r);
    assert s == "'" + a + "'" + " " + r;
    assert s[0] == '\'';
    SkipFromAt(s, 0, 0);
    assert forall k :: 1 <= k < |a| + 1 ==> s[k] == a[k - 1];
    FindFromAt(s, 1, |a| + 1, '\'');
    ScanFromUnfold(s, 0, 1, |a| + 1);
    assert s[1..|a| + 1] == a;
    ScanAfter(w, " " + r);
    ScanSpace(r);
  }

  /** Rendered words scan back to themselves, whatever follows them. */
  lemma {:induction false} ScanRender(args: seq<string>, rest: string)
    requires forall i :: 0 <= i < |args| ==> Renderable(args[i])
    ensures Scan(Render(args) + rest) == args + Scan(rest)
    decreases |args|
  {
    if args != [] {
      var a, r := args[0], Render(args[1..]) + rest;
      assert args == [a] + args[1..];
      AppendAssoc(Quote(a) + " ", Render(args[1..]), rest);
      if BareWord(a) {
        ScanBare(a, r);
      } else {
        ScanQuoted(a, r);
      }
      ScanRender(args[1..], rest);
      AppendAssoc([a], args[1..], Scan(rest));
    } else {
      assert Render(args) + rest == rest;
    }
  }

  /** The line a user types for `args` parses back to `args` and `bg`. */
  lemma RoundTrip(args: seq<string>, bg: bool)
    requires forall i :: 0 <= i < |args| ==> Renderable(args[i])
    requires !bg ==> args != [] && !IsAmpersand(args[|args| - 1])
    ensures Parse(CommandLine(args, bg)) == Parsed(args, bg)
  {
    TokensOfCommandLine(args, bg);
    if bg {
      var toks := args + ["&"];
      assert toks[..|toks| - 1] == args;
      assert IsAmpersand(toks[|toks| - 1]);
    }
  }

  /** The tokens of a typed line: the words, then "&" when `bg`. */
  lemma TokensOfCommandLine(args: seq<string>, bg: bool)
    requires forall i :: 0 <= i < |args| ==> Renderable(args[i])
    ensures Tokens(CommandLine(args, bg)) == args + (if bg then ["&"] else [])
  {
    if bg {
      TokensAfterWords(args, "&");
      ScanAmpersand();
    } else {
      TokensAfterWords(args, []);
      ScanOfSpaces([] + " ");
      assert args + [] == args;
    }
  }

  /** The words of a typed line come out first, whatever follows them. */
  lemma TokensAfterWords(args: seq<string>, amp: string)
    requires forall i :: 0 <= i < |args| ==> Renderable(args[i])
    ensures Tokens(Render(args) + amp + "\n") == args + Scan(amp + " ")
  {
    var r, line := Render(args), Render(args) + amp + "\n";
    assert line[..|line| - 1] == r + amp;
    AppendAssoc(r, amp, " ");
    assert Buffer(line) == r + (amp + " ");
    ScanRender(args, amp + " ");
  }

  /** A lone '&' followed by a space is one token. */
  lemma ScanAmpersand()
    ensures Scan("&" + " ") == ["&"]
  {
    ScanBare("&", []);
    assert "&" + " " + [] == "&" + " ";
    ScanOfSpaces([]);
  }

  /** An unterminated quote ends the scan: the quoted rest is dropped. */
  lemma UnterminatedQuote(args: seq<string>, w: string)
    requires forall i :: 0 <= i < |args| ==> Renderable(args[i])
    requires '\'' !in w
    ensures Tokens(Render(args) + "'" + w + "\n") == args
  {
    var r, tail := Render(args), "'" + w + " ";
    var line := r + "'" + w + "\n";
    assert line[..|line| - 1] == r + "'" + w;
    AppendAssoc(r, "'", w);
    AppendAssoc(r, "'" + w, " ");
    assert Buffer(line) == r + tail;
    ScanRender(args, tail);
    ScanOpenQuote(w);
    assert args + [] == args;
  }

  /** A quote with no closing quote after it gives no token. */
  lemma ScanOpenQuote(w: string)
    requires '\'' !in w
    ensures Scan("'" + w + " ") == []
  {
    var s := "'" + w + " ";
    assert s[0] == '\'';
    SkipFromAt(s, 0, 0);
    assert forall k :: 1 <= k < |s| ==> s[k] != '\'' by {
      forall k | 1 <= k < |s| ensures s[k] != '\'' {
        if k <= |w| {
          assert s[k] == w[k - 1];
        }
      }
    }
    FindFromNone(s, 1, '\'');
    ScanFromEnd(s, 0);
  }

  /** A line of MAXLINE characters holds fewer than MAXLINE / 2 tokens. */
  lemma TokensBound(line: string)
    requires 1 <= |line| < MaxLine
    ensures 2 * |Tokens(line)| < MaxLine
  {
    ScanFromBound(Buffer(line), 0);
  }

  /** The length of `n` one-letter words, each followed by a space. */
  lemma {:induction false} RenderLetters(n: nat)
    ensures |Render(seq(n, _ => "a"))| == 2 * n
  {
    if n > 0 {
      var w := seq(n, _ => "a");
      assert w[1..] == seq(n - 1, _ => "a");
      assert Quote(w[0]) == "a";
      RenderLetters(n - 1);
    }
  }

  /**
   * A line well within MAXLINE characters can hold MAXARGS tokens, one more
   * than argv (MAXARGS entries, the last one for NULL) has room for.
   */
  lemma TooManyTokens()
    ensures var line := CommandLine(seq(MaxArgs, _ => "a"), false);
            |line| < MaxLine && |Tokens(line)| == MaxArgs
  {
    var args := seq(MaxArgs, _ => "a");
    RenderLetters(MaxArgs);
    RoundTrip(args, false);
  }
}
