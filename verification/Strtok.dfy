/** libc/string/strspn.c, libc/string/strtok.c and libc/sys/strsplit.c: tokens cut out of a string in place. */
module Strtok {
  import opened Machine

  // ---- tokens ----

  /** The length of the longest prefix of characters in delim. */
  function Span(s: seq<byte>, delim: seq<byte>): (n: nat)
    ensures n <= |s| && (forall i :: 0 <= i < n ==> s[i] in delim) && (n < |s| ==> s[n] !in delim)
  {
    if s == [] || s[0] !in delim then 0 else 1 + Span(s[1..], delim)
  }

  /** The length of the longest prefix of characters not in delim. */
  function ComplementSpan(s: seq<byte>, delim: seq<byte>): (n: nat)
    ensures n <= |s| && (forall i :: 0 <= i < n ==> s[i] !in delim) && (n < |s| ==> s[n] in delim)
  {
    if s == [] || s[0] in delim then 0 else 1 + ComplementSpan(s[1..], delim)
  }

  /** The characters from start up to, but not including, end. */
  datatype Token = Token(start: nat, end: nat)

  /** The first token at or behind i ends at |t| at the latest; it is empty when there is none. */
  function First(t: seq<byte>, i: nat, delim: seq<byte>): (k: Token)
    requires i <= |t|
    ensures i <= k.start <= k.end <= |t|
    ensures forall j :: i <= j < k.start ==> t[j] in delim
    ensures forall j :: k.start <= j < k.end ==> t[j] !in delim
    ensures k.end < |t| ==> k.start < k.end && t[k.end] in delim
    ensures k.start == k.end ==> k.end == |t|
  {
    var a := i + Span(t[i..], delim);
    Token(a, a + ComplementSpan(t[a..], delim))
  }

  /** What repeated calls return: each token, then the search goes on behind its terminator. */
  function Tokens(t: seq<byte>, i: nat, delim: seq<byte>): (ks: seq<Token>)
    requires i <= |t|
    decreases |t| - i
  {
    var k := First(t, i, delim);
    if k.start == k.end then [] else if k.end == |t| then [k] else [k] + Tokens(t, k.end + 1, delim)
  }

  /** A non-empty run of other characters that delimiters or the ends of the text bound. */
  ghost predicate MaximalRun(t: seq<byte>, k: Token, delim: seq<byte>) {
    && k.start < k.end <= |t|
    && (forall j :: k.start <= j < k.end ==> t[j] !in delim)
    && (k.start > 0 ==> t[k.start - 1] in delim)
    && (k.end < |t| ==> t[k.end] in delim)
  }

  /** The tokens are in the order of the text, with a delimiter between any two. */
  ghost predicate Ordered(ks: seq<Token>) {
    forall a, b :: 0 <= a < b < |ks| ==> ks[a].end < ks[b].start
  }

  lemma FirstIsRun(t: seq<byte>, i: nat, delim: seq<byte>)
    requires i <= |t| && (i > 0 ==> t[i - 1] in delim)
    ensures var k := First(t, i, delim); k.start < k.end ==> MaximalRun(t, k, delim)
  {
    hide First;
  }

  lemma {:induction false} TokensAreRuns(t: seq<byte>, i: nat, delim: seq<byte>)
    requires i <= |t| && (i > 0 ==> t[i - 1] in delim)
    ensures var ks := Tokens(t, i, delim);
            && (forall a :: 0 <= a < |ks| ==> i <= ks[a].start && MaximalRun(t, ks[a], delim)) && Ordered(ks)
    decreases |t| - i
  {
    hide First, MaximalRun;
    var k := First(t, i, delim);
    FirstIsRun(t, i, delim);
    if k.start < k.end < |t| {
      TokensAreRuns(t, k.end + 1, delim);
    }
  }

  /** The first token is the run itself, or it ends in front of it. */
  lemma FirstToRun(t: seq<byte>, i: nat, k: Token, delim: seq<byte>)
    requires i <= k.start && MaximalRun(t, k, delim)
    ensures var f := First(t, i, delim); f == k || (f.start < f.end && f.end < k.start)
  {
    hide First;
    var f := First(t, i, delim);
    assert t[k.start] !in delim;
    if f.start == k.start {
      assert f.end == k.end;
    } else {
      assert t[k.start - 1] in delim;
    }
  }

  lemma {:induction false} RunsAreTokens(t: seq<byte>, i: nat, k: Token, delim: seq<byte>)
    requires i <= k.start && MaximalRun(t, k, delim)
    ensures k in Tokens(t, i, delim)
    decreases |t| - i
  {
    hide First;
    FirstToRun(t, i, k, delim);
    var f := First(t, i, delim);
    if f != k { RunsAreTokens(t, f.end + 1, k, delim); }
  }

  /** The tokens are exactly the maximal non-empty runs of characters that are not delimiters, in order. */
  lemma TokensExact(t: seq<byte>, delim: seq<byte>, k: Token)
    ensures k in Tokens(t, 0, delim) <==> MaximalRun(t, k, delim)
    ensures Ordered(Tokens(t, 0, delim))
  {
    TokensAreRuns(t, 0, delim);
    if MaximalRun(t, k, delim) { RunsAreTokens(t, 0, k, delim); }
  }

  /** The string with a NUL behind each token. */
  function WithNuls(s: seq<byte>, ks: seq<Token>): (r: seq<byte>)
    requires forall a :: 0 <= a < |ks| ==> ks[a].end < |s|
    ensures |r| == |s|
  {
    if ks == [] then s else WithNuls(s, ks[..|ks| - 1])[ks[|ks| - 1].end := NUL]
  }

  /** Only the characters behind tokens change. */
  lemma {:induction false} TerminatedAt(s: seq<byte>, ks: seq<Token>, i: nat)
    requires i < |s| && forall a :: 0 <= a < |ks| ==> ks[a].end < |s|
    ensures WithNuls(s, ks)[i] == if exists a :: 0 <= a < |ks| && ks[a].end == i then NUL else s[i]
  {
    if ks != [] {
      var init, last := ks[..|ks| - 1], |ks| - 1;
      TerminatedAt(s, init, i);
      if ks[last].end == i {
      } else if exists a :: 0 <= a < |ks| && ks[a].end == i {
        var a :| 0 <= a < |ks| && ks[a].end == i;
        assert init[a].end == i;
      } else {
        assert forall a :: 0 <= a < |init| ==> init[a] == ks[a];
      }
    }
  }

  /** No run ends inside another one. */
  lemma RunsApart(t: seq<byte>, k: Token, l: Token, i: nat, delim: seq<byte>)
    requires MaximalRun(t, k, delim) && MaximalRun(t, l, delim) && k.start <= i < k.end
    ensures l.end != i
  {
    assert t[i] !in delim;
  }

  /** Every token is left as a C string of its own characters. */
  lemma TokenIntact(s: seq<byte>, n: nat, delim: seq<byte>, a: nat)
    requires n < |s| && s[n] == NUL && a < |Tokens(s[..n], 0, delim)|
    ensures var ks := Tokens(s[..n], 0, delim);
            && (forall b :: 0 <= b < |ks| ==> ks[b].start < ks[b].end <= n)
            && var r := WithNuls(s, ks);
            r[ks[a].start..ks[a].end] == s[ks[a].start..ks[a].end] && r[ks[a].end] == NUL && r[n + 1..] == s[n + 1..]
  {
    hide Tokens, WithNuls, First;
    var t := s[..n];
    var ks := Tokens(t, 0, delim);
    TokensAreRuns(t, 0, delim);
    var k := ks[a];
    assert MaximalRun(t, k, delim) && forall b :: 0 <= b < |ks| ==> MaximalRun(t, ks[b], delim);
    hide MaximalRun;
    forall i | k.start <= i < k.end || n < i < |s|
      ensures WithNuls(s, ks)[i] == s[i]
    {
      TerminatedAt(s, ks, i);
      forall b | 0 <= b < |ks|
        ensures ks[b].end != i
      {
        if i < n { RunsApart(t, k, ks[b], i, delim); }
      }
    }
    TerminatedAt(s, ks, k.end);
  }

  // ---- the code ----

  datatype Pointer = Null | At(buf: array<byte>, i: nat)

  /** The string at p ends at index n of its buffer. */
  ghost predicate Ends(p: Pointer, n: nat)
    requires p.At?
    reads p.buf
  {
    p.i <= n < p.buf.Length && p.buf[n] == NUL && forall j :: p.i <= j < n ==> p.buf[j] != NUL
  }

  /** strspn; strchr(s2, c) is membership, as c is not NUL. */
  method Strspn(s1: Pointer, s2: seq<byte>, ghost n: nat) returns (ret: nat)
    requires s1.At? && Ends(s1, n)
    ensures ret == Span(s1.buf[s1.i..n], s2)
  {
    ret := 0;
    var p := s1.i;
    ghost var s := s1.buf[s1.i..n];
    while s1.buf[p] != NUL && s1.buf[p] in s2
      invariant p == s1.i + ret <= n && Span(s, s2) == ret + Span(s[ret..], s2)
      decreases n - p
    {
      assert s[ret..][0] == s1.buf[p] && s[ret..][1..] == s[ret + 1..];
      p := p + 1;
      ret := ret + 1;
    }
    if p < n { assert s[ret..][0] == s1.buf[p]; }
  }

  /** strcspn */
  method Strcspn(s1: Pointer, s2: seq<byte>, ghost n: nat) returns (ret: nat)
    requires s1.At? && Ends(s1, n)
    ensures ret == ComplementSpan(s1.buf[s1.i..n], s2)
  {
    ret := 0;
    var p := s1.i;
    ghost var s := s1.buf[s1.i..n];
    while s1.buf[p] != NUL
      invariant p == s1.i + ret <= n && ComplementSpan(s, s2) == ret + ComplementSpan(s[ret..], s2)
      decreases n - p
    {
      assert s[ret..][0] == s1.buf[p] && s[ret..][1..] == s[ret + 1..];
      if s1.buf[p] in s2 {
        return;
      }
      p := p + 1;
      ret := ret + 1;
    }
  }

  /** What strtok_r does to the string at p: the token, the pointer it saves and the buffer. */
  ghost predicate Cut(p: Pointer, n: nat, delim: seq<byte>, before: seq<byte>, after: seq<byte>, tok: Pointer,
                      saved: Pointer)
    requires p.At? && p.i <= n < |before|
  {
    var k := First(before[..n], p.i, delim);
    if k.start == k.end then tok == Null && saved == Null && after == before
    else
      && tok == At(p.buf, k.start) && after == before[k.end := NUL]
      && saved == if k.end < n then At(p.buf, k.end + 1) else Null
  }

  /** strtok_r. Without a string and a saved pointer there is no token. */
  method StrtokR(str: Pointer, delim: seq<byte>, saveptr: Pointer, ghost n: nat) returns (tok: Pointer, saved: Pointer)
    requires var p := if str.At? then str else saveptr; p.At? ==> Ends(p, n)
    modifies (var p := if str.At? then str else saveptr; if p.At? then {p.buf} else {})
    ensures var p := if str.At? then str else saveptr;
            if p.At? then Cut(p, n, delim, old(if p.At? then p.buf[..] else []), p.buf[..], tok, saved)
            else tok == saved == Null
  {
    saved := saveptr;
    if str.At? {
      saved := str;
    } else if saveptr.Null? {
      return Null, Null;
    }
    tok, saved := CutToken(saved, delim, n);
  }

  lemma FirstIs(t: seq<byte>, i: nat, delim: seq<byte>)
    requires i <= |t|
    ensures var a := i + Span(t[i..], delim); First(t, i, delim) == Token(a, a + ComplementSpan(t[a..], delim))
  {
  }

  /** The part of strtok_r behind its first test. */
  method CutToken(p: Pointer, delim: seq<byte>, ghost n: nat) returns (tok: Pointer, saved: Pointer)
    requires p.At? && Ends(p, n)
    modifies p.buf
    ensures Cut(p, n, delim, old(p.buf[..]), p.buf[..], tok, saved)
  {
    hide Span, ComplementSpan, First;
    var buf := p.buf;
    ghost var before := buf[..];
    ghost var t := before[..n];
    assert t[p.i..] == buf[p.i..n];
    FirstIs(t, p.i, delim);
    var skip := Strspn(p, delim, n);
    tok := At(buf, p.i + skip);
    assert t[tok.i..] == buf[tok.i..n];
    var length := Strcspn(tok, delim, n);
    saved := At(buf, tok.i + length);
    assert First(t, p.i, delim) == Token(tok.i, saved.i);
    if saved == tok {
      return Null, Null;
    } else if buf[saved.i] != NUL {
      buf[saved.i] := NUL;
      saved := At(buf, saved.i + 1);
    } else {
      assert saved.i == n && before[n := NUL] == before;
      saved := Null;
    }
  }

  /** strtok keeps the saved pointer of strtok_r in a static variable. */
  class Tokenizer {
    var p: Pointer

    constructor ()
      ensures p == Null
    {
      p := Null;
    }

    method Strtok(str: Pointer, delim: seq<byte>, ghost n: nat) returns (tok: Pointer)
      requires var q := if str.At? then str else p; q.At? ==> Ends(q, n)
      modifies this, (var q := if str.At? then str else p; if q.At? then {q.buf} else {})
      ensures var q := old(if str.At? then str else p);
              var before := old(var q := if str.At? then str else p; if q.At? then q.buf[..] else []);
              if q.At? then Cut(q, n, delim, before, q.buf[..], tok, p)
              else tok == p == Null
    {
      tok, p := StrtokR(str, delim, p, n);
    }
  }

  lemma FirstSame(t: seq<byte>, u: seq<byte>, i: nat, delim: seq<byte>)
    requires i <= |t| == |u| && t[i..] == u[i..]
    ensures First(t, i, delim) == First(u, i, delim)
  {
    var a := i + Span(t[i..], delim);
    assert t[a..] == t[i..][a - i..] && u[a..] == u[i..][a - i..];
  }

  /** Between two calls: token m is cut and returned, and the saved pointer is behind it. */
  ghost predicate Underway(buf: array<byte>, n: nat, s: seq<byte>, delim: seq<byte>, m: nat, cur: seq<byte>,
                           tok: Pointer, p: Pointer)
    requires n < |s|
  {
    var t := s[..n];
    var ks := Tokens(t, 0, delim);
    && |cur| == |s| && m <= |ks| && (forall a :: 0 <= a < |ks| ==> ks[a].end <= n)
    && if m == |ks| then tok == p == Null && cur == WithNuls(s, ks)
       else
         && tok == At(buf, ks[m].start) && cur == WithNuls(s, ks[..m + 1])
         && if ks[m].end == n then p == Null && m + 1 == |ks|
            else
              var i := ks[m].end + 1;
              p == At(buf, i) && i <= n && cur[i..] == s[i..] && Tokens(t, i, delim) == ks[m + 1..]
  }

  lemma TokensWithin(t: seq<byte>, i: nat, delim: seq<byte>)
    requires i <= |t|
    ensures forall a :: 0 <= a < |Tokens(t, i, delim)| ==> Tokens(t, i, delim)[a].end <= |t|
    decreases |t| - i
  {
    var k := First(t, i, delim);
    if k.start < k.end < |t| { TokensWithin(t, k.end + 1, delim); }
  }

  lemma TokensStep(t: seq<byte>, i: nat, delim: seq<byte>)
    requires i <= |t|
    ensures var k := First(t, i, delim);
            Tokens(t, i, delim) ==
            if k.start == k.end then [] else [k] + if k.end == |t| then [] else Tokens(t, k.end + 1, delim)
  {
  }

  lemma TerminatedStep(s: seq<byte>, ks: seq<Token>, m: nat)
    requires m < |ks| && forall a :: 0 <= a < |ks| ==> ks[a].end < |s|
    ensures WithNuls(s, ks[..m + 1]) == WithNuls(s, ks[..m])[ks[m].end := NUL]
  {
    assert ks[..m + 1][..m] == ks[..m];
  }

  /** A call that goes on at i, in a text that is still whole there, cuts the next token. */
  lemma CutsNext(buf: array<byte>, n: nat, s: seq<byte>, delim: seq<byte>, m: nat, i: nat, cur: seq<byte>,
                 next: seq<byte>,
                 tok: Pointer, p: Pointer)
    requires i <= n < |s| == |cur| && cur[i..] == s[i..]
    requires var ks := Tokens(s[..n], 0, delim);
             && (forall a :: 0 <= a < |ks| ==> ks[a].end <= n)
             && m <= |ks| && Tokens(s[..n], i, delim) == ks[m..] && cur == WithNuls(s, ks[..m])
    requires Cut(At(buf, i), n, delim, cur, next, tok, p)
    ensures Underway(buf, n, s, delim, m, next, tok, p)
  {
    hide Tokens, WithNuls, First;
    var t := s[..n];
    var ks := Tokens(t, 0, delim);
    TokensStep(t, i, delim);
    SuffixKept(s, cur, i, n);
    FirstSame(cur[..n], t, i, delim);
    var k := First(t, i, delim);
    if k.start == k.end {
      assert ks[m..] == [] && ks[..m] == ks;
    } else {
      NextInList(ks, m, k, Tokens(t, i, delim)[1..]);
      TerminatedStep(s, ks, m);
      if k.end < n { BehindCut(s, cur, i, k.end); }
    }
  }

  /** Behind a terminator the text is still whole. */
  lemma BehindCut(s: seq<byte>, cur: seq<byte>, i: nat, end: nat)
    requires i <= end < |s| == |cur| && cur[i..] == s[i..]
    ensures cur[end := NUL][end + 1..] == s[end + 1..]
  {
    assert cur[end + 1..] == cur[i..][end + 1 - i..] && s[i..][end + 1 - i..] == s[end + 1..];
  }

  lemma SuffixKept(s: seq<byte>, cur: seq<byte>, i: nat, n: nat)
    requires i <= n < |s| == |cur| && cur[i..] == s[i..]
    ensures cur[..n][i..] == s[..n][i..]
  {
    assert cur[..n][i..] == cur[i..][..n - i] && s[..n][i..] == s[i..][..n - i];
  }

  lemma NextInList(ks: seq<Token>, m: nat, k: Token, rest: seq<Token>)
    requires m <= |ks| && ks[m..] == [k] + rest
    ensures m < |ks| && ks[m] == k && ks[m + 1..] == rest
  {
    assert ks[m..][0] == k && ks[m..][1..] == ks[m + 1..];
  }

  /** strsplit: the starts of the tokens of the string in buf, which are ended in place. */
  method Strsplit(tokenizer: Tokenizer, buf: array<byte>, delim: seq<byte>, ghost n: nat) returns (split: seq<nat>)
    requires Ends(At(buf, 0), n)
    modifies tokenizer, buf
    ensures var t := old(buf[..n]);
            var ks := Tokens(t, 0, delim);
            && |split| == |ks| && (forall a :: 0 <= a < |ks| ==> split[a] == ks[a].start && ks[a].end <= n)
            && buf[..] == WithNuls(old(buf[..]), ks)
  {
    hide Tokens, WithNuls, Cut;
    split := [];
    ghost var s := buf[..];
    ghost var ks := Tokens(s[..n], 0, delim);
    assert s[..n] == buf[..n];
    var token := tokenizer.Strtok(At(buf, 0), delim, n);
    Begins(buf, n, s, delim, buf[..], token, tokenizer.p);
    while token.At?
      invariant |split| <= |ks| && forall a :: 0 <= a < |split| ==> split[a] == ks[a].start
      invariant Underway(buf, n, s, delim, |split|, buf[..], token, tokenizer.p)
      decreases |ks| - |split|
    {
      split := split + [token.i];
      ghost var cur, p := buf[..], tokenizer.p;
      EndsBehind(buf, n, s, delim, |split| - 1, token, p);
      token := tokenizer.Strtok(Null, delim, n);
      GoesOn(buf, n, s, delim, |split| - 1, cur, split[|split| - 1], p, buf[..], token, tokenizer.p);
    }
  }

  lemma Begins(buf: array<byte>, n: nat, s: seq<byte>, delim: seq<byte>, next: seq<byte>, tok: Pointer, p: Pointer)
    requires n < |s| && Cut(At(buf, 0), n, delim, s, next, tok, p)
    ensures Underway(buf, n, s, delim, 0, next, tok, p)
  {
    TokensWithin(s[..n], 0, delim);
    CutsNext(buf, n, s, delim, 0, 0, s, next, tok, p);
  }

  /** The saved pointer is at a string that ends where the whole one does. */
  lemma EndsBehind(buf: array<byte>, n: nat, s: seq<byte>, delim: seq<byte>, m: nat, tok: Pointer, p: Pointer)
    requires n < |s| && s[n] == NUL && (forall j :: 0 <= j < n ==> s[j] != NUL) && tok.At?
    requires Underway(buf, n, s, delim, m, buf[..], tok, p)
    ensures p.At? ==> p.buf == buf && Ends(p, n)
  {
    hide Tokens, WithNuls;
    if p.At? {
      var cur, i := buf[..], p.i;
      assert cur[i..] == s[i..];
      forall j | i <= j <= n
        ensures buf[j] == s[j]
      {
        assert cur[j] == cur[i..][j - i] && s[j] == s[i..][j - i];
      }
    }
  }

  lemma GoesOn(buf: array<byte>, n: nat, s: seq<byte>, delim: seq<byte>, m: nat, cur: seq<byte>, start: nat, p: Pointer,
               next: seq<byte>, tok: Pointer, saved: Pointer)
    requires n < |s| && Underway(buf, n, s, delim, m, cur, At(buf, start), p)
    requires p.At? ==> Cut(p, n, delim, cur, next, tok, saved)
    requires p.Null? ==> tok == saved == Null && next == cur
    ensures Underway(buf, n, s, delim, m + 1, next, tok, saved)
  {
    hide Tokens, WithNuls, Cut;
    var ks := Tokens(s[..n], 0, delim);
    if p.At? {
      CutsNext(buf, n, s, delim, m + 1, p.i, cur, next, tok, saved);
    } else {
      assert ks[..m + 1] == ks;
    }
  }
}
