/** The two functions of Go's `strings` package that the allowlist parser
    calls: `Split` on the separator "\n" and `TrimSpace`.  `JoinLines`, the
    inverse of the split, is not called by the parser; it serves to state
    that the split loses nothing.  Whitespace is the ASCII set Go's
    `unicode.IsSpace` accepts below U+0080. */
module GoStrings {

  /** Space, tab, line feed, carriage return, vertical tab, form feed. */
  predicate IsSpace(c: char) {
    c == ' ' || c == '\t' || c == '\n' || c == '\r' || c == '\U{000B}' || c == '\U{000C}'
  }

  predicate AllSpace(s: string) {
    forall i :: 0 <= i < |s| ==> IsSpace(s[i])
  }

  /** Neither starts nor ends with whitespace. */
  predicate IsTrimmed(s: string) {
    s == [] || (!IsSpace(s[0]) && !IsSpace(s[|s| - 1]))
  }

  lemma AllSpaceConcat(a: string, b: string)
    ensures AllSpace(a + b) <==> AllSpace(a) && AllSpace(b)
  {
    if AllSpace(a) && AllSpace(b) {
      forall i | 0 <= i < |a + b| ensures IsSpace((a + b)[i]) {
        if i >= |a| { assert (a + b)[i] == b[i - |a|]; }
      }
    }
    if AllSpace(a + b) {
      forall i | 0 <= i < |a| ensures IsSpace(a[i]) { assert (a + b)[i] == a[i]; }
      forall i | 0 <= i < |b| ensures IsSpace(b[i]) { assert (a + b)[|a| + i] == b[i]; }
    }
  }

  /** Drops the leading whitespace: the result is a suffix of `s`, everything
      dropped is whitespace, and the result does not start with whitespace. */
  function TrimLeft(s: string): (r: string)
    ensures |r| <= |s| && r == s[|s| - |r|..]
    ensures AllSpace(s[..|s| - |r|])
    ensures r == [] || !IsSpace(r[0])
    decreases |s|
  {
    if s != [] && IsSpace(s[0]) then
      var r := TrimLeft(s[1..]);
      assert s[..|s| - |r|] == [s[0]] + s[1..][..|s| - 1 - |r|];
      r
    else s
  }

  /** Drops the trailing whitespace: the result is a prefix of `s`, everything
      dropped is whitespace, and the result does not end with whitespace. */
  function TrimRight(s: string): (r: string)
    ensures |r| <= |s| && r == s[..|r|]
    ensures AllSpace(s[|r|..])
    ensures r == [] || !IsSpace(r[|r| - 1])
    decreases |s|
  {
    if s != [] && IsSpace(s[|s| - 1]) then
      var r := TrimRight(s[..|s| - 1]);
      assert s[|r|..] == s[..|s| - 1][|r|..] + [s[|s| - 1]];
      r
    else s
  }

  /** Go's `strings.TrimSpace`, restricted to ASCII whitespace.  The result
      has no surrounding whitespace, is empty exactly when `s` is blank, and
      is what is left of `s` once a blank prefix and a blank suffix are cut
      (TrimSpaceDecomposes). */
  function TrimSpace(s: string): (r: string)
    ensures IsTrimmed(r)
    ensures r == [] <==> AllSpace(s)
  {
    var l := TrimLeft(s);
    var r := TrimRight(l);
    TrimSplit(s, l, r);
    r
  }

  lemma TrimSplit(s: string, l: string, r: string)
    requires |l| <= |s| && l == s[|s| - |l|..] && AllSpace(s[..|s| - |l|])
    requires l == [] || !IsSpace(l[0])
    requires |r| <= |l| && r == l[..|r|] && AllSpace(l[|r|..])
    ensures s == s[..|s| - |l|] + r + l[|r|..]
    ensures AllSpace(s[..|s| - |l|]) && AllSpace(l[|r|..])
    ensures r == [] <==> AllSpace(s)
  {
    var i := |s| - |l|;
    var pre, post := s[..i], l[|r|..];
    assert s == pre + l;
    assert l == r + post;
    assert s == pre + r + post;
    if r == [] {
      assert l == post;
      AllSpaceConcat(pre, l);
    } else {
      assert s[i] == l[0] && !IsSpace(s[i]);
    }
  }

  /** What TrimSpace keeps sits between a blank prefix and a blank suffix. */
  lemma TrimSpaceDecomposes(s: string)
    ensures exists i :: 0 <= i <= |s| - |TrimSpace(s)|
                        && s == s[..i] + TrimSpace(s) + s[i + |TrimSpace(s)|..]
                        && AllSpace(s[..i]) && AllSpace(s[i + |TrimSpace(s)|..])
  {
    var l := TrimLeft(s);
    var r := TrimRight(l);
    var i := |s| - |l|;
    TrimSplit(s, l, r);
    assert s[i + |r|..] == l[|r|..];
  }

  lemma {:induction false} TrimLeftOfPadded(a: string, m: string)
    requires AllSpace(a) && (m == [] || !IsSpace(m[0]))
    ensures TrimLeft(a + m) == m
    decreases |a|
  {
    if a != [] {
      assert (a + m)[1..] == a[1..] + m;
      TrimLeftOfPadded(a[1..], m);
    }
  }

  lemma {:induction false} TrimRightOfPadded(m: string, b: string)
    requires AllSpace(b) && (m == [] || !IsSpace(m[|m| - 1]))
    ensures TrimRight(m + b) == m
    decreases |b|
  {
    if b != [] {
      assert (m + b)[..|m + b| - 1] == m + b[..|b| - 1];
      TrimRightOfPadded(m, b[..|b| - 1]);
    } else {
      assert m + b == m;
    }
  }

  /** TrimSpace is determined by the decomposition it promises: a blank
      prefix, a trimmed middle and a blank suffix leave exactly the middle. */
  lemma TrimSpaceOfPadded(a: string, m: string, b: string)
    requires AllSpace(a) && IsTrimmed(m) && AllSpace(b)
    ensures TrimSpace(a + m + b) == m
  {
    if m == [] {
      assert a + m + b == a + b;
      AllSpaceConcat(a, b);
    } else {
      assert a + m + b == a + (m + b);
      TrimLeftOfPadded(a, m + b);
      TrimRightOfPadded(m, b);
    }
  }

  lemma TrimSpaceIdempotent(s: string)
    ensures TrimSpace(TrimSpace(s)) == TrimSpace(s)
  {
    var r := TrimSpace(s);
    assert [] + r + [] == r;
    TrimSpaceOfPadded([], r, []);
  }

  /** Go's `strings.Split(s, "\n")`: always at least one piece (the empty
      string gives one empty piece), and no piece holds a line feed. */
  function SplitLines(s: string): (r: seq<string>)
    ensures |r| >= 1
    ensures forall p | p in r :: '\n' !in p
    decreases |s|
  {
    if s == [] then [[]]
    else
      var rest := SplitLines(s[1..]);
      if s[0] == '\n' then [[]] + rest
      else [[s[0]] + rest[0]] + rest[1..]
  }

  /** The pieces glued back together with line feeds between them: the
      inverse of SplitLines (SplitThenJoin, JoinThenSplit). */
  function JoinLines(parts: seq<string>): string
    decreases |parts|
  {
    if parts == [] then []
    else if |parts| == 1 then parts[0]
    else parts[0] + "\n" + JoinLines(parts[1..])
  }

  /** Joining the pieces back with line feeds restores the text. */
  lemma {:induction false} SplitThenJoin(s: string)
    ensures JoinLines(SplitLines(s)) == s
    decreases |s|
  {
    if s != [] {
      var rest := SplitLines(s[1..]);
      SplitThenJoin(s[1..]);
      if s[0] == '\n' {
        assert ([[]] + rest)[1..] == rest;
      } else {
        var parts := [[s[0]] + rest[0]] + rest[1..];
        assert parts[1..] == rest[1..];
        if |rest| > 1 {
          assert JoinLines(rest) == rest[0] + "\n" + JoinLines(rest[1..]);
        }
      }
    }
  }

  lemma {:induction false} SplitLineBreakFree(p: string)
    requires '\n' !in p
    ensures SplitLines(p) == [p]
    decreases |p|
  {
    if p != [] {
      assert '\n' !in p[1..];
      SplitLineBreakFree(p[1..]);
      assert [p[0]] + p[1..] == p;
    }
  }

  lemma {:induction false} SplitAfterLine(p: string, rest: string)
    requires '\n' !in p
    ensures SplitLines(p + "\n" + rest) == [p] + SplitLines(rest)
    decreases |p|
  {
    var s := p + "\n" + rest;
    if p == [] {
      assert s[1..] == rest;
    } else {
      assert s[1..] == p[1..] + "\n" + rest;
      assert '\n' !in p[1..];
      SplitAfterLine(p[1..], rest);
      assert [p[0]] + p[1..] == p;
    }
  }

  /** Splitting a join of line-feed-free pieces gives the pieces back. */
  lemma {:induction false} JoinThenSplit(parts: seq<string>)
    requires |parts| >= 1
    requires forall p | p in parts :: '\n' !in p
    ensures SplitLines(JoinLines(parts)) == parts
    decreases |parts|
  {
    if |parts| == 1 {
      SplitLineBreakFree(parts[0]);
    } else {
      assert parts[0] in parts;
      JoinThenSplit(parts[1..]);
      SplitAfterLine(parts[0], JoinLines(parts[1..]));
      assert [parts[0]] + parts[1..] == parts;
    }
  }

  /** A blank text splits into blank pieces. */
  lemma {:induction false} SplitBlank(s: string)
    requires AllSpace(s)
    ensures forall p | p in SplitLines(s) :: AllSpace(p)
    decreases |s|
  {
    if s != [] {
      SplitBlank(s[1..]);
      var rest := SplitLines(s[1..]);
      if s[0] != '\n' {
        AllSpaceConcat([s[0]], rest[0]);
        forall p | p in [[s[0]] + rest[0]] + rest[1..] ensures AllSpace(p) {
          if p != [s[0]] + rest[0] { assert p in rest; }
        }
      }
    }
  }

  /** Joining blank pieces with line feeds gives blank text. */
  lemma {:induction false} JoinBlank(parts: seq<string>)
    requires forall p | p in parts :: AllSpace(p)
    ensures AllSpace(JoinLines(parts))
    decreases |parts|
  {
    if |parts| > 1 {
      assert parts[0] in parts;
      JoinBlank(parts[1..]);
      AllSpaceConcat(parts[0], "\n");
      AllSpaceConcat(parts[0] + "\n", JoinLines(parts[1..]));
    } else if |parts| == 1 {
      assert parts[0] in parts;
    }
  }
}
