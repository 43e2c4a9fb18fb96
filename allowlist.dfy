/** Loading the allowlist file: the text is split into lines, each line is
    trimmed, blank lines are dropped, and the rest are kept in file order,
    duplicates included (main.go:87-103). */
module Allowlist {
  import opened GoStrings

  /** What reading the allowlist file gave: its text, or an error. */
  datatype FileRead = ReadFailed | Read(content: string)

  /** The allowlist, or the fatal error that ends the run when the file
      named on the command line cannot be read. */
  datatype Loaded = Entries(entries: seq<string>) | Unreadable(path: string)

  /** The entries the parse keeps from `lines`: the trimmed text of every
      line that is not blank, in order.  Every entry is non-empty and has no
      surrounding whitespace. */
  function CleanLines(lines: seq<string>): (r: seq<string>)
    ensures |r| <= |lines|
    decreases |lines|
  {
    if lines == [] then []
    else
      var v := TrimSpace(lines[|lines| - 1]);
      CleanLines(lines[..|lines| - 1]) + (if v == [] then [] else [v])
  }

  /** The parse works line by line: the entries of two blocks of lines are
      the entries of the first followed by those of the second. With
      CleanLinesOfLine this fixes the order and keeps duplicates. */
  lemma {:induction false} CleanLinesAppend(a: seq<string>, b: seq<string>)
    ensures CleanLines(a + b) == CleanLines(a) + CleanLines(b)
    decreases |b|
  {
    if b != [] {
      var b' := b[..|b| - 1];
      assert (a + b)[..|a + b| - 1] == a + b';
      assert (a + b)[|a + b| - 1] == b[|b| - 1];
      CleanLinesAppend(a, b');
    } else {
      assert a + b == a;
    }
  }

  /** One line gives its trimmed text, unless it is blank. */
  lemma CleanLinesOfLine(line: string)
    ensures CleanLines([line]) == if AllSpace(line) then [] else [TrimSpace(line)]
  {
    assert [line][..0] == [];
  }

  /** Every entry is non-empty and has no surrounding whitespace. */
  lemma {:induction false} CleanLinesTrimmed(lines: seq<string>, e: string)
    requires e in CleanLines(lines)
    ensures e != [] && IsTrimmed(e)
    decreases |lines|
  {
    var init := lines[..|lines| - 1];
    if e in CleanLines(init) {
      CleanLinesTrimmed(init, e);
    }
  }

  /** Every entry comes from a line that trims to it. */
  lemma {:induction false} CleanLinesSource(lines: seq<string>, e: string)
    requires e in CleanLines(lines)
    ensures exists i :: 0 <= i < |lines| && TrimSpace(lines[i]) == e
  {
    var i := SourceLine(lines, e);
  }

  /** The position of a line that an entry comes from. */
  lemma {:induction false} SourceLine(lines: seq<string>, e: string) returns (i: nat)
    requires e in CleanLines(lines)
    ensures i < |lines| && TrimSpace(lines[i]) == e
    decreases |lines|
  {
    var init := lines[..|lines| - 1];
    var v := TrimSpace(lines[|lines| - 1]);
    assert CleanLines(lines) == CleanLines(init) + (if v == [] then [] else [v]);
    if e in CleanLines(init) {
      i := SourceLine(init, e);
      assert lines[i] == init[i];
    } else {
      i := |lines| - 1;
    }
  }

  /** Every line that is not blank contributes its trimmed text. */
  lemma {:induction false} CleanLinesKeeps(lines: seq<string>, i: nat)
    requires i < |lines| && !AllSpace(lines[i])
    ensures TrimSpace(lines[i]) in CleanLines(lines)
    decreases |lines|
  {
    var init, last := lines[..|lines| - 1], lines[|lines| - 1];
    var v := TrimSpace(last);
    assert CleanLines(lines) == CleanLines(init) + (if v == [] then [] else [v]);
    if i < |lines| - 1 {
      assert init[i] == lines[i];
      CleanLinesKeeps(init, i);
    }
  }

  /** Content that is empty or blank yields no entries, and only such content
      does: a line feed is itself whitespace. */
  lemma ParsedEmptyIffBlank(content: string)
    ensures CleanLines(SplitLines(content)) == [] <==> AllSpace(content)
  {
    var lines := SplitLines(content);
    if AllSpace(content) {
      SplitBlank(content);
      CleanBlankLines(lines);
    } else if CleanLines(lines) == [] {
      forall p | p in lines ensures AllSpace(p) {
        var i :| 0 <= i < |lines| && lines[i] == p;
        if !AllSpace(p) {
          CleanLinesKeeps(lines, i);
          assert false;
        }
      }
      JoinBlank(lines);
      SplitThenJoin(content);
    }
  }

  lemma {:induction false} CleanBlankLines(lines: seq<string>)
    requires forall p | p in lines :: AllSpace(p)
    ensures CleanLines(lines) == []
    decreases |lines|
  {
    if lines != [] {
      assert lines[|lines| - 1] in lines;
      CleanBlankLines(lines[..|lines| - 1]);
    }
  }

  /** Taking one more line into the parse appends at most its trimmed text. */
  lemma CleanLinesPrefixStep(lines: seq<string>, i: nat)
    requires i < |lines|
    ensures CleanLines(lines[..i + 1]) ==
      CleanLines(lines[..i]) + (if TrimSpace(lines[i]) == [] then [] else [TrimSpace(lines[i])])
  {
    assert lines[..i + 1][..i] == lines[..i];
  }

  /** The loop of main.go:95-102: split the file text on line feeds, then
      append each trimmed non-blank line to the allowlist. */
  method ParseAllowlist(content: string) returns (allowlist: seq<string>)
    ensures allowlist == CleanLines(SplitLines(content))
    ensures forall e | e in allowlist :: e != [] && IsTrimmed(e)
  {
    var pieces := SplitLines(content);
    allowlist := [];
    for i := 0 to |pieces|
      invariant allowlist == CleanLines(pieces[..i])
    {
      CleanLinesPrefixStep(pieces, i);
      var v := TrimSpace(pieces[i]);
      if v == [] {
        continue;
      }
      allowlist := allowlist + [v];
    }
    assert pieces[..|pieces|] == pieces;
    forall e | e in allowlist ensures e != [] && IsTrimmed(e) {
      CleanLinesTrimmed(pieces, e);
    }
  }

  /** main.go:87-103: no path means an empty allowlist and no read at all; a
      path whose file cannot be read ends the run; otherwise the file text is
      parsed. */
  method LoadAllowlist(path: string, file: FileRead) returns (r: Loaded)
    ensures path == [] ==> r == Entries([])
    ensures path != [] && file.ReadFailed? ==> r == Unreadable(path)
    ensures path != [] && file.Read? ==> r == Entries(CleanLines(SplitLines(file.content)))
  {
    if path == [] {
      return Entries([]);
    }
    match file
    case ReadFailed =>
      r := Unreadable(path);
    case Read(content) =>
      var entries := ParseAllowlist(content);
      r := Entries(entries);
  }
}
