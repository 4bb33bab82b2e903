/**
 * Text processing of one input line, as the shell does it before any process is spawned:
 * accepting a line read from the terminal, cutting it into pieces the way `strtok` does,
 * stripping a trailing background marker, and trimming each pipeline piece.
 * Strings are `seq<char>` without the terminating NUL of the C buffers.
 */
module Text {
  import opened Wrappers
  import opened Sequences

  /** Capacity of the pipeline: at most this many stages are kept (MAX_COMMANDS). */
  const MaxCommands: nat := 10

  /** The characters `strspn(token, " \t")` skips and the `&` stripping loop drops. */
  const Blanks: set<char> := {' ', '\t'}
  /** The delimiters of the per-stage tokenizer and of the piece trimming loop. */
  const Whitespace: set<char> := {' ', '\t', '\n'}
  /** The delimiter of the pipeline split. */
  const PipeSeparator: set<char> := {'|'}

  // ---------------------------------------------------------------------------
  // strtok: maximal runs of non-delimiter characters
  // ---------------------------------------------------------------------------

  /** Index of the first delimiter in `s`, or `|s|` when there is none. */
  function FirstDelimiter(s: string, delims: set<char>): (i: nat)
    ensures i <= |s|
    ensures forall k :: 0 <= k < i ==> s[k] !in delims
    ensures i < |s| ==> s[i] in delims
  {
    if s == [] || s[0] in delims then 0 else 1 + FirstDelimiter(s[1..], delims)
  }

  /**
   * The tokens successive `strtok` calls return for `s` and the delimiter set `delims`:
   * empty pieces between adjacent delimiters are never returned.
   */
  function Split(s: string, delims: set<char>): (r: seq<string>)
    ensures forall k :: 0 <= k < |r| ==> r[k] != []
    decreases |s|
  {
    var i := FirstDelimiter(s, delims);
    if i == |s| then
      (if s == [] then [] else [s])
    else
      (if i == 0 then [] else [s[..i]]) + Split(s[i + 1..], delims)
  }

  /** No token contains a delimiter. */
  lemma {:induction false} SplitPiecesHaveNoDelimiter(s: string, delims: set<char>)
    ensures forall k, j :: 0 <= k < |Split(s, delims)| && 0 <= j < |Split(s, delims)[k]| ==>
      Split(s, delims)[k][j] !in delims
    decreases |s|
  {
    var i := FirstDelimiter(s, delims);
    if i < |s| {
      SplitPiecesHaveNoDelimiter(s[i + 1..], delims);
    }
  }

  /** A run without delimiters is returned whole, as one token. */
  lemma SplitRun(s: string, delims: set<char>)
    requires s != [] && forall k :: 0 <= k < |s| ==> s[k] !in delims
    ensures Split(s, delims) == [s]
  {
  }

  /** The characters of `s` that are not delimiters, in order. */
  function Kept(s: string, delims: set<char>): (r: string)
    ensures |r| <= |s|
  {
    if s == [] then []
    else (if s[0] in delims then [] else [s[0]]) + Kept(s[1..], delims)
  }

  /** The pieces glued back together. */
  function Concat(pieces: seq<string>): string
  {
    if pieces == [] then [] else pieces[0] + Concat(pieces[1..])
  }

  lemma {:induction false} ConcatAppend(a: seq<string>, b: seq<string>)
    ensures Concat(a + b) == Concat(a) + Concat(b)
    decreases |a|
  {
    if a == [] {
      assert a + b == b;
    } else {
      assert (a + b)[1..] == a[1..] + b;
      ConcatAppend(a[1..], b);
      Associative(a[0], Concat(a[1..]), Concat(b));
    }
  }

  lemma {:induction false} KeptAppend(a: string, b: string, delims: set<char>)
    ensures Kept(a + b, delims) == Kept(a, delims) + Kept(b, delims)
    decreases |a|
  {
    if a == [] {
      assert a + b == b;
    } else {
      assert (a + b)[1..] == a[1..] + b;
      KeptAppend(a[1..], b, delims);
      Associative(if a[0] in delims then [] else [a[0]], Kept(a[1..], delims), Kept(b, delims));
    }
  }

  lemma {:induction false} KeptNoDelimiter(s: string, delims: set<char>)
    requires forall k :: 0 <= k < |s| ==> s[k] !in delims
    ensures Kept(s, delims) == s
    decreases |s|
  {
    if s != [] {
      KeptNoDelimiter(s[1..], delims);
    }
  }

  /** Splitting loses exactly the delimiters: the tokens, glued together, are the other characters in order. */
  lemma {:induction false} SplitKeepsNonDelimiters(s: string, delims: set<char>)
    ensures Concat(Split(s, delims)) == Kept(s, delims)
    decreases |s|
  {
    var i := FirstDelimiter(s, delims);
    var pre := s[..i];
    KeptNoDelimiter(pre, delims);
    if i == |s| {
      assert pre == s;
    } else {
      var rest := s[i + 1..];
      var head: seq<string> := if i == 0 then [] else [pre];
      assert Concat(head) == pre by {
        if i != 0 {
          assert head[1..] == [];
        }
      }
      SplitKeepsNonDelimiters(rest, delims);
      ConcatAppend(head, Split(rest, delims));
      KeptAroundDelimiter(s, i, delims);
    }
  }

  /** A delimiter contributes nothing to the kept characters. */
  lemma KeptAroundDelimiter(s: string, i: nat, delims: set<char>)
    requires i < |s| && s[i] in delims
    ensures Kept(s, delims) == Kept(s[..i], delims) + Kept(s[i + 1..], delims)
  {
    var rest := s[i + 1..];
    assert s == s[..i] + ([s[i]] + rest);
    KeptAppend(s[..i], [s[i]] + rest, delims);
    assert ([s[i]] + rest)[1..] == rest;
  }

  /** A line made only of delimiters (or nothing) yields no token, and any other line yields at least one. */
  lemma SplitEmptyIff(s: string, delims: set<char>)
    ensures Split(s, delims) == [] <==> forall k :: 0 <= k < |s| ==> s[k] in delims
  {
    SplitKeepsNonDelimiters(s, delims);
    var r := Split(s, delims);
    if r == [] {
      forall k | 0 <= k < |s| ensures s[k] in delims {
        assert s == s[..k] + [s[k]] + s[k + 1..];
        KeptAppend(s[..k] + [s[k]], s[k + 1..], delims);
        KeptAppend(s[..k], [s[k]], delims);
      }
    } else {
      assert r[0] != [];
      assert Concat(r) == r[0] + Concat(r[1..]);
      AllDelimitersKeepNothing(s, delims);
    }
  }

  lemma {:induction false} AllDelimitersKeepNothing(s: string, delims: set<char>)
    ensures (forall k :: 0 <= k < |s| ==> s[k] in delims) ==> Kept(s, delims) == []
    decreases |s|
  {
    if s != [] {
      AllDelimitersKeepNothing(s[1..], delims);
    }
  }

  /** A delimiter separates: the tokens of `a d b` are those of `a` followed by those of `b`. */
  lemma {:induction false} SplitAtDelimiter(a: string, d: char, b: string, delims: set<char>)
    requires d in delims
    ensures Split(a + [d] + b, delims) == Split(a, delims) + Split(b, delims)
    decreases |a|
  {
    var rest := [d] + b;
    var s := a + rest;
    Associative(a, [d], b);
    var i := FirstDelimiter(a, delims);
    forall k | 0 <= k < i ensures s[k] !in delims {
      assert s[k] == a[k];
    }
    if i == |a| {
      SplitUnfold(s, |a|, delims);
      assert s[..|a|] == a;
      assert s[|a| + 1..] == b;
    } else {
      var tail := a[i + 1..];
      var head: seq<string> := if i == 0 then [] else [a[..i]];
      SplitUnfold(a, i, delims);
      assert s[i] == a[i];
      assert s[..i] == a[..i];
      SplitUnfold(s, i, delims);
      DropThroughIndex(a, rest, i);
      SplitAtDelimiter(tail, d, b, delims);
      Associative(tail, [d], b);
      Associative(head, Split(tail, delims), Split(b, delims));
    }
  }

  lemma DropThroughIndex(a: string, b: string, i: nat)
    requires i < |a|
    ensures (a + b)[i + 1..] == a[i + 1..] + b
  {
  }

  /** `strtok` at a known first delimiter `i`: the piece before it (if any), then the tokens after it. */
  lemma SplitUnfold(s: string, i: nat, delims: set<char>)
    requires i < |s| && s[i] in delims
    requires forall k :: 0 <= k < i ==> s[k] !in delims
    ensures Split(s, delims) == (if i == 0 then [] else [s[..i]]) + Split(s[i + 1..], delims)
  {
    FirstDelimiterIs(s, i, delims);
  }

  /** The first delimiter is the only index with no delimiter before it and a delimiter (or the end) at it. */
  lemma {:induction false} FirstDelimiterIs(s: string, i: nat, delims: set<char>)
    requires i <= |s| && (i < |s| ==> s[i] in delims)
    requires forall k :: 0 <= k < i ==> s[k] !in delims
    ensures FirstDelimiter(s, delims) == i
    decreases i
  {
    if i > 0 {
      FirstDelimiterIs(s[1..], i - 1, delims);
    }
  }

  // ---------------------------------------------------------------------------
  // Trimming one pipeline piece (shell.c:324-329)
  // ---------------------------------------------------------------------------

  /** `strspn(p, " \t")`: the length of the leading run of blanks. */
  function LeadingBlanks(p: string): (n: nat)
    ensures n <= |p|
  {
    if p == [] || p[0] !in Blanks then 0 else 1 + LeadingBlanks(p[1..])
  }

  /** The leading run is all blanks and stops at the first non-blank. */
  lemma {:induction false} LeadingBlanksSpec(p: string)
    ensures forall k :: 0 <= k < LeadingBlanks(p) ==> p[k] in Blanks
    ensures LeadingBlanks(p) < |p| ==> p[LeadingBlanks(p)] !in Blanks
    decreases |p|
  {
    if p != [] && p[0] in Blanks {
      LeadingBlanksSpec(p[1..]);
    }
  }

  /**
   * Where the trailing trim stops: from exclusive end `e`, drop a whitespace character
   * as long as more than one character would remain after `start`.
   */
  function TrimEnd(p: string, start: nat, e: nat): (r: nat)
    requires start < e <= |p|
    ensures start < r <= e
    decreases e
  {
    if e - 1 > start && p[e - 1] in Whitespace then TrimEnd(p, start, e - 1) else e
  }

  /** Everything the trailing trim drops is whitespace, and it stops at a non-whitespace character or just after `start`. */
  lemma {:induction false} TrimEndSpec(p: string, start: nat, e: nat)
    requires start < e <= |p|
    ensures forall k :: TrimEnd(p, start, e) <= k < e ==> p[k] in Whitespace
    ensures TrimEnd(p, start, e) == start + 1 || p[TrimEnd(p, start, e) - 1] !in Whitespace
    decreases e
  {
    if e - 1 > start && p[e - 1] in Whitespace {
      TrimEndSpec(p, start, e - 1);
    }
  }

  /**
   * The trimmed piece: leading spaces and tabs dropped, then trailing spaces, tabs and
   * newlines dropped, but never the first character left after the leading blanks
   * (that character can only be a newline, which the trim then keeps).
   */
  function Trim(p: string): string
  {
    var start := LeadingBlanks(p);
    if start == |p| then [] else p[start..TrimEnd(p, start, |p|)]
  }

  /**
   * What trimming keeps: a slice of the piece preceded only by blanks and followed only by
   * whitespace, starting with a non-blank and, when longer than one character, ending with a
   * non-whitespace character; the result is empty exactly for an all-blank piece.
   */
  lemma TrimShape(p: string)
    ensures LeadingBlanks(p) + |Trim(p)| <= |p|
    ensures Trim(p) == p[LeadingBlanks(p)..LeadingBlanks(p) + |Trim(p)|]
    ensures forall k :: LeadingBlanks(p) + |Trim(p)| <= k < |p| ==> p[k] in Whitespace
    ensures Trim(p) != [] ==> Trim(p)[0] !in Blanks
    ensures |Trim(p)| > 1 ==> Trim(p)[|Trim(p)| - 1] !in Whitespace
    ensures Trim(p) == [] <==> forall k :: 0 <= k < |p| ==> p[k] in Blanks
  {
    TrimEmptyIff(p);
    TrimSlice(p);
    TrimTail(p);
  }

  lemma TrimTail(p: string)
    ensures forall k :: LeadingBlanks(p) + |Trim(p)| <= k < |p| ==> p[k] in Whitespace
  {
    var start := LeadingBlanks(p);
    if start < |p| {
      var e := TrimEnd(p, start, |p|);
      TrimEndSpec(p, start, |p|);
      assert |Trim(p)| == e - start;
      forall k | start + |Trim(p)| <= k < |p| ensures p[k] in Whitespace {
        assert e <= k;
      }
    }
  }

  lemma TrimEmptyIff(p: string)
    ensures Trim(p) == [] <==> forall k :: 0 <= k < |p| ==> p[k] in Blanks
  {
    LeadingBlanksSpec(p);
    var start := LeadingBlanks(p);
    if start < |p| {
      assert p[start] !in Blanks;
      assert |Trim(p)| == TrimEnd(p, start, |p|) - start;
    }
  }

  lemma TrimSlice(p: string)
    ensures LeadingBlanks(p) + |Trim(p)| <= |p|
    ensures Trim(p) == p[LeadingBlanks(p)..LeadingBlanks(p) + |Trim(p)|]
    ensures Trim(p) != [] ==> Trim(p)[0] !in Blanks
    ensures |Trim(p)| > 1 ==> Trim(p)[|Trim(p)| - 1] !in Whitespace
  {
    var start := LeadingBlanks(p);
    if start < |p| {
      var e := TrimEnd(p, start, |p|);
      LeadingBlanksSpec(p);
      TrimEndSpec(p, start, |p|);
      assert Trim(p) == p[start..e];
      SliceBetween(p, start, e);
    }
  }

  /** The piece `p[start..e]` the trim keeps, described by its two ends. */
  lemma SliceBetween(p: string, start: nat, e: nat)
    requires start < e <= |p|
    requires p[start] !in Blanks
    requires e == start + 1 || p[e - 1] !in Whitespace
    ensures var r := p[start..e];
      start + |r| <= |p| &&
      r == p[start..start + |r|] &&
      (r != [] ==> r[0] !in Blanks) &&
      (|r| > 1 ==> r[|r| - 1] !in Whitespace)
  {
    var r := p[start..e];
    assert |r| == e - start;
    assert r[0] == p[start];
    assert |r| > 1 ==> r[|r| - 1] == p[e - 1];
  }

  /** The trimming loop of shell.c:324-329 over one `strtok` piece (never empty). */
  method TrimPiece(p: string) returns (r: string)
    requires p != []
    ensures r == Trim(p)
  {
    var start := 0;
    while start < |p| && p[start] in Blanks
      invariant start <= |p|
      invariant forall k :: 0 <= k < start ==> p[k] in Blanks
    {
      start := start + 1;
    }
    assert start == LeadingBlanks(p) by { LeadingBlanksUnique(p, start); }
    var end := |p| - 1;
    while end > start && p[end] in Whitespace
      invariant start <= |p| ==> start - 1 <= end <= |p| - 1
      invariant start < |p| ==> start <= end && TrimEnd(p, start, |p|) == TrimEnd(p, start, end + 1)
    {
      end := end - 1;
    }
    r := p[start..end + 1];
  }

  lemma {:induction false} LeadingBlanksUnique(p: string, n: nat)
    requires n <= |p|
    requires forall k :: 0 <= k < n ==> p[k] in Blanks
    requires n < |p| ==> p[n] !in Blanks
    ensures LeadingBlanks(p) == n
    decreases n
  {
    if n > 0 {
      LeadingBlanksUnique(p[1..], n - 1);
    }
  }

  // ---------------------------------------------------------------------------
  // The background marker (shell.c:307-316)
  // ---------------------------------------------------------------------------

  /** `s` with its trailing spaces and tabs removed. */
  function DropTrailingBlanks(s: string): (r: string)
    ensures |r| <= |s| && r == s[..|r|]
    ensures forall k :: |r| <= k < |s| ==> s[k] in Blanks
    ensures r == [] || r[|r| - 1] !in Blanks
  {
    if s == [] || s[|s| - 1] !in Blanks then s else DropTrailingBlanks(s[..|s| - 1])
  }

  /** The rest of the line after the background marker is stripped, and whether there was one. */
  function BackgroundSplit(line: string): (string, bool)
    requires line != []
  {
    if line[|line| - 1] == '&' then (DropTrailingBlanks(line[..|line| - 1]), true) else (line, false)
  }

  /**
   * Strips a trailing `&` and the blanks before it, overwriting characters from the end
   * as shell.c does. The line is never empty: the read loop skips empty lines.
   */
  method StripBackground(line: string) returns (rest: string, background: bool)
    requires line != []
    ensures background <==> line[|line| - 1] == '&'
    ensures (rest, background) == BackgroundSplit(line)
  {
    background := line[|line| - 1] == '&';
    rest := line;
    if background {
      rest := line[..|line| - 1];
      while |rest| > 0 && rest[|rest| - 1] in Blanks
        invariant DropTrailingBlanks(rest) == DropTrailingBlanks(line[..|line| - 1])
      {
        rest := rest[..|rest| - 1];
      }
    }
  }

  /** After stripping, the original line is the rest, some blanks, and the `&`. */
  lemma BackgroundLineShape(line: string)
    requires line != []
    ensures var (rest, background) := BackgroundSplit(line);
      && (background <==> line[|line| - 1] == '&')
      && (!background ==> rest == line)
      && (background ==>
            |rest| < |line| && line[..|rest|] == rest &&
            (forall k :: |rest| <= k < |line| - 1 ==> line[k] in Blanks) &&
            (rest == [] || rest[|rest| - 1] !in Blanks))
  {
  }

  // ---------------------------------------------------------------------------
  // Pipeline split (shell.c:318-331)
  // ---------------------------------------------------------------------------

  /** The trimmed pieces, one per piece. */
  function TrimAll(pieces: seq<string>): seq<string>
  {
    seq(|pieces|, k requires 0 <= k < |pieces| => Trim(pieces[k]))
  }

  /** The stage strings: the first `MaxCommands` pieces between `|`, each trimmed. */
  function Stages(line: string): (r: seq<string>)
    ensures |r| <= MaxCommands
  {
    var pieces := Split(line, PipeSeparator);
    TrimAll(if |pieces| <= MaxCommands then pieces else pieces[..MaxCommands])
  }

  /** The `strtok(line, "|")` loop: collects trimmed pieces until none remain or the array is full. */
  method SplitPipeline(line: string) returns (stages: seq<string>)
    ensures stages == Stages(line)
  {
    var pieces := Split(line, PipeSeparator);
    ghost var kept := if |pieces| <= MaxCommands then pieces else pieces[..MaxCommands];
    stages := [];
    var n := 0;
    while n < |pieces| && n < MaxCommands
      invariant n <= |kept|
      invariant stages == TrimAll(kept[..n])
    {
      assert pieces[n] == kept[n];
      var stage := TrimPiece(pieces[n]);
      TrimAllSnoc(kept, n);
      stages := stages + [stage];
      n := n + 1;
    }
    assert kept[..n] == kept;
  }

  lemma TrimAllSnoc(pieces: seq<string>, n: nat)
    requires n < |pieces|
    ensures TrimAll(pieces[..n + 1]) == TrimAll(pieces[..n]) + [Trim(pieces[n])]
  {
    var a, b := TrimAll(pieces[..n + 1]), TrimAll(pieces[..n]) + [Trim(pieces[n])];
    assert |a| == |b|;
    forall k | 0 <= k < |a| ensures a[k] == b[k] {
      assert pieces[..n + 1][k] == pieces[k];
    }
  }

  /**
   * The stages are the pipe-separated pieces in order, each trimmed, at most `MaxCommands`;
   * there are none exactly when the line holds nothing but `|` characters.
   */
  lemma StagesSpec(line: string)
    ensures var pieces := Split(line, PipeSeparator);
      |Stages(line)| == (if |pieces| <= MaxCommands then |pieces| else MaxCommands) &&
      forall k :: 0 <= k < |Stages(line)| ==> Stages(line)[k] == Trim(pieces[k])
    ensures Stages(line) == [] <==> forall k :: 0 <= k < |line| ==> line[k] == '|'
  {
    SplitEmptyIff(line, PipeSeparator);
  }

  // ---------------------------------------------------------------------------
  // Accepting a line from the read loop (shell.c:453-459)
  // ---------------------------------------------------------------------------

  /** The read loop drops one trailing newline and skips a line left empty. */
  function AcceptLine(raw: string): (r: Option<string>)
    ensures r.Some? ==> r.value != [] && (raw == r.value || raw == r.value + ['\n'])
    ensures r.None? <==> raw == [] || raw == ['\n']
    ensures |raw| > 1 && raw[|raw| - 1] == '\n' ==> r == Some(raw[..|raw| - 1])
    ensures raw != [] && raw[|raw| - 1] != '\n' ==> r == Some(raw)
  {
    var line := if raw != [] && raw[|raw| - 1] == '\n' then raw[..|raw| - 1] else raw;
    if line == [] then None else Some(line)
  }
}
