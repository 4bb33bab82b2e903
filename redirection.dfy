/**
 * The per-stage tokenizer and redirection parser (`parse_redirection`): a stage string is cut
 * on spaces, tabs and newlines; `<`, `>` and `>>` each take the next token as a file name;
 * every other token becomes an argument, up to `MaxArgs - 1` of them.
 */
module Redirection {
  import opened Wrappers
  import opened Text

  /** Size of the argument array (MAX_ARGS); one entry is kept for the terminating NULL. */
  const MaxArgs: nat := 64

  /** What one stage asks for: its argument vector and its redirections. */
  datatype Stage = Stage(args: seq<string>, inputFile: Option<string>, outputFile: Option<string>, append: bool)

  /** The outcome of parsing a stage: a stage, or one of the two syntax errors. */
  datatype ParseResult = Parsed(stage: Stage) | MissingInputFile | MissingOutputFile

  /** The out-parameters as the parser first sets them: no redirection, truncate mode. */
  const NoRedirection: Stage := Stage([], None, None, false)

  /** A token the parser treats as a redirection operator. */
  predicate IsOperator(token: string)
  {
    token == "<" || token == ">" || token == ">>"
  }

  /** The parser's scan over the remaining tokens, from the state `st` reached so far. */
  function Scan(tokens: seq<string>, st: Stage): ParseResult
    decreases |tokens|
  {
    if tokens == [] then Parsed(st)
    else if tokens[0] == "<" then
      if |tokens| == 1 then MissingInputFile
      else Scan(tokens[2..], st.(inputFile := Some(tokens[1])))
    else if tokens[0] == ">" then
      if |tokens| == 1 then MissingOutputFile
      else Scan(tokens[2..], st.(outputFile := Some(tokens[1]), append := false))
    else if tokens[0] == ">>" then
      if |tokens| == 1 then MissingOutputFile
      else Scan(tokens[2..], st.(outputFile := Some(tokens[1]), append := true))
    else
      Scan(tokens[1..], if |st.args| < MaxArgs - 1 then st.(args := st.args + [tokens[0]]) else st)
  }

  /** The parse of a whole token sequence. */
  function Parse(tokens: seq<string>): ParseResult
  {
    Scan(tokens, NoRedirection)
  }

  /** The parse of a stage string, tokenized as `strtok_r(…, " \t\n")` does. */
  function ParseStage(command: string): ParseResult
  {
    Parse(Split(command, Whitespace))
  }

  /** The loop of `parse_redirection` (shell.c:169-203) over the stage's tokens. */
  method ParseRedirection(command: string) returns (r: ParseResult)
    ensures r == ParseStage(command)
  {
    var tokens := Split(command, Whitespace);
    var args: seq<string> := [];
    var inputFile: Option<string> := None;
    var outputFile: Option<string> := None;
    var append := false;
    var i := 0;
    while i < |tokens|
      invariant i <= |tokens|
      invariant Parse(tokens) == Scan(tokens[i..], Stage(args, inputFile, outputFile, append))
    {
      var token := tokens[i];
      ghost var rest := tokens[i..];
      assert rest[0] == token;
      if IsOperator(token) {
        if i + 1 == |tokens| {
          ScanOperatorStep(rest, Stage(args, inputFile, outputFile, append));
          return if token == "<" then MissingInputFile else MissingOutputFile;
        }
        ScanOperatorStep(rest, Stage(args, inputFile, outputFile, append));
        assert rest[1] == tokens[i + 1] && rest[2..] == tokens[i + 2..];
        if token == "<" {
          inputFile := Some(tokens[i + 1]);
        } else {
          outputFile := Some(tokens[i + 1]);
          append := token == ">>";
        }
        i := i + 2;
      } else {
        ScanWordStep(rest, Stage(args, inputFile, outputFile, append));
        assert rest[1..] == tokens[i + 1..];
        if |args| < MaxArgs - 1 {
          args := args + [token];
        }
        i := i + 1;
      }
    }
    r := Parsed(Stage(args, inputFile, outputFile, append));
  }

  lemma ScanOperatorStep(tokens: seq<string>, st: Stage)
    requires tokens != [] && IsOperator(tokens[0])
    ensures |tokens| == 1 ==> Scan(tokens, st) == if tokens[0] == "<" then MissingInputFile else MissingOutputFile
    ensures |tokens| > 1 ==>
      (Scan(tokens, st) ==
       Scan(tokens[2..], if tokens[0] == "<" then st.(inputFile := Some(tokens[1]))
                         else st.(outputFile := Some(tokens[1]), append := tokens[0] == ">>")))
  {
  }

  lemma ScanWordStep(tokens: seq<string>, st: Stage)
    requires tokens != [] && !IsOperator(tokens[0])
    ensures Scan(tokens, st) ==
      Scan(tokens[1..], if |st.args| < MaxArgs - 1 then st.(args := st.args + [tokens[0]]) else st)
  {
  }

  // ---------------------------------------------------------------------------
  // Properties of the parser
  // ---------------------------------------------------------------------------

  /** The scan is left to right: after a prefix parses, the rest continues from where it stopped. */
  lemma {:induction false} ScanAppend(t1: seq<string>, t2: seq<string>, st: Stage, mid: Stage)
    requires Scan(t1, st) == Parsed(mid)
    ensures Scan(t1 + t2, st) == Scan(t2, mid)
    decreases |t1|
  {
    if t1 == [] {
      assert t1 + t2 == t2;
    } else if IsOperator(t1[0]) {
      assert (t1 + t2)[2..] == t1[2..] + t2;
      var next := if t1[0] == "<" then st.(inputFile := Some(t1[1]))
                  else st.(outputFile := Some(t1[1]), append := t1[0] == ">>");
      ScanAppend(t1[2..], t2, next, mid);
    } else {
      assert (t1 + t2)[1..] == t1[1..] + t2;
      var next := if |st.args| < MaxArgs - 1 then st.(args := st.args + [t1[0]]) else st;
      ScanAppend(t1[1..], t2, next, mid);
    }
  }

  /**
   * A redirection after a well-formed prefix overrides any earlier one of the same direction:
   * `<` sets the input file; `>` sets the output file in truncate mode; `>>` in append mode.
   * Nothing else changes.
   */
  lemma LaterRedirectionWins(tokens: seq<string>, op: string, file: string)
    requires Parse(tokens).Parsed? && IsOperator(op)
    ensures var st := Parse(tokens).stage;
      Parse(tokens + [op, file]) ==
        if op == "<" then Parsed(st.(inputFile := Some(file)))
        else Parsed(st.(outputFile := Some(file), append := op == ">>"))
  {
    ScanAppend(tokens, [op, file], NoRedirection, Parse(tokens).stage);
    assert [op, file][2..] == [];
  }

  /** An operator with no token after it is a syntax error naming the missing direction. */
  lemma MissingFileName(tokens: seq<string>, op: string)
    requires Parse(tokens).Parsed? && IsOperator(op)
    ensures Parse(tokens + [op]) == if op == "<" then MissingInputFile else MissingOutputFile
  {
    ScanAppend(tokens, [op], NoRedirection, Parse(tokens).stage);
  }

  /** Reference definition of the argument words: the tokens that are neither operators nor their file names. */
  function Words(tokens: seq<string>): seq<string>
    decreases |tokens|
  {
    if tokens == [] then []
    else if IsOperator(tokens[0]) then (if |tokens| == 1 then [] else Words(tokens[2..]))
    else [tokens[0]] + Words(tokens[1..])
  }

  /** The first `MaxArgs - 1` elements of `s` (all of them when there are fewer). */
  function Capped(s: seq<string>): (r: seq<string>)
    ensures |r| <= MaxArgs - 1
  {
    if |s| <= MaxArgs - 1 then s else s[..MaxArgs - 1]
  }

  lemma {:induction false} ScanArgs(tokens: seq<string>, st: Stage)
    requires |st.args| <= MaxArgs - 1
    requires Scan(tokens, st).Parsed?
    ensures Scan(tokens, st).stage.args == Capped(st.args + Words(tokens))
    decreases |tokens|
  {
    if tokens == [] {
      assert st.args + [] == st.args;
    } else if IsOperator(tokens[0]) {
      var next := if tokens[0] == "<" then st.(inputFile := Some(tokens[1]))
                  else st.(outputFile := Some(tokens[1]), append := tokens[0] == ">>");
      ScanArgs(tokens[2..], next);
    } else {
      var w := Words(tokens[1..]);
      assert Words(tokens) == [tokens[0]] + w;
      if |st.args| < MaxArgs - 1 {
        ScanArgs(tokens[1..], st.(args := st.args + [tokens[0]]));
        assert st.args + [tokens[0]] + w == st.args + ([tokens[0]] + w);
      } else {
        ScanArgs(tokens[1..], st);
        assert Capped(st.args + w) == st.args;
        assert (st.args + ([tokens[0]] + w))[..MaxArgs - 1] == st.args;
      }
    }
  }

  /**
   * The argument vector is the non-redirection tokens in their original order, truncated to
   * `MaxArgs - 1` entries; the extra ones are dropped without an error.
   */
  lemma ArgumentsInOrder(tokens: seq<string>)
    requires Parse(tokens).Parsed?
    ensures Parse(tokens).stage.args == Capped(Words(tokens))
    ensures |Parse(tokens).stage.args| <= MaxArgs - 1
  {
    ScanArgs(tokens, NoRedirection);
    assert [] + Words(tokens) == Words(tokens);
  }

  lemma {:induction false} ScanWithoutOperators(tokens: seq<string>, st: Stage)
    requires forall k :: 0 <= k < |tokens| ==> !IsOperator(tokens[k])
    ensures Scan(tokens, st).Parsed?
    ensures var s := Scan(tokens, st).stage;
      s.inputFile == st.inputFile && s.outputFile == st.outputFile && s.append == st.append
    decreases |tokens|
  {
    if tokens != [] {
      ScanWithoutOperators(tokens[1..], if |st.args| < MaxArgs - 1 then st.(args := st.args + [tokens[0]]) else st);
    }
  }

  lemma {:induction false} WordsWithoutOperators(tokens: seq<string>)
    requires forall k :: 0 <= k < |tokens| ==> !IsOperator(tokens[k])
    ensures Words(tokens) == tokens
    decreases |tokens|
  {
    if tokens != [] {
      WordsWithoutOperators(tokens[1..]);
    }
  }

  /** Without operator tokens the parse always succeeds: no redirection, truncate mode, the first 63 tokens as arguments. */
  lemma PlainCommand(tokens: seq<string>)
    requires forall k :: 0 <= k < |tokens| ==> !IsOperator(tokens[k])
    ensures Parse(tokens) == Parsed(Stage(Capped(tokens), None, None, false))
  {
    ScanWithoutOperators(tokens, NoRedirection);
    ArgumentsInOrder(tokens);
    WordsWithoutOperators(tokens);
  }
}
