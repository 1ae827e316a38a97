/**
 * The controller's own test scripts run through the interpreter model, and
 * the attribute strings of its test variables.
 */
module AppExamples {
  import opened Wrappers
  import Text
  import opened AppController

  const Empty := Interp([], map[], map[], "", [])

  // ----- lines and tokens -----

  /** A word that the token trim leaves as it is comes through it after the words before it. */
  lemma TrimmedAppend(init: seq<string>, w: string)
    requires w != [] && Text.TrimSpace(w) == w
    ensures NonEmptyTrimmed(init + [w]) == NonEmptyTrimmed(init) + [w]
  {
    assert (init + [w])[..|init|] == init;
  }

  lemma LinesOf(script: string, parts: seq<string>)
    requires Text.AllClean(parts, LineSeparators) && script == Text.Terminated(parts, ';')
    ensures Lines(script) == parts
  {
    Text.FieldsOfTerminated(parts, ';', LineSeparators);
  }

  lemma DeclareScriptLines()
    ensures Lines("x = $x; x.a = $yes;") == ["x = $x", " x.a = $yes"]
  {
    var parts := ["x = $x", " x.a = $yes"];
    assert Text.Terminated(parts[..1], ';') == "x = $x;";
    LinesOf("x = $x; x.a = $yes;", parts);
  }

  lemma AliasScriptLines()
    ensures Lines("alias(test, x); x = $x;") == ["alias(test, x)", " x = $x"]
  {
    var parts := ["alias(test, x)", " x = $x"];
    assert Text.Terminated(parts[..1], ';') == "alias(test, x);";
    LinesOf("alias(test, x); x = $x;", parts);
  }

  lemma ConditionalScriptLines()
    ensures Lines("if $x; x = $x; if $y; x = $y; end; end;")
         == ["if $x", " x = $x", " if $y", " x = $y", " end", " end"]
  {
    var parts := ["if $x", " x = $x", " if $y", " x = $y", " end", " end"];
    var t1, t2, t3 := "if $x;", "if $x; x = $x;", "if $x; x = $x; if $y;";
    var t4, t5 := "if $x; x = $x; if $y; x = $y;", "if $x; x = $x; if $y; x = $y; end;";
    assert parts[..1][..0] == [];
    assert Text.Terminated(parts[..1], ';') == t1;
    assert parts[..2][..1] == parts[..1];
    assert Text.Terminated(parts[..2], ';') == t2 by { assert t2 == t1 + parts[1] + [';']; }
    assert parts[..3][..2] == parts[..2];
    assert Text.Terminated(parts[..3], ';') == t3 by { assert t3 == t2 + parts[2] + [';']; }
    assert parts[..4][..3] == parts[..3];
    assert Text.Terminated(parts[..4], ';') == t4 by { assert t4 == t3 + parts[3] + [';']; }
    assert parts[..5][..4] == parts[..4];
    assert Text.Terminated(parts[..5], ';') == t5 by { assert t5 == t4 + parts[4] + [';']; }
    assert parts[..6] == parts;
    assert Text.Terminated(parts, ';') == "if $x; x = $x; if $y; x = $y; end; end;" by {
      assert "if $x; x = $x; if $y; x = $y; end; end;" == t5 + parts[5] + [';'];
    }
    LinesOf("if $x; x = $x; if $y; x = $y; end; end;", parts);
  }

  /** Two words that neither start nor end with white space are left as they are by the token trim. */
  lemma TrimmedPair(a: string, b: string)
    requires a != [] && a[0] !in Text.Spaces && a[|a| - 1] !in Text.Spaces
    requires b != [] && b[0] !in Text.Spaces && b[|b| - 1] !in Text.Spaces
    ensures NonEmptyTrimmed([a, b]) == [a, b]
  {
    Text.TrimNothing(a, Text.Spaces);
    Text.TrimNothing(b, Text.Spaces);
    TrimmedAppend([], a);
    assert [] + [a] == [a];
    TrimmedAppend([a], b);
    assert [a] + [b] == [a, b];
  }

  /** The tokens of "name = init" are the name and the initialiser. */
  lemma DeclareTokens(name: string, init: string)
    requires Text.Clean(name, TokenSeparators) && Text.Clean(init, TokenSeparators)
    requires name[0] !in Text.Spaces && name[|name| - 1] !in Text.Spaces
    requires init[0] !in Text.Spaces && init[|init| - 1] !in Text.Spaces
    ensures Tokens(name + " = " + init) == [name, init]
  {
    var seps := TokenSeparators;
    var rest := "=" + " " + init;
    assert name + " = " + init == name + [' '] + rest;
    Text.FieldsWord(name, ' ', rest, seps);
    assert rest == ['='] + (" " + init);
    Text.FieldsDropLead('=', " " + init, seps);
    assert " " + init == [' '] + init;
    Text.FieldsDropLead(' ', init, seps);
    Text.FieldsFuncWhole(init, seps);
    assert Text.FieldsFunc(name + " = " + init, seps) == [name, init];
    TrimmedPair(name, init);
  }

  /** The tokens of "keyword $opt" are the keyword and the option. */
  lemma KeywordTokens(keyword: string, arg: string)
    requires Text.Clean(keyword, TokenSeparators) && Text.Clean(arg, TokenSeparators)
    requires keyword[0] !in Text.Spaces && keyword[|keyword| - 1] !in Text.Spaces
    requires arg[0] !in Text.Spaces && arg[|arg| - 1] !in Text.Spaces
    ensures Tokens(keyword + " " + arg) == [keyword, arg]
  {
    var seps := TokenSeparators;
    assert keyword + " " + arg == keyword + [' '] + arg;
    Text.FieldsWord(keyword, ' ', arg, seps);
    Text.FieldsFuncWhole(arg, seps);
    assert Text.FieldsFunc(keyword + " " + arg, seps) == [keyword, arg];
    TrimmedPair(keyword, arg);
  }

  lemma AliasFields()
    ensures Text.FieldsFunc("alias(test, x)", TokenSeparators) == ["alias", "test", "x"]
  {
    var seps := TokenSeparators;
    var r1, r2, r3 := "test, x)", " x)", "x)";
    assert "alias(test, x)" == "alias" + ['('] + r1;
    assert r1 == "test" + [','] + r2;
    assert r2 == [' '] + r3;
    assert r3 == "x" + [')'] + "";
    Text.FieldsWord("alias", '(', r1, seps);
    Text.FieldsWord("test", ',', r2, seps);
    Text.FieldsDropLead(' ', r3, seps);
    Text.FieldsWord("x", ')', "", seps);
  }

  lemma AliasTokens()
    ensures Tokens("alias(test, x)") == ["alias", "test", "x"]
  {
    AliasFields();
    TrimmedTriple("alias", "test", "x");
  }

  /** Three words that neither start nor end with white space are left as they are by the token trim. */
  lemma TrimmedTriple(a: string, b: string, c: string)
    requires a != [] && a[0] !in Text.Spaces && a[|a| - 1] !in Text.Spaces
    requires b != [] && b[0] !in Text.Spaces && b[|b| - 1] !in Text.Spaces
    requires c != [] && c[0] !in Text.Spaces && c[|c| - 1] !in Text.Spaces
    ensures NonEmptyTrimmed([a, b, c]) == [a, b, c]
  {
    TrimmedPair(a, b);
    Text.TrimNothing(c, Text.Spaces);
    TrimmedAppend([a, b], c);
    assert [a, b] + [c] == [a, b, c];
  }

  lemma EndTokens()
    ensures Tokens("end") == ["end"]
  {
    assert Text.Clean("end", TokenSeparators);
    Text.FieldsFuncWhole("end", TokenSeparators);
    assert Text.FieldsFunc("end", TokenSeparators) == ["end"];
    Text.TrimNothing("end", Text.Spaces);
    TrimmedAppend([], "end");
    assert [] + ["end"] == ["end"];
  }

  // ----- option lookup -----

  lemma OptionText(name: string)
    requires name != [] && name[0] != '-' && name[|name| - 1] != '-'
    ensures Text.Trim("-" + name, '-') == name && Text.Trim("--" + name, '-') == name
  {
    assert ("-" + name)[1..] == name;
    assert ("--" + name)[1..] == "-" + name;
    Text.TrimStable(name, {'-'});
  }

  /** An option written "-name" or "--name", followed by an argument, selects what name stands for. */
  lemma OptionSelects(aliases: map<string, string>, input: seq<string>, k: nat, name: string, dashes: string, opt: string)
    requires name != [] && name[0] != '-' && name[|name| - 1] != '-'
    requires dashes == "-" || dashes == "--"
    requires k + 1 < |input| && input[k] == dashes + name && Aliased(aliases, name) == opt
    ensures Selects(aliases, input, opt, k)
  {
    OptionText(name);
  }

  /** An option standing for something else is scanned past. */
  lemma OptionPasses(aliases: map<string, string>, input: seq<string>, k: nat, name: string, dashes: string, opt: string)
    requires name != [] && name[0] != '-' && name[|name| - 1] != '-'
    requires dashes == "-" || dashes == "--"
    requires k < |input| && input[k] == dashes + name && Aliased(aliases, name) != opt
    ensures Passes(aliases, input, opt, k)
  {
    OptionText(name);
  }

  /** An argument that does not start with '-' is scanned past. */
  lemma ValuePasses(aliases: map<string, string>, input: seq<string>, k: nat, opt: string)
    requires k < |input| && input[k] != [] && input[k][0] != '-'
    ensures Passes(aliases, input, opt, k)
  {
  }

  /** With "-a va ..." or "--a va ..." on the command line, $a is va. */
  lemma LeadingOption(dashes: string, a: string, va: string, rest: seq<string>)
    requires a != [] && a[0] != '-' && a[|a| - 1] != '-'
    requires dashes == "-" || dashes == "--"
    ensures ValueFromArgs(map[], [dashes + a, va] + rest, a, "") == Ok(va)
  {
    var input := [dashes + a, va] + rest;
    OptionSelects(map[], input, 0, a, dashes, a);
    FirstSelected(map[], input, a, "", 0);
  }

  /** In "-a va -b vb", the first two arguments are scanned past when looking for b. */
  lemma FirstPairPasses(da: string, a: string, va: string, db: string, b: string, vb: string)
    requires a != [] && a[0] != '-' && a[|a| - 1] != '-'
    requires da == "-" || da == "--"
    requires a != b && va != [] && va[0] != '-'
    ensures forall j | 0 <= j < 2 :: Passes(map[], [da + a, va, db + b, vb], b, j)
  {
    var input := [da + a, va, db + b, vb];
    OptionPasses(map[], input, 0, a, da, b);
    ValuePasses(map[], input, 1, b);
  }

  /** With "-a va -b vb" (either option with one dash or two) on the command line, $b is vb. */
  lemma SecondOption(da: string, a: string, va: string, db: string, b: string, vb: string)
    requires a != [] && a[0] != '-' && a[|a| - 1] != '-'
    requires b != [] && b[0] != '-' && b[|b| - 1] != '-'
    requires da == "-" || da == "--"
    requires db == "-" || db == "--"
    requires a != b && va != [] && va[0] != '-'
    ensures ValueFromArgs(map[], [da + a, va, db + b, vb], b, "") == Ok(vb)
  {
    var input := [da + a, va, db + b, vb];
    FirstPairPasses(da, a, va, db, b, vb);
    OptionSelects(map[], input, 2, b, db, b);
    FirstSelected(map[], input, b, "", 2);
  }

  /** With only "-a va" on the command line, $b takes its default. */
  lemma MissingOption(a: string, va: string, b: string)
    requires a != [] && a[0] != '-' && a[|a| - 1] != '-'
    requires a != b && va != [] && va[0] != '-'
    ensures ValueFromArgs(map[], ["-" + a, va], b, "") == Ok("")
  {
    var input := ["-" + a, va];
    OptionPasses(map[], input, 0, a, "-", b);
    ValuePasses(map[], input, 1, b);
    NoneSelected(map[], input, b, "");
  }

  // ----- one line at a time -----

  /** A line run from its text: the trim, then the step on its tokens. */
  lemma LineRuns(st: Interp, line: string, trimmed: string, tokens: seq<string>, input: seq<string>)
    requires trimmed != [] && Text.TrimSpace(line) == trimmed && Tokens(trimmed) == tokens
    ensures forall k | 0 <= k < |tokens| :: tokens[k] != []
    ensures LineStep(st, line, input) == Step(st, tokens, input)
  {
    NonEmptyTokens(Text.FieldsFunc(trimmed, TokenSeparators));
  }

  /** A line, with or without one leading space, runs on the tokens of its text. */
  lemma PaddedLineRuns(st: Interp, line: string, body: string, tokens: seq<string>, input: seq<string>)
    requires body != [] && body[0] !in Text.Spaces && body[|body| - 1] !in Text.Spaces
    requires line == body || line == [' '] + body
    requires Tokens(body) == tokens
    ensures forall k | 0 <= k < |tokens| :: tokens[k] != []
    ensures LineStep(st, line, input) == Step(st, tokens, input)
  {
    if line == body {
      Text.TrimNothing(body, Text.Spaces);
    } else {
      Text.TrimSpaceLead(body);
    }
    LineRuns(st, line, body, tokens, input);
  }

  /** Lines that each step from one state to the next run to the last state. */
  lemma {:induction false} RunChain(lines: seq<string>, states: seq<Interp>, input: seq<string>)
    requires |states| == |lines| + 1
    requires forall k | 0 <= k < |lines| :: LineStep(states[k], lines[k], input) == Ok(states[k + 1])
    ensures RunLines(states[0], lines, input) == Ok(states[|lines|])
    decreases |lines|
  {
    if lines != [] {
      var rest, later := lines[1..], states[1..];
      forall k | 0 <= k < |rest|
        ensures LineStep(later[k], rest[k], input) == Ok(later[k + 1])
      {
        assert later[k] == states[k + 1] && rest[k] == lines[k + 1] && later[k + 1] == states[k + 2];
      }
      RunChain(rest, later, input);
    }
  }

  // ----- steps -----

  /** A line that is not a keyword declares, under a true top. */
  lemma StepDeclares(st: Interp, tokens: seq<string>, input: seq<string>)
    requires forall k | 0 <= k < |tokens| :: tokens[k] != []
    requires |tokens| >= 2 && RunLine(st.stack)
    requires tokens[0] != "link" && tokens[0] != "alias" && tokens[0] != "if" && tokens[0] != "end" && tokens[0] != "//"
    ensures Step(st, tokens, input) == Declare(st, tokens, input)
  {
  }

  /** "name = $opt" under a true top assigns the option's value to the plain name. */
  lemma OptionDeclareStep(st: Interp, name: string, arg: string, v: string, input: seq<string>)
    requires name != [] && '.' !in name && RunLine(st.stack)
    requires name != "link" && name != "alias" && name != "if" && name != "end" && name != "//"
    requires |arg| >= 2 && arg[0] == '$' && ValueFromArgs(st.aliasMap, input, arg[1..], "") == Ok(v)
    ensures Step(st, [name, arg], input) == Ok(st.(variables := Assign(st.variables, [name], v)))
  {
    var tokens := [name, arg];
    StepDeclares(st, tokens, input);
    Text.SplitWhole(name, '.');
  }

  /** A declaration under a false top changes nothing. */
  lemma SkippedStep(st: Interp, tokens: seq<string>, input: seq<string>)
    requires forall k | 0 <= k < |tokens| :: tokens[k] != []
    requires |tokens| >= 2 && !RunLine(st.stack)
    requires tokens[0] != "end" && tokens[0] != "//"
    ensures Step(st, tokens, input) == Ok(st)
  {
  }

  /** "if $opt" under a true top pushes whether the option's value is not empty. */
  lemma IfStep(st: Interp, arg: string, v: string, input: seq<string>)
    requires |arg| >= 2 && arg[0] == '$' && RunLine(st.stack)
    requires ValueFromArgs(st.aliasMap, input, arg[1..], "") == Ok(v)
    ensures Step(st, ["if", arg], input) == Ok(st.(stack := st.stack + [v != ""]))
  {
    assert ["if", arg][1] == arg;
  }

  /** A plain name not yet declared is added at the top level. */
  lemma AssignNew(vars: seq<ScriptVar>, name: string, v: string)
    requires forall j | 0 <= j < |vars| :: vars[j].name != name
    ensures Assign(vars, [name], v) == vars + [ScriptVar(name, ValueVar, v, [])]
  {
    assert LastMatch(vars, name) == None;
  }

  /** A plain name already declared gets the new value in place. */
  lemma AssignExisting(vars: seq<ScriptVar>, name: string, v: string, k: nat)
    requires LastMatch(vars, name) == Some(k)
    ensures Assign(vars, [name], v) == vars[k := vars[k].(value := v)]
  {
    assert [name][1..] == [];
    var r := Resolve(vars[k].attributes, [], false);
    assert r == (vars[k].attributes, Some([]));
    assert vars[k := vars[k].(attributes := r.0)] == vars;
    assert [k] + [] == [k];
  }

  // ----- TestDeclareVarInScript: "x = $x; x.a = $yes;" with --yes bye -x hi -----

  const DeclareInput := ["--yes", "bye", "-x", "hi"]
  const DeclaredX := ScriptVar("x", ValueVar, "hi", [])

  /** "$x" takes "hi", the argument after "-x"; "$yes" takes "bye", the argument after "--yes". */
  lemma DeclareOptions()
    ensures ValueFromArgs(map[], DeclareInput, "x", "") == Ok("hi")
    ensures ValueFromArgs(map[], DeclareInput, "yes", "") == Ok("bye")
  {
    assert "--" + "yes" == "--yes" && "-" + "x" == "-x";
    assert DeclareInput == ["--" + "yes", "bye", "-" + "x", "hi"];
    LeadingOption("--", "yes", "bye", ["-" + "x", "hi"]);
    assert ["--" + "yes", "bye"] + ["-" + "x", "hi"] == ["--" + "yes", "bye", "-" + "x", "hi"];
    SecondOption("--", "yes", "bye", "-", "x", "hi");
  }

  lemma DeclareFirstTokens()
    ensures Tokens("x = $x") == ["x", "$x"]
  {
    assert Text.Clean("x", TokenSeparators) && Text.Clean("$x", TokenSeparators);
    DeclareTokens("x", "$x");
    assert "x" + " = " + "$x" == "x = $x";
  }

  /** The text facts the lines "x = $x", " x = $x" and "x = $y" need. */
  lemma DeclareText()
    ensures "x = $x"[0] !in Text.Spaces && "x = $x"[5] !in Text.Spaces && |"x = $x"| == 6
    ensures "x = $y"[0] !in Text.Spaces && "x = $y"[5] !in Text.Spaces && |"x = $y"| == 6
    ensures " x = $x" == [' '] + "x = $x" && " x = $y" == [' '] + "x = $y"
    ensures |"$x"| == 2 && "$x"[0] == '$' && "$x"[1..] == "x"
    ensures |"$y"| == 2 && "$y"[0] == '$' && "$y"[1..] == "y"
  {
  }

  /** "x = $x" as a first declaration: x is added with the value of $x. */
  lemma DeclareNewX(st: Interp, input: seq<string>, v: string)
    requires st.variables == [] && RunLine(st.stack)
    requires ValueFromArgs(st.aliasMap, input, "x", "") == Ok(v)
    ensures Step(st, ["x", "$x"], input) == Ok(st.(variables := [ScriptVar("x", ValueVar, v, [])]))
  {
    DeclareText();
    OptionDeclareStep(st, "x", "$x", v, input);
    AssignNew([], "x", v);
    assert [] + [ScriptVar("x", ValueVar, v, [])] == [ScriptVar("x", ValueVar, v, [])];
  }

  /** "x = $x" as the first line: x is added with the value of -x. */
  lemma DeclareFirstLine()
    ensures LineStep(Empty, "x = $x", DeclareInput) == Ok(Empty.(variables := [DeclaredX]))
  {
    DeclareFirstTokens();
    DeclareText();
    PaddedLineRuns(Empty, "x = $x", "x = $x", ["x", "$x"], DeclareInput);
    DeclareOptions();
    DeclareNewX(Empty, DeclareInput, "hi");
  }

  /** "x.a" splits into its two components; "x" exists and has no "a" yet. */
  lemma DeclareSecondAssign()
    ensures Text.Split("x.a", '.') == ["x", "a"]
    ensures Assign([DeclaredX], ["x", "a"], "bye") == [DeclaredX.(attributes := [ScriptVar("a", ValueVar, "bye", [])])]
  {
    assert "x.a" == "x" + ['.'] + "a";
    Text.SplitAfter("x", '.', "a");
    Text.SplitWhole("x", '.');
    var vars := [DeclaredX];
    assert LastMatch(vars, "x") == Some(0);
    assert ["x", "a"][1..] == ["a"] && ["x"][1..] == [];
    assert Resolve([], ["a"], false) == ([], None);
    assert Resolve(vars, ["x", "a"], false).1 == None;
    assert ["x", "a"][..1] == ["x"];
    assert Resolve([], [], true) == ([], Some([]));
    assert vars[0].attributes == [] && [0] + [] == [0] && [0][1..] == [];
    assert vars[0 := vars[0].(attributes := [])] == vars;
    assert Resolve(vars, ["x"], true) == (vars, Some([0]));
    var a := ScriptVar("a", ValueVar, "bye", []);
    assert ChildrenAt(vars, [0]) == [];
    assert ReplaceChildren([], [], [a]) == [a];
    assert [] + [a] == [a];
    assert ReplaceChildren(vars, [0], [a]) == [DeclaredX.(attributes := [a])];
  }

  lemma DeclareSecondStep()
    ensures Step(Empty.(variables := [DeclaredX]), ["x.a", "$yes"], DeclareInput)
         == Ok(Empty.(variables := [DeclaredX.(attributes := [ScriptVar("a", ValueVar, "bye", [])])]))
  {
    var st := Empty.(variables := [DeclaredX]);
    var tokens := ["x.a", "$yes"];
    assert tokens[0][0] == 'x' && tokens[0] != "end";
    StepDeclares(st, tokens, DeclareInput);
    DeclareOptions();
    assert tokens[1][1..] == "yes" && tokens[1][0] == '$';
    assert DeclaredValue(st, tokens, DeclareInput) == Ok("bye");
    DeclareSecondAssign();
  }

  lemma DottedClean()
    ensures Text.Clean("x.a", TokenSeparators) && Text.Clean("$yes", TokenSeparators)
  {
    assert "x.a"[1] == '.';
  }

  lemma DeclareSecondTokens()
    ensures Tokens("x.a = $yes") == ["x.a", "$yes"]
  {
    DottedClean();
    DeclareTokens("x.a", "$yes");
    assert "x.a" + " = " + "$yes" == "x.a = $yes";
  }

  lemma DeclareSecondText()
    ensures "x.a = $yes"[0] !in Text.Spaces && "x.a = $yes"[9] !in Text.Spaces && |"x.a = $yes"| == 10
    ensures " x.a = $yes" == [' '] + "x.a = $yes"
  {
  }

  /** " x.a = $yes" as the second line: x gets the attribute a with the value of --yes. */
  lemma DeclareSecondLine()
    ensures LineStep(Empty.(variables := [DeclaredX]), " x.a = $yes", DeclareInput)
         == Ok(Empty.(variables := [DeclaredX.(attributes := [ScriptVar("a", ValueVar, "bye", [])])]))
  {
    DeclareSecondText();
    DeclareSecondTokens();
    PaddedLineRuns(Empty.(variables := [DeclaredX]), " x.a = $yes", "x.a = $yes", ["x.a", "$yes"], DeclareInput);
    DeclareSecondStep();
  }

  /** The test's script gives x = "hi" with one attribute a = "bye". */
  lemma DeclareVarInScript()
    ensures RunLines(Empty, Lines("x = $x; x.a = $yes;"), DeclareInput)
         == Ok(Empty.(variables := [ScriptVar("x", ValueVar, "hi", [ScriptVar("a", ValueVar, "bye", [])])]))
  {
    DeclareScriptLines();
    DeclareFirstLine();
    DeclareSecondLine();
    var lines := ["x = $x", " x.a = $yes"];
    var states := [Empty, Empty.(variables := [DeclaredX]),
      Empty.(variables := [DeclaredX.(attributes := [ScriptVar("a", ValueVar, "bye", [])])])];
    forall k | 0 <= k < |lines|
      ensures LineStep(states[k], lines[k], DeclareInput) == Ok(states[k + 1])
    {
      if k == 0 { } else { }
    }
    RunChain(lines, states, DeclareInput);
  }

  // ----- TestSetAlias: "alias(test, x); x = $x;" with --test hi -----

  const AliasInput := ["--test", "hi"]
  const TestAlias := Empty.(aliasMap := map["test" := "x"])

  /** "--test" stands for -x once test is an alias of x. */
  lemma AliasOption()
    ensures ValueFromArgs(map["test" := "x"], AliasInput, "x", "") == Ok("hi")
  {
    var aliases := map["test" := "x"];
    assert AliasInput[0] == "--" + "test";
    OptionSelects(aliases, AliasInput, 0, "test", "--", "x");
    FirstSelected(aliases, AliasInput, "x", "", 0);
  }

  lemma AliasText()
    ensures "alias(test, x)"[0] !in Text.Spaces && "alias(test, x)"[13] !in Text.Spaces && |"alias(test, x)"| == 14
  {
  }

  /** An alias line under a true top records the alias. */
  lemma AliasStep(st: Interp, name: string, target: string, input: seq<string>)
    requires name != [] && target != [] && RunLine(st.stack)
    ensures Step(st, ["alias", name, target], input) == Ok(st.(aliasMap := st.aliasMap[name := target]))
  {
    assert ["alias", name, target][0] == "alias";
  }

  lemma AliasFirstLine()
    ensures LineStep(Empty, "alias(test, x)", AliasInput) == Ok(TestAlias)
  {
    AliasText();
    AliasTokens();
    PaddedLineRuns(Empty, "alias(test, x)", "alias(test, x)", ["alias", "test", "x"], AliasInput);
    AliasStep(Empty, "test", "x", AliasInput);
  }

  lemma AliasSecondLine()
    ensures LineStep(TestAlias, " x = $x", AliasInput) == Ok(TestAlias.(variables := [DeclaredX]))
  {
    DeclareFirstTokens();
    DeclareText();
    PaddedLineRuns(TestAlias, " x = $x", "x = $x", ["x", "$x"], AliasInput);
    AliasOption();
    DeclareNewX(TestAlias, AliasInput, "hi");
  }

  /** The test's script gives x the value passed as --test. */
  lemma SetAlias()
    ensures RunLines(Empty, Lines("alias(test, x); x = $x;"), AliasInput)
         == Ok(Empty.(aliasMap := map["test" := "x"], variables := [ScriptVar("x", ValueVar, "hi", [])]))
  {
    AliasScriptLines();
    AliasFirstLine();
    AliasSecondLine();
    var lines := ["alias(test, x)", " x = $x"];
    var states := [Empty, TestAlias, TestAlias.(variables := [DeclaredX])];
    forall k | 0 <= k < |lines|
      ensures LineStep(states[k], lines[k], AliasInput) == Ok(states[k + 1])
    {
      if k == 0 { } else { }
    }
    RunChain(lines, states, AliasInput);
  }

  // ----- TestRunNestedConditional and TestRunPartialNestedConditional -----

  const NestedScript := "if $x; x = $x; if $y; x = $y; end; end;"
  const NestedLines := ["if $x", " x = $x", " if $y", " x = $y", " end", " end"]

  lemma IfXTokens()
    ensures Tokens("if $x") == ["if", "$x"]
  {
    assert Text.Clean("if", TokenSeparators) && Text.Clean("$x", TokenSeparators);
    KeywordTokens("if", "$x");
    assert "if" + " " + "$x" == "if $x";
  }

  lemma IfYTokens()
    ensures Tokens("if $y") == ["if", "$y"]
  {
    assert Text.Clean("if", TokenSeparators) && Text.Clean("$y", TokenSeparators);
    KeywordTokens("if", "$y");
    assert "if" + " " + "$y" == "if $y";
  }

  lemma DeclareYTokens()
    ensures Tokens("x = $y") == ["x", "$y"]
  {
    assert Text.Clean("x", TokenSeparators) && Text.Clean("$y", TokenSeparators);
    DeclareTokens("x", "$y");
    assert "x" + " = " + "$y" == "x = $y";
  }

  /** The states of the nested script, line by line, given the values of $x and $y. */
  function NestedStates(vx: string, vy: string): seq<Interp>
  {
    var s1 := Empty.(stack := [vx != ""]);
    var s2 := s1.(variables := [ScriptVar("x", ValueVar, vx, [])]);
    var s3 := s2.(stack := [vx != "", vy != ""]);
    var s4 := if vy != "" then s3.(variables := [ScriptVar("x", ValueVar, vy, [])]) else s3;
    var s5 := s4.(stack := [vx != ""]);
    [Empty, s1, s2, s3, s4, s5, s5.(stack := [])]
  }

  /** What $x and $y take on the command line; $x is set. */
  predicate NestedInput(input: seq<string>, vx: string, vy: string)
  {
    vx != [] && ValueFromArgs(map[], input, "x", "") == Ok(vx) && ValueFromArgs(map[], input, "y", "") == Ok(vy)
  }

  lemma IfText()
    ensures "if $x"[0] !in Text.Spaces && "if $x"[4] !in Text.Spaces && |"if $x"| == 5
    ensures "if $y"[0] !in Text.Spaces && "if $y"[4] !in Text.Spaces && |"if $y"| == 5
    ensures " if $y" == [' '] + "if $y"
  {
  }

  lemma NestedStep0(input: seq<string>, vx: string, vy: string)
    requires NestedInput(input, vx, vy)
    ensures Step(Empty, ["if", "$x"], input) == Ok(NestedStates(vx, vy)[1])
  {
    DeclareText();
    IfStep(Empty, "$x", vx, input);
    assert [] + [true] == [true];
  }

  lemma NestedLine0(input: seq<string>, vx: string, vy: string)
    requires NestedInput(input, vx, vy)
    ensures LineStep(NestedStates(vx, vy)[0], NestedLines[0], input) == Ok(NestedStates(vx, vy)[1])
  {
    assert NestedStates(vx, vy)[0] == Empty && NestedLines[0] == "if $x";
    IfXTokens();
    IfText();
    PaddedLineRuns(Empty, "if $x", "if $x", ["if", "$x"], input);
    NestedStep0(input, vx, vy);
  }

  lemma NestedStep1(input: seq<string>, vx: string, vy: string)
    requires NestedInput(input, vx, vy)
    ensures Step(NestedStates(vx, vy)[1], ["x", "$x"], input) == Ok(NestedStates(vx, vy)[2])
  {
    var st := NestedStates(vx, vy)[1];
    assert st.variables == [] && st.stack == [true] && st.aliasMap == map[];
    DeclareNewX(st, input, vx);
  }

  lemma NestedLine1(input: seq<string>, vx: string, vy: string)
    requires NestedInput(input, vx, vy)
    ensures LineStep(NestedStates(vx, vy)[1], NestedLines[1], input) == Ok(NestedStates(vx, vy)[2])
  {
    assert NestedLines[1] == " x = $x";
    DeclareFirstTokens();
    DeclareText();
    PaddedLineRuns(NestedStates(vx, vy)[1], " x = $x", "x = $x", ["x", "$x"], input);
    NestedStep1(input, vx, vy);
  }

  lemma NestedStep2(input: seq<string>, vx: string, vy: string)
    requires NestedInput(input, vx, vy)
    ensures Step(NestedStates(vx, vy)[2], ["if", "$y"], input) == Ok(NestedStates(vx, vy)[3])
  {
    DeclareText();
    IfStep(NestedStates(vx, vy)[2], "$y", vy, input);
    assert [vx != ""] + [vy != ""] == [vx != "", vy != ""];
  }

  lemma NestedLine2(input: seq<string>, vx: string, vy: string)
    requires NestedInput(input, vx, vy)
    ensures LineStep(NestedStates(vx, vy)[2], NestedLines[2], input) == Ok(NestedStates(vx, vy)[3])
  {
    assert NestedLines[2] == " if $y";
    IfYTokens();
    IfText();
    PaddedLineRuns(NestedStates(vx, vy)[2], " if $y", "if $y", ["if", "$y"], input);
    NestedStep2(input, vx, vy);
  }

  lemma NestedStep3(input: seq<string>, vx: string, vy: string)
    requires NestedInput(input, vx, vy)
    ensures Step(NestedStates(vx, vy)[3], ["x", "$y"], input) == Ok(NestedStates(vx, vy)[4])
  {
    if vy != "" {
      NestedAssignY(input, vx, vy);
    } else {
      SkippedStep(NestedStates(vx, vy)[3], ["x", "$y"], input);
    }
  }

  /** With $y set, " x = $y" overwrites the value of x. */
  lemma NestedAssignY(input: seq<string>, vx: string, vy: string)
    requires NestedInput(input, vx, vy) && vy != ""
    ensures Step(NestedStates(vx, vy)[3], ["x", "$y"], input) == Ok(NestedStates(vx, vy)[4])
  {
    var st := NestedStates(vx, vy)[3];
    DeclareText();
    OptionDeclareStep(st, "x", "$y", vy, input);
    var xv := ScriptVar("x", ValueVar, vx, []);
    assert LastMatch([xv], "x") == Some(0);
    AssignExisting([xv], "x", vy, 0);
    assert [xv][0 := xv.(value := vy)] == [ScriptVar("x", ValueVar, vy, [])];
  }

  lemma NestedLine3(input: seq<string>, vx: string, vy: string)
    requires NestedInput(input, vx, vy)
    ensures LineStep(NestedStates(vx, vy)[3], NestedLines[3], input) == Ok(NestedStates(vx, vy)[4])
  {
    assert NestedLines[3] == " x = $y";
    DeclareYTokens();
    DeclareText();
    PaddedLineRuns(NestedStates(vx, vy)[3], " x = $y", "x = $y", ["x", "$y"], input);
    NestedStep3(input, vx, vy);
  }

  /** "end" pops the top of the stack, whether or not the top is true. */
  lemma EndStep(st: Interp, input: seq<string>)
    ensures Step(st, ["end"], input) == Ok(st.(stack := End(st.stack)))
  {
    assert ["end"][0] == "end";
  }

  lemma EndText()
    ensures " end" == [' '] + "end" && "end"[0] !in Text.Spaces && "end"[2] !in Text.Spaces
  {
  }

  /** " end" pops the top of the stack. */
  lemma EndLine(st: Interp, input: seq<string>)
    ensures LineStep(st, " end", input) == Ok(st.(stack := End(st.stack)))
  {
    EndTokens();
    EndText();
    PaddedLineRuns(st, " end", "end", ["end"], input);
    EndStep(st, input);
  }

  lemma NestedLine4(input: seq<string>, vx: string, vy: string)
    requires NestedInput(input, vx, vy)
    ensures LineStep(NestedStates(vx, vy)[4], NestedLines[4], input) == Ok(NestedStates(vx, vy)[5])
  {
    var states := NestedStates(vx, vy);
    assert NestedLines[4] == " end";
    EndLine(states[4], input);
    assert states[4].stack == [vx != "", vy != ""];
    assert End(states[4].stack) == [vx != ""];
  }

  lemma NestedLine5(input: seq<string>, vx: string, vy: string)
    requires NestedInput(input, vx, vy)
    ensures LineStep(NestedStates(vx, vy)[5], NestedLines[5], input) == Ok(NestedStates(vx, vy)[6])
  {
    assert NestedLines[5] == " end";
    EndLine(NestedStates(vx, vy)[5], input);
  }

  lemma NestedOpening(input: seq<string>, vx: string, vy: string)
    requires NestedInput(input, vx, vy)
    ensures forall k | 0 <= k < 3 :: LineStep(NestedStates(vx, vy)[k], NestedLines[k], input) == Ok(NestedStates(vx, vy)[k + 1])
  {
    var states, lines := NestedStates(vx, vy), NestedLines;
    NestedLine0(input, vx, vy);
    NestedLine1(input, vx, vy);
    NestedLine2(input, vx, vy);
    assert LineStep(states[0], lines[0], input) == Ok(states[1]);
    assert LineStep(states[1], lines[1], input) == Ok(states[2]);
    assert LineStep(states[2], lines[2], input) == Ok(states[3]);
    assert forall k | 0 <= k < 3 :: LineStep(states[k], lines[k], input) == Ok(states[k + 1]);
  }

  lemma NestedClosing(input: seq<string>, vx: string, vy: string)
    requires NestedInput(input, vx, vy)
    ensures forall k | 3 <= k < 6 :: LineStep(NestedStates(vx, vy)[k], NestedLines[k], input) == Ok(NestedStates(vx, vy)[k + 1])
  {
    var states, lines := NestedStates(vx, vy), NestedLines;
    NestedLine3(input, vx, vy);
    NestedLine4(input, vx, vy);
    NestedLine5(input, vx, vy);
    assert LineStep(states[3], lines[3], input) == Ok(states[4]);
    assert LineStep(states[4], lines[4], input) == Ok(states[5]);
    assert LineStep(states[5], lines[5], input) == Ok(states[6]);
    assert forall k | 3 <= k < 6 :: LineStep(states[k], lines[k], input) == Ok(states[k + 1]);
  }

  /** With $x set, each line of the nested script steps to the next state. */
  lemma NestedSteps(input: seq<string>, vx: string, vy: string)
    requires NestedInput(input, vx, vy)
    ensures forall k | 0 <= k < 6 :: LineStep(NestedStates(vx, vy)[k], NestedLines[k], input) == Ok(NestedStates(vx, vy)[k + 1])
  {
    NestedOpening(input, vx, vy);
    NestedClosing(input, vx, vy);
  }

  /** The script's lines under -x hi -y bye: x ends as "bye" and every block is closed. */
  lemma RunNestedConditional()
    ensures RunLines(Empty, Lines(NestedScript), ["-x", "hi", "-y", "bye"])
         == Ok(Empty.(variables := [ScriptVar("x", ValueVar, "bye", [])]))
  {
    var input := ["-x", "hi", "-y", "bye"];
    assert "-" + "x" == "-x" && "-" + "y" == "-y";
    assert input == ["-" + "x", "hi"] + ["-" + "y", "bye"];
    LeadingOption("-", "x", "hi", ["-" + "y", "bye"]);
    SecondOption("-", "x", "hi", "-", "y", "bye");
    ConditionalScriptLines();
    assert NestedInput(input, "hi", "bye");
    NestedSteps(input, "hi", "bye");
    RunChain(NestedLines, NestedStates("hi", "bye"), input);
  }

  /** The script's lines under -x hi alone: the inner block is skipped, so x stays "hi". */
  lemma RunPartialNestedConditional()
    ensures RunLines(Empty, Lines(NestedScript), ["-x", "hi"])
         == Ok(Empty.(variables := [ScriptVar("x", ValueVar, "hi", [])]))
  {
    var input := ["-x", "hi"];
    assert "-" + "x" == "-x";
    assert input == ["-" + "x", "hi"] + [];
    LeadingOption("-", "x", "hi", []);
    MissingOption("x", "hi", "y");
    ConditionalScriptLines();
    assert NestedInput(input, "hi", "");
    NestedSteps(input, "hi", "");
    RunChain(NestedLines, NestedStates("hi", ""), input);
  }

  // ----- TestGetEmptyAttributeString and TestGetRecursiveAttributeString -----

  /** A plugin without parameters prints as an empty object. */
  lemma EmptyAttributeString()
    ensures AttributeStr(ScriptVar("dummy", PluginVar, "dummy_1", [])) == "{}"
  {
    ObjectOfAttributes(ScriptVar("dummy", PluginVar, "dummy_1", []));
  }

  /** One attribute prints as "{\"name\":<its text>}". */
  lemma SingleAttribute(v: ScriptVar)
    requires |v.attributes| == 1
    ensures AttributeStr(v) == "{" + Quoted(v.attributes[0].name) + ":" + AttributeStr(v.attributes[0]) + "}"
  {
    var parts := seq(1, i requires 0 <= i < 1 => Quoted(v.attributes[i].name) + ":" + AttributeStr(v.attributes[i]));
    assert parts == [Quoted(v.attributes[0].name) + ":" + AttributeStr(v.attributes[0])];
  }

  /** Two attributes print as their two members joined by a comma. */
  lemma PairOfAttributes(v: ScriptVar)
    requires |v.attributes| == 2
    ensures AttributeStr(v) == "{" + ((Quoted(v.attributes[0].name) + ":" + AttributeStr(v.attributes[0]))
      + "," + (Quoted(v.attributes[1].name) + ":" + AttributeStr(v.attributes[1]))) + "}"
  {
    var p0 := Quoted(v.attributes[0].name) + ":" + AttributeStr(v.attributes[0]);
    var p1 := Quoted(v.attributes[1].name) + ":" + AttributeStr(v.attributes[1]);
    var parts := seq(|v.attributes|, i requires 0 <= i < |v.attributes| =>
      Quoted(v.attributes[i].name) + ":" + AttributeStr(v.attributes[i]));
    assert AttributeStr(v) == "{" + Text.Join(parts, ",") + "}";
    assert Text.Join(parts, ",") == p0 + "," + p1 by {
      assert parts == [p0, p1] by {
        assert |parts| == 2 && parts[0] == p0 && parts[1] == p1;
      }
      JoinPair(p0, p1, ",");
    }
  }

  lemma JoinPair(a: string, b: string, sep: string)
    ensures Text.Join([a, b], sep) == a + sep + b
  {
    assert [a, b][..1] == [a];
  }

  /** "abc" is not an integer or a boolean; "3" is an integer. */
  lemma LeafValues()
    ensures !Bare("abc") && Bare("3")
  {
    assert !Text.IsDigit("abc"[0]);
    assert Text.Unsigned("3") == "3";
    assert Text.DecimalValue("3") == 3 by {
      assert "3"[..0] == [];
    }
  }

  /** x with the attribute a = "abc" prints as an object holding a's quoted value. */
  lemma NestedAttributeString()
    ensures AttributeStr(ScriptVar("x", ValueVar, "", [ScriptVar("a", ValueVar, "abc", [])])) == "{\"a\":\"abc\"}"
  {
    var a := ScriptVar("a", ValueVar, "abc", []);
    LeafValues();
    LeafQuoting(a);
    SingleAttribute(ScriptVar("x", ValueVar, "", [a]));
    assert "{" + Quoted("a") + ":" + Quoted("abc") + "}" == "{\"a\":\"abc\"}";
  }

  lemma RecursiveAttributeText()
    ensures "{" + ((Quoted("x") + ":" + "{\"a\":\"abc\"}") + "," + (Quoted("y") + ":" + "3")) + "}"
      == "{\"x\":{\"a\":\"abc\"},\"y\":3}"
  {
  }

  /** x has the attribute a = "abc" and y is 3: the object nests x's attributes and prints 3 bare. */
  lemma RecursiveAttributeString()
    ensures AttributeStr(ScriptVar("dummy", PluginVar, "dummy_1", [
        ScriptVar("x", ValueVar, "", [ScriptVar("a", ValueVar, "abc", [])]),
        ScriptVar("y", ValueVar, "3", [])]))
      == "{\"x\":{\"a\":\"abc\"},\"y\":3}"
  {
    var x := ScriptVar("x", ValueVar, "", [ScriptVar("a", ValueVar, "abc", [])]);
    var y := ScriptVar("y", ValueVar, "3", []);
    LeafValues();
    LeafQuoting(y);
    NestedAttributeString();
    PairOfAttributes(ScriptVar("dummy", PluginVar, "dummy_1", [x, y]));
    RecursiveAttributeText();
  }
}
