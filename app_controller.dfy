/**
 * The controller's script interpreter (controller/app.go). An app script is
 * a list of lines separated by ';' or a newline. Each line declares a plugin
 * ("name = #Plugin"), a value from the command line ("x = $opt default"), a
 * value or another variable's value ("x = y"), an alias for a command-line
 * option, a link between two plugins, a comment holding the app's
 * description, or opens ("if $opt") or closes ("end") a conditional block.
 *
 * Variables form a tree: a dotted name "x.a" names attribute a of x. The
 * source shares the tree's nodes by pointer and returns a pointer to the node
 * it finds; here the tree is a value and a node is named by its index path
 * (the index of each node among its parent's attributes, from the top).
 */
module AppController {
  import opened Wrappers
  import Text

  datatype VarType = PluginVar | ValueVar

  datatype ScriptVar = ScriptVar(name: string, varType: VarType, value: string, attributes: seq<ScriptVar>)

  /** The panics of the interpreter. */
  datatype ScriptError =
    | MissingToken          // a token index past the end of the line's tokens
    | EmptyArgument         // the first rune of an empty command-line argument
    | WrongLinkArity(n: nat) // "Wrong number of input" for link
    | UnknownCondition      // an if whose condition does not start with '$'

  // ----- getAttributeStr -----

  function Quoted(s: string): string
  {
    "\"" + s + "\""
  }

  /** A value printed bare: strconv.Atoi accepts it, or it is a boolean. */
  predicate Bare(value: string)
  {
    Text.AtoiAccepts(value) || value == "true" || value == "false"
  }

  /**
   * The JSON text of a variable's attributes: an object with one member per
   * attribute for a plugin or a variable with attributes, otherwise the value,
   * quoted unless it is an integer or a boolean.
   */
  function AttributeStr(v: ScriptVar): string
    decreases v
  {
    if |v.attributes| != 0 || v.varType == PluginVar then
      "{" + Text.Join(seq(|v.attributes|, i requires 0 <= i < |v.attributes| =>
        Quoted(v.attributes[i].name) + ":" + AttributeStr(v.attributes[i])), ",") + "}"
    else if Bare(v.value) then v.value
    else Quoted(v.value)
  }

  /** A plugin or a variable with attributes prints as an object; a plugin without attributes as "{}". */
  lemma ObjectOfAttributes(v: ScriptVar)
    requires |v.attributes| != 0 || v.varType == PluginVar
    ensures |AttributeStr(v)| >= 2 && AttributeStr(v)[0] == '{' && AttributeStr(v)[|AttributeStr(v)| - 1] == '}'
    ensures v.attributes == [] ==> AttributeStr(v) == "{}"
  {
  }

  /** A leaf prints as its value exactly when the value is an integer or a boolean, and quoted otherwise. */
  lemma LeafQuoting(v: ScriptVar)
    requires v.attributes == [] && v.varType == ValueVar
    ensures Bare(v.value) ==> AttributeStr(v) == v.value
    ensures !Bare(v.value) ==> AttributeStr(v) == Quoted(v.value)
  {
  }

  /** Every int's decimal text prints bare. */
  lemma IntegerLeafBare(v: ScriptVar, n: int)
    requires v.attributes == [] && v.varType == ValueVar && v.value == Text.Itoa(n)
    requires -Text.Int64Max - 1 <= n <= Text.Int64Max
    ensures AttributeStr(v) == Text.Itoa(n)
  {
    Text.ItoaAtoi(n);
  }

  // ----- finding a child by name -----

  /** The index of the last child with the name: getVariable's scan keeps the last match. */
  function LastMatch(children: seq<ScriptVar>, name: string): (r: Option<nat>)
    ensures r.Some? ==> r.value < |children| && children[r.value].name == name
    ensures r.Some? ==> forall j | r.value < j < |children| :: children[j].name != name
    ensures r.None? ==> forall j | 0 <= j < |children| :: children[j].name != name
  {
    if children == [] then None
    else if children[|children| - 1].name == name then Some(|children| - 1)
    else LastMatch(children[..|children| - 1], name)
  }

  /** The index of the first child with the name: getValueFromName returns the first match. */
  function FirstMatch(children: seq<ScriptVar>, name: string): (r: Option<nat>)
    ensures r.Some? ==> r.value < |children| && children[r.value].name == name
    ensures r.Some? ==> forall j | 0 <= j < r.value :: children[j].name != name
    ensures r.None? ==> forall j | 0 <= j < |children| :: children[j].name != name
  {
    if children == [] then None
    else if children[0].name == name then Some(0)
    else
      var r := FirstMatch(children[1..], name);
      if r.None? then None else Some(r.value + 1)
  }

  /** getValueFromName: the value of the first top-level variable with the name, "" when there is none. */
  function ValueOfName(vars: seq<ScriptVar>, name: string): string
  {
    var k := FirstMatch(vars, name);
    if k.None? then "" else vars[k.value].value
  }

  /** resolveRHS: another variable's value when it is not empty, else the text itself. */
  function ResolvedRHS(vars: seq<ScriptVar>, rhs: string): (r: string)
    ensures ValueOfName(vars, rhs) != "" ==> r == ValueOfName(vars, rhs)
    ensures ValueOfName(vars, rhs) == "" ==> r == rhs
  {
    var x := ValueOfName(vars, rhs);
    if x != "" then x else rhs
  }

  // ----- index paths into the variable tree -----

  predicate ValidPath(vars: seq<ScriptVar>, p: seq<nat>)
    decreases |p|
  {
    p == [] || (p[0] < |vars| && ValidPath(vars[p[0]].attributes, p[1..]))
  }

  /** The attributes of the node at p; the top-level variables for the empty path. */
  function ChildrenAt(vars: seq<ScriptVar>, p: seq<nat>): seq<ScriptVar>
    requires ValidPath(vars, p)
    decreases |p|
  {
    if p == [] then vars else ChildrenAt(vars[p[0]].attributes, p[1..])
  }

  /** The names of the nodes along p. */
  function NamesAlong(vars: seq<ScriptVar>, p: seq<nat>): seq<string>
    requires ValidPath(vars, p)
    decreases |p|
  {
    if p == [] then [] else [vars[p[0]].name] + NamesAlong(vars[p[0]].attributes, p[1..])
  }

  /** The tree with the attributes of the node at p replaced by kids. */
  function ReplaceChildren(vars: seq<ScriptVar>, p: seq<nat>, kids: seq<ScriptVar>): (r: seq<ScriptVar>)
    requires ValidPath(vars, p)
    ensures p != [] ==> |r| == |vars|
    decreases |p|
  {
    if p == [] then kids
    else vars[p[0] := vars[p[0]].(attributes := ReplaceChildren(vars[p[0]].attributes, p[1..], kids))]
  }

  /** The tree with the value of the node at p set. */
  function SetValue(vars: seq<ScriptVar>, p: seq<nat>, value: string): seq<ScriptVar>
    requires p != [] && ValidPath(vars, p)
    decreases |p|
  {
    if |p| == 1 then vars[p[0] := vars[p[0]].(value := value)]
    else vars[p[0] := vars[p[0]].(attributes := SetValue(vars[p[0]].attributes, p[1..], value))]
  }

  lemma {:induction false} ReplaceSame(vars: seq<ScriptVar>, p: seq<nat>)
    requires ValidPath(vars, p)
    ensures ReplaceChildren(vars, p, ChildrenAt(vars, p)) == vars
    decreases |p|
  {
    if p != [] {
      ReplaceSame(vars[p[0]].attributes, p[1..]);
    }
  }

  /** Replacing the attributes at p and then at one of its children is one replacement at p. */
  lemma {:induction false} ReplaceNested(vars: seq<ScriptVar>, p: seq<nat>, kids: seq<ScriptVar>, i: nat, sub: seq<ScriptVar>)
    requires ValidPath(vars, p) && i < |kids|
    ensures ValidPath(ReplaceChildren(vars, p, kids), p + [i])
    ensures ChildrenAt(ReplaceChildren(vars, p, kids), p + [i]) == kids[i].attributes
    ensures ReplaceChildren(ReplaceChildren(vars, p, kids), p + [i], sub)
         == ReplaceChildren(vars, p, kids[i := kids[i].(attributes := sub)])
    decreases |p|
  {
    if p == [] {
      assert [i][1..] == [];
    } else {
      assert (p + [i])[0] == p[0] && (p + [i])[1..] == p[1..] + [i];
      ReplaceNested(vars[p[0]].attributes, p[1..], kids, i, sub);
    }
  }

  lemma ChildrenAtExtend(vars: seq<ScriptVar>, p: seq<nat>, i: nat)
    requires ValidPath(vars, p) && i < |ChildrenAt(vars, p)|
    ensures ValidPath(vars, p + [i]) && ChildrenAt(vars, p + [i]) == ChildrenAt(vars, p)[i].attributes
    ensures ReplaceChildren(vars, p + [i], ChildrenAt(vars, p)[i].attributes) == vars
  {
    ReplaceSame(vars, p);
    ReplaceNested(vars, p, ChildrenAt(vars, p), i, ChildrenAt(vars, p)[i].attributes);
    var kids := ChildrenAt(vars, p);
    assert kids[i := kids[i].(attributes := kids[i].attributes)] == kids;
  }

  // ----- getVariable -----

  function NewVar(name: string): ScriptVar
  {
    ScriptVar(name, ValueVar, "", [])
  }

  /**
   * getVariable from one level of the tree down: the children after any
   * creation, and the path of the node named by comps (the empty path when
   * comps is empty), or None when a component is missing and nothing may be
   * created. Each level follows the last child with the component's name.
   */
  function Resolve(children: seq<ScriptVar>, comps: seq<string>, create: bool): (seq<ScriptVar>, Option<seq<nat>>)
    decreases |comps|
  {
    if comps == [] then (children, Some([]))
    else
      var m := LastMatch(children, comps[0]);
      if m.None? && !create then (children, None)
      else
        var kids := if m.Some? then children else children + [NewVar(comps[0])];
        var i := if m.Some? then m.value else |children|;
        var r := Resolve(kids[i].attributes, comps[1..], create);
        (kids[i := kids[i].(attributes := r.0)], if r.1.None? then None else Some([i] + r.1.value))
  }

  /** The tree and found path of getVariable(components, create): nothing is found for no components. */
  function GetVariableSpec(vars: seq<ScriptVar>, comps: seq<string>, create: bool): (seq<ScriptVar>, Option<seq<nat>>)
  {
    if comps == [] then (vars, None) else Resolve(vars, comps, create)
  }

  /** The path found names the components, in the tree after any creation. */
  lemma {:induction false} ResolveNamesPath(children: seq<ScriptVar>, comps: seq<string>, create: bool)
    ensures var r := Resolve(children, comps, create);
      r.1.Some? ==> ValidPath(r.0, r.1.value) && NamesAlong(r.0, r.1.value) == comps
    decreases |comps|
  {
    if comps != [] {
      var m := LastMatch(children, comps[0]);
      if m.Some? || create {
        var kids := if m.Some? then children else children + [NewVar(comps[0])];
        var i := if m.Some? then m.value else |children|;
        ResolveNamesPath(kids[i].attributes, comps[1..], create);
      }
    }
  }

  /** With create, a node is always found; without, the tree is left as it was. */
  lemma {:induction false} ResolveCreates(children: seq<ScriptVar>, comps: seq<string>, create: bool)
    ensures create ==> Resolve(children, comps, create).1.Some?
    ensures !create ==> Resolve(children, comps, create).0 == children
    decreases |comps|
  {
    if comps != [] {
      var m := LastMatch(children, comps[0]);
      if m.Some? || create {
        var kids := if m.Some? then children else children + [NewVar(comps[0])];
        var i := if m.Some? then m.value else |children|;
        ResolveCreates(kids[i].attributes, comps[1..], create);
        if !create {
          assert kids[i := kids[i].(attributes := kids[i].attributes)] == children;
        }
      }
    }
  }

  /** When the node already exists, creating finds it and adds nothing. */
  lemma {:induction false} ExistingNotCreated(children: seq<ScriptVar>, comps: seq<string>)
    requires Resolve(children, comps, false).1.Some?
    ensures Resolve(children, comps, true) == Resolve(children, comps, false)
    decreases |comps|
  {
    if comps != [] {
      var i := LastMatch(children, comps[0]).value;
      ExistingNotCreated(children[i].attributes, comps[1..]);
    }
  }

  lemma LastMatchRenamed(a: seq<ScriptVar>, b: seq<ScriptVar>, name: string)
    requires |a| == |b| && forall j | 0 <= j < |a| :: a[j].name == b[j].name
    ensures LastMatch(a, name) == LastMatch(b, name)
  {
    var ra, rb := LastMatch(a, name), LastMatch(b, name);
    if ra.Some? && rb.Some? {
      assert !(ra.value < rb.value) && !(rb.value < ra.value);
    }
  }

  /** Looking up what was just created (or found) finds the same node and changes nothing. */
  lemma {:induction false} CreatedFound(children: seq<ScriptVar>, comps: seq<string>)
    ensures var c := Resolve(children, comps, true);
      Resolve(c.0, comps, false) == c
    decreases |comps|
  {
    if comps != [] {
      var m := LastMatch(children, comps[0]);
      var kids := if m.Some? then children else children + [NewVar(comps[0])];
      var i := if m.Some? then m.value else |children|;
      var r := Resolve(kids[i].attributes, comps[1..], true);
      var after := kids[i := kids[i].(attributes := r.0)];
      assert LastMatch(kids, comps[0]) == Some(i);
      LastMatchRenamed(kids, after, comps[0]);
      CreatedFound(kids[i].attributes, comps[1..]);
      ResolveCreates(kids[i].attributes, comps[1..], true);
      assert after[i].attributes == r.0;
      assert after[i := after[i].(attributes := r.0)] == after;
    }
  }

  /** The outcome of the search at p, placed back into the whole tree. */
  function Lift(vars: seq<ScriptVar>, p: seq<nat>, r: (seq<ScriptVar>, Option<seq<nat>>)): (seq<ScriptVar>, Option<seq<nat>>)
    requires ValidPath(vars, p)
  {
    (ReplaceChildren(vars, p, r.0), if r.1.None? then None else Some(p + r.1.value))
  }

  lemma PathJoin(p: seq<nat>, i: nat, q: seq<nat>)
    ensures p + ([i] + q) == (p + [i]) + q
  {
  }

  /** Following a matching child moves the search one level down. */
  lemma LiftDescend(vars: seq<ScriptVar>, p: seq<nat>, comps: seq<string>, create: bool, i: nat)
    requires ValidPath(vars, p) && comps != []
    requires LastMatch(ChildrenAt(vars, p), comps[0]) == Some(i)
    ensures ValidPath(vars, p + [i])
    ensures Lift(vars, p, Resolve(ChildrenAt(vars, p), comps, create))
         == Lift(vars, p + [i], Resolve(ChildrenAt(vars, p + [i]), comps[1..], create))
  {
    var children := ChildrenAt(vars, p);
    var r := Resolve(children[i].attributes, comps[1..], create);
    ChildrenAtExtend(vars, p, i);
    ReplaceSame(vars, p);
    ReplaceNested(vars, p, children, i, r.0);
    if r.1.Some? {
      PathJoin(p, i, r.1.value);
    }
  }

  /** A missing first component is created as a new last child, and the rest resolved inside it. */
  lemma ResolveNewChild(children: seq<ScriptVar>, comps: seq<string>)
    requires comps != [] && LastMatch(children, comps[0]).None?
    ensures var n := |children|;
      var kids := children + [NewVar(comps[0])];
      var r := Resolve([], comps[1..], true);
      Resolve(children, comps, true) == (kids[n := kids[n].(attributes := r.0)], if r.1.None? then None else Some([n] + r.1.value))
  {
    var kids := children + [NewVar(comps[0])];
    assert kids[|children|].attributes == [];
  }

  /** Creating a missing child moves the search one level down, into the new node. */
  lemma LiftCreate(vars: seq<ScriptVar>, p: seq<nat>, comps: seq<string>)
    requires ValidPath(vars, p) && comps != []
    requires LastMatch(ChildrenAt(vars, p), comps[0]).None?
    ensures var n := |ChildrenAt(vars, p)|;
      var after := ReplaceChildren(vars, p, ChildrenAt(vars, p) + [NewVar(comps[0])]);
      ValidPath(after, p + [n])
      && Lift(vars, p, Resolve(ChildrenAt(vars, p), comps, true))
         == Lift(after, p + [n], Resolve(ChildrenAt(after, p + [n]), comps[1..], true))
  {
    var children := ChildrenAt(vars, p);
    var n := |children|;
    var kids := children + [NewVar(comps[0])];
    var r := Resolve([], comps[1..], true);
    var after := ReplaceChildren(vars, p, kids);
    var grown := kids[n := kids[n].(attributes := r.0)];
    var found := if r.1.None? then None else Some([n] + r.1.value);
    assert Resolve(children, comps, true) == (grown, found) by {
      ResolveNewChild(children, comps);
    }
    assert ValidPath(after, p + [n]) && ChildrenAt(after, p + [n]) == []
        && ReplaceChildren(after, p + [n], r.0) == ReplaceChildren(vars, p, grown) by {
      ReplaceNested(vars, p, kids, n, r.0);
    }
    if r.1.Some? {
      PathJoin(p, n, r.1.value);
    }
  }

  /** A missing child ends a search that may not create: nothing found, nothing changed. */
  lemma LiftMissing(vars: seq<ScriptVar>, p: seq<nat>, comps: seq<string>)
    requires ValidPath(vars, p) && comps != []
    requires LastMatch(ChildrenAt(vars, p), comps[0]).None?
    ensures Lift(vars, p, Resolve(ChildrenAt(vars, p), comps, false)) == (vars, None)
  {
    ReplaceSame(vars, p);
  }

  /** With every component matched, the search has found the node at p. */
  lemma LiftDone(vars: seq<ScriptVar>, p: seq<nat>, create: bool)
    requires ValidPath(vars, p)
    ensures Lift(vars, p, Resolve(ChildrenAt(vars, p), [], create)) == (vars, Some(p))
  {
    ReplaceSame(vars, p);
    assert p + [] == p;
  }

  // ----- getValueFromArgs -----

  /** The option an alias stands for, or the name itself. */
  function Aliased(aliases: map<string, string>, name: string): string
  {
    if name in aliases then aliases[name] else name
  }

  /** Argument k is an option that names opt (after alias lookup) and has an argument after it. */
  predicate Selects(aliases: map<string, string>, input: seq<string>, opt: string, k: int)
  {
    0 <= k && k + 1 < |input| && input[k] != [] && input[k][0] == '-'
      && Aliased(aliases, Text.Trim(input[k], '-')) == opt
  }

  /** Argument k is scanned past: it is not empty and does not select opt. */
  predicate Passes(aliases: map<string, string>, input: seq<string>, opt: string, k: int)
  {
    0 <= k < |input| && input[k] != [] && !Selects(aliases, input, opt, k)
  }

  /** The scan of the arguments from index k. */
  function ArgsFrom(aliases: map<string, string>, input: seq<string>, opt: string, def: string, k: nat): Result<string, ScriptError>
    decreases |input| - k
  {
    if k >= |input| then Ok(def)
    else if input[k] == [] then Err(EmptyArgument)
    else if Selects(aliases, input, opt, k) then Ok(input[k + 1])
    else ArgsFrom(aliases, input, opt, def, k + 1)
  }

  function ValueFromArgs(aliases: map<string, string>, input: seq<string>, opt: string, def: string): Result<string, ScriptError>
  {
    ArgsFrom(aliases, input, opt, def, 0)
  }

  lemma {:induction false} ArgsFromSelected(aliases: map<string, string>, input: seq<string>, opt: string, def: string, l: nat, k: nat)
    requires l <= k && Selects(aliases, input, opt, k)
    requires forall j | l <= j < k :: Passes(aliases, input, opt, j)
    ensures ArgsFrom(aliases, input, opt, def, l) == Ok(input[k + 1])
    decreases k - l
  {
    if l < k {
      assert Passes(aliases, input, opt, l);
      ArgsFromSelected(aliases, input, opt, def, l + 1, k);
    }
  }

  /** The argument after the first option that selects opt, when every argument before it is scanned past. */
  lemma FirstSelected(aliases: map<string, string>, input: seq<string>, opt: string, def: string, k: nat)
    requires Selects(aliases, input, opt, k)
    requires forall j | 0 <= j < k :: Passes(aliases, input, opt, j)
    ensures ValueFromArgs(aliases, input, opt, def) == Ok(input[k + 1])
  {
    ArgsFromSelected(aliases, input, opt, def, 0, k);
  }

  lemma {:induction false} ArgsFromNone(aliases: map<string, string>, input: seq<string>, opt: string, def: string, l: nat)
    requires forall j | l <= j < |input| :: Passes(aliases, input, opt, j)
    ensures ArgsFrom(aliases, input, opt, def, l) == Ok(def)
    decreases |input| - l
  {
    if l < |input| {
      assert Passes(aliases, input, opt, l);
      ArgsFromNone(aliases, input, opt, def, l + 1);
    }
  }

  /** The default when no argument selects opt. */
  lemma NoneSelected(aliases: map<string, string>, input: seq<string>, opt: string, def: string)
    requires forall j | 0 <= j < |input| :: Passes(aliases, input, opt, j)
    ensures ValueFromArgs(aliases, input, opt, def) == Ok(def)
  {
    ArgsFromNone(aliases, input, opt, def, 0);
  }

  lemma {:induction false} ArgsFromEmpty(aliases: map<string, string>, input: seq<string>, opt: string, def: string, l: nat, k: nat)
    requires l <= k < |input| && input[k] == []
    requires forall j | l <= j < k :: Passes(aliases, input, opt, j)
    ensures ArgsFrom(aliases, input, opt, def, l) == Err(EmptyArgument)
    decreases k - l
  {
    if l < k {
      assert Passes(aliases, input, opt, l);
      ArgsFromEmpty(aliases, input, opt, def, l + 1, k);
    }
  }

  /** An empty argument reached before any selecting option panics. */
  lemma EmptyArgumentPanics(aliases: map<string, string>, input: seq<string>, opt: string, def: string, k: nat)
    requires k < |input| && input[k] == []
    requires forall j | 0 <= j < k :: Passes(aliases, input, opt, j)
    ensures ValueFromArgs(aliases, input, opt, def) == Err(EmptyArgument)
  {
    ArgsFromEmpty(aliases, input, opt, def, 0, k);
  }

  // ----- the interpreter -----

  /** The controller's state while a script runs: its fields and the conditional stack. */
  datatype Interp = Interp(
    variables: seq<ScriptVar>,
    aliasMap: map<string, string>,
    edgeMap: map<string, seq<string>>,
    description: string,
    stack: seq<bool>)

  const LineSeparators: set<char> := {';', '\n'}
  const TokenSeparators: set<char> := {'(', ',', ')', '|', '=', ' '}

  /** The script's lines: the runs of text between ';' and newlines. */
  function Lines(script: string): seq<string>
  {
    Text.FieldsFunc(script, LineSeparators)
  }

  /** The fields left non-empty after trimming, in order. */
  function NonEmptyTrimmed(fields: seq<string>): seq<string>
  {
    if fields == [] then []
    else
      var t := Text.TrimSpace(fields[|fields| - 1]);
      NonEmptyTrimmed(fields[..|fields| - 1]) + (if t == [] then [] else [t])
  }

  /** A trimmed line's tokens. */
  function Tokens(line: string): seq<string>
  {
    NonEmptyTrimmed(Text.FieldsFunc(line, TokenSeparators))
  }

  /** Lines run while the conditional stack is empty or its top is true. */
  function RunLine(stack: seq<bool>): bool
  {
    stack == [] || stack[|stack| - 1]
  }

  /** The third token, or "" when the line has only two. */
  function ThirdOrEmpty(tokens: seq<string>): string
  {
    if |tokens| >= 3 then tokens[2] else ""
  }

  /**
   * A declaration's variables: the node the dotted name finds gets the value;
   * otherwise a new value variable is added, under its parent (created as
   * needed) for a dotted name, at the top level for a plain one.
   */
  function Assign(vars: seq<ScriptVar>, path: seq<string>, value: string): seq<ScriptVar>
    requires path != []
  {
    var found := Resolve(vars, path, false);
    if found.1.Some? then
      ResolveNamesPath(vars, path, false);
      ResolveCreates(vars, path, false);
      SetValue(vars, found.1.value, value)
    else if |path| > 1 then
      var parent := Resolve(vars, path[..|path| - 1], true);
      ResolveNamesPath(vars, path[..|path| - 1], true);
      ResolveCreates(vars, path[..|path| - 1], true);
      ReplaceChildren(parent.0, parent.1.value,
        ChildrenAt(parent.0, parent.1.value) + [ScriptVar(path[|path| - 1], ValueVar, value, [])])
    else vars + [ScriptVar(path[0], ValueVar, value, [])]
  }

  /** The value a declaration assigns: the argument of "$opt [default]", or the right-hand side resolved. */
  function DeclaredValue(st: Interp, tokens: seq<string>, input: seq<string>): Result<string, ScriptError>
    requires |tokens| >= 2 && tokens[1] != []
  {
    var init := tokens[1];
    if init[0] == '$' then ValueFromArgs(st.aliasMap, input, init[1..], ThirdOrEmpty(tokens))
    else Ok(ResolvedRHS(st.variables, init))
  }

  /** A declaration line "name = #Plugin", "name = $opt [default]" or "name = rhs" under a true top. */
  function Declare(st: Interp, tokens: seq<string>, input: seq<string>): Result<Interp, ScriptError>
    requires |tokens| >= 2 && tokens[1] != []
  {
    var init := tokens[1];
    if init[0] == '#' then
      Ok(st.(variables := st.variables + [ScriptVar(tokens[0], PluginVar, init[1..], [])]))
    else
      var value := DeclaredValue(st, tokens, input);
      if value.Err? then Err(value.error)
      else Ok(st.(variables := Assign(st.variables, Text.Split(tokens[0], '.'), value.value)))
  }

  /** The state after "link a b": b's value joins a's list of edges. */
  function Link(st: Interp, tokens: seq<string>): Result<Interp, ScriptError>
  {
    if |tokens| != 3 then Err(WrongLinkArity(|tokens|))
    else
      var edges := if tokens[1] in st.edgeMap then st.edgeMap[tokens[1]] else [];
      Ok(st.(edgeMap := st.edgeMap[tokens[1] := edges + [ValueOfName(st.variables, tokens[2])]]))
  }

  /** "if $opt [default]" under a true top pushes whether the option's value is not empty. */
  function If(st: Interp, tokens: seq<string>, input: seq<string>): Result<Interp, ScriptError>
    requires |tokens| >= 2 && tokens[1] != []
  {
    if tokens[1][0] != '$' then Err(UnknownCondition)
    else
      var v := ValueFromArgs(st.aliasMap, input, tokens[1][1..], ThirdOrEmpty(tokens));
      if v.Err? then Err(v.error) else Ok(st.(stack := st.stack + [v.value != ""]))
  }

  /** "end" pops the top of the stack; with one entry or none the stack becomes empty. */
  function End(stack: seq<bool>): seq<bool>
  {
    if |stack| > 1 then stack[..|stack| - 1] else []
  }

  /** One line of tokens, as buildParams's switch runs it. */
  function Step(st: Interp, tokens: seq<string>, input: seq<string>): Result<Interp, ScriptError>
    requires forall k | 0 <= k < |tokens| :: tokens[k] != []
  {
    if tokens == [] then Err(MissingToken)
    else
      var run := RunLine(st.stack);
      if tokens[0] == "link" then (if run then Link(st, tokens) else Ok(st))
      else if tokens[0] == "alias" then
        (if !run then Ok(st) else if |tokens| < 3 then Err(MissingToken)
         else Ok(st.(aliasMap := st.aliasMap[tokens[1] := tokens[2]])))
      else if tokens[0] == "if" then
        (if !run then Ok(st) else if |tokens| < 2 then Err(MissingToken) else If(st, tokens, input))
      else if tokens[0] == "end" then Ok(st.(stack := End(st.stack)))
      else if tokens[0] == "//" then Ok(st.(description := Text.Join(tokens[1..], " ")))
      else if !run then Ok(st)
      else if |tokens| < 2 then Err(MissingToken)
      else Declare(st, tokens, input)
  }

  /**
   * An "if" under a false top pushes nothing, so the "end" that closes it
   * closes the enclosing block instead: the stack loses an entry.
   */
  lemma SkippedIfThenEnd(st: Interp, arg: string, input: seq<string>)
    requires arg != [] && st.stack != [] && !RunLine(st.stack)
    ensures Step(st, ["if", arg], input) == Ok(st)
    ensures Step(st, ["end"], input) == Ok(st.(stack := st.stack[..|st.stack| - 1]))
  {
    assert ["if", arg][0] == "if" && ["end"][0] == "end";
  }

  /**
   * The intended switch: an "if" under a false top pushes false, so that
   * every "if" has an entry for its "end" to pop; other lines run as Step.
   */
  function StepIntended(st: Interp, tokens: seq<string>, input: seq<string>): (r: Result<Interp, ScriptError>)
    requires forall k | 0 <= k < |tokens| :: tokens[k] != []
    ensures tokens != [] && tokens[0] == "if" && r.Ok? ==>
      r.value == st.(stack := r.value.stack) && |r.value.stack| == |st.stack| + 1
      && r.value.stack[..|st.stack|] == st.stack
  {
    if tokens != [] && tokens[0] == "if" && !RunLine(st.stack) then Ok(st.(stack := st.stack + [false]))
    else Step(st, tokens, input)
  }

  /** With the intended switch an "if" line and its "end" leave the state as they found it. */
  lemma IntendedIfEndRestores(st: Interp, arg: string, input: seq<string>)
    requires arg != [] && StepIntended(st, ["if", arg], input).Ok?
    ensures StepIntended(StepIntended(st, ["if", arg], input).value, ["end"], input) == Ok(st)
  {
    assert ["if", arg][0] == "if" && ["end"][0] == "end";
    var s1 := StepIntended(st, ["if", arg], input).value;
    assert s1.stack[..|st.stack|] == st.stack;
    assert End(s1.stack) == st.stack;
  }

  lemma NonEmptyTokens(fields: seq<string>)
    ensures forall k | 0 <= k < |NonEmptyTrimmed(fields)| :: NonEmptyTrimmed(fields)[k] != []
  {
    if fields != [] {
      NonEmptyTokens(fields[..|fields| - 1]);
    }
  }

  /** One line of the script: blank lines are skipped. */
  function LineStep(st: Interp, line: string, input: seq<string>): Result<Interp, ScriptError>
  {
    var trimmed := Text.TrimSpace(line);
    if trimmed == [] then Ok(st)
    else
      NonEmptyTokens(Text.FieldsFunc(trimmed, TokenSeparators));
      Step(st, Tokens(trimmed), input)
  }

  /** The lines run in order; the first panic ends the run. */
  function RunLines(st: Interp, lines: seq<string>, input: seq<string>): Result<Interp, ScriptError>
    decreases |lines|
  {
    if lines == [] then Ok(st)
    else
      var r := LineStep(st, lines[0], input);
      if r.Err? then r else RunLines(r.value, lines[1..], input)
  }

  /** How many of n lines buildParams reads: at most lim, 99999 for a negative lim. */
  function LinesRead(n: nat, lim: int): (k: nat)
    ensures k <= n
    ensures lim >= 0 ==> k == if n <= lim then n else lim
    ensures lim < 0 ==> k == if n <= 99999 then n else 99999
  {
    var cap := if lim < 0 then 99999 else lim;
    if n <= cap then n else cap
  }

  // ----- the controller -----

  class Controller {
    var aliasMap: map<string, string>
    var edgeMap: map<string, seq<string>>
    var variables: seq<ScriptVar>
    var description: string

    /** getKernel: no aliases, edges or variables. */
    constructor ()
      ensures aliasMap == map[] && edgeMap == map[] && variables == [] && description == ""
    {
      aliasMap := map[];
      edgeMap := map[];
      variables := [];
      description := "";
    }

    function State(stack: seq<bool>): Interp
      reads this
    {
      Interp(variables, aliasMap, edgeMap, description, stack)
    }

    method HandleAliasing(alias: string, orig: string)
      modifies this
      ensures aliasMap == old(aliasMap)[alias := orig]
      ensures variables == old(variables) && edgeMap == old(edgeMap) && description == old(description)
    {
      aliasMap := aliasMap[alias := orig];
    }

    /** The argument after the first option naming opt, or def. */
    method GetValueFromArgs(input: seq<string>, opt: string, def: string) returns (r: Result<string, ScriptError>)
      ensures r == ValueFromArgs(aliasMap, input, opt, def)
    {
      var idx := 0;
      while idx < |input|
        invariant 0 <= idx <= |input|
        invariant ArgsFrom(aliasMap, input, opt, def, idx) == ValueFromArgs(aliasMap, input, opt, def)
      {
        var param := input[idx];
        if param == [] {
          return Err(EmptyArgument);
        }
        if param[0] == '-' {
          var inOpt := Text.Trim(param, '-');
          if inOpt in aliasMap {
            inOpt := aliasMap[inOpt];
          }
          if inOpt == opt && idx + 1 < |input| {
            return Ok(input[idx + 1]);
          }
        }
        idx := idx + 1;
      }
      return Ok(def);
    }

    /** The value of the first top-level variable with the name, "" when there is none. */
    method GetValueFromName(name: string) returns (v: string)
      ensures v == ValueOfName(variables, name)
    {
      var k := 0;
      while k < |variables|
        invariant 0 <= k <= |variables|
        invariant forall j | 0 <= j < k :: variables[j].name != name
      {
        if variables[k].name == name {
          return variables[k].value;
        }
        k := k + 1;
      }
      return "";
    }

    /** Another variable's non-empty value, else the text itself. */
    method ResolveRHS(rhs: string) returns (v: string)
      ensures v == ResolvedRHS(variables, rhs)
    {
      v := GetValueFromName(rhs);
      if v == "" {
        v := rhs;
      }
    }

    /** The scan of one level of getVariable: whether a child has the name, and the last that has. */
    static method ScanChildren(children: seq<ScriptVar>, name: string) returns (hasMatch: bool, m: nat)
      ensures (if hasMatch then Some(m) else None) == LastMatch(children, name)
    {
      hasMatch := false;
      m := 0;
      var j := 0;
      while j < |children|
        invariant 0 <= j <= |children|
        invariant (if hasMatch then Some(m) else None) == LastMatch(children[..j], name)
      {
        if children[j].name == name {
          hasMatch := true;
          m := j;
        }
        j := j + 1;
        assert children[..j][..j - 1] == children[..j - 1];
      }
      assert children[..j] == children;
    }

    /**
     * The node the components name, following the last match at each level;
     * with createIfNeeded, missing nodes are added as empty value variables.
     */
    method GetVariable(components: seq<string>, createIfNeeded: bool) returns (found: Option<seq<nat>>)
      modifies this
      ensures (variables, found) == GetVariableSpec(old(variables), components, createIfNeeded)
      ensures aliasMap == old(aliasMap) && edgeMap == old(edgeMap) && description == old(description)
    {
      variables, found := WalkVariables(variables, components, createIfNeeded);
    }

    /** The loop of getVariable over the tree it updates. */
    static method WalkVariables(vars0: seq<ScriptVar>, components: seq<string>, createIfNeeded: bool)
      returns (vars: seq<ScriptVar>, found: Option<seq<nat>>)
      ensures (vars, found) == GetVariableSpec(vars0, components, createIfNeeded)
    {
      vars := vars0;
      ghost var goal := Resolve(vars, components, createIfNeeded);
      ghost var rest := components;
      var p: seq<nat> := [];
      found := None;
      assert goal.1.Some? ==> [] + goal.1.value == goal.1.value;
      var i := 0;
      while i < |components|
        invariant 0 <= i <= |components| && rest == components[i..]
        invariant ValidPath(vars, p)
        invariant goal == Lift(vars, p, Resolve(ChildrenAt(vars, p), rest, createIfNeeded))
        invariant found == if i == 0 then None else Some(p)
        invariant i == 0 ==> vars == vars0
      {
        var children := ChildrenAt(vars, p);
        var hasMatch, m := ScanChildren(children, components[i]);
        assert rest[0] == components[i];
        if hasMatch {
          LiftDescend(vars, p, rest, createIfNeeded, m);
          p := p + [m];
        } else if createIfNeeded {
          var n: nat := |children|;
          LiftCreate(vars, p, rest);
          vars := ReplaceChildren(vars, p, children + [NewVar(components[i])]);
          p := p + [n];
        } else {
          LiftMissing(vars, p, rest);
          found := None;
          break;
        }
        found := Some(p);
        i := i + 1;
        rest := rest[1..];
      }
      if i == |components| {
        LiftDone(vars, p, createIfNeeded);
      }
    }

    /** "link a b" under a true top: the value of b joins a's list of edges. */
    method LinkPlugins(tokens: seq<string>) returns (failure: Option<ScriptError>)
      modifies this
      ensures var r := Link(old(State([])), tokens);
        (failure.None? <==> r.Ok?) && (r.Ok? ==> State([]) == r.value)
    {
      failure := None;
      if |tokens| != 3 {
        failure := Some(WrongLinkArity(|tokens|));
      } else {
        var target := GetValueFromName(tokens[2]);
        if tokens[1] in edgeMap {
          edgeMap := edgeMap[tokens[1] := edgeMap[tokens[1]] + [target]];
        } else {
          assert [] + [target] == [target];
          edgeMap := edgeMap[tokens[1] := [target]];
        }
      }
    }

    /** A declaration under a true top: a plugin, a command-line value or a value. */
    method DeclareVar(tokens: seq<string>, input: seq<string>) returns (failure: Option<ScriptError>)
      requires |tokens| >= 2 && tokens[1] != []
      modifies this
      ensures var r := Declare(old(State([])), tokens, input);
        (failure.None? <==> r.Ok?) && (r.Ok? ==> State([]) == r.value)
    {
      failure := None;
      var initFrom := tokens[1];
      if initFrom[0] == '#' {
        variables := variables + [ScriptVar(tokens[0], PluginVar, initFrom[1..], [])];
      } else {
        var v := DeclaredValueOf(tokens, input);
        if v.Err? {
          failure := Some(v.error);
        } else {
          AssignVar(tokens[0], v.value);
        }
      }
    }

    /** The value a declaration assigns, computed before anything changes. */
    method DeclaredValueOf(tokens: seq<string>, input: seq<string>) returns (r: Result<string, ScriptError>)
      requires |tokens| >= 2 && tokens[1] != []
      ensures r == DeclaredValue(State([]), tokens, input)
    {
      var initFrom := tokens[1];
      var padded := if |tokens| != 3 then tokens + [""] else tokens;
      if initFrom[0] == '$' {
        r := GetValueFromArgs(input, initFrom[1..], padded[2]);
      } else {
        var value := ResolveRHS(initFrom);
        r := Ok(value);
      }
    }

    /**
     * The store of a declared value: into the node the dotted name finds, or
     * into a new value variable under its parent (created as needed), or at
     * the top level for a plain name.
     */
    method AssignVar(name: string, value: string)
      modifies this
      ensures variables == Assign(old(variables), Text.Split(name, '.'), value)
      ensures aliasMap == old(aliasMap) && edgeMap == old(edgeMap) && description == old(description)
    {
      var splitName := Text.Split(name, '.');
      ghost var vars0 := variables;
      var existVar := GetVariable(splitName, false);
      ResolveCreates(vars0, splitName, false);
      ResolveNamesPath(vars0, splitName, false);
      if existVar.Some? {
        variables := SetValue(variables, existVar.value, value);
      } else if |splitName| > 1 {
        var prefix := splitName[..|splitName| - 1];
        ResolveCreates(vars0, prefix, true);
        ResolveNamesPath(vars0, prefix, true);
        var parent := GetVariable(prefix, true);
        var newVar := ScriptVar(splitName[|splitName| - 1], ValueVar, value, []);
        variables := ReplaceChildren(variables, parent.value, ChildrenAt(variables, parent.value) + [newVar]);
      } else {
        Text.SplitJoin(name, '.');
        variables := variables + [ScriptVar(name, ValueVar, value, [])];
      }
    }

    /** One line of the script, with the conditional stack before and after it. */
    method RunScriptLine(line: string, input: seq<string>, stack: seq<bool>) returns (stack': seq<bool>, failure: Option<ScriptError>)
      modifies this
      ensures var r := LineStep(old(State(stack)), line, input);
        (failure.None? <==> r.Ok?) && (r.Ok? ==> State(stack') == r.value)
    {
      stack' := stack;
      failure := None;
      var trimmed := Text.TrimSpace(line);
      if trimmed != [] {
        var origTokens := Text.FieldsFunc(trimmed, TokenSeparators);
        var tokens := TrimTokens(origTokens);
        NonEmptyTokens(origTokens);
        stack', failure := RunTokens(tokens, input, stack);
      }
    }

    /** The tokens of a line with spaces trimmed and empty ones dropped. */
    static method TrimTokens(origTokens: seq<string>) returns (tokens: seq<string>)
      ensures tokens == NonEmptyTrimmed(origTokens)
    {
      tokens := [];
      for idx := 0 to |origTokens|
        invariant tokens == NonEmptyTrimmed(origTokens[..idx])
      {
        assert origTokens[..idx + 1][..idx] == origTokens[..idx];
        var t := Text.TrimSpace(origTokens[idx]);
        if |t| > 0 {
          tokens := tokens + [t];
        }
      }
      assert origTokens[..|origTokens|] == origTokens;
    }

    /** A line's tokens, as the switch of buildParams runs them. */
    method RunTokens(tokens: seq<string>, input: seq<string>, stack: seq<bool>) returns (stack': seq<bool>, failure: Option<ScriptError>)
      requires forall k | 0 <= k < |tokens| :: tokens[k] != []
      modifies this
      ensures var r := Step(old(State(stack)), tokens, input);
        (failure.None? <==> r.Ok?) && (r.Ok? ==> State(stack') == r.value)
    {
      stack' := stack;
      failure := None;
      var runLine := true;
      if |stack| > 0 {
        runLine := stack[|stack| - 1];
      }
      if tokens == [] {
        failure := Some(MissingToken);
      } else if tokens[0] == "link" {
        if runLine {
          failure := LinkPlugins(tokens);
        }
      } else if tokens[0] == "alias" {
        if runLine {
          if |tokens| < 3 {
            failure := Some(MissingToken);
          } else {
            HandleAliasing(tokens[1], tokens[2]);
          }
        }
      } else if tokens[0] == "if" {
        if runLine {
          if |tokens| < 2 {
            failure := Some(MissingToken);
          } else if tokens[1][0] == '$' {
            var padded := if |tokens| != 3 then tokens + [""] else tokens;
            var v := GetValueFromArgs(input, tokens[1][1..], padded[2]);
            if v.Err? {
              failure := Some(v.error);
            } else {
              stack' := stack + [v.value != ""];
            }
          } else {
            failure := Some(UnknownCondition);
          }
        }
      } else if tokens[0] == "end" {
        if |stack| > 1 {
          stack' := stack[..|stack| - 1];
        } else {
          stack' := [];
        }
      } else if tokens[0] == "//" {
        description := Text.Join(tokens[1..], " ");
      } else if runLine {
        if |tokens| < 2 {
          failure := Some(MissingToken);
        } else {
          failure := DeclareVar(tokens, input);
        }
      }
    }

    /**
     * buildParams: the script's first lim lines (99999 for a negative lim) run
     * in order from an empty conditional stack; a panic ends the run.
     */
    method BuildParams(script: string, input: seq<string>, lim: int) returns (failure: Option<ScriptError>)
      modifies this
      ensures var r := RunLines(old(State([])), Lines(script)[..LinesRead(|Lines(script)|, lim)], input);
        (failure.None? <==> r.Ok?)
        && (r.Ok? ==> variables == r.value.variables && aliasMap == r.value.aliasMap
                      && edgeMap == r.value.edgeMap && description == r.value.description)
    {
      var lines := Text.FieldsFunc(script, LineSeparators);
      failure := RunLinesRead(lines, input, lim);
    }

    /** The line loop of buildParams. */
    method RunLinesRead(lines: seq<string>, input: seq<string>, lim: int) returns (failure: Option<ScriptError>)
      modifies this
      ensures var r := RunLines(old(State([])), lines[..LinesRead(|lines|, lim)], input);
        (failure.None? <==> r.Ok?)
        && (r.Ok? ==> variables == r.value.variables && aliasMap == r.value.aliasMap
                      && edgeMap == r.value.edgeMap && description == r.value.description)
    {
      var limit := lim;
      if limit < 0 {
        limit := 99999;
      }
      ghost var count := LinesRead(|lines|, lim);
      ghost var goal := RunLines(State([]), lines[..count], input);
      var stack: seq<bool> := [];
      failure := None;
      var lNum := 0;
      assert lines[..count] == lines[0..count];
      while lNum < |lines|
        invariant 0 <= lNum <= count
        invariant goal == RunLines(State(stack), lines[lNum..count], input)
      {
        if lNum >= limit {
          break;
        }
        assert lines[lNum..count][0] == lines[lNum] && lines[lNum..count][1..] == lines[lNum + 1..count];
        var f;
        stack, f := RunScriptLine(lines[lNum], input, stack);
        if f.Some? {
          failure := f;
          return;
        }
        lNum := lNum + 1;
      }
    }
  }
}
