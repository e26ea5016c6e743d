/**
 * The command parser Argp: its bindings with their destinations and IsSet flags, its
 * sub-commands, the registration methods that extend it, and parse, which routes to a
 * sub-command and then reads the tokens into the destinations.
 *
 * The loops of parse are written out as in Go and proved equal to the phase functions of
 * the Dispatch module; the destinations are the sequence `values` of the parser.
 */
module Parser {
  import opened Wrappers
  import opened Text
  import opened Kinds
  import opened Scanning
  import opened Registry
  import opened Dispatch
  import opened Commands

  /** The loop over the letters of the bundle of short options at token `i`. */
  method ReadBundle(vars: seq<Var>, values: seq<Value>, isSet: seq<bool>, args: seq<string>, i: nat)
    returns (m: Move)
    requires Fits(vars, values, isSet) && i < |args| && |args[i]| > 1
    ensures m == Bundle(vars, values, isSet, args, i, 1)
  {
    var vals, flags := values, isSet;
    var j := 1;
    while j < |args[i]|
      invariant 1 <= j <= |args[i]| && Fits(vars, vals, flags)
      invariant Bundle(vars, vals, flags, args, i, j) == Bundle(vars, values, isSet, args, i, 1)
      decreases |args[i]| - j
    {
      var letter := ReadLetter(vars, vals, flags, args, i, j);
      if letter.Ends? {
        return letter.m;
      }
      vals, flags, j := letter.values, letter.isSet, letter.j;
    }
    return Moved(vals, flags, i);
  }

  /** Where one letter of a bundle leaves the bundle loop. */
  datatype Letter =
    | Ends(m: Move)
    | Onward(values: seq<Value>, isSet: seq<bool>, j: nat)

  /** Letter `j` of the bundle at token `i`: either the bundle ends there, or it goes on from a
      later letter. */
  method ReadLetter(vars: seq<Var>, values: seq<Value>, isSet: seq<bool>, args: seq<string>, i: nat, j: nat)
    returns (letter: Letter)
    requires Fits(vars, values, isSet) && i < |args| && 1 <= j < |args[i]|
    ensures letter.Ends? ==> letter.m == Bundle(vars, values, isSet, args, i, j)
    ensures letter.Onward? ==>
      && j < letter.j <= |args[i]| && Fits(vars, letter.values, letter.isSet)
      && Bundle(vars, letter.values, letter.isSet, args, i, letter.j) == Bundle(vars, values, isSet, args, i, j)
  {
    var arg := args[i];
    var c := arg[j];
    var found := FindShort(vars, c);
    if found.None? {
      return Ends(Halted(Refused(values, isSet, UnknownShort(c))));
    }
    var p := found.value;
    if vars[p].kind == BoolKind {
      FitsUpdate(vars, values, isSet, p, BoolVal(true), true);
      return Onward(values[p := BoolVal(true)], isSet[p := true], j + 1);
    } else if j + 1 < |arg| {
      var hasEquals := arg[j + 1] == '=';
      var k := if hasEquals then j + 2 else j + 1;
      var r := Scan(vars[p].kind, values[p], [arg[k..]] + args[i + 1..]);
      FitsUpdate(vars, values, isSet, p, r.val, false);
      if r.Done? && r.n > 0 {
        return Ends(Moved(values[p := r.val], isSet, i + r.n - 1));
      } else if hasEquals {
        return Ends(Halted(Refused(values[p := r.val], isSet, MustNotHaveValue(c))));
      }
      return Onward(values[p := r.val], isSet, k);
    } else {
      var r := Scan(vars[p].kind, values[p], args[i + 1..]);
      FitsUpdate(vars, values, isSet, p, r.val, false);
      if r.Done? && r.n > 0 {
        return Ends(Moved(values[p := r.val], isSet, i + r.n));
      }
      return Onward(values[p := r.val], isSet, j + 1);
    }
  }

  /** Where one turn of the token loop leaves it. */
  datatype Step =
    | Halt(pass: Pass)
    | Next(values: seq<Value>, isSet: seq<bool>, i: nat, positional: seq<string>)

  /** The loop over the tokens: `--` ends it, an option token is read as a long option or a
      bundle, and every other non-empty token is kept as a positional argument. Where Go's
      cursor would return to the same token forever, the loop stops with Loops. */
  method ReadTokens(vars: seq<Var>, values: seq<Value>, isSet: seq<bool>, args: seq<string>) returns (pass: Pass)
    requires Fits(vars, values, isSet)
    ensures pass == TokenLoop(vars, values, isSet, args, 0, [])
  {
    var vals, flags := values, isSet;
    var rest: seq<string> := [];
    var i := 0;
    ghost var goal := TokenLoop(vars, values, isSet, args, 0, []);
    while i < |args|
      invariant i <= |args| && Fits(vars, vals, flags)
      invariant TokenLoop(vars, vals, flags, args, i, rest) == goal
      decreases |args| - i
    {
      var step := ReadToken(vars, vals, flags, args, i, rest);
      if step.Halt? {
        return step.pass;
      }
      vals, flags, i, rest := step.values, step.isSet, step.i, step.positional;
    }
    return Through(vals, flags, rest);
  }

  /** One turn of the token loop, on token `i` with the positional arguments kept so far:
      either the loop stops with its result, or it goes on from a later token. */
  method ReadToken(vars: seq<Var>, values: seq<Value>, isSet: seq<bool>, args: seq<string>, i: nat,
                   positional: seq<string>) returns (step: Step)
    requires Fits(vars, values, isSet) && i < |args|
    ensures step.Halt? ==> step.pass == TokenLoop(vars, values, isSet, args, i, positional)
    ensures step.Next? ==>
      && i < step.i <= |args| && Fits(vars, step.values, step.isSet)
      && TokenLoop(vars, step.values, step.isSet, args, step.i, step.positional)
         == TokenLoop(vars, values, isSet, args, i, positional)
  {
    var arg := args[i];
    if arg == "--" {
      return Halt(Through(values, isSet, positional + args[i + 1..]));
    }
    if |arg| > 1 && arg[0] == '-' {
      var m := ReadOption(vars, values, isSet, args, i);
      OptionStep(vars, values, isSet, args, i, positional, m);
      if m.Halted? {
        return Halt(Ended(m.o));
      } else if m.Stuck? {
        return Halt(Ended(Loops));
      }
      return Next(m.values, m.isSet, m.next + 1, positional);
    }
    PlainStep(vars, values, isSet, args, i, i + 1, positional);
    if |arg| > 0 {
      return Next(values, isSet, i + 1, positional + [arg]);
    }
    assert positional + Kept(arg) == positional;
    return Next(values, isSet, i + 1, positional);
  }

  /** Option token `i`: a long option, or a bundle of short ones. */
  method ReadOption(vars: seq<Var>, values: seq<Value>, isSet: seq<bool>, args: seq<string>, i: nat)
    returns (m: Move)
    requires Fits(vars, values, isSet) && i < |args| && |args[i]| > 1 && args[i][0] == '-'
    ensures m == OptionMove(vars, values, isSet, args, i)
  {
    if args[i][1] == '-' {
      m := LongOption(vars, values, isSet, args, i);
    } else {
      m := ReadBundle(vars, values, isSet, args, i);
    }
  }

  /** How the token loop goes on after option token `i`, which moves as `m`. */
  lemma OptionStep(vars: seq<Var>, values: seq<Value>, isSet: seq<bool>, args: seq<string>, i: nat,
                   positional: seq<string>, m: Move)
    requires Fits(vars, values, isSet) && i < |args| && args[i] != "--" && |args[i]| > 1 && args[i][0] == '-'
    requires m == OptionMove(vars, values, isSet, args, i)
    ensures var pass := TokenLoop(vars, values, isSet, args, i, positional);
      && (m.Halted? ==> pass == Ended(m.o))
      && (m.Stuck? ==> pass == Ended(Loops))
      && (m.Moved? ==> Fits(vars, m.values, m.isSet) && m.next < |args|
                       && pass == TokenLoop(vars, m.values, m.isSet, args, m.next + 1, positional))
  {
  }

  /** The loops after the tokens: the positional arguments into the bindings of positions 0,
      1, 2, ..., then the check for missing arguments and the rest binding. */
  method ReadArguments(vars: seq<Var>, values: seq<Value>, isSet: seq<bool>, positional: seq<string>)
    returns (o: Outcome)
    requires SingleRest(vars) && Fits(vars, values, isSet)
    ensures o == Fill(vars, values, isSet, positional, 0)
  {
    var vals, flags := values, isSet;
    var index := 0;
    ghost var goal := Fill(vars, values, isSet, positional, 0);
    while index < |positional|
      invariant index <= |positional| && Fits(vars, vals, flags)
      invariant Fill(vars, vals, flags, positional, index) == goal
      decreases |positional| - index
    {
      var found := FindIndex(vars, index);
      if found.None? {
        break;
      }
      var p := found.value;
      var r := Scan(vars[p].kind, vals[p], [positional[index]]);
      ArgumentStep(vars, vals, flags, positional, index, p, r);
      if r.Failed? {
        return Refused(vals[p := r.val], flags, ArgumentFailed(index, r.err));
      }
      vals, flags := vals[p := r.val], flags[p := true];
      index := index + 1;
    }
    o := ReadRest(vars, vals, flags, positional, index);
  }

  /** One positional argument scanned into the binding `p` of its position. */
  lemma ArgumentStep(vars: seq<Var>, values: seq<Value>, isSet: seq<bool>, positional: seq<string>,
                     index: nat, p: nat, r: ScanResult)
    requires SingleRest(vars) && Fits(vars, values, isSet) && index < |positional|
    requires FindIndex(vars, index) == Some(p) && r == Scan(vars[p].kind, values[p], [positional[index]])
    ensures Fits(vars, values[p := r.val], isSet[p := true])
    ensures r.Failed? ==>
      Fill(vars, values, isSet, positional, index) == Refused(values[p := r.val], isSet, ArgumentFailed(index, r.err))
    ensures r.Done? ==>
      Fill(vars, values, isSet, positional, index) == Fill(vars, values[p := r.val], isSet[p := true], positional, index + 1)
  {
    FitsUpdate(vars, values, isSet, p, r.val, true);
  }

  /** The check for missing arguments once `filled` positions are filled, and the rest binding. */
  method ReadRest(vars: seq<Var>, values: seq<Value>, isSet: seq<bool>, positional: seq<string>, filled: nat)
    returns (o: Outcome)
    requires SingleRest(vars) && Fits(vars, values, isSet) && filled <= |positional|
    requires filled < |positional| ==> FindIndex(vars, filled).None?
    ensures o == Fill(vars, values, isSet, positional, filled)
  {
    var missing := FindMissing(vars, filled);
    if missing.Some? {
      return Refused(values, isSet, ArgumentMissing(vars[missing.value].name));
    }
    var restVar := FindRest(vars);
    if restVar.Some? {
      var p := restVar.value;
      return Parsed(values[p := StringsValue(positional[filled..])], isSet[p := true], []);
    }
    return Parsed(values, isSet, positional[filled..]);
  }

  /** The loop looking for an argument binding at or past position `filled` without a default. */
  method FindMissing(vars: seq<Var>, filled: nat) returns (r: Option<nat>)
    ensures r == Missing(vars, filled)
  {
    for q := 0 to |vars|
      invariant First(vars, (v: Var) => v.index.Some? && filled <= v.index.value && v.default.None?, q)
             == Missing(vars, filled)
    {
      if vars[q].index.Some? && filled <= vars[q].index.value && vars[q].default.None? {
        return Some(q);
      }
    }
    return None;
  }

  /** A command parser. Its bindings `vars` are fixed once registered; `values` holds the
      destinations and `isSet` the flags IsSet reports, one of each per binding. */
  class Argp {
    var name: string
    var vars: seq<Var>
    var values: seq<Value>
    var isSet: seq<bool>
    var cmds: map<string, Argp>

    ghost predicate Valid()
      reads this
    {
      Registered(vars) && Fits(vars, values, isSet)
    }

    constructor (name: string, vars: seq<Var>, values: seq<Value>)
      requires Registered(vars) && |values| == |vars|
      requires forall p :: 0 <= p < |vars| ==> Typed(values[p], vars[p].kind)
      ensures Valid() && fresh(this)
      ensures this.name == name && this.vars == vars && this.values == values && this.cmds == map[]
      ensures this.isSet == seq(|vars|, _ => false)
    {
      this.name := name;
      this.vars := vars;
      this.values := values;
      this.isSet := seq(|vars|, _ => false);
      this.cmds := map[];
    }

    /** IsSet: whether the first binding named `name` (by its name, its long name, or its
        one-character short name) was given a value by parse. */
    function IsSet(name: string): (r: bool)
      reads this
      requires |isSet| == |vars|
      ensures r <==> name != "" && exists p :: (0 <= p < |vars| && Named(vars[p], name) && isSet[p]
                                                && forall q :: 0 <= q < p ==> !Named(vars[q], name))
    {
      match FindName(vars, name)
      case None => false
      case Some(p) => isSet[p]
    }

    /** AddOpt: appends an option with destination `dst`, or refuses it and changes nothing. */
    method AddOpt(kind: Kind, dst: Value, short: string, long: string, def: Option<Value>)
      returns (err: Option<RegError>)
      requires Valid() && Typed(dst, kind)
      modifies this
      ensures Valid() && name == old(name) && cmds == old(cmds)
      ensures err.Some? <==> OptVar(old(vars), kind, short, long, def).Err?
      ensures err.Some? ==>
        err.value == OptVar(old(vars), kind, short, long, def).error
        && vars == old(vars) && values == old(values) && isSet == old(isSet)
      ensures err.None? ==>
        vars == old(vars) + [OptVar(old(vars), kind, short, long, def).value]
        && values == old(values) + [dst] && isSet == old(isSet) + [false]
    {
      var r := OptVar(vars, kind, short, long, def);
      if r.Err? {
        return Some(r.error);
      }
      OptVarRegistered(vars, kind, short, long, def);
      vars, values, isSet := vars + [r.value], values + [dst], isSet + [false];
      return None;
    }

    /** AddVal: appends an argument at the next free position, or refuses it and changes
        nothing. */
    method AddVal(kind: Kind, dst: Value, def: Option<Value>) returns (err: Option<RegError>)
      requires Valid() && Typed(dst, kind)
      modifies this
      ensures Valid() && name == old(name) && cmds == old(cmds)
      ensures err.Some? <==> ValVar(old(vars), kind, def).Err?
      ensures err.Some? ==>
        err.value == ValVar(old(vars), kind, def).error
        && vars == old(vars) && values == old(values) && isSet == old(isSet)
      ensures err.None? ==>
        vars == old(vars) + [ValVar(old(vars), kind, def).value]
        && values == old(values) + [dst] && isSet == old(isSet) + [false]
    {
      var r := NewVal(vars, kind, def);
      if r.Err? {
        return Some(r.error);
      }
      ValVarRegistered(vars, kind, def);
      vars, values, isSet := vars + [r.value], values + [dst], isSet + [false];
      return None;
    }

    /** AddRest: appends the binding for the remaining arguments, or refuses it and changes
        nothing. */
    method AddRest(kind: Kind, dst: Value, restName: string) returns (err: Option<RegError>)
      requires Valid() && Typed(dst, kind)
      modifies this
      ensures Valid() && name == old(name) && cmds == old(cmds)
      ensures err.Some? <==> RestVar(old(vars), kind, restName).Err?
      ensures err.Some? ==>
        err.value == RestVar(old(vars), kind, restName).error
        && vars == old(vars) && values == old(values) && isSet == old(isSet)
      ensures err.None? ==>
        vars == old(vars) + [RestVar(old(vars), kind, restName).value]
        && values == old(values) + [dst] && isSet == old(isSet) + [false]
    {
      var r := RestVar(vars, kind, restName);
      if r.Err? {
        return Some(r.error);
      }
      RestVarRegistered(vars, kind, restName);
      vars, values, isSet := vars + [r.value], values + [dst], isSet + [false];
      return None;
    }

    /** AddCmd: a sub-command built by NewCmd from `fields`, stored under its lower-cased
        name; an existing name, in any case, is refused. */
    method AddCmd(cmdName: string, fields: seq<Tagged>, dsts: seq<Value>) returns (r: Result<Argp, RegError>)
      requires |dsts| == |fields| && forall j :: 0 <= j < |fields| ==> Typed(dsts[j], fields[j].kind)
      modifies this
      ensures name == old(name) && vars == old(vars) && values == old(values) && isSet == old(isSet)
      ensures CmdName(old(cmds).Keys, cmdName).Some? ==>
        r == Err(CmdName(old(cmds).Keys, cmdName).value) && cmds == old(cmds)
      ensures CmdName(old(cmds).Keys, cmdName).None? ==> (r.Err? <==> CmdVars(fields).Err?)
      ensures r.Err? ==> cmds == old(cmds)
      ensures r.Ok? ==>
        fresh(r.value) && r.value.Valid() && r.value.name == cmdName
        && r.value.vars == CmdVars(fields).value && cmds == old(cmds)[Lower(cmdName) := r.value]
    {
      var check := CmdName(cmds.Keys, cmdName);
      if check.Some? {
        return Err(check.value);
      }
      r := NewCmd(cmdName, fields, dsts);
      if r.Ok? {
        cmds := cmds[Lower(cmdName) := r.value];
      }
    }

    /** The defaults, set one binding after the other. */
    method ApplyDefaults()
      requires Valid()
      modifies this
      ensures Valid() && values == Defaults(old(vars), old(values))
      ensures name == old(name) && vars == old(vars) && isSet == old(isSet) && cmds == old(cmds)
    {
      for p := 0 to |vars|
        invariant name == old(name) && vars == old(vars) && isSet == old(isSet) && cmds == old(cmds)
        invariant |values| == |vars|
        invariant forall q :: 0 <= q < |vars| ==>
          values[q] == if q < p && vars[q].default.Some? then vars[q].default.value else old(values)[q]
      {
        if vars[p].default.Some? {
          values := values[p := vars[p].default.value];
        }
      }
      assert values == Defaults(vars, old(values));
    }

    /** parse, once the command is chosen: the defaults, the tokens, the positional arguments.
        The destinations and flags are left as parse leaves them, on an error too. */
    method ParseHere(args: seq<string>) returns (o: Outcome)
      requires Valid()
      modifies this
      ensures o == ParseNode(old(vars), old(values), old(isSet), args)
      ensures name == old(name) && vars == old(vars) && cmds == old(cmds)
      ensures (o.Parsed? || o.Refused?) ==> values == o.values && isSet == o.isSet
      ensures o.Parsed? ==> Valid()
    {
      ApplyDefaults();
      var pass := ReadTokens(vars, values, isSet, args);
      match pass {
        case Ended(e) =>
          o := e;
        case Through(v, s, positional) =>
          o := ReadArguments(vars, v, s, positional);
      }
      if o.Parsed? || o.Refused? {
        values, isSet := o.values, o.isSet;
      }
    }

    /** parse: a first token naming a sub-command, in any case, hands the other tokens to that
        sub-command; otherwise this command reads them. */
    method Parse(args: seq<string>) returns (node: Argp, o: Outcome)
      requires Route(this, args).0.Valid()
      modifies Route(this, args).0
      ensures node == old(Route(this, args).0)
      ensures o == old(ParseNode(node.vars, node.values, node.isSet, Route(this, args).1))
      ensures (o.Parsed? || o.Refused?) ==> node.values == o.values && node.isSet == o.isSet
      ensures o.Parsed? ==> node.Valid()
      decreases |args|
    {
      if |args| > 0 && Lower(args[0]) in cmds {
        node, o := cmds[Lower(args[0])].Parse(args[1..]);
      } else {
        node := this;
        o := ParseHere(args);
      }
    }
  }

  /** The parser parse ends up in for `args`, with the tokens left for it. */
  ghost function Route(node: Argp, args: seq<string>): (r: (Argp, seq<string>))
    reads *
    ensures |r.1| <= |args| && r.1 == args[|args| - |r.1|..]
    ensures |r.1| == 0 || Lower(r.1[0]) !in r.0.cmds
    ensures (|args| == 0 || Lower(args[0]) !in node.cmds) <==> r == (node, args)
    ensures |args| > 0 && Lower(args[0]) in node.cmds ==>
      |r.1| < |args| && r == Route(node.cmds[Lower(args[0])], args[1..])
    decreases |args|
  {
    if |args| > 0 && Lower(args[0]) in node.cmds then Route(node.cmds[Lower(args[0])], args[1..])
    else (node, args)
  }

  /** The binding AddVal appends: the type check, a pass over the bindings for the next free
      position, and the check of the default. */
  method NewVal(vars: seq<Var>, kind: Kind, def: Option<Value>) returns (r: Result<Var, RegError>)
    ensures r == ValVar(vars, kind, def)
  {
    if !ValidType(kind) {
      return Err(UnsupportedType);
    }
    var index := 0;
    for q := 0 to |vars|
      invariant index == NextFree(vars[..q])
    {
      assert vars[..q + 1][..q] == vars[..q];
      if vars[q].index.Some? && index <= vars[q].index.value {
        index := vars[q].index.value + 1;
      }
    }
    assert vars[..|vars|] == vars;
    if def.Some? && !Typed(def.value, kind) {
      return Err(DefaultType);
    }
    return Ok(Var(kind, "", "", None, Some(index), false, def));
  }

  /** NewCmd: a parser for the fields of a command structure, whose current values are
      `dsts`: one binding per field, the check of the positions, and the help option. */
  method NewCmd(cmdName: string, fields: seq<Tagged>, dsts: seq<Value>) returns (r: Result<Argp, RegError>)
    requires |dsts| == |fields| && forall j :: 0 <= j < |fields| ==> Typed(dsts[j], fields[j].kind)
    ensures r.Err? <==> CmdVars(fields).Err?
    ensures r.Err? ==> r.error == CmdVars(fields).error
    ensures r.Ok? ==>
      fresh(r.value) && r.value.Valid() && r.value.name == cmdName && r.value.cmds == map[]
      && r.value.vars == CmdVars(fields).value
      && r.value.values[..|fields|] == dsts && forall p :: 0 <= p < |r.value.vars| ==> !r.value.isSet[p]
  {
    var bound, count := ReadFields(fields);
    if bound.Err? {
      return Err(bound.error);
    }
    var vars := bound.value;
    var check := CheckPositions(vars, count);
    if check.Some? {
      return Err(check.value);
    }
    PositionsRegistered(vars);
    HelpFits(vars, dsts);
    var a := new Argp(cmdName, WithHelp(vars), HelpValues(vars, dsts));
    return Ok(a);
  }

  /** The destinations of a new command: those of its fields, and the help flag's when the
      help option is added. */
  function HelpValues(vars: seq<Var>, dsts: seq<Value>): seq<Value>
  {
    if FindLong(vars, "help").None? then dsts + [BoolVal(false)] else dsts
  }

  lemma HelpFits(vars: seq<Var>, dsts: seq<Value>)
    requires Registered(vars) && OptionalLast(vars) && |dsts| == |vars|
    requires forall j :: 0 <= j < |vars| ==> Typed(dsts[j], vars[j].kind)
    ensures var w, d := WithHelp(vars), HelpValues(vars, dsts);
      Registered(w) && |d| == |w| && d[..|vars|] == dsts
      && forall p :: 0 <= p < |w| ==> Typed(d[p], w[p].kind)
  {
    HelpRegistered(vars);
  }

  /** The loop of NewCmd over the fields: one binding each, and the largest position. */
  method ReadFields(fields: seq<Tagged>) returns (r: Result<seq<Var>, RegError>, count: nat)
    ensures r == FieldVars(fields) && (r.Ok? ==> count == NextFree(r.value))
  {
    var vars: seq<Var> := [];
    var maxIndex: int := -1;
    for j := 0 to |fields|
      invariant FieldVars(fields[..j]) == Ok(vars)
      invariant maxIndex + 1 == NextFree(vars)
    {
      assert fields[..j + 1][..j] == fields[..j];
      var f := FieldVar(vars, fields[j]);
      if f.Err? {
        FieldVarsFail(fields, j + 1);
        return Err(f.error), 0;
      }
      NextFreeAppend(vars, f.value);
      vars := vars + [f.value];
      if f.value.index.Some? && maxIndex < f.value.index.value {
        maxIndex := f.value.index.value;
      }
    }
    assert fields[..|fields|] == fields;
    return Ok(vars), maxIndex + 1;
  }

  /** The loop of NewCmd over the positions 0 to `count` - 1. */
  method CheckPositions(vars: seq<Var>, count: nat) returns (err: Option<RegError>)
    requires count == NextFree(vars)
    ensures err == Positions(vars, 0, None)
  {
    var optional: Option<nat> := None;
    for x := 0 to count
      invariant Positions(vars, x, optional) == Positions(vars, 0, None)
    {
      var found := FindIndex(vars, x);
      if found.None? {
        return Some(IndexMissing(x));
      }
      if vars[found.value].default.Some? {
        if optional.None? {
          optional := Some(x);
        }
      } else if optional.Some? {
        return Some(RequiredAfterOptional(x, optional.value));
      }
    }
    return None;
  }

  /** A field that NewCmd refuses makes every longer list of fields refused with its error. */
  lemma {:induction false} FieldVarsFail(fields: seq<Tagged>, j: nat)
    requires 0 < j <= |fields| && FieldVars(fields[..j - 1]).Ok?
    requires FieldVar(FieldVars(fields[..j - 1]).value, fields[j - 1]).Err?
    ensures FieldVars(fields) == Err(FieldVar(FieldVars(fields[..j - 1]).value, fields[j - 1]).error)
    decreases |fields|
  {
    var e := FieldVar(FieldVars(fields[..j - 1]).value, fields[j - 1]).error;
    var init := fields[..|fields| - 1];
    if j == |fields| {
      assert init == fields[..j - 1];
    } else {
      assert init[..j - 1] == fields[..j - 1] && init[j - 1] == fields[j - 1];
      FieldVarsFail(init, j);
      assert FieldVars(init) == Err(e);
    }
  }
}
