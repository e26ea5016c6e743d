/**
 * Argp.parse for one command, after the sub-command has been chosen: defaults first, then
 * the tokens one by one (`--` ends the options, `--long[=value]`, bundles of short options
 * `-abc5`, anything else positional), then the positional arguments by index, the check for
 * missing arguments, and the rest binding.
 *
 * The destinations are the sequence `values`, one per binding, and `isSet` the flags IsSet
 * reports. Each function below is one phase of parse, defined over the cursor and the
 * state it updates.
 */
module Dispatch {
  import opened Wrappers
  import opened Text
  import opened Literals
  import opened Kinds
  import opened Counting
  import opened Scanning
  import opened Indexing
  import opened Registry

  /** The errors parse returns (Go formats them as messages). A short option never reports
      the error of its value: a value that does not scan consumes nothing and is skipped. */
  datatype ParseError =
    | UnknownLong(name: string)
    | UnknownShort(short: char)
    | LongFailed(name: string, cause: ScanError)
    | MustNotHaveValue(short: char)
    | ArgumentFailed(position: nat, cause: ScanError)
    | ArgumentMissing(name: string)

  /** What parse ends with: the destinations, the flags and the arguments it returns; an
      error, with the destinations as the failing step left them; or no result at all, because
      the Go code loops forever or panics. */
  datatype Outcome =
    | Parsed(values: seq<Value>, isSet: seq<bool>, rest: seq<string>)
    | Refused(values: seq<Value>, isSet: seq<bool>, err: ParseError)
    | Loops
    | Panics

  /** The state after one option token: the destinations, the flags and the cursor at the
      last token it consumed; or the state after a long option whose glued value consumed
      nothing, which leaves the cursor on the same token; or how parse ends. */
  datatype Move =
    | Moved(values: seq<Value>, isSet: seq<bool>, next: nat)
    | Stuck(values: seq<Value>, isSet: seq<bool>)
    | Halted(o: Outcome)

  /** The state after the option tokens: the destinations, the flags and the positional
      arguments collected, or how parse ends. */
  datatype Pass = Through(values: seq<Value>, isSet: seq<bool>, positional: seq<string>) | Ended(o: Outcome)

  /** One destination and one flag per binding, each destination of its binding's kind, which
      argp can fill. */
  ghost predicate Fits(vars: seq<Var>, values: seq<Value>, isSet: seq<bool>)
  {
    |values| == |vars| && |isSet| == |vars|
    && forall p :: 0 <= p < |vars| ==> ValidType(vars[p].kind) && Typed(values[p], vars[p].kind)
  }

  lemma FitsUpdate(vars: seq<Var>, values: seq<Value>, isSet: seq<bool>, p: nat, v: Value, b: bool)
    requires Fits(vars, values, isSet) && p < |vars| && Typed(v, vars[p].kind)
    ensures Fits(vars, values[p := v], isSet[p := b]) && Fits(vars, values[p := v], isSet)
  {
  }

  /** The defaults: every binding with a default holds it, the others keep their value. */
  function Defaults(vars: seq<Var>, values: seq<Value>): (r: seq<Value>)
    requires Kinded(vars) && DefaultsTyped(vars) && |values| == |vars|
    requires forall p :: 0 <= p < |vars| ==> Typed(values[p], vars[p].kind)
    ensures |r| == |vars| && forall p :: 0 <= p < |vars| ==> Typed(r[p], vars[p].kind)
    ensures forall p :: 0 <= p < |vars| && vars[p].default.Some? ==> r[p] == vars[p].default.value
    ensures forall p :: 0 <= p < |vars| && vars[p].default.None? ==> r[p] == values[p]
  {
    seq(|vars|, p requires 0 <= p < |vars| =>
      if vars[p].default.Some? then vars[p].default.value else values[p])
  }

  /** A long option token read: its name, the name split at dots, the tokens its value is read
      from, and whether the first of them was glued to the name by `=`. */
  datatype LongToken = LongToken(name: string, path: seq<string>, value: seq<string>, split: bool)

  /** The token `--name[=value]` at position `i`, read. An `=` ending the token glues nothing. */
  function ReadLong(args: seq<string>, i: nat): (r: LongToken)
    requires i < |args| && |args[i]| > 1 && args[i][0] == '-' && args[i][1] == '-'
    ensures |r.path| > 0
    ensures Join(r.path, ".") == r.name && '=' !in r.name
    ensures !r.split ==> r.value == args[i + 1..]
    ensures r.split ==> |r.value| == |args| - i && r.value[0] != [] && r.value[1..] == args[i + 1..]
    ensures r.split ==> args[i] == "--" + r.name + "=" + r.value[0]
    ensures !r.split ==> args[i] == "--" + r.name || args[i] == "--" + r.name + "="
  {
    var arg := args[i];
    var eq := IndexOf(arg, '=');
    var name := if eq.Some? then arg[2..eq.value] else arg[2..];
    var split := eq.Some? && eq.value + 1 < |arg|;
    JoinSplit(name, '.');
    if eq.Some? then
      GluedShape(arg, eq.value);
      LongToken(name, Split(name, '.'), if split then [arg[eq.value + 1..]] + args[i + 1..] else args[i + 1..], split)
    else
      BareShape(arg);
      LongToken(name, Split(name, '.'), args[i + 1..], false)
  }

  lemma GluedShape(arg: string, e: nat)
    requires 2 <= e < |arg| && arg[0] == '-' && arg[1] == '-' && arg[e] == '='
    ensures arg == "--" + arg[2..e] + "=" + arg[e + 1..]
  {
    assert arg[..2] == "--";
    assert arg[..e] == arg[..2] + arg[2..e];
    assert arg[..e + 1] == arg[..e] + "=";
    assert arg == arg[..e + 1] + arg[e + 1..];
  }

  lemma BareShape(arg: string)
    requires 2 <= |arg| && arg[0] == '-' && arg[1] == '-'
    ensures arg == "--" + arg[2..]
  {
    assert arg[..2] == "--";
    assert arg == arg[..2] + arg[2..];
  }

  /** A long option `--name[=value]` at token `i`: the name is split at dots into the binding's
      long name and a path below it; a glued value is read as the first token. */
  function LongOption(vars: seq<Var>, values: seq<Value>, isSet: seq<bool>, args: seq<string>, i: nat)
    : (r: Move)
    requires Fits(vars, values, isSet)
    requires i < |args| && |args[i]| > 1 && args[i][0] == '-' && args[i][1] == '-'
    ensures r.Moved? ==> Fits(vars, r.values, r.isSet) && i <= r.next < |args|
    ensures r.Stuck? ==> Fits(vars, r.values, r.isSet)
    ensures r.Halted? ==> !r.o.Parsed?
  {
    var t := ReadLong(args, i);
    var name := t.name;
    var s := t.value;
    var split := t.split;
    match FindLong(vars, t.path[0])
    case None => Halted(Refused(values, isSet, UnknownLong(name)))
    case Some(p) =>
      match ScanIndexed(vars[p].kind, values[p], t.path[1..], s)
      case Panic => Halted(Panics)
      case Reached(Failed(v, e)) =>
        FitsUpdate(vars, values, isSet, p, v, true);
        Halted(Refused(values[p := v], isSet, LongFailed(name, e)))
      case Reached(Done(v, n)) =>
        FitsUpdate(vars, values, isSet, p, v, true);
        // the cursor steps back over a glued value, so consuming nothing revisits this token
        if split && n == 0 then Stuck(values[p := v], isSet[p := true])
        else Moved(values[p := v], isSet[p := true], if split then i + n - 1 else i + n)
  }

  /** The letter at character `j` of the bundle of short options at token `i`. A boolean is
      set to true and the bundle goes on; any other option takes the rest of the token (after
      an optional `=`) or else the next tokens as its value and ends the bundle, unless its
      value consumes nothing, in which case the bundle goes on with the characters of that
      value. */
  function ShortLetter(vars: seq<Var>, values: seq<Value>, isSet: seq<bool>, args: seq<string>, i: nat, j: nat)
    : (r: Move)
    requires Fits(vars, values, isSet)
    requires i < |args| && 1 <= j < |args[i]|
    ensures r.Moved? ==> Fits(vars, r.values, r.isSet) && i <= r.next < |args|
    ensures !r.Stuck?
    ensures r.Halted? ==> !r.o.Parsed?
    decreases |args[i]| - j, 0
  {
    var arg := args[i];
    var c := arg[j];
    match FindShort(vars, c)
    case None => Halted(Refused(values, isSet, UnknownShort(c)))
    case Some(p) =>
      if vars[p].kind == BoolKind then
        FitsUpdate(vars, values, isSet, p, BoolVal(true), true);
        Bundle(vars, values[p := BoolVal(true)], isSet[p := true], args, i, j + 1)
      else if j + 1 < |arg| then
        var hasEquals := arg[j + 1] == '=';
        var k := if hasEquals then j + 2 else j + 1;
        var r := Scan(vars[p].kind, values[p], [arg[k..]] + args[i + 1..]);
        FitsUpdate(vars, values, isSet, p, r.val, false);
        if r.Failed? || r.n == 0 then
          if hasEquals then Halted(Refused(values[p := r.val], isSet, MustNotHaveValue(c)))
          else Bundle(vars, values[p := r.val], isSet, args, i, k)
        else Moved(values[p := r.val], isSet, i + r.n - 1)
      else
        var r := Scan(vars[p].kind, values[p], args[i + 1..]);
        FitsUpdate(vars, values, isSet, p, r.val, false);
        if r.Failed? || r.n == 0 then Bundle(vars, values[p := r.val], isSet, args, i, j + 1)
        else Moved(values[p := r.val], isSet, i + r.n)
  }

  /** The bundle of short options at token `i`, from character `j` on. */
  function Bundle(vars: seq<Var>, values: seq<Value>, isSet: seq<bool>, args: seq<string>, i: nat, j: nat)
    : (r: Move)
    requires Fits(vars, values, isSet)
    requires i < |args| && 1 <= j <= |args[i]|
    ensures r.Moved? ==> Fits(vars, r.values, r.isSet) && i <= r.next < |args|
    ensures !r.Stuck?
    ensures r.Halted? ==> !r.o.Parsed?
    decreases |args[i]| - j, 1
  {
    if j == |args[i]| then Moved(values, isSet, i) else ShortLetter(vars, values, isSet, args, i, j)
  }

  /** The option token `i`: a long option, or a bundle of short ones. */
  function OptionMove(vars: seq<Var>, values: seq<Value>, isSet: seq<bool>, args: seq<string>, i: nat)
    : (r: Move)
    requires Fits(vars, values, isSet) && i < |args| && |args[i]| > 1 && args[i][0] == '-'
    ensures r.Moved? ==> Fits(vars, r.values, r.isSet) && i <= r.next < |args|
    ensures r.Stuck? ==> Fits(vars, r.values, r.isSet) && args[i][1] == '-'
    ensures r.Halted? ==> !r.o.Parsed?
  {
    if args[i][1] == '-' then LongOption(vars, values, isSet, args, i) else Bundle(vars, values, isSet, args, i, 1)
  }

  /** The token loop from token `i`, with the positional arguments collected so far. */
  function TokenLoop(vars: seq<Var>, values: seq<Value>, isSet: seq<bool>, args: seq<string>, i: nat,
                     positional: seq<string>): (r: Pass)
    requires Fits(vars, values, isSet) && i <= |args|
    ensures r.Through? ==> Fits(vars, r.values, r.isSet)
    ensures r.Ended? ==> !r.o.Parsed?
    decreases |args| - i, 1
  {
    if i == |args| then Through(values, isSet, positional)
    else
      var arg := args[i];
      if arg == "--" then Through(values, isSet, positional + args[i + 1..])
      else if |arg| > 1 && arg[0] == '-' then OptionToken(vars, values, isSet, args, i, positional)
      else if |arg| > 0 then TokenLoop(vars, values, isSet, args, i + 1, positional + [arg])
      else TokenLoop(vars, values, isSet, args, i + 1, positional)
  }

  /** The option token `i`, long or a bundle of short ones, then the tokens after it. */
  function OptionToken(vars: seq<Var>, values: seq<Value>, isSet: seq<bool>, args: seq<string>, i: nat,
                       positional: seq<string>): (r: Pass)
    requires Fits(vars, values, isSet) && i < |args| && |args[i]| > 1 && args[i][0] == '-'
    ensures r.Through? ==> Fits(vars, r.values, r.isSet)
    ensures r.Ended? ==> !r.o.Parsed?
    decreases |args| - i, 0
  {
    match OptionMove(vars, values, isSet, args, i)
    case Halted(o) => Ended(o)
    case Stuck(_, _) => Ended(Loops)
    case Moved(values', isSet', next) => TokenLoop(vars, values', isSet', args, next + 1, positional)
  }

  /** An argument binding at or past position `filled` without a default. */
  function Missing(vars: seq<Var>, filled: nat): (r: Option<nat>)
    ensures r.Some? ==>
      r.value < |vars| && vars[r.value].index.Some? && filled <= vars[r.value].index.value
      && vars[r.value].default.None?
    ensures r.None? ==>
      forall p :: 0 <= p < |vars| && vars[p].index.Some? && filled <= vars[p].index.value ==>
        vars[p].default.Some?
  {
    First(vars, (v: Var) => v.index.Some? && filled <= v.index.value && v.default.None?, 0)
  }

  /** The positional arguments from position `index` on, each scanned into the binding of that
      index until one has none. */
  function Fill(vars: seq<Var>, values: seq<Value>, isSet: seq<bool>, positional: seq<string>, index: nat)
    : (r: Outcome)
    requires SingleRest(vars) && Fits(vars, values, isSet) && index <= |positional|
    ensures r.Parsed? ==> Fits(vars, r.values, r.isSet)
    decreases |positional| - index
  {
    if index == |positional| then Finish(vars, values, isSet, positional, index)
    else match FindIndex(vars, index)
      case None => Finish(vars, values, isSet, positional, index)
      case Some(p) =>
        var r := Scan(vars[p].kind, values[p], [positional[index]]);
        FitsUpdate(vars, values, isSet, p, r.val, true);
        if r.Failed? then Refused(values[p := r.val], isSet, ArgumentFailed(index, r.err))
        else Fill(vars, values[p := r.val], isSet[p := true], positional, index + 1)
  }

  /** The end of parse once `filled` positional arguments have been scanned: every argument
      binding past them needs a default, and the rest binding, if there is one, takes what is
      left. */
  function Finish(vars: seq<Var>, values: seq<Value>, isSet: seq<bool>, positional: seq<string>, filled: nat)
    : (r: Outcome)
    requires SingleRest(vars) && Fits(vars, values, isSet) && filled <= |positional|
    ensures r.Parsed? ==> Fits(vars, r.values, r.isSet)
    ensures r.Parsed? ==>
      forall p :: 0 <= p < |vars| && vars[p].index.Some? && filled <= vars[p].index.value ==>
        vars[p].default.Some?
    ensures r.Parsed? && FindRest(vars).None? ==> r.rest == positional[filled..]
    ensures r.Parsed? && FindRest(vars).Some? ==>
      r.rest == [] && r.values[FindRest(vars).value] == StringsValue(positional[filled..])
    ensures r.Refused? ==> r.err.ArgumentMissing?
  {
    match Missing(vars, filled)
    case Some(p) => Refused(values, isSet, ArgumentMissing(vars[p].name))
    case None =>
      match FindRest(vars)
      case Some(p) =>
        FitsUpdate(vars, values, isSet, p, StringsValue(positional[filled..]), true);
        Parsed(values[p := StringsValue(positional[filled..])], isSet[p := true], [])
      case None => Parsed(values, isSet, positional[filled..])
  }

  /** parse for one command: defaults, the token loop, then the positional arguments. */
  function ParseNode(vars: seq<Var>, values: seq<Value>, isSet: seq<bool>, args: seq<string>): (r: Outcome)
    requires Sound(vars) && Fits(vars, values, isSet)
    ensures r.Parsed? ==> Fits(vars, r.values, r.isSet)
  {
    var d := Defaults(vars, values);
    match TokenLoop(vars, d, isSet, args, 0, [])
    case Ended(o) => o
    case Through(values', isSet', positional) => Fill(vars, values', isSet', positional, 0)
  }

  // ---------------------------------------------------------------------------------------
  // What the phases of parse do

  /** A long option stuck on its token is stuck again from the state it leaves, so Go's loop,
      which steps back onto that token, repeats the step forever. */
  lemma StuckForever(vars: seq<Var>, values: seq<Value>, isSet: seq<bool>, args: seq<string>, i: nat)
    requires Fits(vars, values, isSet)
    requires i < |args| && |args[i]| > 1 && args[i][0] == '-' && args[i][1] == '-'
    requires LongOption(vars, values, isSet, args, i).Stuck?
    ensures var r := LongOption(vars, values, isSet, args, i);
      LongOption(vars, r.values, r.isSet, args, i).Stuck?
  {
    var t := ReadLong(args, i);
    var p := FindLong(vars, t.path[0]).value;
    NothingConsumedAgain(vars[p].kind, values[p], t.path[1..], t.value);
  }

  /** A long option is refused as unknown exactly when no binding has the long name before
      its first dot; the destinations and flags are then untouched. */
  lemma LongUnknown(vars: seq<Var>, values: seq<Value>, isSet: seq<bool>, args: seq<string>, i: nat)
    requires Fits(vars, values, isSet)
    requires i < |args| && |args[i]| > 1 && args[i][0] == '-' && args[i][1] == '-'
    ensures var t := ReadLong(args, i);
      LongOption(vars, values, isSet, args, i) == Halted(Refused(values, isSet, UnknownLong(t.name)))
      <==> FindLong(vars, t.path[0]).None?
  {
  }

  /** `--name=v` read: the name, one path element, and `v` glued as the first value token. */
  lemma ReadGlued(name: string, v: string, rest: seq<string>)
    requires '=' !in name && '.' !in name && v != []
    ensures ReadLong(["--" + name + "=" + v] + rest, 0) == LongToken(name, [name], [v] + rest, true)
  {
    var args := ["--" + name + "=" + v] + rest;
    var arg := args[0];
    IndexOfAt(arg, '=', |name| + 2);
    assert arg[2..|name| + 2] == name && arg[|name| + 3..] == v && args[1..] == rest;
    assert Split(name, '.') == [name];
  }

  /** `--name v` read: the name, one path element, and `v` as the next token. */
  lemma ReadApart(name: string, v: string, rest: seq<string>)
    requires '=' !in name && '.' !in name
    ensures ReadLong(["--" + name, v] + rest, 0) == LongToken(name, [name], [v] + rest, false)
  {
    var args := ["--" + name, v] + rest;
    assert '=' !in args[0];
    assert args[0][2..] == name && args[1..] == [v] + rest;
    assert Split(name, '.') == [name];
  }

  /** `--name=v` and `--name v` give the option the same value and mark it set; the glued
      form leaves the cursor one token earlier (on the option itself when the value consumed
      nothing, where parse then stays), and a value that fails refuses both alike, with the
      destination as the failed scan left it and the flag not set. */
  lemma LongSpellings(vars: seq<Var>, values: seq<Value>, isSet: seq<bool>, name: string, v: string,
                      rest: seq<string>)
    requires Fits(vars, values, isSet)
    requires '=' !in name && '.' !in name && v != []
    requires FindLong(vars, name).Some?
    ensures var p := FindLong(vars, name).value;
      var r := ScanIndexed(vars[p].kind, values[p], [], [v] + rest).res;
      var glued := LongOption(vars, values, isSet, ["--" + name + "=" + v] + rest, 0);
      var apart := LongOption(vars, values, isSet, ["--" + name, v] + rest, 0);
      && (r.Done? && r.n > 0 ==>
            glued == Moved(values[p := r.val], isSet[p := true], r.n - 1)
            && apart == Moved(values[p := r.val], isSet[p := true], r.n))
      && (r.Done? && r.n == 0 ==>
            glued == Stuck(values[p := r.val], isSet[p := true])
            && apart == Moved(values[p := r.val], isSet[p := true], 0))
      && (r.Failed? ==>
            glued == Halted(Refused(values[p := r.val], isSet, LongFailed(name, r.err)))
            && apart == glued)
  {
    ReadGlued(name, v, rest);
    ReadApart(name, v, rest);
    assert [name][1..] == [];
  }

  /** `-c<t>`, `-c=<t>` and `-c <t>` give a non-boolean short option `c` the same value when
      that value scans and consumes a token; the separated form consumes one token more. */
  lemma ShortSpellings(vars: seq<Var>, values: seq<Value>, isSet: seq<bool>, c: char, t: string,
                       rest: seq<string>)
    requires Fits(vars, values, isSet)
    requires FindShort(vars, c).Some? && vars[FindShort(vars, c).value].kind != BoolKind
    requires t != [] && t[0] != '='
    requires var p := FindShort(vars, c).value;
      var r := Scan(vars[p].kind, values[p], [t] + rest);
      r.Done? && r.n > 0
    ensures var p := FindShort(vars, c).value;
      var r := Scan(vars[p].kind, values[p], [t] + rest);
      && Bundle(vars, values, isSet, [['-', c] + t] + rest, 0, 1) == Moved(values[p := r.val], isSet, r.n - 1)
      && Bundle(vars, values, isSet, [['-', c, '='] + t] + rest, 0, 1) == Moved(values[p := r.val], isSet, r.n - 1)
      && Bundle(vars, values, isSet, [['-', c], t] + rest, 0, 1) == Moved(values[p := r.val], isSet, r.n)
  {
    ShortGlued(vars, values, isSet, c, t, rest);
    ShortEquals(vars, values, isSet, c, t, rest);
    ShortSeparate(vars, values, isSet, c, t, rest);
  }

  /** `-c<t>`: the value is glued to the option letter. */
  lemma ShortGlued(vars: seq<Var>, values: seq<Value>, isSet: seq<bool>, c: char, t: string,
                   rest: seq<string>)
    requires Fits(vars, values, isSet)
    requires FindShort(vars, c).Some? && vars[FindShort(vars, c).value].kind != BoolKind
    requires t != [] && t[0] != '='
    ensures var p := FindShort(vars, c).value;
      var r := Scan(vars[p].kind, values[p], [t] + rest);
      r.Done? && r.n > 0 ==>
        Bundle(vars, values, isSet, [['-', c] + t] + rest, 0, 1) == Moved(values[p := r.val], isSet, r.n - 1)
  {
    var glued := [['-', c] + t] + rest;
    assert glued[0][2..] == t && glued[1..] == rest;
    ShortValue(vars, values, isSet, glued, 2);
  }

  /** `-c=<t>`: the value follows an equals sign. */
  lemma ShortEquals(vars: seq<Var>, values: seq<Value>, isSet: seq<bool>, c: char, t: string,
                    rest: seq<string>)
    requires Fits(vars, values, isSet)
    requires FindShort(vars, c).Some? && vars[FindShort(vars, c).value].kind != BoolKind
    ensures var p := FindShort(vars, c).value;
      var r := Scan(vars[p].kind, values[p], [t] + rest);
      r.Done? && r.n > 0 ==>
        Bundle(vars, values, isSet, [['-', c, '='] + t] + rest, 0, 1) == Moved(values[p := r.val], isSet, r.n - 1)
  {
    var equals := [['-', c, '='] + t] + rest;
    assert equals[0][3..] == t && equals[1..] == rest;
    ShortValue(vars, values, isSet, equals, 3);
  }

  /** `-c <t>`: the value is the next token. */
  lemma ShortSeparate(vars: seq<Var>, values: seq<Value>, isSet: seq<bool>, c: char, t: string,
                      rest: seq<string>)
    requires Fits(vars, values, isSet)
    requires FindShort(vars, c).Some? && vars[FindShort(vars, c).value].kind != BoolKind
    ensures var p := FindShort(vars, c).value;
      var r := Scan(vars[p].kind, values[p], [t] + rest);
      r.Done? && r.n > 0 ==>
        Bundle(vars, values, isSet, [['-', c], t] + rest, 0, 1) == Moved(values[p := r.val], isSet, r.n)
  {
    var separate := [['-', c], t] + rest;
    assert separate[1..] == [t] + rest;
    ShortValue(vars, values, isSet, separate, 2);
  }

  /** The one short option of the token `-c...` takes its value from character `k` on (past
      an `=`), or from the next tokens when the token ends after `c`. */
  lemma ShortValue(vars: seq<Var>, values: seq<Value>, isSet: seq<bool>, args: seq<string>, k: nat)
    requires Fits(vars, values, isSet) && |args| > 0 && 2 <= |args[0]| && args[0][0] == '-'
    requires FindShort(vars, args[0][1]).Some? && vars[FindShort(vars, args[0][1]).value].kind != BoolKind
    requires if |args[0]| == 2 then k == 2 else k == if args[0][2] == '=' then 3 else 2
    ensures var p := FindShort(vars, args[0][1]).value;
      var glued := 2 < |args[0]|;
      var r := Scan(vars[p].kind, values[p], if glued then [args[0][k..]] + args[1..] else args[1..]);
      r.Done? && r.n > 0 ==>
        Bundle(vars, values, isSet, args, 0, 1) == Moved(values[p := r.val], isSet, if glued then r.n - 1 else r.n)
  {
  }

  /** `-c=<t>` is refused when its value does not scan or consumes nothing. */
  lemma GluedValueRequired(vars: seq<Var>, values: seq<Value>, isSet: seq<bool>, c: char, t: string,
                           rest: seq<string>)
    requires Fits(vars, values, isSet)
    requires FindShort(vars, c).Some? && vars[FindShort(vars, c).value].kind != BoolKind
    requires var p := FindShort(vars, c).value;
      var r := Scan(vars[p].kind, values[p], [t] + rest);
      r.Failed? || r.n == 0
    ensures var p := FindShort(vars, c).value;
      var r := Scan(vars[p].kind, values[p], [t] + rest);
      Bundle(vars, values, isSet, [['-', c, '='] + t] + rest, 0, 1)
        == Halted(Refused(values[p := r.val], isSet, MustNotHaveValue(c)))
  {
    var equals := [['-', c, '='] + t] + rest;
    assert equals[0][3..] == t && equals[1..] == rest;
  }

  /** A bundle of boolean short options sets each of them to true and marks it as set; the
      other destinations and flags are untouched and the cursor stays on the bundle. */
  lemma {:induction false} BundleBools(vars: seq<Var>, values: seq<Value>, isSet: seq<bool>, args: seq<string>,
                                       i: nat, j: nat)
    requires UniqueShorts(vars) && Fits(vars, values, isSet)
    requires i < |args| && 1 <= j <= |args[i]|
    requires forall c :: c in args[i][j..] ==>
      FindShort(vars, c).Some? && vars[FindShort(vars, c).value].kind == BoolKind
    ensures var r := Bundle(vars, values, isSet, args, i, j);
      && r.Moved? && r.next == i
      && forall p :: 0 <= p < |vars| ==>
           if vars[p].short.Some? && vars[p].short.value in args[i][j..]
           then r.values[p] == BoolVal(true) && r.isSet[p]
           else r.values[p] == values[p] && r.isSet[p] == isSet[p]
    decreases |args[i]| - j
  {
    var arg := args[i];
    if j < |arg| {
      var c := arg[j];
      assert arg[j..] == [c] + arg[j + 1..];
      var p := FindShort(vars, c).value;
      var values' := values[p := BoolVal(true)];
      var isSet' := isSet[p := true];
      assert ShortLetter(vars, values, isSet, args, i, j) == Bundle(vars, values', isSet', args, i, j + 1);
      FitsUpdate(vars, values, isSet, p, BoolVal(true), true);
      var r := Bundle(vars, values', isSet', args, i, j + 1);
      assert Bundle(vars, values, isSet, args, i, j) == r;
      BundleBools(vars, values', isSet', args, i, j + 1);
      ShortOwner(vars, c, p);
      MarkedBools(vars, values, isSet, c, p, arg[j + 1..], r.values, r.isSet);
    }
  }

  /** The flags and values after letter `c` and then the letters `s`: every binding named by
      one of them is true and set, every other one is untouched. */
  lemma MarkedBools(vars: seq<Var>, values: seq<Value>, isSet: seq<bool>, c: char, p: nat, s: string,
                    out: seq<Value>, outSet: seq<bool>)
    requires |values| == |vars| && |isSet| == |vars| && |out| == |vars| && |outSet| == |vars|
    requires p < |vars| && vars[p].short == Some(c)
    requires forall q :: 0 <= q < |vars| && vars[q].short == Some(c) ==> q == p
    requires forall q :: 0 <= q < |vars| ==>
      if vars[q].short.Some? && vars[q].short.value in s
      then out[q] == BoolVal(true) && outSet[q]
      else out[q] == values[p := BoolVal(true)][q] && outSet[q] == isSet[p := true][q]
    ensures forall q :: 0 <= q < |vars| ==>
      if vars[q].short.Some? && vars[q].short.value in [c] + s
      then out[q] == BoolVal(true) && outSet[q]
      else out[q] == values[q] && outSet[q] == isSet[q]
  {
    forall q | 0 <= q < |vars|
      ensures if vars[q].short.Some? && vars[q].short.value in [c] + s
              then out[q] == BoolVal(true) && outSet[q]
              else out[q] == values[q] && outSet[q] == isSet[q]
    {
      if q != p {
        assert values[p := BoolVal(true)][q] == values[q] && isSet[p := true][q] == isSet[q];
      }
    }
  }

  /** Only the binding FindShort finds has a given short name. */
  lemma ShortOwner(vars: seq<Var>, c: char, p: nat)
    requires UniqueShorts(vars) && FindShort(vars, c) == Some(p)
    ensures forall q :: 0 <= q < |vars| && vars[q].short == Some(c) ==> q == p
  {
    forall q | 0 <= q < |vars| && vars[q].short == Some(c)
      ensures q == p
    {
    }
  }

  /** `-ccc` raises a Count option once per letter when no integer follows: what follows each
      letter is not a number and is not consumed, so the bundle goes on. The option is not
      marked as set. */
  lemma {:induction false} BundleCounts(vars: seq<Var>, values: seq<Value>, isSet: seq<bool>, args: seq<string>,
                                        i: nat, j: nat, c: char)
    requires Fits(vars, values, isSet)
    requires i < |args| && 1 <= j <= |args[i]|
    requires FindShort(vars, c).Some? && vars[FindShort(vars, c).value].kind == CounterKind
    requires IsAsciiLetter(c) && Repeated(args[i], j, c)
    requires i + 1 < |args| ==> ParseInt(args[i + 1]).None?
    ensures var p := FindShort(vars, c).value;
      Bundle(vars, values, isSet, args, i, j)
        == Moved(values[p := CountVal(Repeat(values[p].count, |args[i]| - j))], isSet, i)
    decreases |args[i]| - j
  {
    var p := FindShort(vars, c).value;
    var count := values[p].count;
    if j == |args[i]| {
      assert values[p := CountVal(count)] == values;
    } else {
      var next := CountVal(NextCount(count, []));
      var values' := values[p := next];
      FitsUpdate(vars, values, isSet, p, next, false);
      CountLetter(vars, values, isSet, args, i, j, c);
      BundleCounts(vars, values', isSet, args, i, j + 1, c);
      CountsCompose(values, p, |args[i]| - j, |args[i]| - (j + 1));
    }
  }

  /** One count and then `left` more are `left + 1` counts. */
  lemma CountsCompose(values: seq<Value>, p: nat, n: nat, left: nat)
    requires p < |values| && values[p].CountVal? && MinInt64 <= values[p].count <= MaxInt64
    requires n == left + 1
    ensures var next := values[p := CountVal(NextCount(values[p].count, []))];
      next[p := CountVal(Repeat(next[p].count, left))] == values[p := CountVal(Repeat(values[p].count, n))]
  {
    RepeatFront(values[p].count, left);
  }

  /** Every character of `s` from position `j` on is `c`. */
  predicate Repeated(s: string, j: nat, c: char)
    decreases |s| - j
  {
    j >= |s| || (s[j] == c && Repeated(s, j + 1, c))
  }

  /** One letter of such a bundle counts once and moves to the next letter. */
  lemma CountLetter(vars: seq<Var>, values: seq<Value>, isSet: seq<bool>, args: seq<string>,
                    i: nat, j: nat, c: char)
    requires Fits(vars, values, isSet)
    requires i < |args| && 1 <= j < |args[i]|
    requires FindShort(vars, c).Some? && vars[FindShort(vars, c).value].kind == CounterKind
    requires IsAsciiLetter(c) && Repeated(args[i], j, c)
    requires i + 1 < |args| ==> ParseInt(args[i + 1]).None?
    ensures var p := FindShort(vars, c).value;
      Bundle(vars, values, isSet, args, i, j)
        == Bundle(vars, values[p := CountVal(NextCount(values[p].count, []))], isSet, args, i, j + 1)
  {
    var arg := args[i];
    var p := FindShort(vars, c).value;
    var next := CountVal(NextCount(values[p].count, []));
    if j + 1 < |arg| {
      assert !IsDigit(arg[j + 1]);
      assert ParseInt(arg[j + 1..]).None?;
      assert Scan(CounterKind, values[p], [arg[j + 1..]] + args[i + 1..]) == Done(next, 0);
    } else {
      assert Scan(CounterKind, values[p], args[i + 1..]) == Done(next, 0);
    }
  }

  /** The non-empty tokens of `s`, in order. */
  function NonEmpty(s: seq<string>): (r: seq<string>)
    ensures |r| <= |s|
    ensures forall t :: t in r <==> t in s && t != []
  {
    if |s| == 0 then []
    else
      var init := s[..|s| - 1];
      assert s == init + [s[|s| - 1]];
      NonEmpty(init) + Kept(s[|s| - 1])
  }

  /** A token as the loop collects it: dropped when empty. */
  function Kept(t: string): seq<string> { if t == [] then [] else [t] }

  /** A token the loop takes as a positional argument, or drops when it is empty. */
  predicate Plain(t: string) { t != "--" && !(|t| > 1 && t[0] == '-') }

  lemma NonEmptyStep(args: seq<string>, i: nat, e: nat, positional: seq<string>)
    requires i < e <= |args|
    ensures positional + NonEmpty(args[i..e - 1]) + Kept(args[e - 1]) == positional + NonEmpty(args[i..e])
  {
    assert args[i..e][..e - 1 - i] == args[i..e - 1];
  }

  /** One token that is not an option: kept as a positional argument unless it is empty. */
  lemma PlainStep(vars: seq<Var>, values: seq<Value>, isSet: seq<bool>, args: seq<string>, i: nat, next: nat,
                  positional: seq<string>)
    requires Fits(vars, values, isSet) && i < |args| && next == i + 1 && Plain(args[i])
    ensures TokenLoop(vars, values, isSet, args, i, positional)
         == TokenLoop(vars, values, isSet, args, next, positional + Kept(args[i]))
  {
    assert positional + [] == positional;
  }

  /** Tokens that are not options go to the positional arguments in order, empty ones dropped. */
  lemma {:induction false} PlainTokens(vars: seq<Var>, values: seq<Value>, isSet: seq<bool>, args: seq<string>,
                                       i: nat, e: nat, positional: seq<string>)
    requires Fits(vars, values, isSet) && i <= e <= |args|
    requires forall m :: i <= m < e ==> Plain(args[m])
    ensures TokenLoop(vars, values, isSet, args, i, positional)
         == TokenLoop(vars, values, isSet, args, e, positional + NonEmpty(args[i..e]))
    decreases e
  {
    if e == i {
      assert positional + NonEmpty(args[i..e]) == positional;
    } else {
      PlainTokens(vars, values, isSet, args, i, e - 1, positional);
      PlainLast(vars, values, isSet, args, i, e, positional);
    }
  }

  /** The last of such tokens extends the positional arguments collected before it. */
  lemma PlainLast(vars: seq<Var>, values: seq<Value>, isSet: seq<bool>, args: seq<string>,
                  i: nat, e: nat, positional: seq<string>)
    requires Fits(vars, values, isSet) && i < e <= |args| && Plain(args[e - 1])
    ensures TokenLoop(vars, values, isSet, args, e - 1, positional + NonEmpty(args[i..e - 1]))
         == TokenLoop(vars, values, isSet, args, e, positional + NonEmpty(args[i..e]))
  {
    NonEmptyStep(args, i, e, positional);
    PlainStep(vars, values, isSet, args, e - 1, e, positional + NonEmpty(args[i..e - 1]));
  }

  /** `--` ends the options: the positional arguments are the non-empty tokens before it and
      then every token after it as it is, empty or not; the destinations are untouched. */
  lemma EndOfOptions(vars: seq<Var>, values: seq<Value>, isSet: seq<bool>, args: seq<string>, e: nat)
    requires Fits(vars, values, isSet) && e < |args| && args[e] == "--"
    requires forall m :: 0 <= m < e ==> Plain(args[m])
    ensures TokenLoop(vars, values, isSet, args, 0, []) == Through(values, isSet, NonEmpty(args[..e]) + args[e + 1..])
  {
    PlainTokens(vars, values, isSet, args, 0, e, []);
    assert [] + NonEmpty(args[0..e]) == NonEmpty(args[..e]) by {
      assert args[0..e] == args[..e];
    }
    DashesEnd(vars, values, isSet, args, e, NonEmpty(args[..e]));
  }

  /** The token `--` hands every token after it to the positional arguments as it is. */
  lemma DashesEnd(vars: seq<Var>, values: seq<Value>, isSet: seq<bool>, args: seq<string>, e: nat,
                  positional: seq<string>)
    requires Fits(vars, values, isSet) && e < |args| && args[e] == "--"
    ensures TokenLoop(vars, values, isSet, args, e, positional) == Through(values, isSet, positional + args[e + 1..])
  {
  }

  /** Without options, parse scans the non-empty tokens as positional arguments, from the
      defaults. */
  lemma OnlyPositional(vars: seq<Var>, values: seq<Value>, isSet: seq<bool>, args: seq<string>)
    requires Sound(vars) && Fits(vars, values, isSet)
    requires forall m :: 0 <= m < |args| ==> Plain(args[m])
    ensures ParseNode(vars, values, isSet, args) == Fill(vars, Defaults(vars, values), isSet, NonEmpty(args), 0)
  {
    assert args[0..|args|] == args;
    assert [] + NonEmpty(args) == NonEmpty(args);
    PlainTokens(vars, Defaults(vars, values), isSet, args, 0, |args|, []);
  }

}
