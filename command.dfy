/**
 * NewCmd and AddCmd: the bindings a command structure declares through its field tags, the
 * checks on their positions, the automatic help option, and the names of sub-commands.
 *
 * A field is described by its Go name, its kind, and the tags argp reads: `name`, `long`
 * (which may be present and empty), `short`, `index` (a position or `*` for the rest) and
 * `default` (parsed as a token into a fresh variable of the field's kind).
 */
module Commands {
  import opened Wrappers
  import opened Text
  import opened Literals
  import opened Kinds
  import opened Scanning
  import opened Registry

  datatype Tagged = Tagged(
    field: string,
    kind: Kind,
    name: string,
    long: Option<string>,
    short: string,
    index: string,
    def: Option<string>)

  /** The binding name of a field: its `name` tag, or else its Go name in lower case. */
  function FieldName(f: Tagged): (r: string)
    ensures f.name != "" ==> r == f.name
    ensures f.name == "" ==> |r| == |f.field| && Lower(r) == r && forall i :: 0 <= i < |r| ==> r[i] == LowerChar(f.field[i])
  {
    LowerIdempotent(f.field);
    if f.name != "" then f.name else Lower(f.field)
  }

  /** The long name of a field without a `long` tag: its binding name, lower-cased so that
      findLong, which lower-cases the query, can find it. */
  function ImplicitLong(f: Tagged): (r: string)
    ensures Lower(r) == r
  {
    LowerIdempotent(FieldName(f));
    Lower(FieldName(f))
  }

  /** The long name a field gets, or why NewCmd panics. */
  function FieldLong(vars: seq<Var>, f: Tagged): (r: Result<string, RegError>)
    ensures r.Ok? ==> Lower(r.value) == r.value
    ensures f.long.None? ==> r == Ok(ImplicitLong(f))
    ensures f.long.Some? && f.long.value != "" ==>
      (r.Ok? <==> IsValidName(f.long.value) && FindLong(vars, f.long.value).None?)
  {
    match f.long
    case None => Ok(ImplicitLong(f))
    case Some(long) =>
      if long == "" then Ok("")
      else if !IsValidName(long) then Err(InvalidLong(long))
      else if FindLong(vars, long).Some? then Err(LongExists(long))
      else LowerIdempotent(long); Ok(Lower(long))
  }

  /** The short name a field gets, or why NewCmd panics. */
  function FieldShort(vars: seq<Var>, f: Tagged): (r: Result<Option<char>, RegError>)
    ensures r.Ok? && r.value.Some? ==> FindShort(vars, r.value.value).None?
    ensures r.Ok? <==> f.short == "" || (IsValidName(f.short) && |f.short| == 1 && FindShort(vars, f.short[0]).None?)
  {
    if f.short == "" then Ok(None)
    else if !IsValidName(f.short) then Err(InvalidShort(f.short))
    else if |f.short| != 1 then Err(NotOneChar(f.short))
    else if FindShort(vars, f.short[0]).Some? then Err(ShortExists(f.short))
    else Ok(Some(f.short[0]))
  }

  /** What the `index` tag makes of a field: no position, a position, or the rest binding. */
  datatype Place = Unplaced | At(position: nat) | Rest

  function FieldPlace(vars: seq<Var>, f: Tagged): (r: Result<Place, RegError>)
    ensures r.Ok? && r.value.At? ==> FindIndex(vars, r.value.position).None?
    ensures r.Ok? && r.value.Rest? ==> FindRest(vars).None? && f.kind == SliceKind(StringKind)
    ensures r.Ok? && r.value.Rest? ==> f.def.None? || f.def == Some("")
    // an argument cannot have option names
    ensures f.index != "" && ((f.long.Some? && f.long.value != "") || f.short != "") ==> r == Err(NameAndIndex)
    ensures r == Ok(Unplaced) <==> f.index == ""
  {
    if f.index == "" then Ok(Unplaced)
    else if (f.long.Some? && f.long.value != "") || f.short != "" then Err(NameAndIndex)
    else if f.index == "*" then
      if FindRest(vars).Some? then Err(RestExists)
      else if f.def.Some? && f.def.value != "" then Err(RestDefault)
      else if f.kind != SliceKind(StringKind) then Err(RestNotStrings)
      else Ok(Rest)
    else match ParseInt(f.index)
      case None => Err(BadIndex(f.index))
      case Some(i) =>
        if i < 0 then Err(BadIndex(f.index))
        else if FindIndex(vars, i).Some? then Err(IndexExists(i))
        else Ok(At(i))
  }

  /** The default a field gets: its tag scanned as one token into a fresh variable. */
  function FieldDefault(f: Tagged): (r: Result<Option<Value>, RegError>)
    requires ValidType(f.kind)
    ensures r.Ok? && r.value.Some? ==> Typed(r.value.value, f.kind)
    ensures f.def.None? ==> r == Ok(None)
  {
    match f.def
    case None => Ok(None)
    case Some(d) =>
      match Scan(f.kind, Zero(f.kind), [d])
      case Failed(_, e) => Err(BadDefault(e))
      case Done(v, _) => Ok(Some(v))
  }

  /** The binding NewCmd makes of field `f` after the bindings `vars`, or why it panics. */
  function FieldVar(vars: seq<Var>, f: Tagged): (r: Result<Var, RegError>)
    ensures r.Ok? ==> Registry.Fresh(vars, r.value) && r.value.kind == f.kind && r.value.name == FieldName(f)
    ensures !ValidType(f.kind) ==> r == Err(UnsupportedType)
  {
    if !ValidType(f.kind) then Err(UnsupportedType)
    else match FieldLong(vars, f)
      case Err(e) => Err(e)
      case Ok(long) =>
        match FieldShort(vars, f)
        case Err(e) => Err(e)
        case Ok(short) =>
          match FieldPlace(vars, f)
          case Err(e) => Err(e)
          case Ok(place) =>
            match FieldDefault(f)
            case Err(e) => Err(e)
            case Ok(def) =>
              Ok(Var(f.kind, FieldName(f), long, short, if place.At? then Some(place.position) else None,
                     place.Rest?, def))
  }

  /** The bindings of the fields, in order, or the first panic. */
  function FieldVars(fields: seq<Tagged>): (r: Result<seq<Var>, RegError>)
    ensures r.Ok? ==> Sound(r.value) && |r.value| == |fields|
    ensures r.Ok? ==> forall j :: 0 <= j < |fields| ==> r.value[j].kind == fields[j].kind
  {
    if |fields| == 0 then Ok([])
    else match FieldVars(fields[..|fields| - 1])
      case Err(e) => Err(e)
      case Ok(vars) =>
        match FieldVar(vars, fields[|fields| - 1])
        case Err(e) => Err(e)
        case Ok(v) => SoundAppend(vars, v); Ok(vars + [v])
  }

  /** The check of the positions from `x` up to NextFree: each is in use, and once one has a
      default (the first such is `optional`) every later one has one. */
  function Positions(vars: seq<Var>, x: nat, optional: Option<nat>): (r: Option<RegError>)
    requires x <= NextFree(vars)
    ensures r.Some? ==> r.value.IndexMissing? || r.value.RequiredAfterOptional?
    decreases NextFree(vars) - x
  {
    if x == NextFree(vars) then None
    else match FindIndex(vars, x)
      case None => Some(IndexMissing(x))
      case Some(p) =>
        if vars[p].default.Some? then Positions(vars, x + 1, if optional.None? then Some(x) else optional)
        else if optional.Some? then Some(RequiredAfterOptional(x, optional.value))
        else Positions(vars, x + 1, optional)
  }

  /** What the check of the positions reports when it fails from `x` on: a position in the
      range with no binding, or an argument without a default at a position after the first
      one with a default, which the error names too. */
  lemma {:induction false} PositionsFail(vars: seq<Var>, x: nat, optional: Option<nat>, e: RegError)
    requires x <= NextFree(vars) && Positions(vars, x, optional) == Some(e)
    ensures e.IndexMissing? ==> x <= e.position < NextFree(vars) && FindIndex(vars, e.position).None?
    ensures e.RequiredAfterOptional? ==>
      && x <= e.position < NextFree(vars) && FindIndex(vars, e.position).Some?
      && vars[FindIndex(vars, e.position).value].default.None?
      && (optional.Some? ==> e.optional == optional.value)
      && (optional.None? ==>
            && x <= e.optional < e.position && FindIndex(vars, e.optional).Some?
            && vars[FindIndex(vars, e.optional).value].default.Some?)
    decreases NextFree(vars) - x
  {
    match FindIndex(vars, x)
    case None =>
    case Some(p) =>
      if vars[p].default.Some? || optional.None? {
        var later := if vars[p].default.Some? && optional.None? then Some(x) else optional;
        PositionsFail(vars, x + 1, later, e);
      }
  }

  /** Arguments with a default follow all arguments without one. */
  ghost predicate OptionalLast(vars: seq<Var>)
  {
    forall p, q ::
      (0 <= p < |vars| && 0 <= q < |vars| && vars[p].index.Some? && vars[q].index.Some?
       && vars[p].index.value < vars[q].index.value && vars[p].default.Some?) ==> vars[q].default.Some?
  }

  /** What the check of the positions guarantees when it passes from `x` on. */
  lemma PositionsPass(vars: seq<Var>, x: nat, optional: Option<nat>)
    requires x <= NextFree(vars) && Positions(vars, x, optional) == None
    ensures forall y :: x <= y < NextFree(vars) ==> FindIndex(vars, y).Some?
    ensures optional.Some? ==>
      forall y :: x <= y < NextFree(vars) ==> vars[FindIndex(vars, y).value].default.Some?
    ensures forall y, z :: x <= y < z < NextFree(vars) && vars[FindIndex(vars, y).value].default.Some? ==>
      vars[FindIndex(vars, z).value].default.Some?
  {
    PositionsFound(vars, x, optional);
    if optional.Some? {
      PositionsDefaulted(vars, x, optional);
    }
    forall y, z | x <= y < z < NextFree(vars) && vars[FindIndex(vars, y).value].default.Some?
      ensures vars[FindIndex(vars, z).value].default.Some?
    {
      PositionsOrdered(vars, x, optional, y, z);
    }
  }

  /** Every position from `x` on has its binding. */
  lemma {:induction false} PositionsFound(vars: seq<Var>, x: nat, optional: Option<nat>)
    requires x <= NextFree(vars) && Positions(vars, x, optional) == None
    ensures forall y :: x <= y < NextFree(vars) ==> FindIndex(vars, y).Some?
    decreases NextFree(vars) - x
  {
    if x != NextFree(vars) {
      var p := FindIndex(vars, x).value;
      PositionsFound(vars, x + 1, if vars[p].default.Some? && optional.None? then Some(x) else optional);
    }
  }

  /** Once an argument with a default has been seen, every later one has a default. */
  lemma {:induction false} PositionsDefaulted(vars: seq<Var>, x: nat, optional: Option<nat>)
    requires x <= NextFree(vars) && Positions(vars, x, optional) == None && optional.Some?
    ensures forall y :: x <= y < NextFree(vars) ==>
      FindIndex(vars, y).Some? && vars[FindIndex(vars, y).value].default.Some?
    decreases NextFree(vars) - x
  {
    if x != NextFree(vars) {
      PositionsDefaulted(vars, x + 1, optional);
    }
  }

  /** The check of the positions goes on from `x + 1` with the position of the first argument
      with a default, once there is one. */
  lemma PositionsStep(vars: seq<Var>, x: nat, optional: Option<nat>) returns (later: Option<nat>)
    requires x < NextFree(vars) && Positions(vars, x, optional) == None
    ensures FindIndex(vars, x).Some? && Positions(vars, x + 1, later) == None
    ensures vars[FindIndex(vars, x).value].default.Some? ==> later.Some?
    ensures optional.Some? ==> later == optional
  {
    var p := FindIndex(vars, x).value;
    later := if vars[p].default.Some? && optional.None? then Some(x) else optional;
  }

  /** The check of the positions from `x` reaches every later position `y` and passes from
      there, with the position of the first argument with a default seen before `y`. */
  lemma {:induction false} PositionsReach(vars: seq<Var>, x: nat, optional: Option<nat>, y: nat)
    returns (seen: Option<nat>)
    requires x <= y < NextFree(vars) && Positions(vars, x, optional) == None
    ensures Positions(vars, y, seen) == None
    decreases y - x
  {
    if x == y {
      seen := optional;
    } else {
      var later := PositionsStep(vars, x, optional);
      Before(x, y);
      seen := PositionsReach(vars, x + 1, later, y);
    }
  }

  /** An argument with a default at position `y` is followed only by arguments with one: the
      one at `z` among them. */
  lemma PositionsOrdered(vars: seq<Var>, x: nat, optional: Option<nat>, y: nat, z: nat)
    requires x <= NextFree(vars) && Positions(vars, x, optional) == None
    requires x <= y < z < NextFree(vars) && FindIndex(vars, y).Some? && vars[FindIndex(vars, y).value].default.Some?
    ensures FindIndex(vars, z).Some? && vars[FindIndex(vars, z).value].default.Some?
  {
    var seen := PositionsReach(vars, x, optional, y);
    var later := PositionsStep(vars, y, seen);
    PositionsDefaulted(vars, y + 1, later);
  }

  /** Passing the check of the positions makes sound bindings registered, with arguments
      that have a default after all those that have none. */
  lemma PositionsRegistered(vars: seq<Var>)
    requires Sound(vars) && Positions(vars, 0, None) == None
    ensures Registered(vars) && OptionalLast(vars)
  {
    PositionsPass(vars, 0, None);
    PassContiguous(vars);
    PassOptionalLast(vars);
  }

  lemma PassContiguous(vars: seq<Var>)
    requires forall y :: 0 <= y < NextFree(vars) ==> FindIndex(vars, y).Some?
    ensures Contiguous(vars)
  {
  }

  lemma PassOptionalLast(vars: seq<Var>)
    requires UniqueIndices(vars)
    requires forall y :: 0 <= y < NextFree(vars) ==> FindIndex(vars, y).Some?
    requires forall y, z :: 0 <= y < z < NextFree(vars) && vars[FindIndex(vars, y).value].default.Some? ==>
      vars[FindIndex(vars, z).value].default.Some?
    ensures OptionalLast(vars)
  {
    forall p, q | 0 <= p < |vars| && 0 <= q < |vars| && vars[p].index.Some? && vars[q].index.Some?
      && vars[p].index.value < vars[q].index.value && vars[p].default.Some?
      ensures vars[q].default.Some?
    {
      var y := vars[p].index.value;
      var z := vars[q].index.value;
      assert FindIndex(vars, y) == Some(p) && FindIndex(vars, z) == Some(q);
    }
  }

  /** The help option NewCmd adds when no binding has the long name `help`: `-h`/`--help`,
      or `--help` alone when `-h` is taken. */
  function HelpVar(vars: seq<Var>): (v: Var)
    ensures v.long == "help" && v.kind == BoolKind && IsOption(v)
    ensures v.short.Some? <==> FindShort(vars, 'h').None?
  {
    Var(BoolKind, "", "help", if FindShort(vars, 'h').None? then Some('h') else None, None, false, None)
  }

  /** The bindings with the help option added unless `--help` is already taken: the bindings
      come first and unchanged, and `--help` is found afterwards. */
  function WithHelp(vars: seq<Var>): (r: seq<Var>)
    ensures FindLong(r, "help").Some?
    ensures |vars| <= |r| <= |vars| + 1 && r[..|vars|] == vars
    ensures FindLong(vars, "help").Some? ==> r == vars
    ensures |r| > |vars| ==> r[|vars|] == HelpVar(vars)
  {
    assert Lower("help") == "help";
    if FindLong(vars, "help").None? then
      var r := vars + [HelpVar(vars)];
      assert r[|vars|].long == "help";
      r
    else vars
  }

  /** NewCmd: the bindings of a command structure, or why NewCmd panics. */
  function CmdVars(fields: seq<Tagged>): (r: Result<seq<Var>, RegError>)
    ensures r.Ok? ==> |fields| <= |r.value| <= |fields| + 1 && FindLong(r.value, "help").Some?
    ensures r.Ok? ==> forall j :: 0 <= j < |fields| ==> ValidType(fields[j].kind) && r.value[j].kind == fields[j].kind
    ensures (exists j :: 0 <= j < |fields| && !ValidType(fields[j].kind)) ==> r.Err?
  {
    match FieldVars(fields)
    case Err(e) => Err(e)
    case Ok(vars) =>
      match Positions(vars, 0, None)
      case Some(e) => Err(e)
      case None => Ok(WithHelp(vars))
  }

  /** A command built by NewCmd follows every registration rule, has its arguments with a
      default last, and answers to `--help`. */
  lemma CmdVarsRegistered(fields: seq<Tagged>)
    requires CmdVars(fields).Ok?
    ensures var vars := CmdVars(fields).value;
      Registered(vars) && OptionalLast(vars) && FindLong(vars, "help").Some?
  {
    var vars := FieldVars(fields).value;
    PositionsRegistered(vars);
    HelpRegistered(vars);
  }

  /** Adding the help option keeps the registration rules; afterwards `--help` is found. */
  lemma HelpRegistered(vars: seq<Var>)
    requires Registered(vars) && OptionalLast(vars)
    ensures Registered(WithHelp(vars)) && OptionalLast(WithHelp(vars)) && FindLong(WithHelp(vars), "help").Some?
  {
    if FindLong(vars, "help").None? {
      var h := HelpVar(vars);
      var short := if h.short.Some? then "h" else "";
      assert Lower("help") == "help";
      assert OptVar(vars, BoolKind, short, "help", None) == Ok(h);
      OptVarRegistered(vars, BoolKind, short, "help", None);
      OptionalLastOption(vars, h);
    }
  }

  /** An option added after the arguments leaves their defaults in order. */
  lemma OptionalLastOption(vars: seq<Var>, v: Var)
    requires OptionalLast(vars) && v.index.None?
    ensures OptionalLast(vars + [v])
  {
    var w := vars + [v];
    forall p, q | 0 <= p < |w| && 0 <= q < |w| && w[p].index.Some? && w[q].index.Some?
                  && w[p].index.value < w[q].index.value && w[p].default.Some?
      ensures w[q].default.Some?
    {
      assert p < |vars| && q < |vars|;
      assert w[p] == vars[p] && w[q] == vars[q];
    }
  }

  /** Every field binding keeps the long name it was given: a field without a `long` tag is
      found by its binding name in any case. */
  lemma ImplicitLongFound(vars: seq<Var>, f: Tagged)
    requires FieldVar(vars, f).Ok? && f.long.None? && FieldName(f) != ""
    requires forall i :: 0 <= i < |vars| ==> vars[i].long != Lower(FieldName(f))
    ensures FindLong(vars + [FieldVar(vars, f).value], FieldName(f)) == Some(|vars|)
  {
    var w := vars + [FieldVar(vars, f).value];
    assert forall i :: 0 <= i < |vars| ==> w[i] == vars[i];
    assert |Lower(FieldName(f))| > 0;
    assert w[|vars|].long == Lower(FieldName(f));
  }

  // ---------------------------------------------------------------------------------------
  // As written, NewCmd copies the binding name into the long name without lower-casing it.

  /** The long name of a field without a `long` tag, as the Go code sets it. */
  function ImplicitLongAsWritten(f: Tagged): (r: string)
    ensures r == FieldName(f)
  {
    FieldName(f)
  }

  /** A field tagged `name:"Port"` gets the long name `Port` as written, and findLong, which
      lower-cases its query, never finds it: the option cannot be given at all. */
  lemma ImplicitLongUnreachable(q: string)
    ensures var f := Tagged("Port", IntKind(64), "Port", None, "", "", None);
      var v := Var(f.kind, FieldName(f), ImplicitLongAsWritten(f), None, None, false, None);
      v.long == "Port" && FindLong([v], q).None?
  {
    var f := Tagged("Port", IntKind(64), "Port", None, "", "", None);
    var v := Var(f.kind, FieldName(f), ImplicitLongAsWritten(f), None, None, false, None);
    assert Lower(q) != "Port" by {
      if |q| == 4 {
        assert !IsUpper(Lower(q)[0]);
      }
    }
  }

  // ---------------------------------------------------------------------------------------
  // AddCmd

  /** The checks AddCmd makes, as written: the name is looked up as given, but stored in
      lower case. */
  function CmdNameAsWritten(names: set<string>, name: string): (r: Option<RegError>)
    ensures r.None? <==> name !in names && name != "" && name[0] != '-'
  {
    if name in names then Some(CommandExists(name))
    else if name == "" || name[0] == '-' then Some(InvalidCommandName(name))
    else None
  }

  /** With a command `run`, AddCmd("Run") passes the checks as written and then replaces
      `run` under its lower-cased name. */
  lemma CmdNameReplaces()
    ensures CmdNameAsWritten({"run"}, "Run").None? && Lower("Run") in {"run"}
  {
    assert Lower("Run") == "run";
  }

  /** The checks AddCmd makes, with the name looked up the way it is stored. */
  function CmdName(names: set<string>, name: string): (r: Option<RegError>)
    ensures r.None? <==> Lower(name) !in names && name != "" && name[0] != '-'
  {
    if Lower(name) in names then Some(CommandExists(name))
    else if name == "" || name[0] == '-' then Some(InvalidCommandName(name))
    else None
  }

  /** A sub-command AddCmd accepts never replaces another: the stored names grow by one. */
  lemma CmdNameKeeps(names: set<string>, name: string)
    requires CmdName(names, name).None?
    ensures |names + {Lower(name)}| == |names| + 1
  {
  }
}
