/**
 * The bindings of a command parser (Var in argp.go) and the rules under which they are
 * registered: option names are valid and unique, indices are unique and contiguous, there is
 * at most one rest binding and it is a []string. The lookups findShort, findLong, findIndex,
 * findRest and findName return the first binding that matches.
 */
module Registry {
  import opened Wrappers
  import opened Text
  import opened Literals
  import opened Kinds
  import opened Scanning

  /** A binding: the kind of its destination, its name, long and short option names, its
      position (for an argument), whether it takes the remaining arguments, and its default. */
  datatype Var = Var(
    kind: Kind,
    name: string,
    long: string,
    short: Option<char>,
    index: Option<nat>,
    rest: bool,
    default: Option<Value>)

  /** The ways registration refuses a binding (Go panics with these messages). */
  datatype RegError =
    | UnsupportedType
    | NoOptionName
    | InvalidLong(long: string)
    | LongExists(long: string)
    | InvalidShort(short: string)
    | NotOneChar(short: string)
    | ShortExists(short: string)
    | NameAndIndex
    | RestExists
    | RestDefault
    | RestNotStrings
    | BadIndex(index: string)
    | IndexExists(position: nat)
    | BadDefault(cause: ScanError)
    | DefaultType
    | IndexMissing(position: nat)
    | RequiredAfterOptional(position: nat, optional: nat)
    | CommandExists(name: string)
    | InvalidCommandName(name: string)

  predicate IsOption(v: Var) { v.index.None? && !v.rest }

  /** unicode.IsLetter and unicode.IsNumber: ASCII letters and digits, and every character
      outside ASCII. */
  predicate IsLetterOrNumber(c: char) { IsAsciiLetter(c) || IsDigit(c) || c as int >= 0x80 }

  /** isValidName: letters, numbers, underscores, and dashes other than in first place. A valid
      name cannot be read as another option (no leading `-`), holds no `=` that would cut
      `--name=value` short. */
  predicate IsValidName(s: string)
    ensures |s| > 0 && s[0] == '-' ==> !IsValidName(s)
    ensures IsValidName(s) ==> '=' !in s && ' ' !in s
  {
    forall i :: 0 <= i < |s| ==> IsLetterOrNumber(s[i]) || s[i] == '_' || (s[i] == '-' && i > 0)
  }

  /** A valid name stays valid once lower-cased, as AddOpt and NewCmd store it. */
  lemma LowerValidName(s: string)
    requires IsValidName(s)
    ensures IsValidName(Lower(s))
  {
    forall i | 0 <= i < |s|
      ensures IsLetterOrNumber(Lower(s)[i]) || Lower(s)[i] == '_' || (Lower(s)[i] == '-' && i > 0)
    {
      assert IsLetterOrNumber(s[i]) || s[i] == '_' || (s[i] == '-' && i > 0);
    }
  }

  /** The first binding from position `j` on that satisfies `p`. */
  function First(vars: seq<Var>, p: Var -> bool, j: nat): (r: Option<nat>)
    requires j <= |vars|
    ensures r.Some? ==> j <= r.value < |vars| && p(vars[r.value])
    ensures r.Some? ==> forall i :: j <= i < r.value ==> !p(vars[i])
    ensures r.None? ==> forall i :: j <= i < |vars| ==> !p(vars[i])
    decreases |vars| - j
  {
    if j == |vars| then None else if p(vars[j]) then Some(j) else First(vars, p, j + 1)
  }

  /** findShort. */
  function FindShort(vars: seq<Var>, c: char): (r: Option<nat>)
    ensures r.Some? ==> r.value < |vars| && vars[r.value].short == Some(c)
    ensures r.Some? ==> forall i :: 0 <= i < r.value ==> vars[i].short != Some(c)
    ensures r.None? <==> forall i :: 0 <= i < |vars| ==> vars[i].short != Some(c)
  {
    First(vars, (v: Var) => v.short == Some(c), 0)
  }

  /** findLong: the query is lowercased, the stored long name is compared as it is. */
  function FindLong(vars: seq<Var>, long: string): (r: Option<nat>)
    ensures r.Some? ==> r.value < |vars| && vars[r.value].long != "" && vars[r.value].long == Lower(long)
    ensures r.Some? ==> forall i :: 0 <= i < r.value ==> vars[i].long == "" || vars[i].long != Lower(long)
    ensures r.None? <==> forall i :: 0 <= i < |vars| ==> vars[i].long == "" || vars[i].long != Lower(long)
  {
    var q := Lower(long);
    First(vars, (v: Var) => v.long != "" && v.long == q, 0)
  }

  /** findIndex. */
  function FindIndex(vars: seq<Var>, index: nat): (r: Option<nat>)
    ensures r.Some? ==> r.value < |vars| && vars[r.value].index == Some(index)
    ensures r.Some? ==> forall i :: 0 <= i < r.value ==> vars[i].index != Some(index)
    ensures r.None? <==> forall i :: 0 <= i < |vars| ==> vars[i].index != Some(index)
  {
    First(vars, (v: Var) => v.index == Some(index), 0)
  }

  /** findRest. */
  function FindRest(vars: seq<Var>): (r: Option<nat>)
    ensures r.Some? ==> r.value < |vars| && vars[r.value].rest
    ensures r.Some? ==> forall i :: 0 <= i < r.value ==> !vars[i].rest
    ensures r.None? <==> forall i :: 0 <= i < |vars| ==> !vars[i].rest
  {
    First(vars, (v: Var) => v.rest, 0)
  }

  /** findName, which IsSet uses: the name or long name equals the query, or the query is one
      character and the short name. The empty query finds nothing. */
  predicate Named(v: Var, name: string)
  {
    v.name == name || v.long == name || (v.short.Some? && |name| == 1 && name[0] == v.short.value)
  }

  function FindName(vars: seq<Var>, name: string): (r: Option<nat>)
    ensures name == "" ==> r.None?
    ensures r.Some? ==> r.value < |vars| && Named(vars[r.value], name)
    ensures r.Some? ==> forall i :: 0 <= i < r.value ==> !Named(vars[i], name)
    ensures name != "" && r.None? ==> forall i :: 0 <= i < |vars| ==> !Named(vars[i], name)
  {
    if name == "" then None else First(vars, (v: Var) => Named(v, name), 0)
  }

  /** A position below another one is at least one below it. */
  lemma Before(x: nat, y: nat)
    requires x <= y && x != y
    ensures x + 1 <= y
  {
  }

  /** The position AddVal gives a new argument: one past the largest position in use, or 0. */
  function NextFree(vars: seq<Var>): (r: nat)
    ensures forall i :: 0 <= i < |vars| && vars[i].index.Some? ==> vars[i].index.value < r
    ensures r > 0 ==> exists i :: 0 <= i < |vars| && vars[i].index == Some(r - 1)
  {
    if |vars| == 0 then 0
    else
      var m := NextFree(vars[..|vars| - 1]);
      var last := vars[|vars| - 1];
      assert forall i :: 0 <= i < |vars| - 1 ==> vars[..|vars| - 1][i] == vars[i];
      if last.index.Some? && m <= last.index.value then last.index.value + 1 else m
  }

  /** The bindings a parser may hold: valid kinds with well-typed defaults, lowercase long
      names, unique short names and positions, and at most one rest binding, which is a
      []string; and positions with no gaps. */
  ghost predicate Registered(vars: seq<Var>)
  {
    Sound(vars) && Contiguous(vars)
  }

  /** All of Registered but the absence of gaps, which NewCmd checks only once every field
      has been added. */
  ghost predicate Sound(vars: seq<Var>)
  {
    Kinded(vars) && DefaultsTyped(vars) && LowerLongs(vars) && UniqueShorts(vars) && UniqueIndices(vars)
    && SingleRest(vars)
  }

  /** Every binding has a kind argp can fill. */
  ghost predicate Kinded(vars: seq<Var>)
  {
    forall i :: 0 <= i < |vars| ==> ValidType(vars[i].kind)
  }

  ghost predicate DefaultsTyped(vars: seq<Var>)
  {
    forall i :: 0 <= i < |vars| && vars[i].default.Some? ==> Typed(vars[i].default.value, vars[i].kind)
  }

  ghost predicate LowerLongs(vars: seq<Var>)
  {
    forall i :: 0 <= i < |vars| ==> Lower(vars[i].long) == vars[i].long
  }

  ghost predicate UniqueShorts(vars: seq<Var>)
  {
    forall i, j :: 0 <= i < j < |vars| && vars[i].short.Some? ==> vars[j].short != vars[i].short
  }

  ghost predicate UniqueIndices(vars: seq<Var>)
  {
    forall i, j :: 0 <= i < j < |vars| && vars[i].index.Some? ==> vars[j].index != vars[i].index
  }

  /** At most one rest binding, a []string without a position. */
  ghost predicate SingleRest(vars: seq<Var>)
  {
    && (forall i, j :: 0 <= i < j < |vars| && vars[i].rest ==> !vars[j].rest)
    && (forall i :: 0 <= i < |vars| && vars[i].rest ==> vars[i].kind == SliceKind(StringKind) && vars[i].index.None?)
  }

  /** The conditions under which a binding can join sound bindings. */
  ghost predicate Fresh(vars: seq<Var>, v: Var)
  {
    && ValidType(v.kind) && (v.default.Some? ==> Typed(v.default.value, v.kind))
    && Lower(v.long) == v.long
    && (v.short.Some? ==> FindShort(vars, v.short.value).None?)
    && (v.index.Some? ==> FindIndex(vars, v.index.value).None?)
    && (v.rest ==> FindRest(vars).None? && v.kind == SliceKind(StringKind) && v.index.None?)
  }

  lemma SoundAppend(vars: seq<Var>, v: Var)
    requires Sound(vars) && Fresh(vars, v)
    ensures Sound(vars + [v])
  {
    var w := vars + [v];
    assert forall i :: 0 <= i < |vars| ==> w[i] == vars[i];
  }

  /** Every position below a position in use is in use too. */
  ghost predicate Contiguous(vars: seq<Var>)
  {
    forall i, x :: 0 <= i < |vars| && vars[i].index.Some? && 0 <= x < vars[i].index.value ==>
      FindIndex(vars, x).Some?
  }

  /** Adding a binding at the next free position, or at none, keeps every rule. */
  lemma {:induction false} RegisteredAppend(vars: seq<Var>, v: Var)
    requires Registered(vars) && Fresh(vars, v)
    requires v.index.Some? ==> v.index.value == NextFree(vars)
    ensures Registered(vars + [v])
  {
    SoundAppend(vars, v);
    var w := vars + [v];
    assert forall i :: 0 <= i < |vars| ==> w[i] == vars[i];
    forall i, x | 0 <= i < |w| && w[i].index.Some? && 0 <= x < w[i].index.value
      ensures FindIndex(w, x).Some?
    {
      if i < |vars| {
        assert FindIndex(vars, x).Some?;
      } else if x + 1 == NextFree(vars) {
        var p :| 0 <= p < |vars| && vars[p].index == Some(x);
        assert w[p].index == Some(x);
      } else {
        var p :| 0 <= p < |vars| && vars[p].index == Some(NextFree(vars) - 1);
        assert vars[p].index.value == NextFree(vars) - 1;
        assert FindIndex(vars, x).Some?;
      }
    }
  }

  /** Registered bindings use every position below the next free one. */
  lemma PositionInUse(vars: seq<Var>, x: nat)
    requires Registered(vars) && x < NextFree(vars)
    ensures FindIndex(vars, x).Some?
  {
    var p :| 0 <= p < |vars| && vars[p].index == Some(NextFree(vars) - 1);
    if x + 1 < NextFree(vars) {
      assert vars[p].index.Some? && x < vars[p].index.value;
    }
  }

  /** NextFree of one more binding. */
  lemma NextFreeAppend(vars: seq<Var>, v: Var)
    ensures NextFree(vars + [v]) ==
      if v.index.Some? && NextFree(vars) <= v.index.value then v.index.value + 1 else NextFree(vars)
  {
    assert (vars + [v])[..|vars|] == vars;
  }

  /** AddOpt: the option binding it appends, or why it panics. A Setter destination, which
      skips the check of the default, is not part of this model. */
  function OptVar(vars: seq<Var>, kind: Kind, short: string, long: string, def: Option<Value>)
    : (r: Result<Var, RegError>)
    ensures r.Ok? <==>
      && ValidType(kind) && (short != "" || long != "")
      && (long != "" ==> IsValidName(long) && FindLong(vars, long).None?)
      && (short != "" ==> IsValidName(short) && |short| == 1 && FindShort(vars, short[0]).None?)
      && (def.Some? ==> Typed(def.value, kind))
    ensures r.Ok? ==> r.value == Var(kind, "", Lower(long), if short == "" then None else Some(short[0]), None, false, def)
  {
    if !ValidType(kind) then Err(UnsupportedType)
    else if short == "" && long == "" then Err(NoOptionName)
    else if long != "" && !IsValidName(long) then Err(InvalidLong(long))
    else if long != "" && FindLong(vars, long).Some? then Err(LongExists(long))
    else if short != "" && !IsValidName(short) then Err(InvalidShort(short))
    else if short != "" && |short| != 1 then Err(NotOneChar(short))
    else if short != "" && FindShort(vars, short[0]).Some? then Err(ShortExists(short))
    else if def.Some? && !Typed(def.value, kind) then Err(DefaultType)
    else Ok(Var(kind, "", Lower(long), if short == "" then None else Some(short[0]), None, false, def))
  }

  /** AddOpt keeps the registration rules, and the new option is found by its long name in
      any case. */
  lemma OptVarRegistered(vars: seq<Var>, kind: Kind, short: string, long: string, def: Option<Value>)
    requires Registered(vars) && OptVar(vars, kind, short, long, def).Ok?
    ensures var v := OptVar(vars, kind, short, long, def).value;
      Registered(vars + [v]) && (long != "" ==> FindLong(vars + [v], long) == Some(|vars|))
  {
    var v := OptVar(vars, kind, short, long, def).value;
    LowerIdempotent(long);
    RegisteredAppend(vars, v);
    if long != "" {
      var w := vars + [v];
      assert forall i :: 0 <= i < |vars| ==> w[i] == vars[i];
      assert w[|vars|].long != "" && w[|vars|].long == Lower(long);
      var r := FindLong(w, long);
      assert r.Some?;
    }
  }

  /** AddVal: the argument binding it appends at the next free position, or why it panics. */
  function ValVar(vars: seq<Var>, kind: Kind, def: Option<Value>): (r: Result<Var, RegError>)
    ensures r.Ok? <==> ValidType(kind) && (def.Some? ==> Typed(def.value, kind))
    ensures r.Ok? ==> r.value == Var(kind, "", "", None, Some(NextFree(vars)), false, def)
  {
    if !ValidType(kind) then Err(UnsupportedType)
    else if def.Some? && !Typed(def.value, kind) then Err(DefaultType)
    else Ok(Var(kind, "", "", None, Some(NextFree(vars)), false, def))
  }

  lemma ValVarRegistered(vars: seq<Var>, kind: Kind, def: Option<Value>)
    requires Registered(vars) && ValVar(vars, kind, def).Ok?
    ensures var v := ValVar(vars, kind, def).value;
      Registered(vars + [v]) && FindIndex(vars + [v], NextFree(vars)) == Some(|vars|)
  {
    var v := ValVar(vars, kind, def).value;
    var w := vars + [v];
    assert FindIndex(vars, NextFree(vars)).None?;
    assert Fresh(vars, v);
    RegisteredAppend(vars, v);
    assert forall i :: 0 <= i < |vars| ==> w[i] == vars[i];
    assert w[|vars|].index == Some(NextFree(vars));
    var r := FindIndex(w, NextFree(vars));
    assert r.Some?;
  }

  /** AddRest: the rest binding it appends, or why it panics. */
  function RestVar(vars: seq<Var>, kind: Kind, name: string): (r: Result<Var, RegError>)
    ensures r.Ok? <==> FindRest(vars).None? && kind == SliceKind(StringKind)
    ensures r.Ok? ==> r.value == Var(kind, Lower(name), "", None, None, true, None)
  {
    if FindRest(vars).Some? then Err(RestExists)
    else if kind != SliceKind(StringKind) then Err(RestNotStrings)
    else Ok(Var(kind, Lower(name), "", None, None, true, None))
  }

  lemma RestVarRegistered(vars: seq<Var>, kind: Kind, name: string)
    requires Registered(vars) && RestVar(vars, kind, name).Ok?
    ensures var v := RestVar(vars, kind, name).value;
      Registered(vars + [v]) && FindRest(vars + [v]) == Some(|vars|)
  {
    var v := RestVar(vars, kind, name).value;
    var w := vars + [v];
    RegisteredAppend(vars, v);
    assert forall i :: 0 <= i < |vars| ==> w[i] == vars[i];
    assert w[|vars|].rest;
    var r := FindRest(w);
    assert r.Some?;
  }
}
