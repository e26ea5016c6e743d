/**
 * UnmarshalConfig: the `.cf`/`.cfg` configuration format, one `key = value` per line, read
 * into the fields of a struct. Blank lines and lines starting with `#` are skipped; a key names
 * a field either exactly or with its first letter upper-cased, and keys naming no field are
 * ignored. Lines are applied in order, so a later line for a key overwrites an earlier one,
 * and the first bad line stops the reading with the fields written so far kept.
 */
module Config {
  import opened Wrappers
  import opened Text
  import opened Literals
  import opened Kinds
  import opened Indexing

  /** The errors of UnmarshalConfig. Line numbers count from 1 and include skipped lines. */
  datatype ConfigError =
    | NotStruct
    | MissingEquals(line: nat)
    | EmptyKey(line: nat)
    | InvalidBoolean(text: string)
    | InvalidInteger(text: string)
    | InvalidPositive(text: string)
    | UnsupportedField(kind: Kind)

  /** What one line does: nothing, stop with an error, or store a value into a field. */
  datatype LineAction = Skip | Fail(err: ConfigError) | Store(field: nat, value: Value)

  /** The name FieldByName is tried with when the key itself names no field. */
  function Capitalized(key: string): (r: string)
    requires |key| > 0
    ensures |r| == |key| && r[0] == UpperChar(key[0]) && r[1..] == key[1..]
  {
    [UpperChar(key[0])] + key[1..]
  }

  /** The field a key selects: the first field named exactly the key, otherwise the first one
      named by the key with its first letter upper-cased. */
  function Lookup(fs: seq<Field>, key: string): (r: Option<nat>)
    requires |key| > 0
    ensures r.Some? ==> r.value < |fs|
    ensures (exists i :: 0 <= i < |fs| && fs[i].name == key) ==> r.Some? && fs[r.value].name == key
    ensures r.Some? ==> fs[r.value].name == key || fs[r.value].name == Capitalized(key)
    ensures r.None? ==> forall i :: 0 <= i < |fs| ==> fs[i].name != key && fs[i].name != Capitalized(key)
  {
    match FieldFrom(fs, key, 0)
    case Some(j) => Some(j)
    case None => FieldFrom(fs, Capitalized(key), 0)
  }

  /** The value a field of kind `k` takes from the text `val`: strings verbatim, booleans as
      strconv.ParseBool reads them, integers read with 64 bits and then cut to the field's
      width by SetInt and SetUint. Any other kind is not supported; this includes the counter,
      which as a destination on its own is a pointer to `Count` and so not one of the kinds the
      reader switches on. */
  function Assign(k: Kind, val: string): (r: Result<Value, ConfigError>)
    ensures r.Ok? ==> Typed(r.value, k)
    ensures k == StringKind ==> r == Ok(StrVal(val))
    ensures k == BoolKind ==> (r.Ok? <==> ParseBool(val).Some?)
    ensures k.IntKind? ==> (r.Ok? <==> ParseInt(val).Some?)
    ensures k.UintKind? ==> (r.Ok? <==> ParseUint(val).Some?)
    ensures !(k == StringKind || k == BoolKind || k.IntKind? || k.UintKind?) ==>
      r == Err(UnsupportedField(k))
  {
    match k
    case StringKind => Ok(StrVal(val))
    case BoolKind =>
      (match ParseBool(val)
       case Some(b) => Ok(BoolVal(b))
       case None => Err(InvalidBoolean(val)))
    case IntKind(w) =>
      (match ParseInt(val)
       case Some(i) => Ok(IntVal(WrapSigned(i, w)))
       case None => Err(InvalidInteger(val)))
    case UintKind(w) =>
      (match ParseUint(val)
       case Some(u) => Ok(UintVal(WrapUnsigned(u, w)))
       case None => Err(InvalidPositive(val)))
    case _ => Err(UnsupportedField(k))
  }

  /** What a line `key = val` with a non-empty key does: nothing when the key names no field,
      otherwise the value stored into that field, or the error converting it. */
  function Entry(fs: seq<Field>, key: string, val: string): (r: LineAction)
    requires |key| > 0
    ensures r.Skip? <==> Lookup(fs, key).None?
    ensures r.Fail? ==> !r.err.MissingEquals? && !r.err.EmptyKey? && !r.err.NotStruct?
    ensures r.Store? ==> r.field == Lookup(fs, key).value && Typed(r.value, fs[r.field].kind)
  {
    match Lookup(fs, key)
    case None => Skip
    case Some(j) =>
      match Assign(fs[j].kind, val)
      case Err(e) => Fail(e)
      case Ok(v) => Store(j, v)
  }

  /** What line number `n` does to a struct with fields `fs`. */
  function Interpret(fs: seq<Field>, line: string, n: nat): (r: LineAction)
    ensures |line| == 0 || line[0] == '#' ==> r == Skip
    ensures |line| > 0 && line[0] != '#' && '=' !in line ==> r == Fail(MissingEquals(n))
    ensures r.Fail? && (r.err.MissingEquals? || r.err.EmptyKey?) ==> r.err.line == n
    ensures r.Fail? ==> !r.err.NotStruct?
    ensures r.Fail? && r.err.MissingEquals? ==> |line| > 0 && line[0] != '#' && '=' !in line
    ensures r.Fail? && r.err.EmptyKey? ==> '=' in line && TrimSpace(line[..IndexOf(line, '=').value]) == []
    ensures r.Store? ==> r.field < |fs| && Typed(r.value, fs[r.field].kind)
  {
    if |line| == 0 || line[0] == '#' then Skip
    else match IndexOf(line, '=')
      case None => Fail(MissingEquals(n))
      case Some(eq) =>
        var key := TrimSpace(line[..eq]);
        if |key| == 0 then Fail(EmptyKey(n))
        else Entry(fs, key, TrimSpace(line[eq + 1..]))
  }

  /** Every value an action stores fits the field it goes to. */
  predicate Fits(fs: seq<Field>, acts: seq<LineAction>)
  {
    forall i :: 0 <= i < |acts| && acts[i].Store? ==>
      acts[i].field < |fs| && Typed(acts[i].value, fs[acts[i].field].kind)
  }

  /** What the lines numbered from n + 1 on do, one action per line. */
  function Actions(fs: seq<Field>, lines: seq<string>, n: nat): (r: seq<LineAction>)
    ensures |r| == |lines| && Fits(fs, r)
    ensures forall i :: 0 <= i < |lines| ==> r[i] == Interpret(fs, lines[i], n + i + 1)
  {
    seq(|lines|, i requires 0 <= i < |lines| => Interpret(fs, lines[i], n + i + 1))
  }

  /** The fields after the actions are carried out on `vals` in order, and the error that
      stopped them, if any. */
  function Run(fs: seq<Field>, vals: seq<Value>, acts: seq<LineAction>): (r: (seq<Value>, Option<ConfigError>))
    requires |vals| == |fs| && Fits(fs, acts)
    ensures |r.0| == |fs|
    decreases |acts|
  {
    if |acts| == 0 then (vals, None)
    else match acts[0]
      case Skip => Run(fs, vals, acts[1..])
      case Fail(e) => (vals, Some(e))
      case Store(j, v) => Run(fs, vals[j := v], acts[1..])
  }

  /** One step of the loop: the action at `n` is carried out, and then the ones after it. */
  lemma RunStep(fs: seq<Field>, vals: seq<Value>, acts: seq<LineAction>, n: nat)
    requires |vals| == |fs| && n < |acts| && Fits(fs, acts)
    ensures Fits(fs, acts[n..]) && Fits(fs, acts[n + 1..])
    ensures acts[n].Skip? ==> Run(fs, vals, acts[n..]) == Run(fs, vals, acts[n + 1..])
    ensures acts[n].Fail? ==> Run(fs, vals, acts[n..]) == (vals, Some(acts[n].err))
    ensures acts[n].Store? ==>
      && acts[n].field < |vals|
      && Run(fs, vals, acts[n..]) == Run(fs, vals[acts[n].field := acts[n].value], acts[n + 1..])
  {
    assert acts[n..][0] == acts[n] && acts[n..][1..] == acts[n + 1..];
  }

  /** Every field keeps a value of its kind: only converted values are stored. */
  lemma {:induction false} RunTyped(fs: seq<Field>, vals: seq<Value>, acts: seq<LineAction>)
    requires |vals| == |fs| && Fits(fs, acts)
    requires forall i :: 0 <= i < |fs| ==> Typed(vals[i], fs[i].kind)
    ensures var out := Run(fs, vals, acts).0;
      forall i :: 0 <= i < |fs| ==> Typed(out[i], fs[i].kind)
    decreases |acts|
  {
    if |acts| > 0 {
      assert Fits(fs, acts[1..]);
      match acts[0]
      case Skip => RunTyped(fs, vals, acts[1..]);
      case Fail(_) =>
      case Store(j, v) =>
        var next := vals[j := v];
        assert forall i :: 0 <= i < |fs| ==> Typed(next[i], fs[i].kind);
        RunTyped(fs, next, acts[1..]);
    }
  }

  /** Carrying out actions one after the other is carrying out their concatenation: the second
      part starts from the fields the first part left, unless the first part stopped with an
      error, which then keeps what it had written. */
  lemma {:induction false} RunAppend(fs: seq<Field>, vals: seq<Value>, a: seq<LineAction>, b: seq<LineAction>)
    requires |vals| == |fs| && Fits(fs, a) && Fits(fs, b)
    ensures Fits(fs, a + b)
    ensures Run(fs, vals, a).1.Some? ==> Run(fs, vals, a + b) == Run(fs, vals, a)
    ensures Run(fs, vals, a).1.None? ==> Run(fs, vals, a + b) == Run(fs, Run(fs, vals, a).0, b)
    decreases |a|
  {
    assert forall i :: 0 <= i < |a + b| ==> (a + b)[i] == if i < |a| then a[i] else b[i - |a|];
    if |a| > 0 {
      assert (a + b)[1..] == a[1..] + b;
      assert Fits(fs, a[1..]);
      match a[0]
      case Skip => RunAppend(fs, vals, a[1..], b);
      case Fail(_) =>
      case Store(j, v) => RunAppend(fs, vals[j := v], a[1..], b);
    } else {
      assert a + b == b;
    }
  }

  /** Lines split anywhere are read as the whole text is: the line numbers of the second part
      follow on from the first. */
  lemma ActionsAppend(fs: seq<Field>, a: seq<string>, b: seq<string>, n: nat)
    ensures Actions(fs, a + b, n) == Actions(fs, a, n) + Actions(fs, b, n + |a|)
  {
    var whole := Actions(fs, a + b, n);
    var parts := Actions(fs, a, n) + Actions(fs, b, n + |a|);
    forall i | 0 <= i < |a + b|
      ensures whole[i] == parts[i]
    {
      if i < |a| {
        assert (a + b)[i] == a[i];
      } else {
        assert (a + b)[i] == b[i - |a|];
      }
    }
  }

  /** Blank lines and comments change nothing and raise nothing. */
  lemma {:induction false} CommentsSkipped(fs: seq<Field>, vals: seq<Value>, lines: seq<string>, n: nat)
    requires |vals| == |fs|
    requires forall i :: 0 <= i < |lines| ==> |lines[i]| == 0 || lines[i][0] == '#'
    ensures Run(fs, vals, Actions(fs, lines, n)) == (vals, None)
    decreases |lines|
  {
    if |lines| > 0 {
      CommentsSkipped(fs, vals, lines[1..], n + 1);
      assert Actions(fs, lines, n)[1..] == Actions(fs, lines[1..], n + 1);
    }
  }

  /** The reading stops at the first action that fails, with that action's error. */
  lemma {:induction false} RunStops(fs: seq<Field>, vals: seq<Value>, acts: seq<LineAction>)
    requires |vals| == |fs| && Fits(fs, acts)
    requires Run(fs, vals, acts).1.Some?
    ensures exists k :: (0 <= k < |acts| && acts[k] == Fail(Run(fs, vals, acts).1.value)
      && forall i :: 0 <= i < k ==> !acts[i].Fail?)
    decreases |acts|
  {
    assert Fits(fs, acts[1..]);
    match acts[0]
    case Fail(_) =>
      assert acts[0] == Fail(Run(fs, vals, acts).1.value);
    case Skip =>
      RunStops(fs, vals, acts[1..]);
      var k :| 0 <= k < |acts[1..]| && acts[1..][k] == Fail(Run(fs, vals, acts[1..]).1.value)
        && forall i :: 0 <= i < k ==> !acts[1..][i].Fail?;
      assert acts[k + 1] == acts[1..][k];
      assert forall i :: 1 <= i < k + 1 ==> acts[i] == acts[1..][i - 1];
    case Store(j, v) =>
      RunStops(fs, vals[j := v], acts[1..]);
      var k :| 0 <= k < |acts[1..]| && acts[1..][k] == Fail(Run(fs, vals[j := v], acts[1..]).1.value)
        && forall i :: 0 <= i < k ==> !acts[1..][i].Fail?;
      assert acts[k + 1] == acts[1..][k];
      assert forall i :: 1 <= i < k + 1 ==> acts[i] == acts[1..][i - 1];
  }

  /** A line error names the line it comes from, counting from 1 over all lines, skipped ones
      included: that line is the first one of the text that fails. */
  lemma ErrorLine(fs: seq<Field>, vals: seq<Value>, lines: seq<string>)
    requires |vals| == |fs|
    requires var e := Run(fs, vals, Actions(fs, lines, 0)).1;
      e.Some? && (e.value.MissingEquals? || e.value.EmptyKey?)
    ensures var e := Run(fs, vals, Actions(fs, lines, 0)).1.value;
      && 0 < e.line <= |lines|
      && Interpret(fs, lines[e.line - 1], e.line) == Fail(e)
      && forall i :: 0 <= i < e.line - 1 ==> !Interpret(fs, lines[i], i + 1).Fail?
  {
    var acts := Actions(fs, lines, 0);
    var e := Run(fs, vals, acts).1.value;
    RunStops(fs, vals, acts);
    var k :| 0 <= k < |acts| && acts[k] == Fail(e) && forall i :: 0 <= i < k ==> !acts[i].Fail?;
    FirstFailure(fs, lines, k, e);
  }

  /** The line of the first failing action is the one its error names. */
  lemma FirstFailure(fs: seq<Field>, lines: seq<string>, k: nat, e: ConfigError)
    requires k < |lines| && (e.MissingEquals? || e.EmptyKey?)
    requires var acts := Actions(fs, lines, 0);
      acts[k] == Fail(e) && forall i :: 0 <= i < k ==> !acts[i].Fail?
    ensures e.line == k + 1 && Interpret(fs, lines[k], k + 1) == Fail(e)
    ensures forall i :: 0 <= i < k ==> !Interpret(fs, lines[i], i + 1).Fail?
  {
    var acts := Actions(fs, lines, 0);
    assert acts[k] == Interpret(fs, lines[k], k + 1);
    forall i | 0 <= i < k
      ensures !Interpret(fs, lines[i], i + 1).Fail?
    {
      assert acts[i] == Interpret(fs, lines[i], i + 1);
    }
  }

  /** Of two lines for the same field, the later one wins. */
  lemma LaterLineWins(fs: seq<Field>, vals: seq<Value>, first: LineAction, second: LineAction)
    requires |vals| == |fs| && Fits(fs, [first, second])
    requires first.Store? && second.Store? && first.field == second.field
    ensures Run(fs, vals, [first, second]) == (vals[second.field := second.value], None)
  {
    assert [first, second][0] == first && [first, second][1..] == [second];
    assert Fits(fs, [second]) && [second][0] == second && [second][1..] == [];
    var once := vals[first.field := first.value];
    assert Run(fs, once, [second]) == Run(fs, once[second.field := second.value], []);
    assert once[second.field := second.value] == vals[second.field := second.value];
  }

  /** A field read from the spelling Go prints for its value gets that value back; integers are
      cut to the field's width. */
  lemma AssignFormatted(k: Kind, x: int, b: bool)
    requires MinInt64 <= x <= MaxInt64
    ensures k == BoolKind ==> Assign(k, FormatBool(b)) == Ok(BoolVal(b))
    ensures k.IntKind? ==> Assign(k, FormatInt(x)) == Ok(IntVal(WrapSigned(x, k.bits)))
    ensures k == IntKind(64) ==> Assign(k, FormatInt(x)) == Ok(IntVal(x))
    ensures k.UintKind? && x >= 0 ==> Assign(k, FormatNat(x)) == Ok(UintVal(WrapUnsigned(x, k.bits)))
  {
    ParseFormatBool(b);
    ParseFormatInt(x);
    Wide64(x);
    if x >= 0 {
      ParseFormatUint(x);
    }
  }

  /** UnmarshalConfig on a destination of kind `k` holding `dst`. */
  function Unmarshal(text: string, k: Kind, dst: seq<Value>): (r: (seq<Value>, Option<ConfigError>))
    requires k.StructKind? ==> |dst| == |k.fields|
    ensures !k.StructKind? ==> r == (dst, Some(NotStruct))
    ensures |r.0| == |dst|
  {
    if !k.StructKind? then (dst, Some(NotStruct))
    else Run(k.fields, dst, Actions(k.fields, Lines(text), 0))
  }

  /** UnmarshalConfig: the line loop, storing each value into the struct's fields in place. */
  method UnmarshalConfig(text: string, k: Kind, fields: array<Value>) returns (err: Option<ConfigError>)
    requires k.StructKind? ==> fields.Length == |k.fields|
    modifies fields
    ensures (fields[..], err) == Unmarshal(text, k, old(fields[..]))
  {
    if !k.StructKind? {
      return Some(NotStruct);
    }
    var fs := k.fields;
    var lines := Lines(text);
    ghost var acts := Actions(fs, lines, 0);
    ghost var goal := Run(fs, fields[..], acts);
    assert acts[0..] == acts;
    var n := 0;
    while n < |lines|
      invariant n <= |lines| == |acts|
      invariant Run(fs, fields[..], acts[n..]) == goal
    {
      var action := Interpret(fs, lines[n], n + 1);
      assert action == acts[n];
      RunStep(fs, fields[..], acts, n);
      match action {
        case Skip =>
        case Fail(e) =>
          return Some(e);
        case Store(j, v) =>
          ghost var before := fields[..];
          fields[j] := v;
          assert fields[..] == before[j := v];
      }
      n := n + 1;
    }
    assert acts[n..] == [];
    return None;
  }
}
