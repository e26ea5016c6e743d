/**
 * The destinations argp can fill, seen as values instead of through Go's reflection.
 *
 * A `Kind` is the shape of a destination variable: the Go kinds argp accepts (string, bool,
 * sized signed and unsigned integers, arrays, slices, maps and structs), the counter type
 * `Count` when it is a destination on its own (it fills itself through its Scan method), and
 * one kind standing for every other Go type. A `Value` is the contents of such a variable.
 */
module Kinds {
  import opened Literals

  datatype Kind =
    | StringKind
    | BoolKind
    | IntKind(bits: Width)
    | UintKind(bits: Width)
    | ArrayKind(len: nat, elem: Kind)
    | SliceKind(elem: Kind)
    | MapKind(key: Kind, elem: Kind)
    | StructKind(fields: seq<Field>)
    | CounterKind
    | UnsupportedKind

  /** A struct field: its Go name and its kind. */
  datatype Field = Field(name: string, kind: Kind)

  datatype Value =
    | StrVal(str: string)
    | BoolVal(b: bool)
    | IntVal(i: int)
    | UintVal(u: nat)
    | SeqVal(items: seq<Value>)
    | MapVal(entries: map<Value, Value>)
    | StructVal(fields: seq<Value>)
    | CountVal(count: int)

  /** The kind `c` occurs in `k`: it is `k` itself, or an element, key or field kind at any
      depth. */
  predicate Occurs(c: Kind, k: Kind)
  {
    k == c ||
    match k
    case ArrayKind(_, e) => Occurs(c, e)
    case SliceKind(e) => Occurs(c, e)
    case MapKind(key, e) => Occurs(c, key) || Occurs(c, e)
    case StructKind(fs) => exists i :: 0 <= i < |fs| && Occurs(c, fs[i].kind)
    case _ => false
  }

  /** isValidSubType: the kinds argp can fill when they sit inside another destination. */
  predicate ValidSubType(k: Kind)
  {
    match k
    case StringKind => true
    case BoolKind => true
    case IntKind(_) => true
    case UintKind(_) => true
    case ArrayKind(_, e) => ValidSubType(e)
    case SliceKind(e) => ValidSubType(e)
    case MapKind(key, e) => ValidSubType(key) && ValidSubType(e)
    case StructKind(fs) => forall i :: 0 <= i < |fs| ==> ValidSubType(fs[i].kind)
    case CounterKind => false
    case UnsupportedKind => false
  }

  /** isValidType: a Scanner at the top, or any valid sub-kind. */
  predicate ValidType(k: Kind)
  {
    k == CounterKind || ValidSubType(k)
  }

  /** The valid sub-kinds are exactly the kinds in which neither a Scanner nor an unsupported
      type occurs. */
  lemma {:induction false} SubTypeOccurs(k: Kind)
    ensures ValidSubType(k) <==> !Occurs(CounterKind, k) && !Occurs(UnsupportedKind, k)
    decreases k
  {
    match k
    case ArrayKind(_, e) => SubTypeOccurs(e);
    case SliceKind(e) => SubTypeOccurs(e);
    case MapKind(key, e) => SubTypeOccurs(key); SubTypeOccurs(e);
    case StructKind(fs) =>
      forall i | 0 <= i < |fs|
        ensures ValidSubType(fs[i].kind) <==> !Occurs(CounterKind, fs[i].kind) && !Occurs(UnsupportedKind, fs[i].kind)
      {
        SubTypeOccurs(fs[i].kind);
      }
    case _ =>
  }

  /** A valid destination holds no unsupported type anywhere, and a Scanner only at the top. */
  lemma {:induction false} TypeOccurs(k: Kind)
    ensures ValidType(k) ==> !Occurs(UnsupportedKind, k)
    ensures ValidType(k) && Occurs(CounterKind, k) ==> k == CounterKind
  {
    SubTypeOccurs(k);
  }

  /** The value `v` is a possible content of a variable of kind `k`; integers lie in the range
      of their width. Any value may stand for a variable of a kind argp does not support. */
  predicate Typed(v: Value, k: Kind)
  {
    match k
    case StringKind => v.StrVal?
    case BoolKind => v.BoolVal?
    case IntKind(w) => v.IntVal? && -(Half(w) as int) <= v.i < Half(w)
    case UintKind(w) => v.UintVal? && v.u < Modulus(w)
    case ArrayKind(n, e) =>
      v.SeqVal? && |v.items| == n && forall i :: 0 <= i < n ==> Typed(v.items[i], e)
    case SliceKind(e) => v.SeqVal? && forall i :: 0 <= i < |v.items| ==> Typed(v.items[i], e)
    case MapKind(key, e) =>
      v.MapVal? && forall x :: x in v.entries ==> Typed(x, key) && Typed(v.entries[x], e)
    case StructKind(fs) =>
      v.StructVal? && |v.fields| == |fs|
      && forall i :: 0 <= i < |fs| ==> Typed(v.fields[i], fs[i].kind)
    case CounterKind => v.CountVal? && MinInt64 <= v.count <= MaxInt64
    case UnsupportedKind => true
  }

  /** The zero value Go gives a fresh variable of kind `k` (reflect.New(...).Elem()): empty
      strings, false, zeros, arrays of zero elements, empty slices and maps, and structs of
      zero fields. A nil slice or map is not told apart from an empty one. */
  function Zero(k: Kind): (z: Value)
    ensures Typed(z, k)
  {
    match k
    case StringKind => StrVal("")
    case BoolKind => BoolVal(false)
    case IntKind(_) => IntVal(0)
    case UintKind(_) => UintVal(0)
    case ArrayKind(n, e) => SeqVal(seq(n, _ => Zero(e)))
    case SliceKind(_) => SeqVal([])
    case MapKind(_, _) => MapVal(map[])
    case StructKind(fs) => StructVal(seq(|fs|, i requires 0 <= i < |fs| => Zero(fs[i].kind)))
    case CounterKind => CountVal(0)
    case UnsupportedKind => StrVal("")
  }

  /** The strings of a value of kind []string. */
  function Strings(v: Value): (r: seq<string>)
    requires Typed(v, SliceKind(StringKind))
    ensures |r| == |v.items| && forall i :: 0 <= i < |r| ==> v.items[i] == StrVal(r[i])
  {
    assert forall i :: 0 <= i < |v.items| ==> Typed(v.items[i], StringKind);
    seq(|v.items|, i requires 0 <= i < |v.items| => v.items[i].str)
  }

  /** The value of kind []string holding `ss`. */
  function StringsValue(ss: seq<string>): (v: Value)
    ensures Typed(v, SliceKind(StringKind)) && Strings(v) == ss
  {
    SeqVal(seq(|ss|, i requires 0 <= i < |ss| => StrVal(ss[i])))
  }
}
