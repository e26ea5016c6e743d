/**
 * scanIndexedVar: the option `--name.a.b=v` descends from the destination of `name` through
 * the path `a.b` before scanning `v`. Each step of the path selects a struct field (by its
 * title-cased name) or a map entry (by its key); a Scanner destination ignores the path, and
 * a boolean at the end of the path that does not scan is set to true instead.
 */
module Indexing {
  import opened Wrappers
  import opened Text
  import opened Literals
  import opened Kinds
  import opened Scanning

  /** The outcome of scanIndexedVar: the destination's new value with the number of tokens
      consumed or the error, or a Go panic (reflect refuses the operation). */
  datatype Indexed = Reached(res: ScanResult) | Panic

  /** FieldByName: the position of the first field called `name`, from position `j` on. */
  function FieldFrom(fs: seq<Field>, name: string, j: nat): (r: Option<nat>)
    requires j <= |fs|
    ensures r.Some? ==> j <= r.value < |fs| && fs[r.value].name == name
    ensures r.Some? ==> forall i :: j <= i < r.value ==> fs[i].name != name
    ensures r.None? ==> forall i :: j <= i < |fs| ==> fs[i].name != name
    decreases |fs| - j
  {
    if j == |fs| then None
    else if fs[j].name == name then Some(j)
    else FieldFrom(fs, name, j + 1)
  }

  /** The map key an index denotes: the index itself for string keys, the integer it spells
      converted to the key's width for integer keys. */
  function MapKey(key: Kind, index: string): (r: Result<Value, ScanError>)
    ensures r.Ok? ==> Typed(r.value, key)
    ensures key == StringKind ==> r == Ok(StrVal(index))
    ensures key.IntKind? ==> (r.Ok? <==> ParseInt(index).Some?)
    ensures key.UintKind? ==> (r.Ok? <==> ParseUint(index).Some?)
    ensures !key.IntKind? && !key.UintKind? && key != StringKind ==> r == Err(UnsupportedIndex(index))
  {
    match key
    case IntKind(w) =>
      (match ParseInt(index)
       case Some(i) => Ok(IntVal(WrapSigned(i, w)))
       case None => Err(BadIntIndex(index)))
    case UintKind(w) =>
      (match ParseUint(index)
       case Some(u) => Ok(UintVal(WrapUnsigned(u, w)))
       case None => Err(BadUintIndex(index)))
    case StringKind => Ok(StrVal(index))
    case _ => Err(UnsupportedIndex(index))
  }

  /** The position an index denotes in an array or slice whose elements are of kind `elem`
      (the element kind, not the index, selects signed or unsigned parsing). An unsigned
      index is converted to a signed 64-bit int. */
  function ListIndex(elem: Kind, index: string): (r: Result<int, ScanError>)
    ensures elem.IntKind? ==> (r.Ok? <==> ParseInt(index).Some?)
    ensures elem.UintKind? ==> (r.Ok? <==> ParseUint(index).Some?)
    ensures !elem.IntKind? && !elem.UintKind? ==> r == Err(UnsupportedIndex(index))
  {
    if elem.IntKind? then
      match ParseInt(index)
      case Some(i) => Ok(i)
      case None => Err(BadIntIndex(index))
    else if elem.UintKind? then
      match ParseUint(index)
      case Some(u) => Ok(WrapSigned(u, 64))
      case None => Err(BadUintIndex(index))
    else Err(UnsupportedIndex(index))
  }

  /** scanIndexedVar: scans `s` into the part of the destination `dst` of kind `k` that the
      path `indices` selects. */
  function ScanIndexed(k: Kind, dst: Value, indices: seq<string>, s: seq<string>): (r: Indexed)
    requires ValidType(k) && Typed(dst, k)
    ensures r.Reached? ==> Typed(r.res.val, k)
    ensures r.Reached? && r.res.Done? ==> r.res.n <= |s|
    // a Scanner ignores the path
    ensures k == CounterKind ==> r == Reached(Scan(k, dst, s))
    // without a path it is ScanVar, except that a boolean never fails: what does not scan
    // as a boolean, even nothing at all, sets it to true and consumes no token
    ensures |indices| == 0 && k != BoolKind ==> r == Reached(Scan(k, dst, s))
    ensures |indices| == 0 && k == BoolKind ==>
      r.Reached? && r.res.Done?
      && (if Scan(k, dst, s).Done? then r.res == Scan(k, dst, s) else r.res == Done(BoolVal(true), 0))
    // a path into a scalar or an array panics; a path into a slice panics once its index is
    // in range; maps and structs are the only kinds a path goes through
    ensures |indices| > 0 && (k.StringKind? || k.BoolKind? || k.IntKind? || k.UintKind?) ==> r.Panic?
    ensures |indices| > 0 && k.ArrayKind? ==> r.Panic? || r.res.Failed?
    ensures |indices| > 0 && k.SliceKind? ==> r.Panic? || r.res.Failed?
    // on failure a map is left as it was
    ensures r.Reached? && r.res.Failed? && k.MapKind? && |indices| > 0 ==> r.res.val == dst
    // a path through a map writes the one entry at the key its index denotes
    ensures r.Reached? && r.res.Done? && k.MapKind? && |indices| > 0 ==>
      MapKey(k.key, indices[0]).Ok?
      && var kv := MapKey(k.key, indices[0]).value;
      kv in r.res.val.entries && r.res.val.entries == dst.entries[kv := r.res.val.entries[kv]]
    // a path through a struct goes to the first field with the title-cased name, and writes
    // that field alone, even when the scan below it fails
    ensures r.Reached? && k.StructKind? && |indices| > 0 ==>
      var j := FieldFrom(k.fields, Title(indices[0]), 0);
      (j.None? ==> r.res == Failed(dst, NoSuchField(Title(indices[0]))))
      && (j.Some? ==> r.res.val == StructVal(dst.fields[j.value := r.res.val.fields[j.value]]))
    decreases |indices|
  {
    if k == CounterKind || |indices| == 0 then
      var r := Scan(k, dst, s);
      if r.Failed? && k == BoolKind then Reached(Done(BoolVal(true), 0)) else Reached(r)
    else
      var index := indices[0];
      match k
      case ArrayKind(_, e) =>
        // reflect's IsNil panics on an array
        (match ListIndex(e, index)
         case Err(err) => Reached(Failed(dst, err))
         case Ok(_) => Panic)
      case SliceKind(e) =>
        // reflect's Field panics on a slice
        (match ListIndex(e, index)
         case Err(err) => Reached(Failed(dst, err))
         case Ok(i) => if i < 0 || |dst.items| <= i then Reached(Failed(dst, IndexOutOfRange(index))) else Panic)
      case MapKind(key, e) =>
        (match MapKey(key, index)
         case Err(err) => Reached(Failed(dst, err))
         case Ok(kv) =>
           match ScanIndexed(e, Zero(e), indices[1..], s)
           case Panic => Panic
           case Reached(Failed(_, err)) => Reached(Failed(dst, err))
           case Reached(Done(v, n)) => Reached(Done(MapVal(dst.entries[kv := v]), n)))
      case StructKind(fs) =>
        var name := Title(index);
        (match FieldFrom(fs, name, 0)
         case None => Reached(Failed(dst, NoSuchField(name)))
         case Some(j) =>
           match ScanIndexed(fs[j].kind, dst.fields[j], indices[1..], s)
           case Panic => Panic
           case Reached(res) =>
             var fields := dst.fields[j := res.val];
             assert forall i :: 0 <= i < |fs| ==> Typed(fields[i], fs[i].kind);
             Reached(if res.Done? then Done(StructVal(fields), res.n) else Failed(StructVal(fields), res.err)))
      case _ => Panic
  }

  /** A step that consumes nothing consumes nothing again from the value it leaves: only a
      Scanner and the boolean fallback consume no token, and neither depends on what the
      destination held. This is why parse, which then stays on the same token, never ends. */
  lemma {:induction false} NothingConsumedAgain(k: Kind, dst: Value, indices: seq<string>, s: seq<string>)
    requires ValidType(k) && Typed(dst, k)
    requires var r := ScanIndexed(k, dst, indices, s); r.Reached? && r.res.Done? && r.res.n == 0
    ensures var r := ScanIndexed(k, ScanIndexed(k, dst, indices, s).res.val, indices, s);
      r.Reached? && r.res.Done? && r.res.n == 0
    decreases |indices|
  {
    if k == CounterKind || |indices| == 0 {
    } else if k.StructKind? {
      var j := FieldFrom(k.fields, Title(indices[0]), 0).value;
      NothingConsumedAgain(k.fields[j].kind, dst.fields[j], indices[1..], s);
    }
  }

  /** `--name.key=v` on a map with string keys and non-boolean values: the entry at `key` is
      what `v` scans to from a zero value, every other entry stays, and a value that does not
      scan leaves the map as it was. */
  lemma PathToEntry(k: Kind, dst: Value, key: string, s: seq<string>)
    requires k.MapKind? && k.key == StringKind && k.elem != BoolKind
    requires ValidSubType(k) && Typed(dst, k)
    ensures var v := Scan(k.elem, Zero(k.elem), s);
      ScanIndexed(k, dst, [key], s)
      == Reached(if v.Done? then Done(MapVal(dst.entries[StrVal(key) := v.val]), v.n)
                 else Failed(dst, v.err))
  {
    assert [key][1..] == [];
  }

  /** `--name.field=v` on a struct whose field of that (title-cased) name is not a boolean:
      that field holds what `v` scans to from its current value, every other field stays, and
      the scan's outcome is the field's. */
  lemma PathToField(k: Kind, dst: Value, index: string, s: seq<string>, j: nat)
    requires k.StructKind? && ValidSubType(k) && Typed(dst, k)
    requires FieldFrom(k.fields, Title(index), 0) == Some(j) && k.fields[j].kind != BoolKind
    ensures var v := Scan(k.fields[j].kind, dst.fields[j], s);
      var fields := dst.fields[j := v.val];
      ScanIndexed(k, dst, [index], s)
      == Reached(if v.Done? then Done(StructVal(fields), v.n) else Failed(StructVal(fields), v.err))
  {
    assert [index][1..] == [];
  }
}
