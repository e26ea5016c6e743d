/**
 * ScanVar and scanIndexedVar: how argp turns command-line tokens into the value of a
 * destination. Scalars take one token; arrays, slices, maps and structs are written as
 * bracket groups (`[a b]`, `{k:v}`, `{x y}`) that may span several tokens, and slices also
 * take the comma form `a,b,c`.
 *
 * Each scan is a function from the destination's kind, its current value and the tokens
 * to the destination's new value and either the number of tokens consumed or an error.
 * The new value matters on failure too: Go writes map entries and struct fields as it goes,
 * so a failed map or struct scan leaves the entries and fields it already wrote.
 */
module Scanning {
  import opened Wrappers
  import opened Text
  import opened Literals
  import opened Kinds
  import opened Tokens
  import opened Counting

  /** The errors of ScanVar and scanIndexedVar, one per message format. */
  datatype ScanError =
    | MissingValue
    | InvalidBool(token: string)
    | InvalidInt(token: string)
    | InvalidUint(token: string)
    | InvalidSlice
    | InvalidArray
    | InvalidElement(position: nat)
    | AtIndex(position: nat, cause: ScanError)
    | WrongCount(expected: nat)
    | InvalidMap
    | MissingColon(key: string)
    | AtKey(cause: ScanError)
    | InvalidEntry(key: string)
    | AtEntry(key: string, cause: ScanError)
    | InvalidStruct
    | InvalidField(field: string)
    | AtField(field: string, cause: ScanError)
    | MissingValues
    | TooManyValues
    | BadIntIndex(index: string)
    | BadUintIndex(index: string)
    | UnsupportedIndex(index: string)
    | IndexOutOfRange(index: string)
    | NoSuchField(index: string)

  /** The destination after a scan, with the number of tokens consumed or the error. */
  datatype ScanResult = Done(val: Value, n: nat) | Failed(val: Value, err: ScanError)

  /** The tokens of one element, entry value or field value, and the tokens after it. */
  datatype Piece = Piece(val: seq<string>, rest: seq<string>) | BadPiece

  /** A value that is either one bracket group, which must end at a token boundary, or the
      first token. An unmatched group yields no tokens at all, which the element's own scan
      then reports as a missing value. */
  function NextValue(s: seq<string>): (r: Piece)
    requires |s| > 0
    ensures r.Piece? ==> (r.val == [] && r.rest == s) || (r.val != [] && Size(r.rest) < Size(s))
    ensures r.Piece? && r.val != [] ==> r.val + r.rest == s
  {
    if |s[0]| > 0 && IsOpen(s[0][0]) then
      match Bracketed(s)
      case Unmatched => Piece([], s)
      case Matched(h, t, split) => if split then BadPiece else Piece(h, t)
    else
      SizeSuffix(s, 1);
      assert [s[0]] + s[1..] == s;
      Piece([s[0]], s[1..])
  }

  /** The next element of an array or slice. In the comma form a bracket group is refused,
      a token is cut before its first comma, and nothing left after a comma is the empty
      element. */
  function NextElem(s: seq<string>, comma: bool): (r: Piece)
    requires |s| > 0 || comma
    ensures !comma ==> r == NextValue(s)
    ensures comma && r.Piece? ==> r.val != [] && Size(r.rest) <= Size(s)
  {
    if !comma then NextValue(s)
    else if |s| == 0 then Piece([""], [])
    else if |s[0]| > 0 && IsOpen(s[0][0]) then BadPiece
    else match IndexOf(s[0], ',')
      case Some(idx) =>
        SizeFront(s[0], s[1..]);
        SizeFront(s[0][idx..], s[1..]);
        assert [s[0]] + s[1..] == s;
        Piece([s[0][..idx]], [s[0][idx..]] + s[1..])
      case None =>
        SizeSuffix(s, 1);
        Piece([s[0]], s[1..])
  }

  /** How the next key of a map literal starts: its tokens and what follows its colon, the end
      of the entries (a last bare key without a colon is dropped), or a missing colon. */
  datatype KeyPiece = KeyAt(key: seq<string>, rest: seq<string>) | NoKey | BadKey(err: ScanError)

  function NextKey(s: seq<string>): (r: KeyPiece)
    requires |s| > 0
    ensures r.KeyAt? ==> Size(r.rest) < Size(s)
  {
    if |s[0]| > 0 && IsOpen(s[0][0]) then
      var b := Bracketed(s);
      var key := if b.Matched? then b.head else [];
      var t := if b.Matched? then b.tail else s;
      if |t| == 0 || |t[0]| == 0 || t[0][0] != ':' then BadKey(MissingColon(Join(key, " ")))
      else KeyAt(key, DropFirst(t))
    else match IndexOf(s[0], ':')
      case None =>
        SizeSuffix(s, 1);
        var t := DropEmpty(s[1..]);
        if |t| == 0 then NoKey
        else if t[0][0] != ':' then BadKey(MissingColon(s[0]))
        else KeyAt([s[0]], DropFirst(t))
      case Some(idx) =>
        SizeFront(s[0], s[1..]);
        SizeFront(s[0][idx + 1..], s[1..]);
        assert [s[0]] + s[1..] == s;
        KeyAt([s[0][..idx]], [s[0][idx + 1..]] + s[1..])
  }

  /** Where the next element of an array or slice starts, or None when the list has ended.
      In the comma form every element after the first needs a comma first, possibly after
      empty tokens; a comma with nothing after it still starts an (empty) element. */
  function ElemStart(s: seq<string>, comma: bool, first: bool): (r: Option<seq<string>>)
    ensures r.Some? && (!comma || first) ==> r.value == s && |s| > 0
    ensures r.Some? && comma && !first ==> Size(r.value) < Size(s)
  {
    if comma && !first then
      var t := DropEmpty(s);
      if |t| == 0 || t[0][0] != ',' then None else Some(DropFirst(t))
    else if |s| == 0 then None
    else Some(s)
  }

  /** ScanVar: scans the destination of kind `k`, currently `dst`, from the tokens `s`. */
  function Scan(k: Kind, dst: Value, s: seq<string>): (r: ScanResult)
    requires ValidType(k) && Typed(dst, k)
    ensures Typed(r.val, k)
    ensures r.Done? ==> r.n <= |s|
    // a Scanner reads what it wants and reports no token consumed; anything else consumes
    // at least one token or fails, and fails with "missing value" on an empty list
    ensures k == CounterKind ==> r.Done? && r.n == 0
    ensures k != CounterKind && r.Done? ==> r.n >= 1
    ensures k != CounterKind && |s| == 0 ==> r == Failed(dst, MissingValue)
    // only maps and structs are written before the whole value is known to be valid
    ensures r.Failed? && !k.MapKind? && !k.StructKind? ==> r.val == dst
    decreases k, 2
  {
    if k == CounterKind then Done(CountVal(NextCount(dst.count, s)), 0)
    else if |s| == 0 then Failed(dst, MissingValue)
    else match k
      case StringKind => Done(StrVal(s[0]), 1)
      case BoolKind =>
        (match ParseBool(s[0])
         case Some(b) => Done(BoolVal(b), 1)
         case None => Failed(dst, InvalidBool(s[0])))
      case IntKind(w) =>
        (match ParseInt(s[0])
         case Some(i) => Done(IntVal(WrapSigned(i, w)), 1)
         case None => Failed(dst, InvalidInt(s[0])))
      case UintKind(w) =>
        (match ParseUint(s[0])
         case Some(u) => Done(UintVal(WrapUnsigned(u, w)), 1)
         case None => Failed(dst, InvalidUint(s[0])))
      case ArrayKind(_, _) => ScanList(k, dst, s)
      case SliceKind(_) => ScanList(k, dst, s)
      case MapKind(_, _) => ScanMap(k, dst, s)
      case StructKind(_) => ScanStruct(k, dst, s)
  }

  /** Arrays and slices: a bracket group closing at a token boundary, or else the comma form
      over all the tokens. The destination is written only once every element has scanned. */
  function ScanList(k: Kind, dst: Value, s: seq<string>): (r: ScanResult)
    requires (k.ArrayKind? || k.SliceKind?) && ValidSubType(k) && Typed(dst, k) && |s| > 0
    ensures Typed(r.val, k)
    ensures r.Failed? ==> r.val == dst
    ensures r.Done? ==> 1 <= r.n <= |s|
    decreases k, 1
  {
    if |s[0]| == 0 then Failed(dst, MissingValue)
    else if s[0][0] != '[' then ListOf(k, dst, Elems(k, s, true, []), |s|)
    else match Bracketed(s)
      case Matched(h, _, false) => ListOf(k, dst, Elems(k, Strip(h), false, []), |h|)
      case _ => Failed(dst, if k.SliceKind? then InvalidSlice else InvalidArray)
  }

  /** The array or slice holding the scanned elements; an array needs exactly its length. */
  function ListOf(k: Kind, dst: Value, e: Result<seq<Value>, ScanError>, n: nat): (r: ScanResult)
    requires (k.ArrayKind? || k.SliceKind?) && Typed(dst, k)
    requires e.Ok? ==> forall i :: 0 <= i < |e.value| ==> Typed(e.value[i], k.elem)
    ensures Typed(r.val, k)
    ensures r.Failed? ==> r.val == dst
    ensures r.Done? ==> e.Ok? && r.n == n && r.val == SeqVal(e.value)
  {
    match e
    case Err(err) => Failed(dst, err)
    case Ok(items) =>
      if k.ArrayKind? && |items| != k.len then Failed(dst, WrongCount(k.len))
      else Done(SeqVal(items), n)
  }

  /** The elements of an array or slice, after those already scanned in `acc`. In the comma
      form every element after the first needs a comma first, possibly after empty tokens. */
  function Elems(k: Kind, s: seq<string>, comma: bool, acc: seq<Value>)
    : (r: Result<seq<Value>, ScanError>)
    requires (k.ArrayKind? || k.SliceKind?) && ValidSubType(k)
    requires forall i :: 0 <= i < |acc| ==> Typed(acc[i], k.elem)
    ensures r.Ok? ==> forall i :: 0 <= i < |r.value| ==> Typed(r.value[i], k.elem)
    decreases k, 0, Size(s), if comma && |acc| > 0 then 0 else 1
  {
    match ElemStart(s, comma, |acc| == 0)
    case None => Ok(acc)
    case Some(s1) =>
      match NextElem(s1, comma)
      case BadPiece => Err(InvalidElement(|acc|))
      case Piece(val, rest) =>
        match Fresh(k.elem, val)
        case Err(e) => Err(AtIndex(|acc|, e))
        case Ok(v) =>
          ElemsStep(k, s, comma, acc, s1, val, rest, v);
          var acc' := acc + [v];
          var r := Elems(k, rest, comma, acc');
          r
  }

  /** A fresh variable of kind `k` scanned from `s`, as an element, a key or an entry value
      is: the value, or the error. What ScanVar consumed is not used. */
  function Fresh(k: Kind, s: seq<string>): (r: Result<Value, ScanError>)
    requires ValidSubType(k)
    ensures r.Ok? ==> Typed(r.value, k) && s != []
    decreases k, 3
  {
    match Scan(k, Zero(k), s)
    case Done(v, _) => Ok(v)
    case Failed(_, e) => Err(e)
  }

  /** The facts the recursive call of Elems needs: the tokens shrink (or the first element of
      the comma form has been read) and the elements stay well typed. */
  lemma ElemsStep(k: Kind, s: seq<string>, comma: bool, acc: seq<Value>, s1: seq<string>,
                  val: seq<string>, rest: seq<string>, v: Value)
    requires (k.ArrayKind? || k.SliceKind?)
    requires forall i :: 0 <= i < |acc| ==> Typed(acc[i], k.elem)
    requires ElemStart(s, comma, |acc| == 0) == Some(s1)
    requires NextElem(s1, comma) == Piece(val, rest) && val != []
    requires Typed(v, k.elem)
    ensures Size(rest) < Size(s) || (comma && |acc| == 0 && Size(rest) <= Size(s))
    ensures forall i :: 0 <= i < |acc + [v]| ==> Typed((acc + [v])[i], k.elem)
  {
  }

  /** Maps: a brace group closing at a token boundary. Its entries are added to the map the
      destination already holds, one by one, so a failure keeps the entries before it. */
  function ScanMap(k: Kind, dst: Value, s: seq<string>): (r: ScanResult)
    requires k.MapKind? && ValidSubType(k) && Typed(dst, k) && |s| > 0
    ensures Typed(r.val, k)
    ensures dst.entries.Keys <= r.val.entries.Keys
    ensures r.Done? ==> 1 <= r.n <= |s|
    decreases k, 1
  {
    if |s[0]| == 0 || s[0][0] != '{' then Failed(dst, MissingValue)
    else match Bracketed(s)
      case Matched(h, _, false) =>
        var (m, err) := Entries(k, Strip(h), dst.entries);
        if err.Some? then Failed(MapVal(m), err.value) else Done(MapVal(m), |h|)
      case _ => Failed(dst, InvalidMap)
  }

  /** The `key:value` entries of a map literal added to `m`. */
  function Entries(k: Kind, s: seq<string>, m: map<Value, Value>)
    : (r: (map<Value, Value>, Option<ScanError>))
    requires k.MapKind? && ValidSubType(k) && Typed(MapVal(m), k)
    ensures Typed(MapVal(r.0), k) && m.Keys <= r.0.Keys
    decreases k, 0, Size(s)
  {
    if |s| == 0 then (m, None)
    else match NextKey(s)
      case NoKey => (m, None)
      case BadKey(e) => (m, Some(e))
      case KeyAt(sKey, s1) =>
        match Fresh(k.key, sKey)
        case Err(e) => (m, Some(AtKey(e)))
        case Ok(key) =>
          var name := Join(sKey, " ");
          match (if |s1| == 0 then Piece([""], []) else NextValue(s1))
          case BadPiece => (m, Some(InvalidEntry(name)))
          case Piece(sVal, s2) =>
            match Fresh(k.elem, sVal)
            case Err(e) => (m, Some(AtEntry(name, e)))
            case Ok(v) => Entries(k, s2, m[key := v])
  }

  /** Structs: a brace group closing at a token boundary holding one value per field, in
      order. Each field is written as soon as its value scans. */
  function ScanStruct(k: Kind, dst: Value, s: seq<string>): (r: ScanResult)
    requires k.StructKind? && ValidSubType(k) && Typed(dst, k) && |s| > 0
    ensures Typed(r.val, k)
    ensures r.Done? ==> 1 <= r.n <= |s|
    decreases k, 1
  {
    if |s[0]| == 0 || s[0][0] != '{' then Failed(dst, MissingValue)
    else match Bracketed(s)
      case Matched(h, _, false) =>
        var (vals, err) := Fields(k, Strip(h), dst.fields, 0);
        if err.Some? then Failed(StructVal(vals), err.value) else Done(StructVal(vals), |h|)
      case _ => Failed(dst, InvalidStruct)
  }

  /** The field values of a struct literal from field `j` on, written into `vals`. */
  function Fields(k: Kind, s: seq<string>, vals: seq<Value>, j: nat)
    : (r: (seq<Value>, Option<ScanError>))
    requires k.StructKind? && ValidSubType(k) && j <= |k.fields| && |vals| == |k.fields|
    requires forall i :: 0 <= i < |vals| ==> Typed(vals[i], k.fields[i].kind)
    ensures |r.0| == |vals| && forall i :: 0 <= i < |vals| ==> Typed(r.0[i], k.fields[i].kind)
    ensures forall i :: 0 <= i < j ==> r.0[i] == vals[i]
    decreases k, 0, |k.fields| - j
  {
    if j == |k.fields| then (vals, if |s| != 0 then Some(TooManyValues) else None)
    else match FieldValue(k, s, vals, j)
      case Stop(vals', e) => (vals', Some(e))
      case Go(vals', s2) => Fields(k, s2, vals', j + 1)
  }

  /** One step of a struct literal: the fields after field `j` was written, and the error or
      the tokens after its value. */
  datatype FieldStep = Stop(vals: seq<Value>, err: ScanError) | Go(vals: seq<Value>, rest: seq<string>)

  /** The value of field `j`: the next value after any empty tokens, scanned into the field. */
  function FieldValue(k: Kind, s: seq<string>, vals: seq<Value>, j: nat): (r: FieldStep)
    requires k.StructKind? && ValidSubType(k) && j < |k.fields| && |vals| == |k.fields|
    requires forall i :: 0 <= i < |vals| ==> Typed(vals[i], k.fields[i].kind)
    ensures |r.vals| == |vals| && forall i :: 0 <= i < |vals| ==> Typed(r.vals[i], k.fields[i].kind)
    ensures forall i :: 0 <= i < |vals| && i != j ==> r.vals[i] == vals[i]
    decreases k, 0, |k.fields| - j, 0
  {
    var s1 := DropEmpty(s);
    var f := k.fields[j];
    if |s1| == 0 then Stop(vals, MissingValues)
    else match NextValue(s1)
      case BadPiece => Stop(vals, InvalidField(f.name))
      case Piece(sVal, s2) =>
        match Into(k, vals, j, sVal)
        case (vals', Some(e)) => Stop(vals', AtField(f.name, e))
        case (vals', None) => Go(vals', s2)
  }

  /** ScanVar into field `j`: the fields with field `j` written, and the error if it failed. */
  function Into(k: Kind, vals: seq<Value>, j: nat, s: seq<string>): (r: (seq<Value>, Option<ScanError>))
    requires k.StructKind? && ValidSubType(k) && j < |k.fields| && |vals| == |k.fields|
    requires forall i :: 0 <= i < |vals| ==> Typed(vals[i], k.fields[i].kind)
    ensures |r.0| == |vals| && forall i :: 0 <= i < |vals| ==> Typed(r.0[i], k.fields[i].kind)
    ensures forall i :: 0 <= i < |vals| && i != j ==> r.0[i] == vals[i]
    ensures r.0[j] == Scan(k.fields[j].kind, vals[j], s).val
    ensures r.1 == None <==> Scan(k.fields[j].kind, vals[j], s).Done?
    ensures r.1.Some? ==> r.1.value == Scan(k.fields[j].kind, vals[j], s).err
    decreases k, 0, 0, 0
  {
    var r := Scan(k.fields[j].kind, vals[j], s);
    (vals[j := r.val], if r.Failed? then Some(r.err) else None)
  }
}
