/**
 * What ScanVar writes into a struct: a literal `{v1 v2 ...}` holds one value per field, in
 * order, each scanned into its field; a literal with a value left over, or one that runs out
 * of values, is refused, with the fields it reached already written.
 */
module StructFacts {
  import opened Wrappers
  import opened Kinds
  import opened Tokens
  import opened Scanning

  /** The value tokens of a literal: non-empty, without brackets. */
  predicate PlainValues(ts: seq<string>)
  {
    forall x :: 0 <= x < |ts| ==> ts[x] != [] && BracketFree(ts[x])
  }

  /** Every field from `j` on that has a token scans from it. */
  predicate FieldsScan(fs: seq<Field>, vals: seq<Value>, ts: seq<string>, j: nat)
    requires |vals| == |fs| && forall i :: 0 <= i < |fs| ==> ValidSubType(fs[i].kind) && Typed(vals[i], fs[i].kind)
  {
    forall x :: 0 <= x < |ts| && j + x < |fs| ==> Scan(fs[j + x].kind, vals[j + x], [ts[x]]).Done?
  }

  /** The fields after a literal of plain tokens wrote fields `j`, `j + 1`, ... from its
      tokens in turn: field `i` holds what token `i - j` scans to, or keeps its value when the
      literal has no token for it. */
  ghost function Filled(k: Kind, ts: seq<string>, vals: seq<Value>, j: nat): (r: seq<Value>)
    requires k.StructKind? && ValidSubType(k) && |vals| == |k.fields|
    requires forall i :: 0 <= i < |vals| ==> Typed(vals[i], k.fields[i].kind)
    ensures |r| == |vals|
  {
    seq(|vals|, i requires 0 <= i < |vals| =>
      if j <= i < j + |ts| then Scan(k.fields[i].kind, vals[i], [ts[i - j]]).val else vals[i])
  }

  /** Writing field `j` from the first token, then the others from the rest, writes them all. */
  lemma FilledStep(k: Kind, ts: seq<string>, vals: seq<Value>, j: nat, vals': seq<Value>)
    requires k.StructKind? && ValidSubType(k) && j < |k.fields| && |vals| == |k.fields| && |ts| > 0
    requires forall i :: 0 <= i < |vals| ==> Typed(vals[i], k.fields[i].kind)
    requires vals' == vals[j := Scan(k.fields[j].kind, vals[j], [ts[0]]).val]
    requires forall i :: 0 <= i < |vals'| ==> Typed(vals'[i], k.fields[i].kind)
    ensures Filled(k, ts, vals, j) == Filled(k, ts[1..], vals', j + 1)
  {
    var a, b := Filled(k, ts, vals, j), Filled(k, ts[1..], vals', j + 1);
    forall i | 0 <= i < |vals|
      ensures a[i] == b[i]
    {
      if j + 1 <= i < j + |ts| {
        assert ts[1..][i - (j + 1)] == ts[i - j];
      }
    }
  }

  /** A literal of plain tokens from field `j` on writes the fields as Filled says. */
  lemma {:induction false} FieldsWritten(k: Kind, ts: seq<string>, vals: seq<Value>, j: nat)
    requires k.StructKind? && ValidSubType(k) && j <= |k.fields| && |vals| == |k.fields|
    requires forall i :: 0 <= i < |vals| ==> Typed(vals[i], k.fields[i].kind)
    requires PlainValues(ts) && FieldsScan(k.fields, vals, ts, j)
    ensures Fields(k, ts, vals, j).0 == Filled(k, ts, vals, j)
    decreases |k.fields| - j
  {
    if j == |k.fields| {
      FieldsEnd(k, ts, vals, j);
    } else if |ts| == 0 {
      FieldsShort(k, ts, vals, j);
    } else {
      FirstScans(k.fields, vals, ts, j);
      var vals' := vals[j := Scan(k.fields[j].kind, vals[j], [ts[0]]).val];
      FieldStep(k, ts, vals, j, vals');
      FilledStep(k, ts, vals, j, vals');
      Shift(k.fields, vals, vals', ts, j);
      FieldsWritten(k, ts[1..], vals', j + 1);
      var w, w' := Fields(k, ts, vals, j).0, Fields(k, ts[1..], vals', j + 1).0;
      assert w == w';
      assert w' == Filled(k, ts[1..], vals', j + 1);
    }
  }

  /** A literal of plain tokens from field `j` on is refused exactly when tokens are left
      over or run out. */
  lemma {:induction false} FieldsVerdict(k: Kind, ts: seq<string>, vals: seq<Value>, j: nat)
    requires k.StructKind? && ValidSubType(k) && j <= |k.fields| && |vals| == |k.fields|
    requires forall i :: 0 <= i < |vals| ==> Typed(vals[i], k.fields[i].kind)
    requires PlainValues(ts) && FieldsScan(k.fields, vals, ts, j)
    ensures Fields(k, ts, vals, j).1
         == if |ts| > |k.fields| - j then Some(TooManyValues)
            else if |ts| < |k.fields| - j then Some(MissingValues) else None
    decreases |k.fields| - j
  {
    if j == |k.fields| {
      FieldsEnd(k, ts, vals, j);
    } else if |ts| == 0 {
      FieldsShort(k, ts, vals, j);
    } else {
      FirstScans(k.fields, vals, ts, j);
      var vals' := vals[j := Scan(k.fields[j].kind, vals[j], [ts[0]]).val];
      FieldStep(k, ts, vals, j, vals');
      Shift(k.fields, vals, vals', ts, j);
      assert j + 1 <= |k.fields|;
      assert |vals'| == |k.fields|;
      assert forall i :: 0 <= i < |vals'| ==> Typed(vals'[i], k.fields[i].kind);
      assert PlainValues(ts[1..]);
      assert FieldsScan(k.fields, vals', ts[1..], j + 1);
      FieldsVerdict(k, ts[1..], vals', j + 1);
    }
  }

  /** No field left: the literal is complete, or has values left over. */
  lemma FieldsEnd(k: Kind, ts: seq<string>, vals: seq<Value>, j: nat)
    requires k.StructKind? && ValidSubType(k) && j == |k.fields| && |vals| == |k.fields|
    requires forall i :: 0 <= i < |vals| ==> Typed(vals[i], k.fields[i].kind)
    ensures Fields(k, ts, vals, j) == (vals, if |ts| != 0 then Some(TooManyValues) else None)
    ensures Filled(k, ts, vals, j) == vals
  {
    assert forall i :: 0 <= i < |vals| ==> Filled(k, ts, vals, j)[i] == vals[i];
  }

  /** No value left for field `j`: the literal is missing values. */
  lemma FieldsShort(k: Kind, ts: seq<string>, vals: seq<Value>, j: nat)
    requires k.StructKind? && ValidSubType(k) && j < |k.fields| && |vals| == |k.fields|
    requires forall i :: 0 <= i < |vals| ==> Typed(vals[i], k.fields[i].kind)
    requires ts == []
    ensures Fields(k, ts, vals, j) == (vals, Some(MissingValues))
    ensures Filled(k, ts, vals, j) == vals
  {
    NoValueLeft(k, vals, j);
    FilledNone(k, ts, vals, j);
  }

  /** Field `j` finds no value in an empty list. */
  lemma NoValueLeft(k: Kind, vals: seq<Value>, j: nat)
    requires k.StructKind? && ValidSubType(k) && j < |k.fields| && |vals| == |k.fields|
    requires forall i :: 0 <= i < |vals| ==> Typed(vals[i], k.fields[i].kind)
    ensures FieldValue(k, [], vals, j) == Stop(vals, MissingValues)
  {
    assert DropEmpty([]) == [];
  }

  /** With no tokens, no field is written. */
  lemma FilledNone(k: Kind, ts: seq<string>, vals: seq<Value>, j: nat)
    requires k.StructKind? && ValidSubType(k) && |vals| == |k.fields|
    requires forall i :: 0 <= i < |vals| ==> Typed(vals[i], k.fields[i].kind)
    requires ts == []
    ensures Filled(k, ts, vals, j) == vals
  {
    assert forall i :: 0 <= i < |vals| ==> Filled(k, ts, vals, j)[i] == vals[i];
  }

  /** The field `j` scans from the first token. */
  lemma FirstScans(fs: seq<Field>, vals: seq<Value>, ts: seq<string>, j: nat)
    requires |vals| == |fs| && j < |fs| && |ts| > 0
    requires forall i :: 0 <= i < |fs| ==> ValidSubType(fs[i].kind) && Typed(vals[i], fs[i].kind)
    requires FieldsScan(fs, vals, ts, j)
    ensures Scan(fs[j].kind, vals[j], [ts[0]]).Done?
  {
    assert j + 0 == j;
  }

  /** The fields after field `j` still scan once field `j` is written and its token taken. */
  lemma Shift(fs: seq<Field>, vals: seq<Value>, vals': seq<Value>, ts: seq<string>, j: nat)
    requires |vals| == |fs| == |vals'| && j < |fs| && |ts| > 0
    requires forall i :: 0 <= i < |fs| ==> ValidSubType(fs[i].kind) && Typed(vals[i], fs[i].kind)
    requires forall i :: 0 <= i < |fs| ==> Typed(vals'[i], fs[i].kind)
    requires forall i :: 0 <= i < |fs| && i != j ==> vals'[i] == vals[i]
    requires FieldsScan(fs, vals, ts, j)
    ensures FieldsScan(fs, vals', ts[1..], j + 1)
  {
    forall x | 0 <= x < |ts[1..]| && j + 1 + x < |fs|
      ensures Scan(fs[j + 1 + x].kind, vals'[j + 1 + x], [ts[1..][x]]).Done?
    {
      var i := j + 1 + x;
      assert i == j + (x + 1) && vals'[i] == vals[i] && ts[1..][x] == ts[x + 1];
      assert Scan(fs[j + (x + 1)].kind, vals[j + (x + 1)], [ts[x + 1]]).Done?;
    }
  }

  /** One field read from a plain token: it takes what the token scans to, and the tokens
      after it follow. */
  lemma FieldStep(k: Kind, ts: seq<string>, vals: seq<Value>, j: nat, vals': seq<Value>)
    requires k.StructKind? && ValidSubType(k) && j < |k.fields| && |vals| == |k.fields|
    requires forall i :: 0 <= i < |vals| ==> Typed(vals[i], k.fields[i].kind)
    requires |ts| > 0 && PlainValues(ts) && Scan(k.fields[j].kind, vals[j], [ts[0]]).Done?
    requires vals' == vals[j := Scan(k.fields[j].kind, vals[j], [ts[0]]).val]
    ensures forall i :: 0 <= i < |vals'| ==> Typed(vals'[i], k.fields[i].kind)
    ensures PlainValues(ts[1..])
    ensures Fields(k, ts, vals, j) == Fields(k, ts[1..], vals', j + 1)
  {
    assert DropEmpty(ts) == ts;
    assert !IsOpen(ts[0][0]);
    assert NextValue(ts) == Piece([ts[0]], ts[1..]);
    assert FieldValue(k, ts, vals, j) == Go(vals', ts[1..]);
    assert forall x :: 0 <= x < |ts[1..]| ==> ts[1..][x] == ts[x + 1];
  }

  /** A brace group closing at a token boundary: its values are written into the fields, and
      the group is consumed unless a value is refused or missing or left over. */
  lemma StructBraces(k: Kind, vals: seq<Value>, g: seq<string>, rest: seq<string>,
                     out: seq<Value>, e: Option<ScanError>)
    requires k.StructKind? && ValidSubType(k) && Typed(StructVal(vals), k)
    requires |g| > 0 && |g[0]| > 0 && g[0][0] == '{' && Bracketed(g + rest) == Matched(g, rest, false)
    requires Fields(k, Strip(g), vals, 0) == (out, e)
    ensures Scan(k, StructVal(vals), g + rest)
         == if e.Some? then Failed(StructVal(out), e.value) else Done(StructVal(out), |g|)
  {
    var s := g + rest;
    assert s[0] == g[0];
    assert Scan(k, StructVal(vals), s) == ScanStruct(k, StructVal(vals), s);
  }

  /** A struct literal `{t1 ... tn}` of plain tokens: field i holds what token i scans to, the
      fields past the last token keep their value, and the literal is accepted, consuming its
      tokens, exactly when it has one token per field; a token left over is refused with
      "too many values", and a field left over with "missing values". */
  lemma StructLiteral(fs: seq<Field>, vals: seq<Value>, ts: seq<string>, rest: seq<string>)
    requires ValidSubType(StructKind(fs)) && Typed(StructVal(vals), StructKind(fs))
    requires PlainValues(ts) && FieldsScan(fs, vals, ts, 0)
    ensures var r := Scan(StructKind(fs), StructVal(vals), Enclose('{', ts) + rest);
      && r.val.StructVal? && |r.val.fields| == |fs|
      && (forall i :: 0 <= i < |fs| ==>
            r.val.fields[i] == if i < |ts| then Scan(fs[i].kind, vals[i], [ts[i]]).val else vals[i])
      && (r.Done? <==> |ts| == |fs|)
      && (r.Done? ==> r.n == |Enclose('{', ts)|)
      && (|ts| > |fs| ==> r == Failed(r.val, TooManyValues))
      && (|ts| < |fs| ==> r == Failed(r.val, MissingValues))
  {
    var k := StructKind(fs);
    FieldsWritten(k, ts, vals, 0);
    FieldsVerdict(k, ts, vals, 0);
    EncloseGroup('{', ts, rest);
    StructBraces(k, vals, Enclose('{', ts), rest, Fields(k, ts, vals, 0).0, Fields(k, ts, vals, 0).1);

  }

  /** A struct literal with more plain values than fields is refused. */
  lemma StructTooMany(fs: seq<Field>, vals: seq<Value>, ts: seq<string>, rest: seq<string>)
    requires ValidSubType(StructKind(fs)) && Typed(StructVal(vals), StructKind(fs))
    requires PlainValues(ts) && FieldsScan(fs, vals, ts, 0) && |ts| > |fs|
    ensures Scan(StructKind(fs), StructVal(vals), Enclose('{', ts) + rest).Failed?
    ensures Scan(StructKind(fs), StructVal(vals), Enclose('{', ts) + rest).err == TooManyValues
  {
    StructLiteral(fs, vals, ts, rest);
  }

  /** A struct literal with fewer values than fields is refused, with the fields it has
      values for written. */
  lemma StructTooFew(fs: seq<Field>, vals: seq<Value>, ts: seq<string>, rest: seq<string>)
    requires ValidSubType(StructKind(fs)) && Typed(StructVal(vals), StructKind(fs))
    requires PlainValues(ts) && FieldsScan(fs, vals, ts, 0) && |ts| < |fs|
    ensures var r := Scan(StructKind(fs), StructVal(vals), Enclose('{', ts) + rest);
      r.Failed? && r.err == MissingValues
      && forall i :: 0 <= i < |ts| ==> r.val.fields[i] == Scan(fs[i].kind, vals[i], [ts[i]]).val
  {
    StructLiteral(fs, vals, ts, rest);
  }
}
