/**
 * The positional phase of Argp.parse: the positional arguments are scanned into the argument
 * bindings in the order of their positions, 0, 1, 2, ..., until the arguments or the
 * positions run out; an argument that does not scan stops parse with its position.
 */
module Arguments {
  import opened Wrappers
  import opened Kinds
  import opened Scanning
  import opened Registry
  import opened Dispatch

  function Min(a: nat, b: nat): nat { if a <= b then a else b }

  /** How many positional arguments the argument bindings take: one per position in use. */
  function Taken(vars: seq<Var>, positional: seq<string>): (k: nat)
    ensures k <= |positional| && k <= NextFree(vars)
    ensures k == |positional| || k == NextFree(vars)
  {
    Min(|positional|, NextFree(vars))
  }

  /** The scan of the positional argument at position `x` into the binding of that position,
      from the value `values` gives it. */
  function ArgumentScan(vars: seq<Var>, values: seq<Value>, positional: seq<string>, x: nat): (r: ScanResult)
    requires Kinded(vars) && |values| == |vars| && x < |positional| && FindIndex(vars, x).Some?
    requires forall p :: 0 <= p < |vars| ==> Typed(values[p], vars[p].kind)
    ensures Typed(r.val, vars[FindIndex(vars, x).value].kind)
  {
    var p := FindIndex(vars, x).value;
    Scan(vars[p].kind, values[p], [positional[x]])
  }

  /** The destinations once the arguments before position `k` have been scanned, each binding
      from the value it had before; the other bindings keep theirs. */
  function Written(vars: seq<Var>, values: seq<Value>, positional: seq<string>, k: nat): (r: seq<Value>)
    requires Kinded(vars) && |values| == |vars| && k <= |positional|
    requires forall p :: 0 <= p < |vars| ==> Typed(values[p], vars[p].kind)
    ensures |r| == |vars| && forall p :: 0 <= p < |vars| ==> Typed(r[p], vars[p].kind)
    ensures forall p :: 0 <= p < |vars| && !(vars[p].index.Some? && vars[p].index.value < k) ==> r[p] == values[p]
  {
    seq(|vars|, p requires 0 <= p < |vars| =>
      if vars[p].index.Some? && vars[p].index.value < k
      then Scan(vars[p].kind, values[p], [positional[vars[p].index.value]]).val
      else values[p])
  }

  /** The flags once the arguments before position `k` have been scanned. */
  function Marked(vars: seq<Var>, isSet: seq<bool>, k: nat): (r: seq<bool>)
    requires |isSet| == |vars|
    ensures |r| == |vars|
    ensures forall p :: 0 <= p < |vars| ==> (r[p] <==> isSet[p] || (vars[p].index.Some? && vars[p].index.value < k))
  {
    seq(|vars|, p requires 0 <= p < |vars| => isSet[p] || (vars[p].index.Some? && vars[p].index.value < k))
  }

  /** Every argument from position `from` up to `k` scans into its binding. */
  ghost predicate AcceptedBetween(vars: seq<Var>, values: seq<Value>, positional: seq<string>, from: nat, k: nat)
    requires Kinded(vars) && |values| == |vars| && k <= |positional|
    requires forall p :: 0 <= p < |vars| ==> Typed(values[p], vars[p].kind)
    decreases k - from
  {
    from >= k
    || (FindIndex(vars, from).Some? && ArgumentScan(vars, values, positional, from).Done?
        && AcceptedBetween(vars, values, positional, from + 1, k))
  }

  /** The first argument of a run of accepted ones scans, and so do the others. */
  lemma AcceptedFirst(vars: seq<Var>, values: seq<Value>, positional: seq<string>, x: nat, next: nat, k: nat)
    requires Kinded(vars) && |values| == |vars| && x < k <= |positional| && next == x + 1
    requires forall p :: 0 <= p < |vars| ==> Typed(values[p], vars[p].kind)
    requires AcceptedBetween(vars, values, positional, x, k)
    ensures FindIndex(vars, x).Some? && ArgumentScan(vars, values, positional, x).Done?
    ensures AcceptedBetween(vars, values, positional, next, k)
  {
  }

  /** One argument scanned: from the state after the arguments before `x` to the state after
      the arguments up to `x`. */
  lemma FillStep(vars: seq<Var>, values: seq<Value>, isSet: seq<bool>, positional: seq<string>, x: nat)
    requires Registered(vars) && Fits(vars, values, isSet)
    requires x < Taken(vars, positional)
    ensures FindIndex(vars, x).Some?
    ensures var p := FindIndex(vars, x).value;
      var r := ArgumentScan(vars, values, positional, x);
      && Written(vars, values, positional, x)[p] == values[p]
      && Written(vars, values, positional, x)[p := r.val] == Written(vars, values, positional, x + 1)
      && Marked(vars, isSet, x)[p := true] == Marked(vars, isSet, x + 1)
  {
    PositionInUse(vars, x);
    var p := FindIndex(vars, x).value;
    IndexOwner(vars, x);
    WrittenStep(vars, values, positional, x, p);
    MarkedStep(vars, isSet, x, p);
  }

  /** Only the binding FindIndex finds has a given position. */
  lemma IndexOwner(vars: seq<Var>, x: nat)
    requires UniqueIndices(vars) && FindIndex(vars, x).Some?
    ensures forall q :: 0 <= q < |vars| && vars[q].index == Some(x) ==> q == FindIndex(vars, x).value
  {
  }

  lemma WrittenStep(vars: seq<Var>, values: seq<Value>, positional: seq<string>, x: nat, p: nat)
    requires Kinded(vars) && |values| == |vars| && x < |positional|
    requires forall q :: 0 <= q < |vars| ==> Typed(values[q], vars[q].kind)
    requires p < |vars| && vars[p].index == Some(x)
    requires forall q :: 0 <= q < |vars| && vars[q].index == Some(x) ==> q == p
    ensures var w := Written(vars, values, positional, x);
      w[p] == values[p]
      && w[p := Scan(vars[p].kind, values[p], [positional[x]]).val] == Written(vars, values, positional, x + 1)
  {
    var w := Written(vars, values, positional, x);
    var w' := Written(vars, values, positional, x + 1);
    var v := w[p := Scan(vars[p].kind, values[p], [positional[x]]).val];
    forall q | 0 <= q < |vars|
      ensures v[q] == w'[q]
    {
      if q != p {
        assert vars[q].index != Some(x);
      }
    }
  }

  lemma MarkedStep(vars: seq<Var>, isSet: seq<bool>, x: nat, p: nat)
    requires |isSet| == |vars| && p < |vars| && vars[p].index == Some(x)
    requires forall q :: 0 <= q < |vars| && vars[q].index == Some(x) ==> q == p
    ensures Marked(vars, isSet, x)[p := true] == Marked(vars, isSet, x + 1)
  {
    var m := Marked(vars, isSet, x)[p := true];
    var m' := Marked(vars, isSet, x + 1);
    forall q | 0 <= q < |vars|
      ensures m[q] == m'[q]
    {
      if q != p {
        assert vars[q].index != Some(x);
      }
    }
  }

  /** An accepted argument moves the positional phase on to the next position. */
  lemma FillMove(vars: seq<Var>, values: seq<Value>, isSet: seq<bool>, positional: seq<string>, x: nat, next: nat)
    requires Registered(vars) && Fits(vars, values, isSet)
    requires x < Taken(vars, positional) && next == x + 1
    requires FindIndex(vars, x).Some? && ArgumentScan(vars, values, positional, x).Done?
    ensures Fill(vars, Written(vars, values, positional, x), Marked(vars, isSet, x), positional, x)
      == Fill(vars, Written(vars, values, positional, next), Marked(vars, isSet, next), positional, next)
  {
    FillStep(vars, values, isSet, positional, x);
  }

  /** When every argument the bindings take scans, the positional phase writes each of them
      into the binding of its position and then finishes with that many arguments filled. */
  lemma {:induction false} FillAccepted(vars: seq<Var>, values: seq<Value>, isSet: seq<bool>, positional: seq<string>,
                                        x: nat)
    requires Registered(vars) && Fits(vars, values, isSet)
    requires x <= Taken(vars, positional)
    requires AcceptedBetween(vars, values, positional, x, Taken(vars, positional))
    ensures var k := Taken(vars, positional);
      Fill(vars, Written(vars, values, positional, x), Marked(vars, isSet, x), positional, x)
        == Finish(vars, Written(vars, values, positional, k), Marked(vars, isSet, k), positional, k)
    decreases Taken(vars, positional) - x
  {
    var k := Taken(vars, positional);
    if x == k {
      FillDone(vars, Written(vars, values, positional, x), Marked(vars, isSet, x), positional);
    } else {
      var next := x + 1;
      AcceptedFirst(vars, values, positional, x, next, k);
      FillAccepted(vars, values, isSet, positional, next);
      FillMove(vars, values, isSet, positional, x, next);
    }
  }

  /** Once the arguments or the positions run out, the positional phase finishes. */
  lemma FillDone(vars: seq<Var>, values: seq<Value>, isSet: seq<bool>, positional: seq<string>)
    requires Registered(vars) && Fits(vars, values, isSet)
    ensures var k := Taken(vars, positional);
      Fill(vars, values, isSet, positional, k) == Finish(vars, values, isSet, positional, k)
  {
    var k := Taken(vars, positional);
    if k < |positional| {
      assert FindIndex(vars, k).None?;
    }
  }

  /** What parse reports when the argument at position `y` does not scan: its position and
      the error, with the arguments before it written and the failed scan's value stored. */
  ghost function RefusedAt(vars: seq<Var>, values: seq<Value>, isSet: seq<bool>, positional: seq<string>, y: nat)
    : (r: Outcome)
    requires Registered(vars) && Fits(vars, values, isSet)
    requires y < Taken(vars, positional)
    requires FindIndex(vars, y).Some? && ArgumentScan(vars, values, positional, y).Failed?
    ensures r.Refused?
  {
    var p := FindIndex(vars, y).value;
    var r := ArgumentScan(vars, values, positional, y);
    Refused(Written(vars, values, positional, y)[p := r.val], Marked(vars, isSet, y), ArgumentFailed(y, r.err))
  }

  /** The first argument that does not scan stops the positional phase: parse reports its
      position and the error, with the arguments before it already written. */
  lemma {:induction false} FillRefused(vars: seq<Var>, values: seq<Value>, isSet: seq<bool>, positional: seq<string>,
                                       x: nat, y: nat)
    requires Registered(vars) && Fits(vars, values, isSet)
    requires x <= y < Taken(vars, positional)
    requires AcceptedBetween(vars, values, positional, x, y)
    requires FindIndex(vars, y).Some? && ArgumentScan(vars, values, positional, y).Failed?
    ensures Fill(vars, Written(vars, values, positional, x), Marked(vars, isSet, x), positional, x)
        == RefusedAt(vars, values, isSet, positional, y)
    decreases y - x
  {
    if x == y {
      FillRefusedAt(vars, values, isSet, positional, x);
    } else {
      var next := x + 1;
      Before(x, y);
      AcceptedFirst(vars, values, positional, x, next, y);
      FillRefused(vars, values, isSet, positional, next, y);
      FillMove(vars, values, isSet, positional, x, next);
    }
  }

  lemma FillRefusedAt(vars: seq<Var>, values: seq<Value>, isSet: seq<bool>, positional: seq<string>, y: nat)
    requires Registered(vars) && Fits(vars, values, isSet)
    requires y < Taken(vars, positional)
    requires FindIndex(vars, y).Some? && ArgumentScan(vars, values, positional, y).Failed?
    ensures Fill(vars, Written(vars, values, positional, y), Marked(vars, isSet, y), positional, y)
        == RefusedAt(vars, values, isSet, positional, y)
  {
    FillStep(vars, values, isSet, positional, y);
  }

  /** Nothing is written before the first argument. */
  lemma NoneWritten(vars: seq<Var>, values: seq<Value>, isSet: seq<bool>, positional: seq<string>)
    requires Fits(vars, values, isSet) && Kinded(vars)
    ensures Written(vars, values, positional, 0) == values && Marked(vars, isSet, 0) == isSet
  {
  }

  /** Positionals fill positions 0, 1, 2, ... in order: with every scan accepted, parse ends
      as Finish does once `Taken` arguments are written. */
  lemma FillInOrder(vars: seq<Var>, values: seq<Value>, isSet: seq<bool>, positional: seq<string>)
    requires Registered(vars) && Fits(vars, values, isSet)
    requires AcceptedBetween(vars, values, positional, 0, Taken(vars, positional))
    ensures var k := Taken(vars, positional);
      Fill(vars, values, isSet, positional, 0)
        == Finish(vars, Written(vars, values, positional, k), Marked(vars, isSet, k), positional, k)
  {
    NoneWritten(vars, values, isSet, positional);
    FillAccepted(vars, values, isSet, positional, 0);
  }

  /** With no tokens at all, parse applies the defaults and goes straight to the check for
      missing arguments and the rest binding. */
  lemma NoArguments(vars: seq<Var>, values: seq<Value>, isSet: seq<bool>)
    requires Sound(vars) && Fits(vars, values, isSet)
    ensures ParseNode(vars, values, isSet, []) == Finish(vars, Defaults(vars, values), isSet, [], 0)
  {
  }
}
