/**
 * What ScanVar writes into a map: a literal `{k1:v1 k2:v2 ...}` adds its entries to the map
 * the destination already holds, one after the other, so a later entry for a key replaces an
 * earlier one; a bare key followed by a value without its colon, and an entry value whose
 * bracket group closes inside a token, are refused.
 */
module MapFacts {
  import opened Wrappers
  import opened Text
  import opened Kinds
  import opened Tokens
  import opened Scanning
  import opened ScanFacts

  /** The token `key:value` of one entry. */
  function Entry(key: string, v: string): string
  {
    key + ":" + v
  }

  function EntryTokens(ks: seq<string>, vs: seq<string>): (r: seq<string>)
    requires |ks| == |vs|
    ensures |r| == |ks| && forall x :: 0 <= x < |ks| ==> r[x] == Entry(ks[x], vs[x])
  {
    seq(|ks|, x requires 0 <= x < |ks| => Entry(ks[x], vs[x]))
  }

  /** Entries written as `key:value` tokens without brackets and without a colon in the key,
      each key and value scanning as a fresh variable of its kind. */
  predicate PlainEntries(k: Kind, ks: seq<string>, vs: seq<string>)
    requires k.MapKind? && ValidSubType(k)
  {
    |ks| == |vs|
    && forall x :: 0 <= x < |ks| ==>
         ':' !in ks[x] && BracketFree(ks[x]) && BracketFree(vs[x])
         && Fresh(k.key, [ks[x]]).Ok? && Fresh(k.elem, [vs[x]]).Ok?
  }

  /** The keys and the values such entries scan to. */
  function KeysOf(k: Kind, ks: seq<string>, vs: seq<string>): (r: seq<Value>)
    requires k.MapKind? && ValidSubType(k) && PlainEntries(k, ks, vs)
    ensures |r| == |ks| && forall x :: 0 <= x < |ks| ==> r[x] == Fresh(k.key, [ks[x]]).value
  {
    seq(|ks|, x requires 0 <= x < |ks| && PlainEntries(k, ks, vs) => Fresh(k.key, [ks[x]]).value)
  }

  function ValsOf(k: Kind, ks: seq<string>, vs: seq<string>): (r: seq<Value>)
    requires k.MapKind? && ValidSubType(k) && PlainEntries(k, ks, vs)
    ensures |r| == |vs| && forall x :: 0 <= x < |vs| ==> r[x] == Fresh(k.elem, [vs[x]]).value
  {
    seq(|vs|, x requires 0 <= x < |vs| && PlainEntries(k, ks, vs) => Fresh(k.elem, [vs[x]]).value)
  }

  /** The map `m` with the pairs of `keys` and `vals` written into it in order. */
  function Put(m: map<Value, Value>, keys: seq<Value>, vals: seq<Value>): map<Value, Value>
    requires |keys| == |vals|
    decreases |keys|
  {
    if |keys| == 0 then m else Put(m[keys[0] := vals[0]], keys[1..], vals[1..])
  }

  /** Writing pairs in order: the keys are those of `m` and of the pairs, a key of the pairs
      holds the value of its LAST pair, and every other key keeps its value. */
  lemma {:induction false} PutAt(m: map<Value, Value>, keys: seq<Value>, vals: seq<Value>, key: Value)
    requires |keys| == |vals|
    ensures key in Put(m, keys, vals) <==> key in m || key in keys
    ensures forall x :: 0 <= x < |keys| && keys[x] == key && key !in keys[x + 1..] ==>
      Put(m, keys, vals)[key] == vals[x]
    ensures key in m && key !in keys ==> Put(m, keys, vals)[key] == m[key]
    decreases |keys|
  {
    if |keys| > 0 {
      PutAt(m[keys[0] := vals[0]], keys[1..], vals[1..], key);
      forall x | 0 <= x < |keys| && keys[x] == key && key !in keys[x + 1..]
        ensures Put(m, keys, vals)[key] == vals[x]
      {
        if x > 0 {
          assert keys[1..][x - 1] == key && keys[1..][x - 1 + 1..] == keys[x + 1..];
        } else {
          assert forall y :: 0 <= y < |keys[1..]| ==> keys[1..][y] == keys[x + 1..][y];
        }
      }
      assert key in keys <==> key == keys[0] || key in keys[1..];
    }
  }

  /** The token of an entry: it starts without a bracket and its first colon ends the key. */
  lemma EntryToken(a: string, v: string)
    requires ':' !in a && BracketFree(a)
    ensures var t := Entry(a, v);
      |t| > 0 && !IsOpen(t[0]) && IndexOf(t, ':') == Some(|a|) && t[..|a|] == a && t[|a| + 1..] == v
  {
    var t := Entry(a, v);
    if |a| > 0 { assert t[0] == a[0]; } else { assert t[0] == ':'; }
    assert t[|a|] == ':' && forall x :: 0 <= x < |a| ==> t[x] == a[x];
  }

  /** One entry `key:value` read: the key and value it scans to are written and the entries
      after it follow. */
  lemma EntryStep(k: Kind, ks: seq<string>, vs: seq<string>, more: seq<string>, m: map<Value, Value>)
    requires k.MapKind? && ValidSubType(k) && Typed(MapVal(m), k)
    requires PlainEntries(k, ks, vs) && |ks| > 0
    ensures var s := EntryTokens(ks, vs) + more;
      var key := Fresh(k.key, [ks[0]]).value;
      var v := Fresh(k.elem, [vs[0]]).value;
      && Typed(MapVal(m[key := v]), k)
      && Entries(k, s, m) == Entries(k, EntryTokens(ks[1..], vs[1..]) + more, m[key := v])
  {
    var s := EntryTokens(ks, vs) + more;
    var t := EntryTokens(ks[1..], vs[1..]) + more;
    EntryKey(ks, vs, more);
    assert |vs[0]| > 0 ==> !IsOpen(vs[0][0]);
    assert NextValue([vs[0]] + t) == Piece([vs[0]], t);
  }

  /** The key of the first entry, and the tokens after its colon. */
  lemma EntryKey(ks: seq<string>, vs: seq<string>, more: seq<string>)
    requires |ks| == |vs| > 0 && ':' !in ks[0] && BracketFree(ks[0])
    ensures NextKey(EntryTokens(ks, vs) + more)
         == KeyAt([ks[0]], [vs[0]] + (EntryTokens(ks[1..], vs[1..]) + more))
  {
    var s := EntryTokens(ks, vs) + more;
    EntryToken(ks[0], vs[0]);
    assert s[0] == Entry(ks[0], vs[0]);
    assert s[1..] == EntryTokens(ks[1..], vs[1..]) + more;
  }

  /** Entries `key:value` followed by any tokens: the entries are written in order and the
      reading goes on with those tokens. */
  lemma {:induction false} EntriesPlain(k: Kind, ks: seq<string>, vs: seq<string>, more: seq<string>,
                                        m: map<Value, Value>)
    requires k.MapKind? && ValidSubType(k) && Typed(MapVal(m), k)
    requires PlainEntries(k, ks, vs)
    ensures Typed(MapVal(Put(m, KeysOf(k, ks, vs), ValsOf(k, ks, vs))), k)
    ensures Entries(k, EntryTokens(ks, vs) + more, m)
         == Entries(k, more, Put(m, KeysOf(k, ks, vs), ValsOf(k, ks, vs)))
    decreases |ks|
  {
    if |ks| == 0 {
      assert EntryTokens(ks, vs) + more == more;
    } else {
      var key := Fresh(k.key, [ks[0]]).value;
      var v := Fresh(k.elem, [vs[0]]).value;
      EntryStep(k, ks, vs, more, m);
      PlainTail(k, ks, vs);
      EntriesPlain(k, ks[1..], vs[1..], more, m[key := v]);
    }
  }

  /** The entries after the first are plain too, and writing all of them is writing the first,
      then the others. */
  lemma PlainTail(k: Kind, ks: seq<string>, vs: seq<string>)
    requires k.MapKind? && ValidSubType(k) && PlainEntries(k, ks, vs) && |ks| > 0
    ensures PlainEntries(k, ks[1..], vs[1..])
    ensures forall m: map<Value, Value> {:trigger Put(m, KeysOf(k, ks, vs), ValsOf(k, ks, vs))} ::
      Put(m, KeysOf(k, ks, vs), ValsOf(k, ks, vs))
      == Put(m[Fresh(k.key, [ks[0]]).value := Fresh(k.elem, [vs[0]]).value],
             KeysOf(k, ks[1..], vs[1..]), ValsOf(k, ks[1..], vs[1..]))
  {
    assert KeysOf(k, ks[1..], vs[1..]) == KeysOf(k, ks, vs)[1..];
    assert ValsOf(k, ks[1..], vs[1..]) == ValsOf(k, ks, vs)[1..];
  }

  /** The entry tokens of a literal hold no bracket. */
  lemma EntriesFree(ks: seq<string>, vs: seq<string>)
    requires |ks| == |vs| && forall x :: 0 <= x < |ks| ==> BracketFree(ks[x]) && BracketFree(vs[x])
    ensures forall x :: 0 <= x < |ks| ==> EntryTokens(ks, vs)[x] != [] && BracketFree(EntryTokens(ks, vs)[x])
  {
    forall x | 0 <= x < |ks|
      ensures BracketFree(EntryTokens(ks, vs)[x])
    {
      var t := EntryTokens(ks, vs)[x];
      forall y | 0 <= y < |t|
        ensures !IsOpen(t[y]) && !IsClose(t[y])
      {
        if y < |ks[x]| { assert t[y] == ks[x][y]; }
        else if y > |ks[x]| { assert t[y] == vs[x][y - |ks[x]| - 1]; }
      }
    }
  }

  /** A brace group closing at a token boundary: the entries it holds are read into the map,
      and the group is consumed unless an entry is refused. */
  lemma MapBraces(k: Kind, m: map<Value, Value>, g: seq<string>, rest: seq<string>,
                  p: map<Value, Value>, e: Option<ScanError>)
    requires k.MapKind? && ValidSubType(k) && Typed(MapVal(m), k)
    requires |g| > 0 && |g[0]| > 0 && g[0][0] == '{' && Bracketed(g + rest) == Matched(g, rest, false)
    requires Entries(k, Strip(g), m) == (p, e)
    ensures Scan(k, MapVal(m), g + rest) == if e.Some? then Failed(MapVal(p), e.value) else Done(MapVal(p), |g|)
  {
    assert (g + rest)[0] == g[0];
  }

  /** A brace group of tokens without brackets: the entries it holds are read into the map,
      and the group is consumed unless an entry is refused. */
  lemma MapGroup(k: Kind, m: map<Value, Value>, inner: seq<string>, rest: seq<string>,
                 p: map<Value, Value>, e: Option<ScanError>)
    requires k.MapKind? && ValidSubType(k) && Typed(MapVal(m), k)
    requires forall x :: 0 <= x < |inner| ==> inner[x] != [] && BracketFree(inner[x])
    requires Entries(k, inner, m) == (p, e)
    ensures Scan(k, MapVal(m), Enclose('{', inner) + rest)
         == if e.Some? then Failed(MapVal(p), e.value) else Done(MapVal(p), |Enclose('{', inner)|)
  {
    EncloseGroup('{', inner, rest);
    var s := Enclose('{', inner) + rest;
    assert s[0] == Enclose('{', inner)[0];
  }

  /** A map literal `{k1:v1 ...}` of plain entries is accepted, consuming its tokens, and adds
      its entries in order to the map the destination holds: a key written twice holds its
      later value, and an entry with nothing after its colon holds what the empty text scans
      to. */
  lemma MapLiteral(k: Kind, m: map<Value, Value>, ks: seq<string>, vs: seq<string>, rest: seq<string>)
    requires k.MapKind? && ValidSubType(k) && Typed(MapVal(m), k)
    requires PlainEntries(k, ks, vs)
    ensures Scan(k, MapVal(m), Enclose('{', EntryTokens(ks, vs)) + rest)
         == Done(MapVal(Put(m, KeysOf(k, ks, vs), ValsOf(k, ks, vs))), |Enclose('{', EntryTokens(ks, vs))|)
  {
    EntriesFree(ks, vs);
    EntriesPlain(k, ks, vs, [], m);
    assert EntryTokens(ks, vs) + [] == EntryTokens(ks, vs);
    MapGroup(k, m, EntryTokens(ks, vs), rest, Put(m, KeysOf(k, ks, vs), ValsOf(k, ks, vs)), None);
  }

  lemma PutTwice(m: map<Value, Value>, key: Value, x: Value, y: Value)
    ensures Put(m, [key, key], [x, y]) == m[key := y]
  {
    var m1 := m[key := x];
    assert [key, key][1..] == [key] && [x, y][1..] == [y];
    assert Put(m, [key, key], [x, y]) == Put(m1, [key], [y]);
    assert Put(m1, [key], [y]) == Put(m1[key := y], [], []);
    assert m1[key := y] == m[key := y];
  }

  /** Two entries for the same key of a map[string]string: the later value wins. */
  lemma MapLaterWins(m: map<Value, Value>, a: string, x: string, y: string, rest: seq<string>)
    requires Typed(MapVal(m), MapKind(StringKind, StringKind))
    requires ':' !in a && BracketFree(a) && BracketFree(x) && BracketFree(y)
    ensures Scan(MapKind(StringKind, StringKind), MapVal(m), Enclose('{', [Entry(a, x), Entry(a, y)]) + rest)
         == Done(MapVal(m[StrVal(a) := StrVal(y)]), 2)
  {
    var k := MapKind(StringKind, StringKind);
    var ks, vs := [a, a], [x, y];
    FreshString(a);
    FreshString(x);
    FreshString(y);
    assert PlainEntries(k, ks, vs);
    assert EntryTokens(ks, vs) == [Entry(a, x), Entry(a, y)];
    MapLiteral(k, m, ks, vs, rest);
    var keys, vals := KeysOf(k, ks, vs), ValsOf(k, ks, vs);
    assert keys == [StrVal(a), StrVal(a)] && vals == [StrVal(x), StrVal(y)];
    PutTwice(m, StrVal(a), StrVal(x), StrVal(y));
  }

  lemma FreeAfter(es: seq<string>, a: string, ts: seq<string>)
    requires forall x :: 0 <= x < |es| ==> es[x] != [] && BracketFree(es[x])
    requires a != [] && BracketFree(a)
    requires forall x :: 0 <= x < |ts| ==> ts[x] != [] && BracketFree(ts[x])
    ensures forall x :: 0 <= x < |es + [a] + ts| ==> (es + [a] + ts)[x] != [] && BracketFree((es + [a] + ts)[x])
  {
    forall x | 0 <= x < |es + [a] + ts|
      ensures (es + [a] + ts)[x] != [] && BracketFree((es + [a] + ts)[x])
    {
      if x > |es| { assert (es + [a] + ts)[x] == ts[x - |es| - 1]; }
    }
  }

  lemma BadKeyStops(k: Kind, p: map<Value, Value>, a: string, ts: seq<string>)
    requires k.MapKind? && ValidSubType(k) && Typed(MapVal(p), k)
    requires a != [] && !IsOpen(a[0]) && ':' !in a
    requires |ts| > 0 && ts[0] != [] && ts[0][0] != ':'
    ensures Entries(k, [a] + ts, p) == (p, Some(MissingColon(a)))
  {
    assert ([a] + ts)[1..] == ts && DropEmpty(ts) == ts;
    assert NextKey([a] + ts) == BadKey(MissingColon(a));
  }

  lemma BareKeyEnds(k: Kind, p: map<Value, Value>, a: string)
    requires k.MapKind? && ValidSubType(k) && Typed(MapVal(p), k)
    requires a != [] && !IsOpen(a[0]) && ':' !in a
    ensures Entries(k, [a], p) == (p, None)
  {
    assert [a][1..] == [] && DropEmpty([]) == [];
    assert NextKey([a]) == NoKey;
  }

  /** A bare key followed by a token that does not start with a colon is refused, naming the
      key; the entries before it stay written. */
  lemma MapMissingColon(k: Kind, m: map<Value, Value>, ks: seq<string>, vs: seq<string>, a: string,
                        ts: seq<string>, rest: seq<string>)
    requires k.MapKind? && ValidSubType(k) && Typed(MapVal(m), k)
    requires PlainEntries(k, ks, vs)
    requires a != [] && BracketFree(a) && ':' !in a
    requires forall x :: 0 <= x < |ts| ==> ts[x] != [] && BracketFree(ts[x])
    requires |ts| > 0 && ts[0][0] != ':'
    ensures Scan(k, MapVal(m), Enclose('{', EntryTokens(ks, vs) + [a] + ts) + rest)
         == Failed(MapVal(Put(m, KeysOf(k, ks, vs), ValsOf(k, ks, vs))), MissingColon(a))
  {
    var inner := EntryTokens(ks, vs) + [a] + ts;
    var more := [a] + ts;
    EntriesFree(ks, vs);
    FreeAfter(EntryTokens(ks, vs), a, ts);
    assert inner == EntryTokens(ks, vs) + more;
    EntriesPlain(k, ks, vs, more, m);
    var p := Put(m, KeysOf(k, ks, vs), ValsOf(k, ks, vs));
    BadKeyStops(k, p, a, ts);
    MapGroup(k, m, inner, rest, p, Some(MissingColon(a)));
  }

  /** A last bare key without a colon ends the literal: it is dropped, and the literal is
      accepted with the entries before it. */
  lemma MapBareKeyDropped(k: Kind, m: map<Value, Value>, ks: seq<string>, vs: seq<string>, a: string,
                          rest: seq<string>)
    requires k.MapKind? && ValidSubType(k) && Typed(MapVal(m), k)
    requires PlainEntries(k, ks, vs)
    requires a != [] && BracketFree(a) && ':' !in a
    ensures Scan(k, MapVal(m), Enclose('{', EntryTokens(ks, vs) + [a]) + rest)
         == Done(MapVal(Put(m, KeysOf(k, ks, vs), ValsOf(k, ks, vs))), |ks| + 1)
  {
    var inner := EntryTokens(ks, vs) + [a];
    EntriesFree(ks, vs);
    FreeAfter(EntryTokens(ks, vs), a, []);
    assert inner == EntryTokens(ks, vs) + [a] + [];
    EntriesPlain(k, ks, vs, [a], m);
    var p := Put(m, KeysOf(k, ks, vs), ValsOf(k, ks, vs));
    BareKeyEnds(k, p, a);
    MapGroup(k, m, inner, rest, p, None);
  }

  /** The outer group of `{a:[x]y}` ends with its token, and holds the entry token. */
  lemma NestedGroup(a: string, x: string, y: string, rest: seq<string>)
    requires BracketFree(a) && ':' !in a && BracketFree(x) && BracketFree(y)
    ensures var g := Enclose('{', [Entry(a, "[" + x + "]" + y)]);
      Bracketed(g + rest) == Matched(g, rest, false) && Strip(g) == [Entry(a, "[" + x + "]" + y)]
  {
    var inner := Entry(a, "[" + x + "]" + y);
    var g := Enclose('{', [inner]);
    var s := g + rest;
    NestedClose(s, a, x, y);
    assert s[..1] == g && s[1..] == rest;
    StripEnclose('{', [inner]);
  }

  /** The search for the end of `{a:[x]y}`: the inner group opens and closes, and the brace
      closes the token. */
  lemma NestedClose(s: seq<string>, a: string, x: string, y: string)
    requires BracketFree(a) && BracketFree(x) && BracketFree(y)
    requires |s| > 0 && s[0] == "{" + a + ":[" + x + "]" + y + "}"
    ensures CloseFrom(s, 0, 0, []) == Some((0, |s[0]| - 1))
  {
    var w := s[0];
    var q := |a| + 3 + |x|;
    OpenFirst(s);
    assert forall z :: 1 <= z < |a| + 2 ==> w[z] == (a + ":")[z - 1];
    SkipFree(s, 0, 1, |a| + 2, ['}']);
    assert w[|a| + 2] == '[';
    OpenStep(s, 0, |a| + 2, ['}']);
    assert ['}'] + [Closer('[')] == ['}', ']'];
    assert forall z :: |a| + 3 <= z < q ==> w[z] == x[z - |a| - 3];
    SkipFree(s, 0, |a| + 3, q, ['}', ']']);
    assert w[q] == ']';
    CloseStep(s, 0, q, ['}', ']']);
    assert ['}', ']'][..1] == ['}'];
    assert w[q + 1..] == y + ['}'];
    CloseAfter(s, 0, q + 1, y, '}');
  }

  /** An entry value `[x]y` whose group closes inside its token. */
  lemma SplitValue(x: string, y: string)
    requires BracketFree(x) && y != []
    ensures NextValue(["[" + x + "]" + y]) == BadPiece
  {
    var v := "[" + x + "]" + y;
    var s := [v];
    OpenFirst(s);
    assert forall z :: 1 <= z < |x| + 1 ==> v[z] == x[z - 1];
    SkipFree(s, 0, 1, |x| + 1, [']']);
    assert v[|x| + 1] == ']';
    CloseHere(s, 0, |x| + 1, ']');
  }

  /** An entry value whose bracket group closes inside its token, as in `{a:[x]y}`, is refused
      naming the entry's key, and the map is left as it was. */
  lemma MapValueSplit(k: Kind, m: map<Value, Value>, a: string, x: string, y: string, rest: seq<string>)
    requires k.MapKind? && ValidSubType(k) && Typed(MapVal(m), k)
    requires ':' !in a && BracketFree(a) && BracketFree(x) && BracketFree(y) && y != []
    requires Fresh(k.key, [a]).Ok?
    ensures Scan(k, MapVal(m), Enclose('{', [Entry(a, "[" + x + "]" + y)]) + rest)
         == Failed(MapVal(m), InvalidEntry(a))
  {
    var v := "[" + x + "]" + y;
    NestedGroup(a, x, y, rest);
    ValueSplitEntries(k, m, a, x, y);
    MapBraces(k, m, Enclose('{', [Entry(a, v)]), rest, m, Some(InvalidEntry(a)));
  }

  lemma ValueSplitEntries(k: Kind, m: map<Value, Value>, a: string, x: string, y: string)
    requires k.MapKind? && ValidSubType(k) && Typed(MapVal(m), k)
    requires ':' !in a && BracketFree(a) && BracketFree(x) && y != []
    requires Fresh(k.key, [a]).Ok?
    ensures Entries(k, [Entry(a, "[" + x + "]" + y)], m) == (m, Some(InvalidEntry(a)))
  {
    var v := "[" + x + "]" + y;
    EntryKey([a], [v], []);
    assert EntryTokens([a], [v]) + [] == [Entry(a, v)];
    assert EntryTokens([a][1..], [v][1..]) + [] == [];
    assert NextKey([Entry(a, v)]) == KeyAt([a], [v]);
    SplitValue(x, y);
    assert Join([a], " ") == a;
  }
}
