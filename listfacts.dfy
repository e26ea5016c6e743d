/**
 * What ScanVar writes into an array or a slice: a bracket list `[a b c]` holds one element per
 * token, each scanned from its token, and an array refuses a list of the wrong length; the
 * comma form `a,b c,d` reads the text of its tokens split at the commas, provided every two
 * neighbouring tokens are joined by a comma on one side or the other.
 */
module ListFacts {
  import opened Wrappers
  import opened Text
  import opened Kinds
  import opened Tokens
  import opened Scanning
  import opened ScanFacts

  /** The element tokens of a bracket list: non-empty, without brackets, each one a valid
      element. */
  predicate PlainElems(e: Kind, ts: seq<string>)
    requires ValidSubType(e)
  {
    forall x :: 0 <= x < |ts| ==> ts[x] != [] && BracketFree(ts[x]) && Fresh(e, [ts[x]]).Ok?
  }

  /** The element each token scans to. */
  function ElemValues(e: Kind, ts: seq<string>): (r: seq<Value>)
    requires ValidSubType(e) && PlainElems(e, ts)
    ensures |r| == |ts| && forall x :: 0 <= x < |r| ==> Typed(r[x], e)
  {
    seq(|ts|, x requires 0 <= x < |ts| => Fresh(e, [ts[x]]).value)
  }

  /** The next element of a bracket list is its next token. */
  lemma PlainStep(k: Kind, ts: seq<string>, acc: seq<Value>)
    requires (k.ArrayKind? || k.SliceKind?) && ValidSubType(k)
    requires forall i :: 0 <= i < |acc| ==> Typed(acc[i], k.elem)
    requires |ts| > 0 && ts[0] != [] && BracketFree(ts[0]) && Fresh(k.elem, [ts[0]]).Ok?
    ensures forall i :: 0 <= i < |acc| + 1 ==> Typed((acc + [Fresh(k.elem, [ts[0]]).value])[i], k.elem)
    ensures Elems(k, ts, false, acc) == Elems(k, ts[1..], false, acc + [Fresh(k.elem, [ts[0]]).value])
  {
    assert !IsOpen(ts[0][0]);
    assert NextElem(ts, false) == Piece([ts[0]], ts[1..]);
    ElemsOne(k, ts, false, acc, ts, [ts[0]], ts[1..], Fresh(k.elem, [ts[0]]).value);
  }

  /** The elements of a bracket list of plain tokens, after those in `acc`. */
  lemma {:induction false} ElemsPlain(k: Kind, ts: seq<string>, acc: seq<Value>)
    requires (k.ArrayKind? || k.SliceKind?) && ValidSubType(k)
    requires forall i :: 0 <= i < |acc| ==> Typed(acc[i], k.elem)
    requires PlainElems(k.elem, ts)
    ensures Elems(k, ts, false, acc) == Ok(acc + ElemValues(k.elem, ts))
    decreases |ts|
  {
    if |ts| == 0 {
      assert acc + ElemValues(k.elem, ts) == acc;
    } else {
      var v := Fresh(k.elem, [ts[0]]).value;
      PlainStep(k, ts, acc);
      PlainRest(k.elem, ts);
      ElemsPlain(k, ts[1..], acc + [v]);
      Regroup(acc, v, ElemValues(k.elem, ts[1..]));
    }
  }

  /** The tokens after the first are plain too, and their values follow the first one's. */
  lemma PlainRest(e: Kind, ts: seq<string>)
    requires ValidSubType(e) && PlainElems(e, ts) && |ts| > 0
    ensures PlainElems(e, ts[1..])
    ensures ElemValues(e, ts) == [Fresh(e, [ts[0]]).value] + ElemValues(e, ts[1..])
  {
    forall x | 0 <= x < |ts[1..]|
      ensures ts[1..][x] != [] && BracketFree(ts[1..][x]) && Fresh(e, [ts[1..][x]]).Ok?
    {
      assert ts[1..][x] == ts[x + 1];
    }
    var v, tail := Fresh(e, [ts[0]]).value, ElemValues(e, ts[1..]);
    forall x | 0 <= x < |ts|
      ensures ElemValues(e, ts)[x] == ([v] + tail)[x]
    {
      if x > 0 {
        assert ts[1..][x - 1] == ts[x];
      }
    }
  }

  /** The first element of a bracket list that does not scan stops it with its position. */
  lemma {:induction false} ElemsPlainFail(k: Kind, ts: seq<string>, acc: seq<Value>, x: nat)
    requires (k.ArrayKind? || k.SliceKind?) && ValidSubType(k)
    requires forall i :: 0 <= i < |acc| ==> Typed(acc[i], k.elem)
    requires x < |ts| && forall y :: 0 <= y < |ts| ==> ts[y] != [] && BracketFree(ts[y])
    requires forall y :: 0 <= y < x ==> Fresh(k.elem, [ts[y]]).Ok?
    requires Fresh(k.elem, [ts[x]]).Err?
    ensures Elems(k, ts, false, acc) == Err(AtIndex(|acc| + x, Fresh(k.elem, [ts[x]]).error))
    decreases x
  {
    if x == 0 {
      assert !IsOpen(ts[0][0]);
      assert NextElem(ts, false) == Piece([ts[0]], ts[1..]);
    } else {
      PlainStep(k, ts, acc);
      FailTail(k.elem, ts, x);
      ElemsPlainFail(k, ts[1..], acc + [Fresh(k.elem, [ts[0]]).value], x - 1);
    }
  }

  /** The tokens after the first keep the failing token, one place earlier. */
  lemma FailTail(e: Kind, ts: seq<string>, x: nat)
    requires ValidSubType(e)
    requires 0 < x < |ts| && forall y :: 0 <= y < |ts| ==> ts[y] != [] && BracketFree(ts[y])
    requires forall y :: 0 <= y < x ==> Fresh(e, [ts[y]]).Ok?
    ensures ts[1..][x - 1] == ts[x]
    ensures forall y :: 0 <= y < |ts[1..]| ==> ts[1..][y] != [] && BracketFree(ts[1..][y])
    ensures forall y :: 0 <= y < x - 1 ==> Fresh(e, [ts[1..][y]]).Ok?
  {
    forall y | 0 <= y < |ts[1..]|
      ensures ts[1..][y] != [] && BracketFree(ts[1..][y])
    {
      assert ts[1..][y] == ts[y + 1];
    }
    forall y | 0 <= y < x - 1
      ensures Fresh(e, [ts[1..][y]]).Ok?
    {
      assert ts[1..][y] == ts[y + 1];
    }
  }

  /** A bracket list of tokens without brackets is read element by element from its tokens,
      and consumes its group. */
  lemma BracketElems(k: Kind, dst: Value, ts: seq<string>, rest: seq<string>)
    requires (k.ArrayKind? || k.SliceKind?) && ValidSubType(k) && Typed(dst, k)
    requires forall x :: 0 <= x < |ts| ==> ts[x] != [] && BracketFree(ts[x])
    ensures Scan(k, dst, Enclose('[', ts) + rest)
         == ListOf(k, dst, Elems(k, ts, false, []), |Enclose('[', ts)|)
  {
    var g := Enclose('[', ts);
    EncloseGroup('[', ts, rest);
    assert (g + rest)[0] == g[0];
  }

  /** A bracket list `[t1 t2 ...]` of plain tokens: the elements are what the tokens scan to,
      in order, and the group's tokens are consumed; an array refuses a list that does not hold
      exactly its length, and keeps its value. */
  lemma BracketList(k: Kind, dst: Value, ts: seq<string>, rest: seq<string>)
    requires (k.ArrayKind? || k.SliceKind?) && ValidSubType(k) && Typed(dst, k)
    requires PlainElems(k.elem, ts)
    ensures k.SliceKind? || |ts| == k.len ==>
      Scan(k, dst, Enclose('[', ts) + rest) == Done(SeqVal(ElemValues(k.elem, ts)), |Enclose('[', ts)|)
    ensures k.ArrayKind? && |ts| != k.len ==>
      Scan(k, dst, Enclose('[', ts) + rest) == Failed(dst, WrongCount(k.len))
  {
    BracketElems(k, dst, ts, rest);
    ElemsPlain(k, ts, []);
    assert [] + ElemValues(k.elem, ts) == ElemValues(k.elem, ts);
  }

  /** A bracket list whose element `x` is the first not to scan is refused with that
      element's position and error, and the destination keeps its value. */
  lemma BracketBadElement(k: Kind, dst: Value, ts: seq<string>, rest: seq<string>, x: nat)
    requires (k.ArrayKind? || k.SliceKind?) && ValidSubType(k) && Typed(dst, k)
    requires x < |ts| && forall y :: 0 <= y < |ts| ==> ts[y] != [] && BracketFree(ts[y])
    requires forall y :: 0 <= y < x ==> Fresh(k.elem, [ts[y]]).Ok?
    requires Fresh(k.elem, [ts[x]]).Err?
    ensures Scan(k, dst, Enclose('[', ts) + rest) == Failed(dst, AtIndex(x, Fresh(k.elem, [ts[x]]).error))
  {
    BracketElems(k, dst, ts, rest);
    ElemsPlainFail(k, ts, [], x);
  }

  /** A []string written `[a b c]` holds the tokens themselves. */
  lemma BracketStrings(dst: Value, ts: seq<string>, rest: seq<string>)
    requires Typed(dst, Strs)
    requires forall x :: 0 <= x < |ts| ==> ts[x] != [] && BracketFree(ts[x])
    ensures Scan(Strs, dst, Enclose('[', ts) + rest) == Done(StringsValue(ts), |Enclose('[', ts)|)
  {
    forall x | 0 <= x < |ts|
      ensures Fresh(StringKind, [ts[x]]) == Ok(StrVal(ts[x]))
    {
      FreshString(ts[x]);
    }
    BracketList(Strs, dst, ts, rest);
    assert ElemValues(StringKind, ts) == StringsValue(ts).items;
  }

  /** Tokens of the comma form that hold together: none is empty, and every two neighbours
      have a comma between them, at the end of the first or the start of the second. */
  predicate Chained(ts: seq<string>)
  {
    (forall x :: 0 <= x < |ts| ==> ts[x] != [])
    && forall x :: 0 <= x < |ts| - 1 ==> ts[x][|ts[x]| - 1] == ',' || ts[x + 1][0] == ','
  }

  /** Text whose pieces open no group does not start with an opening bracket. */
  lemma NoOpenStart(w: string)
    requires |w| > 0 && NoOpenPiece(w)
    ensures !IsOpen(w[0])
  {
    match IndexOf(w, ',')
    case None =>
      assert Split(w, ',')[0] == w;
    case Some(idx) =>
      SplitAt(w, idx);
      if idx > 0 {
        assert Split(w, ',')[0] == w[..idx];
      }
  }

  /** A token starting with a comma resumes the list after that comma. */
  lemma Resume(r: seq<string>)
    requires |r| > 0 && r[0] != [] && r[0][0] == ','
    ensures ElemStart(r, true, false) == Some(DropFirst(r))
  {
    var t := DropEmpty(r);
    assert t == r;
  }

  /** After the comma that starts them, the tokens hold the rest of the text and still hold
      together. */
  lemma DropComma(r: seq<string>)
    requires |r| > 0 && Chained(r) && r[0][0] == ','
    ensures ElemStart(r, true, false) == Some(DropFirst(r))
    ensures Concat(r) == [','] + Concat(DropFirst(r))
    ensures Chained(DropFirst(r))
  {
    Resume(r);
    DropCommaText(r);
    DropCommaChained(r);
  }

  lemma DropCommaText(r: seq<string>)
    requires |r| > 0 && r[0] != [] && r[0][0] == ','
    ensures Concat(r) == [','] + Concat(DropFirst(r))
  {
    if |r[0]| == 1 {
      assert r[0] == [','];
    } else {
      CommaFront(r[0], r[1..]);
      assert r == [r[0]] + r[1..];
    }
  }

  /** Moving a leading comma out of the first token keeps the text. */
  lemma CommaFront(h: string, rest: seq<string>)
    requires |h| > 1 && h[0] == ','
    ensures Concat([h] + rest) == [','] + Concat([h[1..]] + rest)
  {
    var tail := Concat(rest);
    assert ([h] + rest)[1..] == rest;
    assert ([h[1..]] + rest)[1..] == rest;
    assert h + tail == [','] + (h[1..] + tail) by {
      assert h == [','] + h[1..];
    }
  }

  lemma DropCommaChained(r: seq<string>)
    requires |r| > 0 && Chained(r) && r[0][0] == ','
    ensures Chained(DropFirst(r))
  {
    var s2 := DropFirst(r);
    if |r[0]| == 1 {
      forall x | 0 <= x < |s2| - 1
        ensures s2[x][|s2[x]| - 1] == ',' || s2[x + 1][0] == ','
      {
        assert s2[x] == r[x + 1] && s2[x + 1] == r[x + 2];
      }
    } else {
      forall x | 0 <= x < |s2| - 1
        ensures s2[x][|s2[x]| - 1] == ',' || s2[x + 1][0] == ','
      {
        assert s2[x + 1] == r[x + 1];
        if x > 0 {
          assert s2[x] == r[x];
        }
      }
    }
  }

  /** The piece before the first comma of a token ends an element; its comma starts the
      tokens read next. */
  lemma CutPiece(s1: seq<string>, idx: nat)
    requires |s1| > 0 && Chained(s1) && !IsOpen(s1[0][0]) && IndexOf(s1[0], ',') == Some(idx)
    ensures var r := [s1[0][idx..]] + s1[1..];
      NextElem(s1, true) == Piece([s1[0][..idx]], r)
      && Chained(r) && r[0][0] == ',' && Size(r) <= Size(s1)
  {
    var r := [s1[0][idx..]] + s1[1..];
    assert NextElem(s1, true) == Piece([s1[0][..idx]], r);
    CutChained(s1, idx);
  }

  /** The tokens from a comma inside the first token on still hold together. */
  lemma CutChained(s1: seq<string>, idx: nat)
    requires |s1| > 0 && Chained(s1) && idx < |s1[0]| && s1[0][idx] == ','
    ensures var r := [s1[0][idx..]] + s1[1..];
      Chained(r) && r[0][0] == ','
  {
    var r := [s1[0][idx..]] + s1[1..];
    forall x | 0 <= x < |r| - 1
      ensures r[x][|r[x]| - 1] == ',' || r[x + 1][0] == ','
    {
      assert r[x + 1] == s1[x + 1];
      if x > 0 {
        assert r[x] == s1[x];
      }
    }
  }

  /** Cutting the first token at its comma keeps the text of the tokens. */
  lemma CutText(s1: seq<string>, idx: nat)
    requires |s1| > 0 && idx <= |s1[0]|
    ensures Concat(s1) == s1[0][..idx] + Concat([s1[0][idx..]] + s1[1..])
  {
    var t, tail := s1[0], Concat(s1[1..]);
    var r := [t[idx..]] + s1[1..];
    assert r[1..] == s1[1..];
    var c1, cr := Concat(s1), Concat(r);
    assert c1 == t + tail;
    assert cr == t[idx..] + tail;
    assert t == t[..idx] + t[idx..];
    assert t + tail == t[..idx] + (t[idx..] + tail);
  }

  /** The elements of text with a first comma: the piece before it, then the pieces after. */
  lemma ItemsFirst(e: string, rest: string)
    requires ',' !in e
    ensures StringsValue(Split(e + [','] + rest, ',')).items
         == [StrVal(e)] + StringsValue(Split(rest, ',')).items
    ensures NoOpenPiece(e + [','] + rest) ==> NoOpenPiece(rest)
  {
    var w := e + [','] + rest;
    IndexOfAt(w, ',', |e|);
    assert w[..|e|] == e && w[|e| + 1..] == rest;
    FirstPiece(w, |e|);
  }

  /** A token without a comma is a whole element; the next token starts with the comma the
      two tokens are joined by. */
  lemma WholeToken(s1: seq<string>)
    requires |s1| > 0 && Chained(s1) && !IsOpen(s1[0][0]) && IndexOf(s1[0], ',') == None
    ensures NextElem(s1, true) == Piece([s1[0]], s1[1..])
    ensures Chained(s1[1..]) && Size(s1[1..]) <= Size(s1)
    ensures Concat(s1) == s1[0] + Concat(s1[1..])
    ensures |s1| > 1 ==> s1[1][0] == ','
  {
    assert s1[0][|s1[0]| - 1] in s1[0];
    forall x | 0 <= x < |s1| - 2
      ensures s1[1..][x][|s1[1..][x]| - 1] == ',' || s1[1..][x + 1][0] == ','
    {
      assert s1[1..][x] == s1[x + 1] && s1[1..][x + 1] == s1[x + 2];
    }
  }

  /** The comma form from the tokens `s1` where the next element starts: the elements are the
      pieces of their text between commas. */
  lemma {:induction false} Walk(s: seq<string>, s1: seq<string>, acc: seq<Value>)
    requires forall i :: 0 <= i < |acc| ==> Typed(acc[i], StringKind)
    requires ElemStart(s, true, |acc| == 0) == Some(s1)
    requires Chained(s1) && NoOpenPiece(Concat(s1))
    ensures Elems(Strs, s, true, acc) == Ok(acc + StringsValue(Split(Concat(s1), ',')).items)
    decreases Size(s1), 1
  {
    if s1 == [] {
      WalkEnd(s, acc);
    } else {
      var w := Concat(s1);
      assert w == s1[0] + Concat(s1[1..]);
      assert w[0] == s1[0][0];
      NoOpenStart(w);
      match IndexOf(s1[0], ',')
      case Some(idx) => WalkCut(s, s1, acc, idx);
      case None => WalkWhole(s, s1, acc);
    }
  }

  /** Nothing after the last comma: one more, empty, element. */
  lemma WalkEnd(s: seq<string>, acc: seq<Value>)
    requires forall i :: 0 <= i < |acc| ==> Typed(acc[i], StringKind)
    requires ElemStart(s, true, |acc| == 0) == Some([])
    ensures Elems(Strs, s, true, acc) == Ok(acc + StringsValue(Split(Concat([]), ',')).items)
  {
    FreshString("");
    ElemsOne(Strs, s, true, acc, [], [""], [], StrVal(""));
    ElemsDone(acc + [StrVal("")]);
    assert Split(Concat([]), ',') == [""];
    assert StringsValue([""]).items == [StrVal("")];
  }

  /** The next element ends at a comma inside its token. */
  lemma {:induction false} WalkCut(s: seq<string>, s1: seq<string>, acc: seq<Value>, idx: nat)
    requires forall i :: 0 <= i < |acc| ==> Typed(acc[i], StringKind)
    requires ElemStart(s, true, |acc| == 0) == Some(s1)
    requires Chained(s1) && NoOpenPiece(Concat(s1))
    requires |s1| > 0 && !IsOpen(s1[0][0]) && IndexOf(s1[0], ',') == Some(idx)
    ensures Elems(Strs, s, true, acc) == Ok(acc + StringsValue(Split(Concat(s1), ',')).items)
    decreases Size(s1), 0
  {
    var e := s1[0][..idx];
    var r := [s1[0][idx..]] + s1[1..];
    CutParts(s1, idx);
    var s2 := DropFirst(r);
    FreshString(e);
    ElemsOne(Strs, s, true, acc, s1, [e], r, StrVal(e));
    ItemsFirst(e, Concat(s2));
    Walk(r, s2, acc + [StrVal(e)]);
    Regroup(acc, StrVal(e), StringsValue(Split(Concat(s2), ',')).items);
  }

  /** Cutting the next element at the comma inside its token: the element, then the tokens
      after that comma, which hold the rest of the text and still hold together. */
  lemma CutParts(s1: seq<string>, idx: nat)
    requires |s1| > 0 && Chained(s1) && !IsOpen(s1[0][0]) && IndexOf(s1[0], ',') == Some(idx)
    ensures var e, r := s1[0][..idx], [s1[0][idx..]] + s1[1..];
      && NextElem(s1, true) == Piece([e], r) && Size(r) <= Size(s1)
      && |r| > 0 && r[0] != [] && ElemStart(r, true, false) == Some(DropFirst(r))
      && Chained(DropFirst(r)) && Size(DropFirst(r)) < Size(s1)
      && Concat(s1) == e + [','] + Concat(DropFirst(r))
  {
    var e, r := s1[0][..idx], [s1[0][idx..]] + s1[1..];
    CutPiece(s1, idx);
    DropComma(r);
    CutText(s1, idx);
    var w := Concat(DropFirst(r));
    assert e + ([','] + w) == e + [','] + w;
  }

  /** The next element is a whole token; the list goes on after the comma the next token
      starts with. */
  lemma {:induction false} WalkWhole(s: seq<string>, s1: seq<string>, acc: seq<Value>)
    requires forall i :: 0 <= i < |acc| ==> Typed(acc[i], StringKind)
    requires ElemStart(s, true, |acc| == 0) == Some(s1)
    requires Chained(s1) && NoOpenPiece(Concat(s1))
    requires |s1| > 0 && !IsOpen(s1[0][0]) && IndexOf(s1[0], ',') == None
    ensures Elems(Strs, s, true, acc) == Ok(acc + StringsValue(Split(Concat(s1), ',')).items)
    decreases Size(s1), 0
  {
    var e := s1[0];
    var r := s1[1..];
    WholeToken(s1);
    FreshString(e);
    ElemsOne(Strs, s, true, acc, s1, [e], r, StrVal(e));
    if r == [] {
      ElemsDone(acc + [StrVal(e)]);
      assert Concat(s1) == e;
      OnePiece(e);
    } else {
      DropComma(r);
      var s2 := DropFirst(r);
      assert Concat(s1) == e + [','] + Concat(s2);
      ItemsFirst(e, Concat(s2));
      Walk(r, s2, acc + [StrVal(e)]);
      Regroup(acc, StrVal(e), StringsValue(Split(Concat(s2), ',')).items);
    }
  }

  /** The comma form over several tokens: a []string scanned from tokens that hold together,
      such as `a,` `b` or `a` `,b`, is their joined text split at its commas, and every token
      is consumed. */
  lemma CommaTokens(dst: Value, ts: seq<string>)
    requires Typed(dst, Strs) && |ts| > 0 && Chained(ts) && NoOpenPiece(Concat(ts))
    ensures Scan(Strs, dst, ts) == Done(StringsValue(Split(Concat(ts), ',')), |ts|)
  {
    var w := Concat(ts);
    assert w == ts[0] + Concat(ts[1..]);
    assert w[0] == ts[0][0];
    NoOpenStart(w);
    Walk(ts, ts, []);
    assert [] + StringsValue(Split(w, ',')).items == StringsValue(Split(w, ',')).items;
  }
}
