/**
 * Properties of ScanVar: what a scalar takes from its token, how the comma form of a slice
 * splits its text, how many tokens the bracket and comma forms consume, and the arity checks
 * of arrays and structs.
 */
module ScanFacts {
  import opened Wrappers
  import opened Text
  import opened Literals
  import opened Kinds
  import opened Tokens
  import opened Scanning

  /** The kind []string. */
  const Strs: Kind := SliceKind(StringKind)

  /** A string destination takes its token as it is, whatever it holds, the empty text
      included, and consumes exactly that token. */
  lemma StringTakesToken(dst: Value, t: string, rest: seq<string>)
    requires dst.StrVal?
    ensures Scan(StringKind, dst, [t] + rest) == Done(StrVal(t), 1)
  {
  }

  /** A signed integer reads back the spelling Go prints for it, from one token; a narrower
      integer keeps the low bits of the number. */
  lemma IntRoundTrip(x: int, w: Width, rest: seq<string>)
    requires MinInt64 <= x <= MaxInt64
    ensures Scan(IntKind(w), IntVal(0), [FormatInt(x)] + rest) == Done(IntVal(WrapSigned(x, w)), 1)
    ensures Scan(IntKind(64), IntVal(0), [FormatInt(x)] + rest) == Done(IntVal(x), 1)
  {
    ParseFormatInt(x);
    Wide64(x);
  }

  /** Booleans and unsigned integers read back the spelling Go prints for them, over the whole
      unsigned 64-bit range; a narrower unsigned integer keeps the low bits. */
  lemma BoolUintRoundTrip(x: nat, b: bool, w: Width, rest: seq<string>)
    requires x <= MaxUint64
    ensures Scan(BoolKind, BoolVal(false), [FormatBool(b)] + rest) == Done(BoolVal(b), 1)
    ensures Scan(UintKind(w), UintVal(0), [FormatNat(x)] + rest) == Done(UintVal(WrapUnsigned(x, w)), 1)
    ensures Scan(UintKind(64), UintVal(0), [FormatNat(x)] + rest) == Done(UintVal(x), 1)
  {
    ParseFormatBool(b);
    ParseFormatUint(x);
    WrapUnsignedInRange(x, 64);
  }

  /** A bool destination takes a spelling of true or false and fails on anything else, keeping
      its value and naming the token. */
  lemma BoolScan(dst: Value, t: string, rest: seq<string>)
    requires dst.BoolVal?
    ensures Scan(BoolKind, dst, [t] + rest) == Done(BoolVal(true), 1) <==> t in TrueWords
    ensures Scan(BoolKind, dst, [t] + rest) == Done(BoolVal(false), 1) <==> t in FalseWords
    ensures Scan(BoolKind, dst, [t] + rest) == Failed(dst, InvalidBool(t))
        <==> t !in TrueWords && t !in FalseWords
  {
    assert ([t] + rest)[0] == t;
  }

  /** A signed destination takes a token exactly when strconv.ParseInt accepts it, and stores
      the number wrapped to its width; otherwise it keeps its value and names the token. */
  lemma IntScan(dst: Value, w: Width, t: string, rest: seq<string>)
    requires Typed(dst, IntKind(w))
    ensures Scan(IntKind(w), dst, [t] + rest).Done? <==> ParseInt(t).Some?
    ensures ParseInt(t).Some? ==>
      Scan(IntKind(w), dst, [t] + rest) == Done(IntVal(WrapSigned(ParseInt(t).value, w)), 1)
    ensures ParseInt(t).Some? && w == 64 ==>
      Scan(IntKind(w), dst, [t] + rest) == Done(IntVal(ParseInt(t).value), 1)
    ensures ParseInt(t).None? ==> Scan(IntKind(w), dst, [t] + rest) == Failed(dst, InvalidInt(t))
  {
    assert ([t] + rest)[0] == t;
    if ParseInt(t).Some? {
      Wide64(ParseInt(t).value);
    }
  }

  /** An unsigned destination takes a token exactly when it is one or more decimal digits
      denoting at most 2^64 - 1 (a sign is refused), and stores the number wrapped to its
      width; otherwise it keeps its value and names the token. */
  lemma UintScan(dst: Value, w: Width, t: string, rest: seq<string>)
    requires Typed(dst, UintKind(w))
    ensures Scan(UintKind(w), dst, [t] + rest).Done?
        <==> |t| > 0 && AllDigits(t) && Decimal(t) <= MaxUint64
    ensures |t| > 0 && AllDigits(t) && Decimal(t) <= MaxUint64 ==>
      Scan(UintKind(w), dst, [t] + rest) == Done(UintVal(WrapUnsigned(Decimal(t), w)), 1)
    ensures Scan(UintKind(w), dst, [t] + rest).Failed? ==>
      Scan(UintKind(w), dst, [t] + rest) == Failed(dst, InvalidUint(t))
  {
    assert ([t] + rest)[0] == t;
  }

  /** An unsigned destination refuses a negative number and keeps its value. */
  lemma UintRefusesNegative(w: Width, u: nat)
    requires u < Modulus(w)
    ensures Scan(UintKind(w), UintVal(u), ["-1"]) == Failed(UintVal(u), InvalidUint("-1"))
  {
    assert !IsDigit("-1"[0]);
    assert ParseUint("-1") == None;
  }

  /** An int8 destination given 300 stores 44: the number is read with 64 bits and only its
      low 8 bits are kept, with no error. */
  lemma NarrowIntWraps()
    ensures Scan(IntKind(8), IntVal(0), [FormatInt(300)]) == Done(IntVal(44), 1)
  {
    ParseFormatInt(300);
  }

  /** No piece of the text between commas starts with an opening bracket. */
  predicate NoOpenPiece(w: string)
  {
    forall i :: 0 <= i < |Split(w, ',')| ==> Split(w, ',')[i] == [] || !IsOpen(Split(w, ',')[i][0])
  }

  /** One comma of the text: the piece before it and the text after it. */
  lemma SplitAt(w: string, idx: nat)
    requires IndexOf(w, ',') == Some(idx)
    ensures Split(w, ',') == [w[..idx]] + Split(w[idx + 1..], ',')
    ensures w[idx..] == [','] + w[idx + 1..]
    ensures NoOpenPiece(w) ==> NoOpenPiece(w[idx + 1..]) && (w[..idx] == [] || !IsOpen(w[0]))
  {
    var tail := Split(w[idx + 1..], ',');
    var all := Split(w, ',');
    assert all == [w[..idx]] + tail;
    if NoOpenPiece(w) {
      forall i | 0 <= i < |tail|
        ensures tail[i] == [] || !IsOpen(tail[i][0])
      {
        assert tail[i] == all[i + 1];
      }
      assert all[0] == w[..idx];
    }
  }

  /** The values of the strings `a` followed by those of `b`. */
  lemma ItemsAppend(a: seq<string>, b: seq<string>)
    ensures StringsValue(a + b).items == StringsValue(a).items + StringsValue(b).items
  {
    var l := StringsValue(a + b).items;
    var r := StringsValue(a).items + StringsValue(b).items;
    assert |l| == |r|;
    forall i | 0 <= i < |l|
      ensures l[i] == r[i]
    {
      if i < |a| {
        assert (a + b)[i] == a[i];
      } else {
        assert (a + b)[i] == b[i - |a|];
      }
    }
  }

  /** One element of a list: its tokens scan, and the rest of the list follows it. */
  lemma ElemsOne(k: Kind, s: seq<string>, comma: bool, acc: seq<Value>, s1: seq<string>,
                 val: seq<string>, rest: seq<string>, v: Value)
    requires (k.ArrayKind? || k.SliceKind?) && ValidSubType(k)
    requires forall i :: 0 <= i < |acc| ==> Typed(acc[i], k.elem)
    requires ElemStart(s, comma, |acc| == 0) == Some(s1)
    requires NextElem(s1, comma) == Piece(val, rest) && Fresh(k.elem, val) == Ok(v)
    ensures forall i :: 0 <= i < |acc + [v]| ==> Typed((acc + [v])[i], k.elem)
    ensures Elems(k, s, comma, acc) == Elems(k, rest, comma, acc + [v])
  {
    ElemsStep(k, s, comma, acc, s1, val, rest, v);
  }

  /** Text without a comma is one piece. */
  lemma OnePiece(w: string)
    requires IndexOf(w, ',') == None
    ensures StringsValue(Split(w, ',')).items == [StrVal(w)]
    ensures NoOpenPiece(w) ==> w == [] || !IsOpen(w[0])
  {
    assert Split(w, ',') == [w];
    assert StringsValue([w]).items == [StrVal(w)];
    if NoOpenPiece(w) && w != [] {
      assert Split(w, ',')[0] == w;
    }
  }

  /** The piece before the first comma of the text, then the pieces after that comma. */
  lemma FirstPiece(w: string, idx: nat)
    requires IndexOf(w, ',') == Some(idx)
    ensures StringsValue(Split(w, ',')).items
         == [StrVal(w[..idx])] + StringsValue(Split(w[idx + 1..], ',')).items
    ensures NoOpenPiece(w) ==> NoOpenPiece(w[idx + 1..]) && (idx == 0 || !IsOpen(w[0]))
  {
    SplitAt(w, idx);
    ItemsAppend([w[..idx]], Split(w[idx + 1..], ','));
    assert StringsValue([w[..idx]]).items == [StrVal(w[..idx])];
  }

  /** An element appended, then the rest: the same list as the element and the rest appended. */
  lemma Regroup(acc: seq<Value>, v: Value, tail: seq<Value>)
    ensures (acc + [v]) + tail == acc + ([v] + tail)
  {
  }

  /** The comma form after an element: a token starting with a comma continues the slice with
      the pieces of the text after it. */
  lemma {:induction false} CommaRest(w: string, acc: seq<Value>)
    requires |acc| > 0 && forall i :: 0 <= i < |acc| ==> Typed(acc[i], StringKind)
    requires NoOpenPiece(w)
    ensures Elems(Strs, [[','] + w], true, acc) == Ok(acc + StringsValue(Split(w, ',')).items)
    decreases |w|
  {
    match IndexOf(w, ',')
    case None =>
      OnePiece(w);
      RestOnly(w, acc);
    case Some(idx) =>
      FirstPiece(w, idx);
      var next := acc + [StrVal(w[..idx])];
      var tail := StringsValue(Split(w[idx + 1..], ',')).items;
      RestHead(w, idx, acc);
      CommaRest(w[idx + 1..], next);
      Regroup(acc, StrVal(w[..idx]), tail);
  }

  /** A string element takes its one token as it is. */
  lemma FreshString(x: string)
    ensures Fresh(StringKind, [x]) == Ok(StrVal(x))
  {
    StringTakesToken(Zero(StringKind), x, []);
    assert [x] + [] == [x];
  }

  /** A list that is used up ends the elements. */
  lemma ElemsDone(acc: seq<Value>)
    requires forall i :: 0 <= i < |acc| ==> Typed(acc[i], StringKind)
    ensures Elems(Strs, [], true, acc) == Ok(acc)
  {
    assert DropEmpty([]) == [];
  }

  /** The token after an element starts with a comma: what follows the comma is read next. */
  lemma AfterComma(w: string)
    ensures ElemStart([[','] + w], true, false) == Some(if w == [] then [] else [w])
  {
    var s := [[','] + w];
    assert DropEmpty(s) == s && s[0][0] == ',';
    assert s[0][1..] == w && s[1..] == [];
    if w != [] {
      assert DropFirst(s) == [w];
    }
  }

  /** The element that text without a comma makes, and nothing left after it. */
  lemma LastPiece(w: string)
    requires IndexOf(w, ',') == None && (w == [] || !IsOpen(w[0]))
    ensures NextElem(if w == [] then [] else [w], true) == Piece([w], [])
  {
  }

  /** The element before the first comma, and the rest of the text from that comma. */
  lemma PieceAt(w: string, idx: nat)
    requires IndexOf(w, ',') == Some(idx) && (idx == 0 || !IsOpen(w[0]))
    ensures NextElem([w], true) == Piece([w[..idx]], [[','] + w[idx + 1..]])
  {
    assert w[idx..] == [','] + w[idx + 1..];
  }

  /** After a comma, text without a further comma is the last element. */
  lemma RestOnly(w: string, acc: seq<Value>)
    requires |acc| > 0 && forall i :: 0 <= i < |acc| ==> Typed(acc[i], StringKind)
    requires IndexOf(w, ',') == None && (w == [] || !IsOpen(w[0]))
    ensures Elems(Strs, [[','] + w], true, acc) == Ok(acc + [StrVal(w)])
  {
    AfterComma(w);
    LastPiece(w);
    FreshString(w);
    ElemsOne(Strs, [[','] + w], true, acc, if w == [] then [] else [w], [w], [], StrVal(w));
    ElemsDone(acc + [StrVal(w)]);
  }

  /** After a comma, the text up to the next comma is the next element. */
  lemma RestHead(w: string, idx: nat, acc: seq<Value>)
    requires |acc| > 0 && forall i :: 0 <= i < |acc| ==> Typed(acc[i], StringKind)
    requires IndexOf(w, ',') == Some(idx) && (idx == 0 || !IsOpen(w[0]))
    ensures forall i :: 0 <= i < |acc| + 1 ==> Typed((acc + [StrVal(w[..idx])])[i], StringKind)
    ensures Elems(Strs, [[','] + w], true, acc)
         == Elems(Strs, [[','] + w[idx + 1..]], true, acc + [StrVal(w[..idx])])
  {
    AfterComma(w);
    PieceAt(w, idx);
    FreshString(w[..idx]);
    ElemsOne(Strs, [[','] + w], true, acc, [w], [w[..idx]], [[','] + w[idx + 1..]], StrVal(w[..idx]));
  }

  /** The comma form of one token: the slice holds the pieces of the token between its commas,
      so `a,b` gives two elements and a trailing comma adds an empty one. */
  lemma CommaToken(t: string)
    requires |t| > 0 && NoOpenPiece(t)
    ensures Elems(Strs, [t], true, []) == Ok(StringsValue(Split(t, ',')).items)
  {
    match IndexOf(t, ',')
    case None =>
      OnePiece(t);
      CommaHeadOnly(t);
    case Some(idx) =>
      FirstPiece(t, idx);
      CommaHead(t, idx);
  }

  /** A token without a comma is one element. */
  lemma CommaHeadOnly(t: string)
    requires |t| > 0 && !IsOpen(t[0]) && IndexOf(t, ',') == None
    ensures Elems(Strs, [t], true, []) == Ok([StrVal(t)])
  {
    assert ElemStart([t], true, true) == Some([t]);
    LastPiece(t);
    FreshString(t);
    ElemsOne(Strs, [t], true, [], [t], [t], [], StrVal(t));
    assert [] + [StrVal(t)] == [StrVal(t)];
    ElemsDone([StrVal(t)]);
  }

  /** The first comma of a token ends its first element; the pieces after it follow. */
  lemma CommaHead(t: string, idx: nat)
    requires IndexOf(t, ',') == Some(idx) && (idx == 0 || !IsOpen(t[0]))
    requires NoOpenPiece(t[idx + 1..])
    ensures Elems(Strs, [t], true, [])
         == Ok([StrVal(t[..idx])] + StringsValue(Split(t[idx + 1..], ',')).items)
  {
    assert ElemStart([t], true, true) == Some([t]);
    PieceAt(t, idx);
    FreshString(t[..idx]);
    ElemsOne(Strs, [t], true, [], [t], [t[..idx]], [[','] + t[idx + 1..]], StrVal(t[..idx]));
    CommaRest(t[idx + 1..], [] + [StrVal(t[..idx])]);
    assert [] + [StrVal(t[..idx])] == [StrVal(t[..idx])];
  }

  /** A []string scanned from one token without brackets is the token split at its commas. */
  lemma CommaSlice(dst: Value, t: string)
    requires Typed(dst, Strs) && |t| > 0 && NoOpenPiece(t)
    ensures Scan(Strs, dst, [t]) == Done(StringsValue(Split(t, ',')), 1)
  {
    assert Split(t, ',')[0] == [] || !IsOpen(Split(t, ',')[0][0]);
    assert t[0] != '[' by {
      match IndexOf(t, ',')
      case None => assert Split(t, ',') == [t];
      case Some(idx) => SplitAt(t, idx);
    }
    CommaToken(t);
  }

  /** The comma form reports every token it was given as consumed, used or not. */
  lemma CommaConsumesAll(k: Kind, dst: Value, s: seq<string>)
    requires (k.ArrayKind? || k.SliceKind?) && ValidSubType(k) && Typed(dst, k)
    requires |s| > 0 && |s[0]| > 0 && s[0][0] != '['
    requires Scan(k, dst, s).Done?
    ensures Scan(k, dst, s).n == |s|
  {
    assert Scan(k, dst, s) == ScanList(k, dst, s);
  }

  /** The bracket form consumes the tokens of its group and no more; a group that does not
      close, or closes inside a token, is refused. */
  lemma BracketConsumesGroup(k: Kind, dst: Value, s: seq<string>)
    requires (k.ArrayKind? || k.SliceKind?) && ValidSubType(k) && Typed(dst, k)
    requires |s| > 0 && |s[0]| > 0 && s[0][0] == '['
    ensures Scan(k, dst, s).Done? ==>
      Bracketed(s).Matched? && !Bracketed(s).split && Scan(k, dst, s).n == |Bracketed(s).head|
    ensures Bracketed(s).Unmatched? || Bracketed(s).split ==>
      Scan(k, dst, s) == Failed(dst, if k.SliceKind? then InvalidSlice else InvalidArray)
  {
    assert Scan(k, dst, s) == ScanList(k, dst, s);
  }
}
