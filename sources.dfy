/**
 * What the List, Dict and Table options share: their value is written `type:[...]` (or
 * `type:{...}`), one bracket group that may span several tokens, and the text before the
 * first colon names the source that is opened on the group.
 */
module Sources {
  import opened Wrappers
  import opened Text
  import opened Tokens
  import opened Kinds
  import opened Scanning

  /** The errors of the Scan methods of List, Dict and Table and of the sources they open. */
  datatype SourceError =
    | ValueMissing
    | ValueInvalid
    | TypeExpected
    | UnknownType(typ: string)
    | SourceScan(cause: ScanError)
    | InvalidPath

  /** The Go map[string]string held by a scanned value of kind map[string]string. */
  function StringMap(v: Value): (r: map<string, string>)
    requires Typed(v, MapKind(StringKind, StringKind))
    ensures forall key :: key in r <==> StrVal(key) in v.entries
    ensures forall key :: key in r ==> v.entries[StrVal(key)] == StrVal(r[key])
  {
    forall x | x in v.entries
      ensures x.StrVal? && v.entries[x].StrVal?
    {
      assert Typed(x, StringKind) && Typed(v.entries[x], StringKind);
    }
    var m := map x | x in v.entries && x.StrVal? :: x.str := v.entries[x].str;
    assert forall key :: StrVal(key) in v.entries ==> key in m;
    m
  }

  /** The kind the inline sources scan their tokens as. */
  const StringMapKind: Kind := MapKind(StringKind, StringKind)

  /** A source request: the source type, and the tokens of the group that the source is opened
      on, the first one with `type:` cut off. */
  datatype Spec = Spec(typ: string, args: seq<string>)

  /** The request a Scan method reads from its tokens: a non-empty list whose first bracket
      group ends at a token boundary, and whose first token starts with an ASCII letter and
      holds a colon. */
  function SourceSpec(s: seq<string>): (r: Result<Spec, SourceError>)
    ensures |s| == 0 <==> r == Err(ValueMissing)
    ensures |s| > 0 ==> (r == Err(ValueInvalid) <==> Bracketed(s).Unmatched? || Bracketed(s).split)
    ensures r.Ok? ==> |r.value.typ| > 0 && IsAsciiLetter(r.value.typ[0]) && ':' !in r.value.typ
    ensures r.Ok? ==> 0 < |r.value.args| <= |s|
  {
    if |s| == 0 then Err(ValueMissing)
    else match Bracketed(s)
      case Unmatched => Err(ValueInvalid)
      case Matched(vals, _, split) =>
        if |vals| == 0 || split then Err(ValueInvalid)
        else match IndexOf(vals[0], ':')
          case None => Err(TypeExpected)
          case Some(colon) =>
            if !IsAsciiLetter(vals[0][0]) then Err(TypeExpected)
            else Ok(Spec(vals[0][..colon], [vals[0][colon + 1..]] + vals[1..]))
  }

  /** A request covers the first tokens of the list exactly: they are the bracket group, and
      they are the type, a colon and the source's tokens; the last of those ends with the
      group's closing bracket. */
  lemma SpecCoversGroup(s: seq<string>)
    requires SourceSpec(s).Ok?
    ensures var spec := SourceSpec(s).value; var n := |spec.args|;
      && Bracketed(s) == Matched(s[..n], s[n..], false)
      && [spec.typ + ":" + spec.args[0]] + spec.args[1..] == s[..n]
      && |spec.args[n - 1]| > 0 && IsClose(spec.args[n - 1][|spec.args[n - 1]| - 1])
  {
    var b := Bracketed(s);
    var vals := b.head;
    var colon := IndexOf(vals[0], ':').value;
    var spec := SourceSpec(s).value;
    var n := |vals|;
    assert spec.args == [vals[0][colon + 1..]] + vals[1..];
    assert vals + b.tail == s;
    assert vals == s[..n] && b.tail == s[n..];
    assert vals[0][..colon] + ":" + vals[0][colon + 1..] == vals[0] by {
      assert vals[0] == vals[0][..colon] + [vals[0][colon]] + vals[0][colon + 1..];
    }
    assert [spec.typ + ":" + spec.args[0]] + spec.args[1..] == vals;
  }

  /** The last token of a request ends with the group's closing bracket. */
  lemma SpecCloses(s: seq<string>)
    requires SourceSpec(s).Ok?
    ensures var a := SourceSpec(s).value.args; var last := a[|a| - 1];
      |last| > 0 && IsClose(last[|last| - 1])
  {
    var vals := Bracketed(s).head;
    var colon := IndexOf(vals[0], ':').value;
    var args := SourceSpec(s).value.args;
    assert args == [vals[0][colon + 1..]] + vals[1..];
    var last := vals[|vals| - 1];
    assert |last| > 0 && IsClose(last[|last| - 1]);
    if |vals| == 1 {
      assert colon < |last| - 1 by {
        assert last[colon] == ':';
      }
      assert args[0] == last[colon + 1..];
    } else {
      assert args[|args| - 1] == last;
    }
  }

  /** The front every Scan method of the sources runs: truncEnd, then the colon and the
      letter checks. */
  method ReadSpec(s: seq<string>) returns (r: Result<Spec, SourceError>)
    ensures r == SourceSpec(s)
  {
    if |s| == 0 {
      return Err(ValueMissing);
    }
    var t := TruncEnd(s);
    if t.Unmatched? || |t.head| == 0 || t.split {
      return Err(ValueInvalid);
    }
    var vals := t.head;
    var colon := IndexOf(vals[0], ':');
    if colon.None? || !IsAsciiLetter(vals[0][0]) {
      return Err(TypeExpected);
    }
    return Ok(Spec(vals[0][..colon.value], [vals[0][colon.value + 1..]] + vals[1..]));
  }

  /** A request written as one token `type:rest`. */
  lemma OneTokenSpec(typ: string, rest: string)
    requires |typ| > 0 && IsAsciiLetter(typ[0]) && ':' !in typ
    requires Bracketed([typ + ":" + rest]) == Matched([typ + ":" + rest], [], false)
    ensures SourceSpec([typ + ":" + rest]) == Ok(Spec(typ, [rest]))
  {
    var t := typ + ":" + rest;
    assert t[|typ|] == ':' && t[..|typ|] == typ && t[|typ| + 1..] == rest;
    assert forall j :: 0 <= j < |typ| ==> t[j] == typ[j];
    assert IndexOf(t, ':') == Some(|typ|);
    assert IsAsciiLetter(t[0]);
    assert [t][1..] == [] && [rest] + [] == [rest];
  }
}
