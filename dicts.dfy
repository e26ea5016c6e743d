/**
 * The Dict option: a value `type:[...]` opens a key-value source of that type. The static
 * source answers every key with the text of the group; the inline source holds the `key:value`
 * entries written in the group.
 */
module Dicts {
  import opened Wrappers
  import opened Text
  import opened Tokens
  import opened Kinds
  import opened Scanning
  import opened Sources

  /** A dict source. The sources backed by a database are not part of this model. */
  datatype DictSource = StaticDict(value: string) | InlineDict(dict: map<string, string>)

  /** A function that opens a source on the tokens of the group (DictSourceFunc). */
  datatype DictOpener = DictOpener(open: seq<string> -> Result<DictSource, SourceError>)

  /** NewStaticDict: the tokens joined with single spaces; it never fails. */
  function NewStaticDict(s: seq<string>): (r: Result<DictSource, SourceError>)
    ensures r.Ok? && r.value.StaticDict?
  {
    Ok(StaticDict(Join(s, " ")))
  }

  /** The text of a static dict gives back its tokens when split at the spaces, as long as no
      token holds a space itself. */
  lemma StaticDictTokens(s: seq<string>)
    requires |s| > 0 && forall i :: 0 <= i < |s| ==> ' ' !in s[i]
    ensures Split(NewStaticDict(s).value.value, ' ') == s
  {
    SplitJoin(s, ' ');
  }

  /** NewInlineDict: no tokens give the empty dict; otherwise the tokens are scanned as a
      map[string]string. */
  function NewInlineDict(s: seq<string>): (r: Result<DictSource, SourceError>)
    ensures |s| == 0 ==> r == Ok(InlineDict(map[]))
    ensures |s| > 0 ==> (r.Ok? <==> Scan(StringMapKind, MapVal(map[]), s).Done?)
    ensures r.Ok? ==> r.value.InlineDict?
    ensures r.Err? ==> r.error == SourceScan(Scan(StringMapKind, MapVal(map[]), s).err)
  {
    if |s| == 0 then Ok(InlineDict(map[]))
    else match Scan(StringMapKind, MapVal(map[]), s)
      case Failed(_, e) => Err(SourceScan(e))
      case Done(v, _) => Ok(InlineDict(StringMap(v)))
  }

  /** Has: the static source has every key; the inline source has the keys it holds. */
  function Has(t: DictSource, key: string): (r: bool)
    ensures t.StaticDict? ==> r
    ensures t.InlineDict? ==> (r <==> key in t.dict)
  {
    match t
    case StaticDict(_) => true
    case InlineDict(d) => key in d
  }

  /** Get: the static source answers its text; the inline source answers the value stored under
      the key, and the key itself when there is none. */
  function Get(t: DictSource, key: string): (r: string)
    ensures t.StaticDict? ==> r == t.value
    ensures t.InlineDict? && key in t.dict ==> r == t.dict[key]
    ensures !Has(t, key) ==> r == key
  {
    match t
    case StaticDict(v) => v
    case InlineDict(d) => if key in d then d[key] else key
  }

  /** What an inline dict answers is what the scan of its tokens put in the map: its keys are
      the scanned keys, and the scanned value under a key is what Get returns. */
  lemma InlineDictScanned(s: seq<string>, key: string)
    requires |s| > 0 && NewInlineDict(s).Ok?
    ensures var m := Scan(StringMapKind, MapVal(map[]), s).val.entries;
      && (Has(NewInlineDict(s).value, key) <==> StrVal(key) in m)
      && (StrVal(key) in m ==> m[StrVal(key)] == StrVal(Get(NewInlineDict(s).value, key)))
      && (StrVal(key) !in m ==> Get(NewInlineDict(s).value, key) == key)
  {
  }

  /** A static dict keeps the group's closing bracket at the end of its text: the text is the
      group as written, brackets included, with only `static:` cut off. */
  lemma StaticKeepsBrackets(s: seq<string>)
    requires SourceSpec(s).Ok? && SourceSpec(s).value.typ == "static"
    ensures var v := Get(NewStaticDict(SourceSpec(s).value.args).value, "");
      |v| > 0 && IsClose(v[|v| - 1])
  {
    var args := SourceSpec(s).value.args;
    SpecCloses(s);
    JoinEnds(args, " ");
    var last := args[|args| - 1];
    assert |last| > 0 && IsClose(last[|last| - 1]);
    var v := Join(args, " ");
    assert v[|v| - 1] == last[|last| - 1] by {
      assert v[|v| - |last|..] == last;
    }
  }

  class Dict {
    var source: Option<DictSource>
    var sources: map<string, DictOpener>
    var values: seq<string>

    /** NewDict: exactly the static and the inline sources are registered; none is open. */
    constructor (values: seq<string>)
      ensures source == None && this.values == values
      ensures sources == map["static" := DictOpener(NewStaticDict), "inline" := DictOpener(NewInlineDict)]
    {
      source := None;
      sources := map["static" := DictOpener(NewStaticDict), "inline" := DictOpener(NewInlineDict)];
      this.values := values;
    }

    /** AddSource: registers the opener for `typ`, replacing any earlier one. */
    method AddSource(typ: string, f: DictOpener)
      modifies this
      ensures sources == old(sources)[typ := f]
      ensures source == old(source) && values == old(values)
    {
      sources := sources[typ := f];
    }

    /** Scan: reads the request, keeps its tokens as the values (before the type is checked),
        and opens the source of that type on them; it reports the group's tokens as consumed. */
    method Scan(name: string, s: seq<string>) returns (n: nat, err: Option<SourceError>)
      modifies this
      ensures sources == old(sources)
      ensures SourceSpec(s).Err? ==>
        n == 0 && err == Some(SourceSpec(s).error) && values == old(values) && source == old(source)
      ensures SourceSpec(s).Ok? ==> values == SourceSpec(s).value.args
      ensures SourceSpec(s).Ok? && SourceSpec(s).value.typ !in sources ==>
        n == 0 && err == Some(UnknownType(SourceSpec(s).value.typ)) && source == old(source)
      ensures SourceSpec(s).Ok? && SourceSpec(s).value.typ in sources ==>
        var spec := SourceSpec(s).value;
        var made := sources[spec.typ].open(spec.args);
        && source == (if made.Ok? then Some(made.value) else None)
        && (made.Ok? ==> n == |spec.args| && err == None)
        && (made.Err? ==> n == 0 && err == Some(made.error))
    {
      var spec := ReadSpec(s);
      if spec.Err? {
        return 0, Some(spec.error);
      }
      values := spec.value.args;
      var typ := spec.value.typ;
      if typ !in sources {
        return 0, Some(UnknownType(typ));
      }
      var made := sources[typ].open(values);
      if made.Err? {
        source := None;
        return 0, Some(made.error);
      }
      source := Some(made.value);
      return |values|, None;
    }
  }
}
