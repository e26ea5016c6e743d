/**
 * The List option: a value `type:[...]` opens a list source of that type, registered in the
 * option's table of sources; the inline source holds the elements written in the group.
 */
module Lists {
  import opened Wrappers
  import opened Kinds
  import opened Scanning
  import opened Sources
  import opened Text
  import opened ScanFacts

  /** A list source. The sources backed by a database are not part of this model. */
  datatype ListSource = InlineList(list: seq<string>)

  /** A function that opens a source on the tokens of the group (ListSourceFunc). */
  datatype ListOpener = ListOpener(open: seq<string> -> Result<ListSource, SourceError>)

  /** NewInlineList: no tokens give the empty list; otherwise the tokens are scanned as a
      []string, whose bracket and comma forms both apply. */
  function NewInlineList(s: seq<string>): (r: Result<ListSource, SourceError>)
    ensures |s| == 0 ==> r == Ok(InlineList([]))
    ensures |s| > 0 ==> (r.Ok? <==> Scan(SliceKind(StringKind), StringsValue([]), s).Done?)
    ensures r.Err? ==> r.error.SourceScan?
  {
    if |s| == 0 then Ok(InlineList([]))
    else match Scan(SliceKind(StringKind), StringsValue([]), s)
      case Failed(_, e) => Err(SourceScan(e))
      case Done(v, _) => Ok(InlineList(Strings(v)))
  }

  /** An inline list written as one token without brackets holds the pieces of the token
      between its commas, in order. */
  lemma InlineCommaList(t: string)
    requires |t| > 0 && NoOpenPiece(t)
    ensures NewInlineList([t]) == Ok(InlineList(Split(t, ',')))
  {
    CommaSlice(StringsValue([]), t);
  }

  /** InlineList.Has: a pass over the elements. */
  method Has(t: ListSource, val: string) returns (found: bool)
    ensures found <==> val in t.list
  {
    for i := 0 to |t.list|
      invariant val !in t.list[..i]
    {
      if t.list[i] == val {
        return true;
      }
    }
    return false;
  }

  class List {
    var source: Option<ListSource>
    var sources: map<string, ListOpener>
    var values: seq<string>

    /** NewList: only the inline source is registered, and no source is open. */
    constructor (values: seq<string>)
      ensures source == None && sources == map["inline" := ListOpener(NewInlineList)] && this.values == values
    {
      source := None;
      sources := map["inline" := ListOpener(NewInlineList)];
      this.values := values;
    }

    /** Valid: a source has been opened. */
    predicate Valid()
      reads this
    {
      source.Some?
    }

    /** AddSource: registers the opener for `typ`, replacing any earlier one. */
    method AddSource(typ: string, f: ListOpener)
      modifies this
      ensures sources == old(sources)[typ := f]
      ensures source == old(source) && values == old(values)
    {
      sources := sources[typ := f];
    }

    /** Scan: reads the request, keeps its tokens as the values (before the type is checked),
        and opens the source of that type on them; it reports the group's tokens as consumed. */
    method Scan(name: string, s: seq<string>) returns (n: nat, err: Option<SourceError>)
      modifies this
      ensures sources == old(sources)
      ensures SourceSpec(s).Err? ==>
        n == 0 && err == Some(SourceSpec(s).error) && values == old(values) && source == old(source)
      ensures SourceSpec(s).Ok? ==> values == SourceSpec(s).value.args
      ensures SourceSpec(s).Ok? && SourceSpec(s).value.typ !in sources ==>
        n == 0 && err == Some(UnknownType(SourceSpec(s).value.typ)) && source == old(source)
      ensures SourceSpec(s).Ok? && SourceSpec(s).value.typ in sources ==>
        var spec := SourceSpec(s).value;
        var made := sources[spec.typ].open(spec.args);
        && source == (if made.Ok? then Some(made.value) else None)
        && (made.Ok? ==> n == |spec.args| && err == None)
        && (made.Err? ==> n == 0 && err == Some(made.error))
    {
      var spec := ReadSpec(s);
      if spec.Err? {
        return 0, Some(spec.error);
      }
      values := spec.value.args;
      var typ := spec.value.typ;
      if typ !in sources {
        return 0, Some(UnknownType(typ));
      }
      var made := sources[typ].open(values);
      if made.Err? {
        source := None;
        return 0, Some(made.error);
      }
      source := Some(made.value);
      return |values|, None;
    }
  }
}
