/**
 * The Table option: a value `type:[...]` opens a key-value source of one of four fixed types.
 * The static source answers every key with the text of the group, the inline source holds the
 * `key:value` entries written in the group, and the sqlite and mysql sources take the path of
 * a configuration file naming the database to query.
 */
module Tables {
  import opened Wrappers
  import opened Text
  import opened Tokens
  import opened Kinds
  import opened Scanning
  import opened Sources

  /** A table source. An SQL source keeps its driver and the path of its configuration file;
      the database it connects to is not part of this model. */
  datatype TableSource =
    | StaticTable(value: string)
    | InlineTable(table: map<string, string>)
    | SqlTable(driver: string, path: string)

  /** newStaticTable: the tokens joined with single spaces; it never fails. */
  function NewStaticTable(s: seq<string>): (r: Result<TableSource, SourceError>)
    ensures r.Ok? && r.value.StaticTable?
  {
    Ok(StaticTable(Join(s, " ")))
  }

  /** newInlineTable: no tokens give the empty table; otherwise the tokens are scanned as a
      map[string]string. */
  function NewInlineTable(s: seq<string>): (r: Result<TableSource, SourceError>)
    ensures |s| == 0 ==> r == Ok(InlineTable(map[]))
    ensures |s| > 0 ==> (r.Ok? <==> Scan(StringMapKind, MapVal(map[]), s).Done?)
    ensures r.Ok? ==> r.value.InlineTable?
    ensures r.Err? ==> r.error == SourceScan(Scan(StringMapKind, MapVal(map[]), s).err)
  {
    if |s| == 0 then Ok(InlineTable(map[]))
    else match Scan(StringMapKind, MapVal(map[]), s)
      case Failed(_, e) => Err(SourceScan(e))
      case Done(v, _) => Ok(InlineTable(StringMap(v)))
  }

  /** newSQLiteTable and newMySQLTable: exactly one token, the path of the configuration file.
      Reading that file and connecting to the database happen outside the model; `connect` is
      their outcome, None when they succeed. */
  function NewSqlTable(driver: string, s: seq<string>, connect: Option<SourceError>)
    : (r: Result<TableSource, SourceError>)
    ensures |s| != 1 ==> r == Err(InvalidPath)
    ensures |s| == 1 ==> (r.Ok? <==> connect.None?)
    ensures |s| == 1 && connect.Some? ==> r == Err(connect.value)
    ensures r.Ok? ==> r.value == SqlTable(driver, s[0])
  {
    if |s| != 1 then Err(InvalidPath)
    else match connect
      case Some(e) => Err(e)
      case None => Ok(SqlTable(driver, s[0]))
  }

  /** The table types Scan accepts. */
  predicate Known(typ: string)
  {
    typ == "static" || typ == "inline" || typ == "sqlite" || typ == "mysql"
  }

  /** The switch of Scan: the source of a known type opened on the tokens, None for any other
      type. */
  function OpenTable(typ: string, args: seq<string>, connect: Option<SourceError>)
    : (r: Option<Result<TableSource, SourceError>>)
    ensures r.None? <==> !Known(typ)
    ensures (typ == "sqlite" || typ == "mysql") && |args| != 1 ==> r == Some(Err(InvalidPath))
    ensures (typ == "static" || typ == "inline") ==> r.Some? && (typ == "static" ==> r.value.Ok?)
    ensures r.Some? && r.value.Ok? ==>
      && (typ == "static" <==> r.value.value.StaticTable?)
      && (typ == "inline" <==> r.value.value.InlineTable?)
      && (r.value.value.SqlTable? ==> r.value.value == SqlTable(typ, args[0]))
  {
    if typ == "static" then Some(NewStaticTable(args))
    else if typ == "inline" then Some(NewInlineTable(args))
    else if typ == "sqlite" || typ == "mysql" then Some(NewSqlTable(typ, args, connect))
    else None
  }

  /** Has: the static source has every key; the inline source has the keys it holds. What an
      SQL source has is a database query, not part of this model. */
  function Has(t: TableSource, key: string): (r: bool)
    requires !t.SqlTable?
    ensures t.StaticTable? ==> r
    ensures t.InlineTable? ==> (r <==> key in t.table)
  {
    match t
    case StaticTable(_) => true
    case InlineTable(m) => key in m
  }

  /** Get: the static source answers its text; the inline source answers the value stored under
      the key, and the empty string when there is none. */
  function Get(t: TableSource, key: string): (r: string)
    requires !t.SqlTable?
    ensures t.StaticTable? ==> r == t.value
    ensures t.InlineTable? && !Has(t, key) ==> r == ""
    ensures t.InlineTable? && Has(t, key) ==> r == t.table[key]
  {
    match t
    case StaticTable(v) => v
    case InlineTable(m) => if key in m then m[key] else ""
  }

  /** The path an SQL table reads its configuration from is the group's one token as written:
      it ends with the group's closing bracket, so `sqlite:[db.toml]` reads `[db.toml]`. */
  lemma SqlPathKeepsBrackets(s: seq<string>, connect: Option<SourceError>)
    requires SourceSpec(s).Ok?
    requires var spec := SourceSpec(s).value;
      OpenTable(spec.typ, spec.args, connect) == Some(Ok(SqlTable(spec.typ, spec.args[0])))
    ensures var path := SourceSpec(s).value.args[0];
      |path| > 0 && IsClose(path[|path| - 1])
  {
    var spec := SourceSpec(s).value;
    assert |spec.args| == 1;
    SpecCloses(s);
  }

  /** A static table likewise keeps the group's closing bracket at the end of its text. */
  lemma StaticTableKeepsBrackets(s: seq<string>)
    requires SourceSpec(s).Ok?
    ensures var v := Get(NewStaticTable(SourceSpec(s).value.args).value, "");
      |v| > 0 && IsClose(v[|v| - 1])
  {
    var args := SourceSpec(s).value.args;
    SpecCloses(s);
    JoinEnds(args, " ");
    var last := args[|args| - 1];
    var v := Join(args, " ");
    assert v[|v| - 1] == last[|last| - 1] by {
      assert v[|v| - |last|..] == last;
    }
  }

  class Table {
    var source: Option<TableSource>
    var values: seq<string>

    /** A Table with the given default values and no source. */
    constructor (values: seq<string>)
      ensures source == None && this.values == values
    {
      source := None;
      this.values := values;
    }

    /** Scan: reads the request, keeps its tokens as the values (before the type is checked),
        and opens the source of that type on them; it reports the group's tokens as consumed.
        `connect` is the outcome of reading an SQL source's configuration and connecting. */
    method Scan(name: string, s: seq<string>, connect: Option<SourceError>)
      returns (n: nat, err: Option<SourceError>)
      modifies this
      ensures SourceSpec(s).Err? ==>
        n == 0 && err == Some(SourceSpec(s).error) && values == old(values) && source == old(source)
      ensures SourceSpec(s).Ok? ==> values == SourceSpec(s).value.args
      ensures SourceSpec(s).Ok? && !Known(SourceSpec(s).value.typ) ==>
        n == 0 && err == Some(UnknownType(SourceSpec(s).value.typ)) && source == old(source)
      ensures SourceSpec(s).Ok? && Known(SourceSpec(s).value.typ) ==>
        var spec := SourceSpec(s).value;
        var made := OpenTable(spec.typ, spec.args, connect).value;
        && source == (if made.Ok? then Some(made.value) else None)
        && (made.Ok? ==> n == |spec.args| && err == None)
        && (made.Err? ==> n == 0 && err == Some(made.error))
    {
      var spec := ReadSpec(s);
      if spec.Err? {
        return 0, Some(spec.error);
      }
      values := spec.value.args;
      var typ := spec.value.typ;
      var made: Result<TableSource, SourceError>;
      if typ == "static" {
        made := NewStaticTable(values);
      } else if typ == "inline" {
        made := NewInlineTable(values);
      } else if typ == "sqlite" || typ == "mysql" {
        made := NewSqlTable(typ, values, connect);
      } else {
        return 0, Some(UnknownType(typ));
      }
      if made.Err? {
        source := None;
        return 0, Some(made.error);
      }
      source := Some(made.value);
      return |values|, None;
    }
  }
}
