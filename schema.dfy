/** `build_polars_schema`: a Python dict built by a comprehension over the rows
    of the header file, modelled as an insertion-ordered dictionary. */
module PolarsSchema {
  import opened Wrappers
  import opened SqlTypes

  /** One row of the header CSV: a column name and its SQL type. */
  datatype HeaderRow = HeaderRow(field: string, dtype: string)

  /** A Polars schema: a dict from column name to type, which keeps the order
      in which names were first inserted. */
  type Schema = seq<(string, DType)>

  function Names(s: Schema): (r: seq<string>)
    ensures |r| == |s|
    ensures forall i :: 0 <= i < |s| ==> r[i] == s[i].0
  {
    if s == [] then [] else [s[0].0] + Names(s[1..])
  }

  /** No name is bound twice, as in every dict. */
  predicate UniqueNames(s: Schema) {
    forall i, j :: 0 <= i < j < |s| ==> s[i].0 != s[j].0
  }

  /** `schema.get(name)`. */
  function Get(s: Schema, name: string): (r: Option<DType>)
    ensures r.Some? <==> name in Names(s)
    decreases |s|
  {
    if s == [] then None
    else if s[0].0 == name then Some(s[0].1)
    else Get(s[1..], name)
  }

  /** `schema[name] = t`: a known name keeps its place and takes the new type,
      a new name goes to the end. */
  function Put(s: Schema, name: string, t: DType): (r: Schema)
    ensures Get(r, name) == Some(t)
    decreases |s|
  {
    if s == [] then [(name, t)]
    else if s[0].0 == name then [(name, t)] + s[1..]
    else [s[0]] + Put(s[1..], name, t)
  }

  lemma {:induction false} PutNames(s: Schema, name: string, t: DType)
    ensures Names(Put(s, name, t)) == if name in Names(s) then Names(s) else Names(s) + [name]
    decreases |s|
  {
    if s != [] && s[0].0 != name {
      PutNames(s[1..], name, t);
      assert Names(s) == [s[0].0] + Names(s[1..]);
    }
  }

  /** After `schema[name] = t`, `name` reads back as `t` and every other name
      reads as before. */
  lemma {:induction false} PutGet(s: Schema, name: string, t: DType, other: string)
    ensures Get(Put(s, name, t), other) == if other == name then Some(t) else Get(s, other)
    decreases |s|
  {
    if s != [] && s[0].0 != name {
      PutGet(s[1..], name, t, other);
    }
  }

  lemma PutUnique(s: Schema, name: string, t: DType)
    requires UniqueNames(s)
    ensures UniqueNames(Put(s, name, t))
  {
    var r := Put(s, name, t);
    PutNames(s, name, t);
    var ns, nr := Names(s), Names(r);
    forall i, j | 0 <= i < j < |r| ensures r[i].0 != r[j].0 {
      assert r[i].0 == nr[i] && r[j].0 == nr[j];
      if j < |s| {
        assert nr[i] == ns[i] == s[i].0;
        assert nr[j] == ns[j] == s[j].0;
      } else {
        assert nr == ns + [name] && name !in ns;
        assert nr[i] == ns[i];
      }
    }
  }

  /** Columns names in the order of the header rows. */
  function Fields(rows: seq<HeaderRow>): (r: seq<string>)
    ensures |r| == |rows|
    ensures forall i :: 0 <= i < |rows| ==> r[i] == rows[i].field
  {
    if rows == [] then [] else Fields(rows[..|rows| - 1]) + [rows[|rows| - 1].field]
  }

  /** The distinct elements of `xs`, each at its first occurrence. */
  function Dedup(xs: seq<string>): (r: seq<string>)
    decreases |xs|
  {
    if xs == [] then []
    else
      var d := Dedup(xs[..|xs| - 1]);
      if xs[|xs| - 1] in d then d else d + [xs[|xs| - 1]]
  }

  /** `Dedup` keeps every element once and adds nothing. */
  lemma {:induction false} DedupSpec(xs: seq<string>)
    ensures forall x :: x in Dedup(xs) <==> x in xs
    ensures forall i, j :: 0 <= i < j < |Dedup(xs)| ==> Dedup(xs)[i] != Dedup(xs)[j]
    decreases |xs|
  {
    if xs != [] {
      var p := xs[..|xs| - 1];
      DedupSpec(p);
      assert xs == p + [xs[|xs| - 1]];
    }
  }

  /** A row whose type does not translate, with every row before it
      translating: the row whose error the comprehension raises. */
  predicate FirstFailure(rows: seq<HeaderRow>, tr: string -> Result<DType, SchemaError>, j: int) {
    && 0 <= j < |rows| && tr(rows[j].dtype).Err?
    && forall i :: 0 <= i < j ==> tr(rows[i].dtype).Ok?
  }

  /** Row `i` is the last row naming its column. */
  predicate LastNaming(rows: seq<HeaderRow>, i: int) {
    && 0 <= i < |rows|
    && forall j :: i < j < |rows| ==> rows[j].field != rows[i].field
  }

  /** `build_polars_schema`: `{row.field: sql_to_polars_dtype(row.dtype) for row
      in rows}`. */
  function BuildPolarsSchema(rows: seq<HeaderRow>): (r: Result<Schema, SchemaError>)
    ensures r.Ok? <==> forall i :: 0 <= i < |rows| ==> NormaliseSqlType(rows[i].dtype) in SqlToPolarsDType
    ensures r.Ok? ==> Names(r.value) == Dedup(Fields(rows)) && UniqueNames(r.value)
  {
    BuildOkIff(rows, SqlToDType);
    var r := BuildSchemaWith(rows, SqlToDType);
    if r.Ok? then BuildNames(rows, SqlToDType); r else r
  }

  /** The comprehension with the type translation `tr` as a parameter. The rows
      are visited in order; the first type that does not translate raises, and
      a name seen again takes the later type. */
  function BuildSchemaWith(rows: seq<HeaderRow>, tr: string -> Result<DType, SchemaError>): (r: Result<Schema, SchemaError>)
    decreases |rows|
  {
    if rows == [] then Ok([])
    else
      var last := rows[|rows| - 1];
      match BuildSchemaWith(rows[..|rows| - 1], tr)
      case Err(e) => Err(e)
      case Ok(s) =>
        match tr(last.dtype)
        case Err(e) => Err(e)
        case Ok(t) => Ok(Put(s, last.field, t))
  }

  /** The schema is built exactly when every row's type translates. */
  lemma BuildOkIff(rows: seq<HeaderRow>, tr: string -> Result<DType, SchemaError>)
    ensures BuildSchemaWith(rows, tr).Ok? <==> forall i :: 0 <= i < |rows| ==> tr(rows[i].dtype).Ok?
  {
    if BuildSchemaWith(rows, tr).Ok? {
      forall i | 0 <= i < |rows| ensures tr(rows[i].dtype).Ok? {
        BuildOkTranslatesRow(rows, tr, i);
      }
    } else {
      BuildRaisesFirstError(rows, tr);
    }
  }

  lemma {:induction false} BuildOkTranslatesRow(rows: seq<HeaderRow>, tr: string -> Result<DType, SchemaError>, i: nat)
    requires BuildSchemaWith(rows, tr).Ok? && i < |rows|
    ensures tr(rows[i].dtype).Ok?
    decreases |rows|
  {
    var p := rows[..|rows| - 1];
    if i < |p| {
      assert p[i] == rows[i];
      BuildOkTranslatesRow(p, tr, i);
    }
  }

  /** A failure is the error of the first row whose type does not translate. */
  lemma {:induction false} BuildRaisesFirstError(rows: seq<HeaderRow>, tr: string -> Result<DType, SchemaError>)
    requires BuildSchemaWith(rows, tr).Err?
    ensures exists j :: FirstFailure(rows, tr, j) && tr(rows[j].dtype).error == BuildSchemaWith(rows, tr).error
    decreases |rows|
  {
    var p := rows[..|rows| - 1];
    assert forall i :: 0 <= i < |p| ==> p[i] == rows[i];
    if BuildSchemaWith(p, tr).Err? {
      BuildRaisesFirstError(p, tr);
      var j :| FirstFailure(p, tr, j) && tr(p[j].dtype).error == BuildSchemaWith(p, tr).error;
      assert FirstFailure(rows, tr, j);
    } else {
      forall i | 0 <= i < |rows| - 1 ensures tr(rows[i].dtype).Ok? {
        BuildOkTranslatesRow(p, tr, i);
        assert p[i] == rows[i];
      }
      assert FirstFailure(rows, tr, |rows| - 1);
    }
  }

  /** A built schema binds each header name once, in the order the names first
      appear. */
  lemma {:induction false} BuildNames(rows: seq<HeaderRow>, tr: string -> Result<DType, SchemaError>)
    requires BuildSchemaWith(rows, tr).Ok?
    ensures Names(BuildSchemaWith(rows, tr).value) == Dedup(Fields(rows))
    ensures UniqueNames(BuildSchemaWith(rows, tr).value)
    decreases |rows|
  {
    if rows != [] {
      var p := rows[..|rows| - 1];
      var last := rows[|rows| - 1];
      BuildNames(p, tr);
      var s := BuildSchemaWith(p, tr).value;
      PutNames(s, last.field, tr(last.dtype).value);
      PutUnique(s, last.field, tr(last.dtype).value);
      assert Fields(rows)[..|rows| - 1] == Fields(p);
    }
  }

  /** The keys of a built schema are exactly the header's field names. */
  lemma BuildKeysAreFields(rows: seq<HeaderRow>, tr: string -> Result<DType, SchemaError>)
    requires BuildSchemaWith(rows, tr).Ok?
    ensures forall name :: name in Names(BuildSchemaWith(rows, tr).value) <==> name in Fields(rows)
  {
    BuildNames(rows, tr);
    DedupSpec(Fields(rows));
  }

  /** Each name is bound to the translated type of the last row naming it. */
  lemma {:induction false} BuildLastOccurrenceWins(rows: seq<HeaderRow>, tr: string -> Result<DType, SchemaError>, i: int)
    requires BuildSchemaWith(rows, tr).Ok? && LastNaming(rows, i)
    ensures tr(rows[i].dtype).Ok?
    ensures Get(BuildSchemaWith(rows, tr).value, rows[i].field) == Some(tr(rows[i].dtype).value)
    decreases |rows|
  {
    BuildOkTranslatesRow(rows, tr, i);
    var p := rows[..|rows| - 1];
    var last := rows[|rows| - 1];
    BuildOkTranslatesRow(rows, tr, |rows| - 1);
    var s := BuildSchemaWith(p, tr).value;
    PutGet(s, last.field, tr(last.dtype).value, rows[i].field);
    if i < |rows| - 1 {
      assert p[i] == rows[i];
      assert LastNaming(p, i);
      BuildLastOccurrenceWins(p, tr, i);
    }
  }

  /** A name that no row gives is not in the schema. */
  lemma BuildOnlyHeaderNames(rows: seq<HeaderRow>, tr: string -> Result<DType, SchemaError>, name: string)
    requires BuildSchemaWith(rows, tr).Ok? && name !in Fields(rows)
    ensures Get(BuildSchemaWith(rows, tr).value, name) == None
  {
    BuildKeysAreFields(rows, tr);
  }

  /** One header row with a type outside the table makes `build_polars_schema`
      raise, whatever the other rows hold. */
  lemma OneUnknownTypeFailsSchema(rows: seq<HeaderRow>, j: nat)
    requires j < |rows| && NormaliseSqlType(rows[j].dtype) !in SqlToPolarsDType
    ensures BuildPolarsSchema(rows).Err?
  {
    UnknownTypeRaises(rows[j].dtype);
    BuildOkIff(rows, SqlToDType);
  }
}
