/** Translation of the SQL column types named in an export's header file into
    Polars data types (scripts/table_to_deltalake.py, `SQL_TO_POLARS_DTYPE` and
    `sql_to_polars_dtype`). */
module SqlTypes {
  import opened Wrappers
  import opened PyText

  /** The Polars data types the pipeline produces. `List(Int32)` is what a
      decoded point column holds and `UInt16` is the partition column's type. */
  datatype DType =
    | Int64 | Int32 | Int16 | UInt16 | Float32 | Float64 | Decimal
    | Boolean | String | Date | Datetime | List(inner: DType)

  /** The fixed lookup table from normalised SQL type names to Polars types. */
  const SqlToPolarsDType: map<string, DType> := map[
    "bigint" := Int64,
    "integer" := Int32,
    "smallint" := Int16,
    "real" := Float32,
    "double precision" := Float64,
    "numeric" := Decimal,
    "boolean" := Boolean,
    "text" := String,
    "varchar" := String,
    "character varying" := String,
    "date" := Date,
    "timestamp without time zone" := Datetime,
    "timestamp with time zone" := Datetime
  ]

  /** The table's keys in the order `sorted` puts them; the error message
      lists them in this order. */
  const ValidOptions: seq<string> := [
    "bigint", "boolean", "character varying", "date", "double precision",
    "integer", "numeric", "real", "smallint", "text",
    "timestamp with time zone", "timestamp without time zone", "varchar"
  ]

  /** `ValidOptions` holds exactly the keys of the table, in strictly
      increasing string order. */
  lemma ValidOptionsAreSortedKeys()
    ensures StrictlySorted(ValidOptions)
    ensures forall k :: k in ValidOptions <==> k in SqlToPolarsDType
  {
    ValidOptionsSorted();
    ValidOptionsAreKeys();
  }

  lemma ValidOptionsAreKeys()
    ensures forall k :: k in ValidOptions <==> k in SqlToPolarsDType
  {
  }

  lemma ValidOptionsSorted()
    ensures StrictlySorted(ValidOptions)
  {
    forall i | 0 < i < |ValidOptions| ensures LexLess(ValidOptions[i - 1], ValidOptions[i]) {
      NeighboursInOrder(i);
    }
    AdjacentSorted(ValidOptions);
  }

  /** Each pair of neighbours in `ValidOptions`, with the index of its first
      difference. */
  lemma NeighboursInOrder(i: nat)
    requires 0 < i < |ValidOptions|
    ensures LexLess(ValidOptions[i - 1], ValidOptions[i])
  {
    if i == 1 {
      LexLessAt("bigint", "boolean", 1);
    } else if i == 2 {
      LexLessAt("boolean", "character varying", 0);
    } else if i == 3 {
      LexLessAt("character varying", "date", 0);
    } else if i == 4 {
      LexLessAt("date", "double precision", 1);
    } else if i == 5 {
      LexLessAt("double precision", "integer", 0);
    } else if i == 6 {
      LexLessAt("integer", "numeric", 0);
    } else if i == 7 {
      LexLessAt("numeric", "real", 0);
    } else if i == 8 {
      LexLessAt("real", "smallint", 0);
    } else if i == 9 {
      LexLessAt("smallint", "text", 0);
    } else if i == 10 {
      LexLessAt("text", "timestamp with time zone", 1);
    } else if i == 11 {
      LexLessAt("timestamp with time zone", "timestamp without time zone", 14);
    } else {
      LexLessAt("timestamp without time zone", "varchar", 0);
    }
  }

  /** `sorted(SQL_TO_POLARS_DTYPE)` can only be `ValidOptions`: it is the one
      strictly sorted sequence of the table's keys. */
  lemma SortedKeysAreValidOptions(s: seq<string>)
    requires StrictlySorted(s)
    requires forall k :: k in s <==> k in SqlToPolarsDType
    ensures s == ValidOptions
  {
    ValidOptionsAreSortedKeys();
    SortedUnique(s, ValidOptions);
  }

  /** The shape every key of the table has: non-empty, without surrounding
      whitespace and without a parenthesis. */
  predicate IsTypeName(k: string) {
    k != [] && IsStripped(k) && '(' !in k
  }

  lemma KeysAreTypeNames()
    ensures forall k :: k in SqlToPolarsDType ==> IsTypeName(k)
  {
    forall k | k in SqlToPolarsDType ensures IsTypeName(k) {
      ValidOptionsAreKeys();
      var i :| 0 <= i < |ValidOptions| && ValidOptions[i] == k;
      TypeNameAt(i);
    }
  }

  lemma TypeNameAt(i: nat)
    requires i < |ValidOptions|
    ensures IsTypeName(ValidOptions[i])
  {
    if i == 0 {
      assert IsTypeName("bigint");
    } else if i == 1 {
      assert IsTypeName("boolean");
    } else if i == 2 {
      assert IsTypeName("character varying");
    } else if i == 3 {
      assert IsTypeName("date");
    } else if i == 4 {
      assert IsTypeName("double precision");
    } else if i == 5 {
      assert IsTypeName("integer");
    } else if i == 6 {
      assert IsTypeName("numeric");
    } else if i == 7 {
      assert IsTypeName("real");
    } else if i == 8 {
      assert IsTypeName("smallint");
    } else if i == 9 {
      assert IsTypeName("text");
    } else if i == 10 {
      assert IsTypeName("timestamp with time zone");
    } else if i == 11 {
      assert IsTypeName("timestamp without time zone");
    } else {
      assert IsTypeName("varchar");
    }
  }

  /** The normalisation `sql_to_polars_dtype` applies before the lookup: strip,
      lower-case, and cut at the first `(` (stripping again). */
  function NormaliseSqlType(sqlType: string): (r: string)
    ensures '(' !in r && IsStripped(r) && IsLower(r)
  {
    var t := Lower(Strip(sqlType));
    LoweredStripFacts(sqlType);
    if '(' in t then
      CutHeadFacts(t);
      Strip(Split(t, '(')[0])
    else t
  }

  lemma LoweredStripFacts(s: string)
    ensures IsStripped(Lower(Strip(s))) && IsLower(Lower(Strip(s)))
  {
    LowerKeepsStripped(Strip(s));
    LowerResult(Strip(s));
  }

  lemma CutHeadFacts(t: string)
    requires IsLower(t)
    ensures '(' !in Strip(Split(t, '(')[0]) && IsLower(Strip(Split(t, '(')[0]))
  {
    var head := Split(t, '(')[0];
    SplitHeadIsPrefix(t, '(');
    PrefixIsLower(t, head);
    StripOfLowerIsLower(head);
    StripKeepsOut(head, '(');
  }

  /** Normalising twice is normalising once. */
  lemma NormaliseIdempotent(sqlType: string)
    ensures NormaliseSqlType(NormaliseSqlType(sqlType)) == NormaliseSqlType(sqlType)
  {
    var r := NormaliseSqlType(sqlType);
    StripStripped(r);
    LowerOfLower(r);
  }

  /** A name without `(` is only stripped and lower-cased. */
  lemma NormaliseWithoutParen(sqlType: string)
    requires '(' !in sqlType
    ensures NormaliseSqlType(sqlType) == Lower(Strip(sqlType))
  {
    StripKeepsOut(sqlType, '(');
    LowerKeepsOut(Strip(sqlType), '(');
  }

  /** Everything from the first `(` on is dropped: what is left is the text
      before it, stripped and lower-cased, whatever follows. */
  lemma NormaliseCutsAtParen(a: string, rest: string)
    requires '(' !in a
    ensures NormaliseSqlType(a + "(" + rest) == Lower(Strip(a))
  {
    var i, r := CutPoint(a, rest);
    LowerCutHead(a, i, r);
    StripAfterSpaces(a, i);
  }

  /** `strip()` of `a + "(" + rest` starts inside the leading whitespace of
      `a` and keeps the `(`. */
  lemma CutPoint(a: string, rest: string) returns (i: nat, r: string)
    requires '(' !in a
    ensures r == Strip(a + "(" + rest)
    ensures i <= |a| < i + |r| && r[|a| - i] == '(' && r[..|a| - i] == a[i..]
    ensures SpacesBefore(a, i)
  {
    var s := a + "(" + rest;
    var n := |a|;
    assert s[n] == '(';
    StripIsSlice(s);
    i := |s| - |TrimLeft(s)|;
    r := Strip(s);
    assert i <= n;
    assert n < i + |r|;
    assert r[..n - i] == s[i..n] == a[i..];
    forall k | 0 <= k < i ensures IsSpace(a[k]) {
      assert s[k] == a[k];
    }
  }

  /** Cutting the lower-cased text at its first `(` leaves the lower-cased
      part of `a` that `strip()` kept. */
  lemma LowerCutHead(a: string, i: nat, r: string)
    requires '(' !in a
    requires i <= |a| < i + |r| && r[|a| - i] == '(' && r[..|a| - i] == a[i..]
    ensures '(' in Lower(r) && Split(Lower(r), '(')[0] == Lower(a[i..])
  {
    var m := |a| - i;
    NotInSlice(a, a[i..], i, '(');
    assert '(' !in r[..m];
    LowerCutAt(r, m);
  }

  lemma StripAfterSpaces(a: string, i: nat)
    requires i <= |a| && SpacesBefore(a, i)
    ensures Strip(Lower(a[i..])) == Lower(Strip(a))
  {
    StripLower(a[i..]);
    TrimLeftAfterSpaces(a, i);
  }

  /** The error `sql_to_polars_dtype` raises for an unknown type; it carries
      the normalised type name. */
  datatype SchemaError = UnrecognizedSqlType(sqlType: string)

  /** The text of the raised `ValueError`: the fixed prefix, the `repr` of the
      offending name, the fixed lead-in to the options, then the sorted table
      keys joined by `", "`, and nothing else. */
  function Message(e: SchemaError): (r: string)
    ensures OccursAt(ErrorPrefix, r, 0)
    ensures OccursAt(Repr(e.sqlType), r, |ErrorPrefix|)
    ensures OccursAt(OptionsLead, r, |ErrorPrefix| + |Repr(e.sqlType)|)
    ensures EndsWith(r, Join(ValidOptions, ", "))
    ensures |r| == |ErrorPrefix| + |Repr(e.sqlType)| + |OptionsLead| + |Join(ValidOptions, ", ")|
  {
    ErrorText(e.sqlType, ValidOptions)
  }

  /** The fixed text in front of the offending name. */
  const ErrorPrefix: string := "Unrecognized SQL dtype: "

  /** The fixed text between the offending name and the list of options. */
  const OptionsLead: string := ". Valid options: "

  /** The message layout, for any list of options: the four parts, each at
      its place, with nothing in between. */
  function ErrorText(sqlType: string, options: seq<string>): (r: string)
    ensures OccursAt(ErrorPrefix, r, 0)
    ensures OccursAt(Repr(sqlType), r, |ErrorPrefix|)
    ensures OccursAt(OptionsLead, r, |ErrorPrefix| + |Repr(sqlType)|)
    ensures EndsWith(r, Join(options, ", "))
    ensures |r| == |ErrorPrefix| + |Repr(sqlType)| + |OptionsLead| + |Join(options, ", ")|
  {
    var name := ErrorPrefix + Repr(sqlType);
    var head := name + OptionsLead;
    var opts := Join(options, ", ");
    assert (head + opts)[|head|..] == opts;
    assert (head + opts)[..|ErrorPrefix|] == ErrorPrefix;
    assert (head + opts)[|ErrorPrefix|..|ErrorPrefix| + |Repr(sqlType)|] == Repr(sqlType);
    assert (head + opts)[|name|..|name| + |OptionsLead|] == OptionsLead;
    head + opts
  }

  /** `sql_to_polars_dtype`: the table entry of the normalised name, or the
      error naming that normalised name. */
  function SqlToDType(sqlType: string): (r: Result<DType, SchemaError>)
    ensures r.Ok? <==> NormaliseSqlType(sqlType) in SqlToPolarsDType
    ensures r.Ok? ==> r.value in SqlToPolarsDType.Values
    ensures r.Err? ==> r.error.sqlType == NormaliseSqlType(sqlType) && IsStripped(r.error.sqlType) && '(' !in r.error.sqlType
  {
    var t := NormaliseSqlType(sqlType);
    if t !in SqlToPolarsDType then Err(UnrecognizedSqlType(t))
    else Ok(SqlToPolarsDType[t])
  }

  /** A recognised type gives exactly its table entry. */
  lemma RecognisedTypeGivesEntry(sqlType: string)
    requires NormaliseSqlType(sqlType) in SqlToPolarsDType
    ensures SqlToDType(sqlType) == Ok(SqlToPolarsDType[NormaliseSqlType(sqlType)])
  {
  }

  /** Any other type raises, and the message names the normalised type and
      ends with all valid names, sorted and joined by `", "`. */
  lemma UnknownTypeRaises(sqlType: string)
    requires NormaliseSqlType(sqlType) !in SqlToPolarsDType
    ensures SqlToDType(sqlType) == Err(UnrecognizedSqlType(NormaliseSqlType(sqlType)))
    ensures IsSubstring(Repr(NormaliseSqlType(sqlType)), Message(SqlToDType(sqlType).error))
    ensures EndsWith(Message(SqlToDType(sqlType).error), Join(ValidOptions, ", "))
  {
    var e := UnrecognizedSqlType(NormaliseSqlType(sqlType));
    assert SqlToDType(sqlType) == Err(e);
    assert OccursAt(Repr(e.sqlType), Message(e), |ErrorPrefix|);
  }

  /** Translation only depends on the normalised name. */
  lemma TranslationSeesNormalisedName(sqlType: string)
    ensures SqlToDType(sqlType) == SqlToDType(NormaliseSqlType(sqlType))
  {
    NormaliseIdempotent(sqlType);
  }

  /** Any capitalisation `u` of a known type name, padded with whitespace,
      translates to that name's entry. */
  lemma PaddedTypeNameTranslates(lead: string, u: string, trail: string, k: string)
    requires k in SqlToPolarsDType && Lower(u) == k
    requires AllSpace(lead) && AllSpace(trail)
    ensures SqlToDType(lead + u + trail) == Ok(SqlToPolarsDType[k])
  {
    KeysAreTypeNames();
    UpperLowerSpaces(u, k);
    StripPadded(lead, u, trail);
  }

  lemma StripPadded(lead: string, u: string, trail: string)
    requires AllSpace(lead) && AllSpace(trail)
    requires u != [] && !IsSpace(u[0]) && !IsSpace(u[|u| - 1])
    ensures Strip(lead + u + trail) == u
  {
    var m := u + trail;
    Associate(lead, u, trail);
    TrimLeftSpaces(lead, m);
    TrimRightOfPadding(u, trail);
    assert Strip(lead + m) == TrimRight(TrimLeft(lead + m));
  }

  lemma Associate(a: string, b: string, c: string)
    ensures a + b + c == a + (b + c)
  {
  }

  /** Any capitalisation `u` of a known type name followed by a parenthesised
      qualifier (or anything else after a `(`), with whitespace in front,
      translates to that name's entry: `" Character Varying(255) "` is a
      `String` column. */
  lemma QualifiedTypeNameTranslates(lead: string, u: string, rest: string, k: string)
    requires k in SqlToPolarsDType && Lower(u) == k
    requires AllSpace(lead)
    ensures SqlToDType(lead + u + "(" + rest) == Ok(SqlToPolarsDType[k])
  {
    KeysAreTypeNames();
    UpperLowerSpaces(u, k);
    var w := StripQualified(lead, u, rest);
    LowerQualified(u, w, k);
    CutAtParen(k, Lower(w));
  }

  lemma StripQualified(lead: string, u: string, rest: string) returns (w: string)
    requires AllSpace(lead) && u != [] && !IsSpace(u[0])
    ensures Strip(lead + u + "(" + rest) == u + "(" + w
  {
    var a := u + "(";
    TrimLeftQualified(lead, u, rest);
    w := TrimRightKeepsHead(a, rest);
  }

  lemma TrimLeftQualified(lead: string, u: string, rest: string)
    requires AllSpace(lead) && u != [] && !IsSpace(u[0])
    ensures TrimLeft(lead + u + "(" + rest) == u + "(" + rest
  {
    var p := "(";
    var a := u + p;
    assert lead + u + p + rest == lead + (a + rest);
    assert a[0] == u[0];
    TrimLeftSpaces(lead, a + rest);
  }

  lemma TrimRightKeepsHead(a: string, rest: string) returns (w: string)
    requires a != [] && !IsSpace(a[|a| - 1])
    ensures TrimRight(a + rest) == a + w
  {
    var stripped := TrimRight(a + rest);
    StripKeepsHeadFront(a, rest);
    w := stripped[|a|..];
    assert stripped == a + w;
  }

  lemma LowerQualified(u: string, w: string, k: string)
    requires Lower(u) == k
    ensures Lower(u + "(" + w) == k + "(" + Lower(w)
  {
    var p := "(";
    assert Lower(p) == p;
    LowerConcat(u + p, w);
    LowerConcat(u, p);
  }

  lemma CutAtParen(k: string, x: string)
    requires IsTypeName(k)
    ensures '(' in k + "(" + x && Strip(Split(k + "(" + x, '(')[0]) == k
  {
    assert (k + "(" + x)[|k|] == '(';
    assert k + "(" + x == k + ("(" + x);
    SplitAfterPlain(k, "(" + x, '(');
    assert Split("(" + x, '(')[0] == "";
    assert k + "" == k;
    StripStripped(k);
  }

  /** The case from the comment in `sql_to_polars_dtype`: a length qualifier
      after the name (`varchar(255)`) is cut away, in any capitalisation. */
  lemma VarcharWithLengthTranslates(lead: string, rest: string)
    requires AllSpace(lead)
    ensures SqlToDType(lead + "VarChar" + "(" + rest) == Ok(String)
  {
    var u, k := "VarChar", "varchar";
    VarcharIsKey(u, k);
    QualifiedTypeNameTranslates(lead, u, rest, k);
  }

  lemma VarcharIsKey(u: string, k: string)
    requires u == "VarChar" && k == "varchar"
    ensures Lower(u) == k && k in SqlToPolarsDType && SqlToPolarsDType[k] == String
  {
  }

  /** Surrounding whitespace and capitals do not matter. */
  lemma PaddedTextTranslates(lead: string, trail: string)
    requires AllSpace(lead) && AllSpace(trail)
    ensures SqlToDType(lead + "Text" + trail) == Ok(String)
  {
    var u, k := "Text", "text";
    TextIsKey(u, k);
    PaddedTypeNameTranslates(lead, u, trail, k);
  }

  lemma TextIsKey(u: string, k: string)
    requires u == "Text" && k == "text"
    ensures Lower(u) == k && k in SqlToPolarsDType && SqlToPolarsDType[k] == String
  {
  }

  /** A type outside the table is refused, naming it. */
  lemma {:induction false} UnknownJsonbRejected(s: string)
    requires s == "jsonb"
    ensures SqlToDType(s) == Err(UnrecognizedSqlType("jsonb"))
  {
    assert IsStripped(s) && IsLower(s) && '(' !in s;
    NormaliseOfClean(s);
    JsonbIsNotAKey();
  }

  /** A stripped lower-case name without `(` is already normalised. */
  lemma NormaliseOfClean(s: string)
    requires IsStripped(s) && IsLower(s) && '(' !in s
    ensures NormaliseSqlType(s) == s
  {
    StripStripped(s);
    LowerOfLower(s);
  }

  lemma JsonbIsNotAKey()
    ensures "jsonb" !in SqlToPolarsDType
  {
  }

  lemma UpperLowerSpaces(u: string, k: string)
    requires Lower(u) == k && IsTypeName(k)
    ensures u != [] && !IsSpace(u[0]) && !IsSpace(u[|u| - 1])
  {
    assert u != [];
    if !('A' <= u[0] <= 'Z') {
      assert u[0] == k[0];
    }
    var n := |u| - 1;
    if !('A' <= u[n] <= 'Z') {
      assert u[n] == k[n];
    }
  }

  lemma {:induction false} TrimLeftSpaces(lead: string, s: string)
    requires AllSpace(lead)
    requires s != [] && !IsSpace(s[0])
    ensures TrimLeft(lead + s) == s
    decreases |lead|
  {
    if lead == [] {
      assert lead + s == s;
    } else {
      assert (lead + s)[1..] == lead[1..] + s;
      TrimLeftSpaces(lead[1..], s);
    }
  }

  lemma {:induction false} TrimRightOfPadding(s: string, trail: string)
    requires AllSpace(trail)
    requires s != [] && !IsSpace(s[|s| - 1])
    ensures TrimRight(s + trail) == s
    decreases |trail|
  {
    if trail == [] {
      assert s + trail == s;
    } else {
      var shorter := trail[..|trail| - 1];
      assert (s + trail)[..|s + trail| - 1] == s + shorter;
      TrimRightOfPadding(s, shorter);
    }
  }

  lemma StripKeepsHeadFront(a: string, rest: string)
    requires a != [] && !IsSpace(a[|a| - 1])
    ensures |TrimRight(a + rest)| >= |a| && TrimRight(a + rest)[..|a|] == a
  {
    var r := TrimRight(a + rest);
    assert (a + rest)[|a| - 1] == a[|a| - 1];
    TrimRightSpaces(a + rest);
    assert r == (a + rest)[..|r|];
  }

  /** The raised message names the offending normalised type (as `repr`
      shows it) and ends with every valid name, sorted and comma-joined. */
  lemma MessageNamesTypeAndOptions(e: SchemaError)
    ensures IsSubstring(Repr(e.sqlType), Message(e))
    ensures EndsWith(Message(e), Join(ValidOptions, ", "))
    ensures forall k :: k in SqlToPolarsDType ==> IsSubstring(k, Message(e))
  {
    ErrorTextParts(e.sqlType, ValidOptions);
    ValidOptionsAreSortedKeys();
    forall k | k in SqlToPolarsDType ensures IsSubstring(k, Message(e)) {
      var i :| 0 <= i < |ValidOptions| && ValidOptions[i] == k;
      assert IsSubstring(ValidOptions[i], ErrorText(e.sqlType, ValidOptions));
    }
  }

  lemma ErrorTextParts(sqlType: string, options: seq<string>)
    ensures IsSubstring(Repr(sqlType), ErrorText(sqlType, options))
    ensures EndsWith(ErrorText(sqlType, options), Join(options, ", "))
    ensures forall i :: 0 <= i < |options| ==> IsSubstring(options[i], ErrorText(sqlType, options))
  {
    assert OccursAt(Repr(sqlType), ErrorText(sqlType, options), |ErrorPrefix|);
    forall i | 0 <= i < |options| ensures IsSubstring(options[i], ErrorText(sqlType, options)) {
      ErrorTextListsOption(sqlType, options, i);
    }
  }

  lemma ErrorTextListsOption(sqlType: string, options: seq<string>, i: nat)
    requires i < |options|
    ensures IsSubstring(options[i], ErrorText(sqlType, options))
  {
    var pre := ErrorPrefix + Repr(sqlType) + OptionsLead;
    var opts := Join(options, ", ");
    assert ErrorText(sqlType, options) == pre + opts;
    JoinHoldsEach(options, ", ", i);
    SubstringOfSuffix(options[i], pre, opts);
  }

  lemma SubstringOfSuffix(t: string, pre: string, s: string)
    requires IsSubstring(t, s)
    ensures IsSubstring(t, pre + s)
  {
    var j :| 0 <= j <= |s| - |t| && OccursAt(t, s, j);
    assert (pre + s)[|pre| + j..|pre| + j + |t|] == s[j..j + |t|];
    assert OccursAt(t, pre + s, |pre| + j);
  }

  /** When the normalised name needs no escaping, the message holds it
      verbatim. */
  lemma MessageHoldsPlainName(e: SchemaError)
    requires forall i :: 0 <= i < |e.sqlType| ==> e.sqlType[i] !in {'\\', '\'', '\n', '\r', '\t'}
    ensures IsSubstring(e.sqlType, Message(e))
  {
    PlainNameInErrorText(e.sqlType, ValidOptions);
  }

  lemma PlainNameInErrorText(sqlType: string, options: seq<string>)
    requires forall i :: 0 <= i < |sqlType| ==> sqlType[i] !in {'\\', '\'', '\n', '\r', '\t'}
    ensures IsSubstring(sqlType, ErrorText(sqlType, options))
  {
    ReprPlain(sqlType);
    SubstringInQuotes(sqlType, ErrorPrefix, "'", OptionsLead, Join(options, ", "));
  }

  lemma SubstringInQuotes(t: string, a: string, q: string, b: string, c: string)
    ensures IsSubstring(t, a + (q + t + q) + b + c)
  {
    var m := a + (q + t + q) + b + c;
    assert m[|a| + |q|..|a| + |q| + |t|] == t;
    assert OccursAt(t, m, |a| + |q|);
  }

  lemma {:induction false} JoinHoldsEach(parts: seq<string>, sep: string, i: nat)
    requires i < |parts|
    ensures IsSubstring(parts[i], Join(parts, sep))
    decreases |parts|
  {
    if |parts| == 1 {
      assert OccursAt(parts[0], Join(parts, sep), 0);
    } else if i == 0 {
      assert OccursAt(parts[0], Join(parts, sep), 0);
    } else {
      JoinHoldsEach(parts[1..], sep, i - 1);
      var tail := Join(parts[1..], sep);
      var j :| 0 <= j <= |tail| - |parts[i]| && OccursAt(parts[i], tail, j);
      var pre := parts[0] + sep;
      assert Join(parts, sep) == pre + tail;
      assert OccursAt(parts[i], Join(parts, sep), |pre| + j) by {
        assert (pre + tail)[|pre| + j..|pre| + j + |parts[i]|] == tail[j..j + |parts[i]|];
      }
    }
  }
}
