/** The column bookkeeping of `scripts/table_to_deltalake.py`: the comma-separated
    configuration lists, the columns dropped on read, the position columns, the
    partition column and the bloom-filter writer properties. */
module Pipeline {
  import opened Wrappers
  import opened Seqs
  import opened PyText
  import opened SqlTypes
  import opened PolarsSchema

  /** `DROP_COLUMNS`: dropped from the table if present. */
  const DropColumns: seq<string> := ["created", "deleted", "superceded_id", "valid"]

  /** The suffix that marks an unpacked point column. */
  const PositionSuffix: string := "_pt_position"

  // ---------------------------------------------------------------------------
  // Configuration lists

  /** `[col.strip() for col in s.split(",") if col.strip()]`, the parsing of
      `ZORDER_COLUMNS` and `BLOOM_FILTER_COLUMNS`. */
  function ParseColumnList(s: string): (r: seq<string>)
    ensures forall i :: 0 <= i < |r| ==> IsColumnName(r[i])
  {
    KeptNamesAreClean(Split(s, ','));
    KeepStripped(Split(s, ','))
  }

  /** The stripped pieces that are not empty, in order. */
  function KeepStripped(pieces: seq<string>): (r: seq<string>)
    ensures |r| <= |pieces|
    ensures forall i :: 0 <= i < |r| ==> NonBlank(r[i])
    decreases |pieces|
  {
    if pieces == [] then []
    else
      var c := Strip(pieces[0]);
      var rest := KeepStripped(pieces[1..]);
      if c != [] then
        assert forall i :: 0 < i <= |rest| ==> ([c] + rest)[i] == rest[i - 1];
        [c] + rest
      else rest
  }

  /** A stripped piece the comprehension keeps. */
  predicate NonBlank(c: string) {
    c != [] && IsStripped(c)
  }

  /** `[c.strip() for c in pieces]`. */
  function StripEach(pieces: seq<string>): (r: seq<string>)
    ensures |r| == |pieces|
    ensures forall i :: 0 <= i < |r| ==> r[i] == Strip(pieces[i])
  {
    seq(|pieces|, i requires 0 <= i < |pieces| => Strip(pieces[i]))
  }

  /** The comprehension's `if c.strip()` test. */
  predicate NotEmpty(c: string) {
    c != []
  }

  /** Whatever whitespace pads the names, the parsed list is exactly the
      stripped pieces between the commas that are not empty, in their order. */
  lemma ParseIsStrippedPieces(s: string)
    ensures ParseColumnList(s) == Filter(StripEach(Split(s, ',')), NotEmpty)
  {
    KeepStrippedIsFilter(Split(s, ','));
  }

  lemma {:induction false} KeepStrippedIsFilter(pieces: seq<string>)
    ensures KeepStripped(pieces) == Filter(StripEach(pieces), NotEmpty)
    decreases |pieces|
  {
    if pieces != [] {
      KeepStrippedIsFilter(pieces[1..]);
      var all := StripEach(pieces);
      assert all[1..] == StripEach(pieces[1..]);
      assert all[0] == Strip(pieces[0]);
    }
  }

  /** A name as the parser can return it: not empty, no whitespace at either
      end, no comma. */
  predicate IsColumnName(c: string) {
    c != [] && IsStripped(c) && ',' !in c
  }

  /** Every parsed name is a clean column name. */
  lemma ParsedNamesAreClean(s: string)
    ensures forall i :: 0 <= i < |ParseColumnList(s)| ==> IsColumnName(ParseColumnList(s)[i])
  {
    KeptNamesAreClean(Split(s, ','));
  }

  lemma {:induction false} KeptNamesAreClean(pieces: seq<string>)
    requires forall k :: 0 <= k < |pieces| ==> ',' !in pieces[k]
    ensures forall i :: 0 <= i < |KeepStripped(pieces)| ==> IsColumnName(KeepStripped(pieces)[i])
    decreases |pieces|
  {
    if pieces != [] {
      KeptNamesAreClean(pieces[1..]);
      StripIsSlice(pieces[0]);
    }
  }

  /** Clean names joined with commas parse back to the same list, in the same
      order. */
  lemma ParseJoinRoundTrip(names: seq<string>)
    requires forall i :: 0 <= i < |names| ==> IsColumnName(names[i])
    ensures ParseColumnList(Join(names, ",")) == names
  {
    if names == [] {
      ParseEmpty();
    } else {
      SplitJoin(names, ',');
      KeepStrippedOfClean(names);
    }
  }

  lemma ParseEmpty()
    ensures ParseColumnList("") == []
  {
    assert Split("", ',') == [""];
    assert Strip("") == "";
  }

  lemma {:induction false} KeepStrippedOfClean(names: seq<string>)
    requires forall i :: 0 <= i < |names| ==> IsColumnName(names[i])
    ensures KeepStripped(names) == names
    decreases |names|
  {
    if names != [] {
      var head, tail := names[0], names[1..];
      assert IsColumnName(head);
      forall i | 0 <= i < |tail| ensures IsColumnName(tail[i]) {
        assert tail[i] == names[i + 1];
      }
      KeepStrippedOfClean(tail);
      KeepStrippedClean(names);
      assert names == [head] + tail;
    }
  }

  lemma KeepStrippedClean(names: seq<string>)
    requires names != [] && IsColumnName(names[0])
    ensures KeepStripped(names) == [names[0]] + KeepStripped(names[1..])
  {
    StripStripped(names[0]);
  }

  /** A setting holding only whitespace and commas yields no columns, and any
      other setting yields at least one. */
  lemma ParseEmptyIffBlank(s: string)
    ensures ParseColumnList(s) == [] <==> forall i :: 0 <= i < |s| ==> IsSpace(s[i]) || s[i] == ','
  {
    KeepStrippedEmpty(Split(s, ','));
    BlankPiecesIffBlank(s);
  }

  predicate AllBlank(pieces: seq<string>) {
    forall k :: 0 <= k < |pieces| ==> AllSpace(pieces[k])
  }

  lemma {:induction false} KeepStrippedEmpty(pieces: seq<string>)
    ensures KeepStripped(pieces) == [] <==> AllBlank(pieces)
    decreases |pieces|
  {
    if pieces != [] {
      KeepStrippedEmpty(pieces[1..]);
      StripEmptyIffAllSpace(pieces[0]);
      if AllBlank(pieces[1..]) && AllSpace(pieces[0]) {
        forall k | 0 <= k < |pieces| ensures AllSpace(pieces[k]) {
          if k > 0 {
            assert pieces[k] == pieces[1..][k - 1];
          }
        }
      }
    }
  }

  lemma {:induction false} BlankPiecesIffBlank(s: string)
    ensures AllBlank(Split(s, ',')) <==> forall i :: 0 <= i < |s| ==> IsSpace(s[i]) || s[i] == ','
    decreases |s|
  {
    if s != [] {
      var rest := Split(s[1..], ',');
      BlankPiecesIffBlank(s[1..]);
      var blankTail := forall i :: 0 <= i < |s[1..]| ==> IsSpace(s[1..][i]) || s[1..][i] == ',';
      var blank := forall i :: 0 <= i < |s| ==> IsSpace(s[i]) || s[i] == ',';
      assert blank <==> (IsSpace(s[0]) || s[0] == ',') && blankTail by {
        if blank {
          forall i | 0 <= i < |s[1..]| ensures IsSpace(s[1..][i]) || s[1..][i] == ',' {
            assert s[1..][i] == s[i + 1];
          }
        }
        if (IsSpace(s[0]) || s[0] == ',') && blankTail {
          forall i | 0 <= i < |s| ensures IsSpace(s[i]) || s[i] == ',' {
            if i > 0 {
              assert s[i] == s[1..][i - 1];
            }
          }
        }
      }
      if s[0] == ',' {
        BlankCons("", rest);
      } else {
        BlankCons([s[0]] + rest[0], rest[1..]);
        BlankCons(rest[0], rest[1..]);
        assert [rest[0]] + rest[1..] == rest;
        AllSpaceCons(s[0], rest[0]);
      }
    }
  }

  lemma BlankCons(p: string, ps: seq<string>)
    ensures AllBlank([p] + ps) <==> AllSpace(p) && AllBlank(ps)
  {
    if AllSpace(p) && AllBlank(ps) {
      forall k | 0 <= k < |[p] + ps| ensures AllSpace(([p] + ps)[k]) {
        if k > 0 {
          assert ([p] + ps)[k] == ps[k - 1];
        }
      }
    }
    if AllBlank([p] + ps) {
      assert AllSpace(([p] + ps)[0]);
      forall k | 0 <= k < |ps| ensures AllSpace(ps[k]) {
        assert ps[k] == ([p] + ps)[k + 1];
      }
    }
  }

  lemma AllSpaceCons(c: char, s: string)
    ensures AllSpace([c] + s) <==> IsSpace(c) && AllSpace(s)
  {
    if AllSpace([c] + s) {
      assert IsSpace(([c] + s)[0]);
      forall k | 0 <= k < |s| ensures IsSpace(s[k]) {
        assert s[k] == ([c] + s)[k + 1];
      }
    }
  }

  /** The default `BLOOM_FILTER_COLUMNS`, `"id"`, names the one column `id`. */
  lemma DefaultBloomColumns(s: string)
    requires s == "id"
    ensures ParseColumnList(s) == ["id"]
  {
    assert IsColumnName("id");
    ParseJoinRoundTrip(["id"]);
    assert Join(["id"], ",") == s;
  }

  /** The default `ZORDER_COLUMNS`, `"post_pt_root_id,id"`, names two columns. */
  lemma DefaultZOrderColumns(s: string)
    requires s == "post_pt_root_id,id"
    ensures ParseColumnList(s) == ["post_pt_root_id", "id"]
  {
    var a, b := "post_pt_root_id", "id";
    PostRootIdIsColumnName(a);
    assert IsColumnName(b);
    ParseJoinRoundTrip([a, b]);
    JoinPair(a, b, s);
  }

  lemma PostRootIdIsColumnName(a: string)
    requires a == "post_pt_root_id"
    ensures IsColumnName(a)
  {
  }

  lemma JoinPair(a: string, b: string, s: string)
    requires a == "post_pt_root_id" && b == "id" && s == "post_pt_root_id,id"
    ensures Join([a, b], ",") == s
  {
    JoinCons(a, [b], ",");
  }

  // ---------------------------------------------------------------------------
  // Columns of the read plan

  /** `.drop(drop, strict=False)`: the columns not named in `drop`, in their
      order, with their types; names in `drop` that are absent are ignored. */
  function DropFromSchema(s: Schema, drop: seq<string>): (r: Schema)
    ensures |r| <= |s|
    ensures forall i :: 0 <= i < |r| ==> r[i] in s && r[i].0 !in drop
  {
    Filter(s, (p: (string, DType)) => p.0 !in drop)
  }

  /** Dropping keeps exactly the names not in `drop`, in their order. */
  lemma {:induction false} DropNames(s: Schema, drop: seq<string>)
    ensures Names(DropFromSchema(s, drop)) == Filter(Names(s), (n: string) => n !in drop)
    decreases |s|
  {
    if s != [] {
      DropNames(s[1..], drop);
      DropNamesStep(s, drop, (p: (string, DType)) => p.0 !in drop, (n: string) => n !in drop);
    }
  }

  lemma DropNamesStep(s: Schema, drop: seq<string>, keep: ((string, DType)) -> bool, keepName: string -> bool)
    requires s != []
    requires forall p :: keep(p) == (p.0 !in drop)
    requires forall n :: keepName(n) == (n !in drop)
    requires Names(Filter(s[1..], keep)) == Filter(Names(s[1..]), keepName)
    ensures Names(Filter(s, keep)) == Filter(Names(s), keepName)
  {
    var ns := Names(s);
    assert ns[1..] == Names(s[1..]);
    if keep(s[0]) {
      assert Filter(s, keep) == [s[0]] + Filter(s[1..], keep);
      assert Names([s[0]] + Filter(s[1..], keep)) == [s[0].0] + Names(Filter(s[1..], keep));
    }
  }

  /** A dropped name is gone; every other name keeps its type. */
  lemma {:induction false} DropGet(s: Schema, drop: seq<string>, name: string)
    ensures Get(DropFromSchema(s, drop), name) == if name in drop then None else Get(s, name)
    decreases |s|
  {
    if s != [] {
      DropGet(s[1..], drop, name);
      assert s == [s[0]] + s[1..];
    }
  }

  /** The columns whose name ends in `_pt_position`, in order. */
  function PositionColumns(columns: seq<string>): (r: seq<string>)
    ensures forall i :: 0 <= i < |r| ==> r[i] in columns && EndsWith(r[i], PositionSuffix)
  {
    Filter(columns, (c: string) => EndsWith(c, PositionSuffix))
  }

  /** The position columns are exactly the columns ending in `_pt_position`. */
  lemma PositionColumnsSpec(columns: seq<string>)
    ensures forall c :: c in PositionColumns(columns) <==> c in columns && EndsWith(c, PositionSuffix)
  {
    FilterMembers(columns, (c: string) => EndsWith(c, PositionSuffix));
  }

  /** `with_columns(pl.col(cols).map_elements(..., return_dtype=t))`: the listed
      columns take type `t` in place. */
  function Retype(s: Schema, cols: seq<string>, t: DType): (r: Schema)
    ensures |r| == |s|
    ensures forall i :: 0 <= i < |s| ==> r[i].0 == s[i].0 && (s[i].0 !in cols ==> r[i].1 == s[i].1)
    ensures forall i :: 0 <= i < |s| && s[i].0 in cols ==> r[i].1 == t
    decreases |s|
  {
    if s == [] then []
    else [(s[0].0, if s[0].0 in cols then t else s[0].1)] + Retype(s[1..], cols, t)
  }

  lemma {:induction false} RetypeNames(s: Schema, cols: seq<string>, t: DType)
    ensures Names(Retype(s, cols, t)) == Names(s)
    decreases |s|
  {
    if s != [] {
      RetypeNames(s[1..], cols, t);
    }
  }

  lemma {:induction false} RetypeGet(s: Schema, cols: seq<string>, t: DType, name: string)
    ensures Get(Retype(s, cols, t), name) ==
      if name in cols && name in Names(s) then Some(t) else Get(s, name)
    decreases |s|
  {
    if s != [] {
      RetypeGet(s[1..], cols, t, name);
    }
  }

  /** `partition_by = f"{partition_column}_partition"`. */
  function PartitionColumnName(col: string): (r: string)
    ensures |r| == |col| + |"_partition"| && r[..|col|] == col
    ensures EndsWith(r, "_partition")
  {
    col + "_partition"
  }

  /** Different partition columns give different partition names. */
  lemma PartitionColumnNameInjective(a: string, b: string)
    ensures PartitionColumnName(a) == PartitionColumnName(b) <==> a == b
  {
    if PartitionColumnName(a) == PartitionColumnName(b) {
      assert a == PartitionColumnName(a)[..|a|];
    }
  }

  /** The default partition column gives the column name the synapse query
      reads. */
  lemma DefaultPartitionColumnName(col: string)
    requires col == "post_pt_root_id"
    ensures PartitionColumnName(col) == "post_pt_root_id_partition"
  {
  }

  datatype PlanError = ColumnNotFound(name: string)

  /** The columns and types written to Delta Lake: the header schema without
      `DROP_COLUMNS`, the position columns as lists of `Int32`, and the
      partition column `<col>_partition` of type `UInt16`, added at the end or
      replaced in place. Naming a partition column the plan does not have
      fails when the plan is collected. */
  function PlanSchema(header: Schema, partitionColumn: string): (r: Result<Schema, PlanError>)
    ensures r.Err? ==> r.error == ColumnNotFound(partitionColumn)
    ensures r.Ok? ==> PartitionColumnName(partitionColumn) in Names(r.value) && Get(r.value, PartitionColumnName(partitionColumn)) == Some(UInt16)
  {
    var dropped := DropFromSchema(header, DropColumns);
    var positions := PositionColumns(Names(dropped));
    var decoded := Retype(dropped, positions, List(Int32));
    if partitionColumn !in Names(decoded) then Err(ColumnNotFound(partitionColumn))
    else
      PutGet(decoded, PartitionColumnName(partitionColumn), UInt16, PartitionColumnName(partitionColumn));
      Ok(Put(decoded, PartitionColumnName(partitionColumn), UInt16))
  }

  /** The plan fails exactly when the partition column is absent from the
      header or is one of `DROP_COLUMNS`. */
  lemma PlanFailsIff(header: Schema, partitionColumn: string)
    ensures PlanSchema(header, partitionColumn).Err? <==>
      partitionColumn !in Names(header) || partitionColumn in DropColumns
  {
    var dropped := DropFromSchema(header, DropColumns);
    DropNames(header, DropColumns);
    FilterMembers(Names(header), (n: string) => n !in DropColumns);
    RetypeNames(dropped, PositionColumns(Names(dropped)), List(Int32));
  }

  /** In a successful plan, the partition column is `UInt16`, each kept
      position column is a list of `Int32`, every other kept column has its
      header type, and dropped columns are gone. */
  lemma PlanTypes(header: Schema, partitionColumn: string, name: string)
    requires PlanSchema(header, partitionColumn).Ok?
    ensures Get(PlanSchema(header, partitionColumn).value, name) ==
      if name == PartitionColumnName(partitionColumn) then Some(UInt16)
      else if name in DropColumns then None
      else if EndsWith(name, PositionSuffix) && name in Names(header) then Some(List(Int32))
      else Get(header, name)
  {
    var dropped := DropFromSchema(header, DropColumns);
    var positions := PositionColumns(Names(dropped));
    var decoded := Retype(dropped, positions, List(Int32));
    PutGet(decoded, PartitionColumnName(partitionColumn), UInt16, name);
    RetypeGet(dropped, positions, List(Int32), name);
    DropGet(header, DropColumns, name);
    PositionColumnsSpec(Names(dropped));
    DropNames(header, DropColumns);
    FilterMembers(Names(header), (n: string) => n !in DropColumns);
  }

  /** The planned column order: the header's kept columns in their order, then
      the partition column unless the header already had that name. */
  lemma PlanNames(header: Schema, partitionColumn: string)
    requires PlanSchema(header, partitionColumn).Ok?
    ensures
      var kept := Filter(Names(header), (n: string) => n !in DropColumns);
      var p := PartitionColumnName(partitionColumn);
      Names(PlanSchema(header, partitionColumn).value) == if p in kept then kept else kept + [p]
  {
    var dropped := DropFromSchema(header, DropColumns);
    var decoded := Retype(dropped, PositionColumns(Names(dropped)), List(Int32));
    DropNames(header, DropColumns);
    RetypeNames(dropped, PositionColumns(Names(dropped)), List(Int32));
    PutNames(decoded, PartitionColumnName(partitionColumn), UInt16);
  }

  // ---------------------------------------------------------------------------
  // Writer properties for the optimisation step

  datatype BloomFilterProperties = BloomFilterProperties(setBloomFilterEnabled: bool, fpp: real)

  datatype ColumnProperties = ColumnProperties(bloomFilterProperties: BloomFilterProperties)

  datatype WriterProperties = WriterProperties(columnProperties: map<string, ColumnProperties>)

  /** The `writer_properties` handed to `z_order`: `None` when there are no
      bloom-filter columns, otherwise one enabled bloom filter with false
      positive probability `fpp` for each listed column. */
  function BloomWriterProperties(bloomColumns: seq<string>, fpp: real): (r: Option<WriterProperties>)
    ensures r.None? <==> bloomColumns == []
    ensures r.Some? ==> forall c :: c in bloomColumns <==> c in r.value.columnProperties
  {
    if |bloomColumns| > 0 then
      var props := ColumnProperties(BloomFilterProperties(true, fpp));
      Some(WriterProperties(map c | c in bloomColumns :: props))
    else None
  }

  /** No writer properties exactly when the column list is empty; otherwise the
      keys are the listed columns and each carries the same enabled filter. */
  lemma BloomWriterPropertiesSpec(bloomColumns: seq<string>, fpp: real)
    ensures BloomWriterProperties(bloomColumns, fpp).None? <==> bloomColumns == []
    ensures BloomWriterProperties(bloomColumns, fpp).Some? ==>
      var m := BloomWriterProperties(bloomColumns, fpp).value.columnProperties;
      && m.Keys == set c | c in bloomColumns
      && forall c :: c in m ==> m[c] == ColumnProperties(BloomFilterProperties(true, fpp))
  {
  }

  /** From the raw setting: no writer properties exactly when the setting is
      empty or holds only whitespace and commas, and otherwise a filter on each
      parsed column. */
  lemma BloomFromSetting(setting: string, fpp: real)
    ensures BloomWriterProperties(ParseColumnList(setting), fpp).None? <==>
      forall i :: 0 <= i < |setting| ==> IsSpace(setting[i]) || setting[i] == ','
    ensures forall c :: c in ParseColumnList(setting) ==>
      BloomWriterProperties(ParseColumnList(setting), fpp).Some? &&
      c in BloomWriterProperties(ParseColumnList(setting), fpp).value.columnProperties
  {
    ParseEmptyIffBlank(setting);
  }
}
